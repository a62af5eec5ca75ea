/** What Prim's construction over the distinct colours of an image keeps
    true and delivers, and the lemmas that carry it from step to step. */
module PrimSpec {
  import opened Pixels

  /** The result of the construction (class MST): total weight, the tree
      records in the order they were settled, the parent of every colour and
      the indexed colour list. */
  datatype Mst = Mst(weight: nat, tree: seq<Node>, parent: seq<int>, indexColor: seq<Color>)

  /** Sum of the weights of a list of tree records. */
  function TreeWeight(tree: seq<Node>): nat
  {
    if tree == [] then 0 else TreeWeight(tree[..|tree| - 1]) + tree[|tree| - 1].weight
  }

  /** The colour each tree record attaches, in settling order. */
  function Targets(tree: seq<Node>): (t: seq<int>)
    ensures |t| == |tree|
    ensures forall a :: 0 <= a < |tree| ==> t[a] == tree[a].to
  {
    seq(|tree|, a requires 0 <= a < |tree| => tree[a].to)
  }

  /** Sum of a sequence of weights. */
  function Sum(s: seq<nat>): nat
  {
    if s == [] then 0 else Sum(s[..|s| - 1]) + s[|s| - 1]
  }

  /** Sum of the weights whose flag is set. */
  ghost function SumWhere(s: seq<nat>, b: seq<bool>): nat
    requires |s| == |b|
  {
    if s == [] then 0
    else SumWhere(s[..|s| - 1], b[..|b| - 1]) + (if b[|b| - 1] then s[|s| - 1] else 0)
  }

  /** Number of flags set. */
  ghost function CountTrue(b: seq<bool>): (n: nat)
    ensures n <= |b|
  {
    if b == [] then 0 else CountTrue(b[..|b| - 1]) + (if b[|b| - 1] then 1 else 0)
  }

  lemma {:induction false} CountMark(b: seq<bool>, i: nat)
    requires i < |b| && !b[i]
    ensures CountTrue(b[i := true]) == CountTrue(b) + 1
  {
    var n := |b| - 1;
    if i < n {
      assert b[i := true][..n] == b[..n][i := true];
      CountMark(b[..n], i);
    } else {
      assert b[i := true][..n] == b[..n];
    }
  }

  lemma {:induction false} CountAll(b: seq<bool>)
    requires forall i :: 0 <= i < |b| ==> b[i]
    ensures CountTrue(b) == |b|
  {
    if b != [] {
      CountAll(b[..|b| - 1]);
    }
  }

  /** With no flag set, nothing is counted and nothing is summed. */
  lemma {:induction false} NoneFlagged(s: seq<nat>, b: seq<bool>)
    requires |s| == |b| && forall i :: 0 <= i < |b| ==> !b[i]
    ensures CountTrue(b) == 0 && SumWhere(s, b) == 0
  {
    if s != [] {
      NoneFlagged(s[..|s| - 1], b[..|b| - 1]);
    }
  }

  /** Changing the weight of an unflagged position leaves the flagged sum. */
  lemma {:induction false} SumWhereUnflagged(s: seq<nat>, b: seq<bool>, i: nat, v: nat)
    requires |s| == |b| && i < |s| && !b[i]
    ensures SumWhere(s[i := v], b) == SumWhere(s, b)
  {
    var n := |s| - 1;
    if i < n {
      assert s[i := v][..n] == s[..n][i := v];
      SumWhereUnflagged(s[..n], b[..n], i, v);
    } else {
      assert s[i := v][..n] == s[..n];
    }
  }

  /** Flagging a position adds its weight to the flagged sum. */
  lemma {:induction false} SumWhereFlag(s: seq<nat>, b: seq<bool>, i: nat)
    requires |s| == |b| && i < |s| && !b[i]
    ensures SumWhere(s, b[i := true]) == SumWhere(s, b) + s[i]
  {
    var n := |s| - 1;
    if i < n {
      assert b[i := true][..n] == b[..n][i := true];
      SumWhereFlag(s[..n], b[..n], i);
    } else {
      assert b[i := true][..n] == b[..n];
    }
  }

  /** With every flag set, the flagged sum is the whole sum. */
  lemma {:induction false} SumWhereAll(s: seq<nat>, b: seq<bool>)
    requires |s| == |b| && forall i :: 0 <= i < |b| ==> b[i]
    ensures SumWhere(s, b) == Sum(s)
  {
    if s != [] {
      SumWhereAll(s[..|s| - 1], b[..|b| - 1]);
    }
  }

  lemma TreeWeightSnoc(tree: seq<Node>, node: Node)
    ensures TreeWeight(tree + [node]) == TreeWeight(tree) + node.weight
  {
    assert (tree + [node])[..|tree|] == tree;
  }

  /** The weight of the edge between colours x and y of the list. */
  ghost function EdgeWeight(colors: seq<RGBPixel>, x: int, y: int): nat
    requires 0 <= x < |colors| && 0 <= y < |colors|
  {
    SquaredDistance(colors[x], colors[y])
  }

  /** A list that contains each of 0 .. n-1 has at least n elements. */
  lemma {:induction false} CoverLength(s: seq<int>, n: nat)
    requires forall j :: 0 <= j < n ==> j in s
    ensures |s| >= n
  {
    if n > 0 {
      assert n - 1 in s;
      var i :| 0 <= i < |s| && s[i] == n - 1;
      var rest := s[..i] + s[i + 1..];
      forall j | 0 <= j < n - 1
        ensures j in rest
      {
        assert j in s;
          var m :| 0 <= m < |s| && s[m] == j;
        if m < i {
          assert rest[m] == j;
        } else {
          assert rest[m - 1] == j;
        }
      }
      CoverLength(rest, n - 1);
    }
  }

  /** A list of n elements that contains each of 0 .. n-1 repeats none. */
  lemma CoverNoDuplicates(s: seq<int>, n: nat)
    requires |s| == n && forall j :: 0 <= j < n ==> j in s
    ensures NoDuplicates(s)
  {
    forall a, b | 0 <= a < b < |s|
      ensures s[a] != s[b]
    {
      if s[a] == s[b] {
        var rest := s[..b] + s[b + 1..];
        forall j | 0 <= j < n
          ensures j in rest
        {
          assert j in s;
          var m :| 0 <= m < |s| && s[m] == j;
          if m < b {
            assert rest[m] == j;
          } else if m == b {
            assert rest[a] == j;
          } else {
            assert rest[m - 1] == j;
          }
        }
        CoverLength(rest, n);
      }
    }
  }

  /** The arrays of the construction agree in length with the colour list. */
  ghost predicate Shapes(k: seq<bool>, d: seq<nat>, p: seq<int>, colors: seq<RGBPixel>)
  {
    |k| == |colors| && |d| == |colors| && |p| == |colors|
  }

  /** `order` lists the settled colours; a colour is settled exactly when it
      is flagged. */
  ghost predicate Settled(order: seq<int>, k: seq<bool>, colors: seq<RGBPixel>)
    requires |k| == |colors|
  {
    && (forall a :: 0 <= a < |order| ==> 0 <= order[a] < |colors|)
    && (forall j :: 0 <= j < |colors| ==> (k[j] <==> j in order))
  }

  /** Record a settled colour order[a]; the arrays hold its weight and parent. */
  ghost predicate Recorded(tree: seq<Node>, order: seq<int>, d: seq<nat>, p: seq<int>)
    requires |tree| == |order| && |d| == |p|
    requires forall a :: 0 <= a < |order| ==> 0 <= order[a] < |d|
  {
    && (|order| > 0 ==> tree[0] == Sentinel)
    && (forall a {:trigger tree[a]} :: 0 <= a < |tree| ==>
          tree[a].to == order[a] && tree[a].weight == d[order[a]] && tree[a].index == p[order[a]])
  }

  /** Each record after the first is the edge from an earlier settled colour. */
  ghost predicate Edges(tree: seq<Node>, order: seq<int>, colors: seq<RGBPixel>)
    requires |tree| == |order|
    requires forall a :: 0 <= a < |order| ==> 0 <= order[a] < |colors|
  {
    forall a {:trigger tree[a]} :: 1 <= a < |tree| ==>
      && tree[a].index in order[..a]
      && 0 <= tree[a].index < |colors|
      && tree[a].weight == SquaredDistance(colors[tree[a].index], colors[order[a]])
  }

  /** Each record after the first weighs no more than any edge from a colour
      settled before it to a colour not settled before it. */
  ghost predicate Greedy(tree: seq<Node>, order: seq<int>, colors: seq<RGBPixel>)
    requires |tree| == |order|
    requires forall a :: 0 <= a < |order| ==> 0 <= order[a] < |colors|
  {
    forall a, b, y {:trigger tree[a], EdgeWeight(colors, order[b], y)} ::
      1 <= a < |tree| && 0 <= b < a && 0 <= y < |colors| && y !in order[..a] ==>
      tree[a].weight <= EdgeWeight(colors, order[b], y)
  }

  /** The settled part of the construction. */
  ghost predicate Explored(tree: seq<Node>, order: seq<int>, k: seq<bool>, d: seq<nat>, p: seq<int>, colors: seq<RGBPixel>)
    requires Shapes(k, d, p, colors)
  {
    && |tree| == |order|
    && Settled(order, k, colors)
    && Recorded(tree, order, d, p)
    && Edges(tree, order, colors)
    && Greedy(tree, order, colors)
  }

  /** The heap contents: before anything is settled it is the sentinel alone;
      afterwards every record is an edge from a settled colour; a record of an
      unsettled colour is never lighter than its tentative distance and, when
      equal, names its tentative parent; and every unsettled colour reached so
      far has its current record in the heap. */
  ghost predicate Frontier(hm: multiset<Node>, k: seq<bool>, d: seq<nat>, p: seq<int>, order: seq<int>, colors: seq<RGBPixel>)
    requires Shapes(k, d, p, colors)
  {
    && (|order| == 0 ==> hm == multiset{Sentinel})
    && (forall r :: r in hm ==> 0 <= r.to < |colors|)
    && (|order| > 0 ==> forall r :: r in hm ==>
          0 <= r.index < |colors| && k[r.index] &&
          r.weight == SquaredDistance(colors[r.index], colors[r.to]))
    && (forall r :: r in hm && !k[r.to] ==>
          d[r.to] <= r.weight && (r.weight == d[r.to] ==> r.index == p[r.to]))
    && (forall j :: 0 <= j < |colors| && !k[j] && d[j] < Unreached ==> Node(p[j], j, d[j]) in hm)
  }

  /** The tentative distance of every unsettled colour is at most its distance
      to each of the first n settled colours. */
  ghost predicate Bounded(k: seq<bool>, d: seq<nat>, order: seq<int>, colors: seq<RGBPixel>, n: int)
    requires |k| == |colors| && |d| == |colors|
  {
    forall j, a {:trigger EdgeWeight(colors, order[a], j)} ::
      0 <= j < |colors| && !k[j] && 0 <= a < n && a < |order| && 0 <= order[a] < |colors| ==>
      d[j] <= EdgeWeight(colors, order[a], j)
  }

  /** The first n colours, where unsettled, are no farther than their distance
      to colour x. */
  ghost predicate Relaxed(k: seq<bool>, d: seq<nat>, x: int, colors: seq<RGBPixel>, n: int)
    requires |k| == |colors| && |d| == |colors| && 0 <= x < |colors|
  {
    forall j {:trigger EdgeWeight(colors, x, j)} ::
      0 <= j < n && j < |colors| && !k[j] ==> d[j] <= EdgeWeight(colors, x, j)
  }

  /** Before anything is settled only colour 0 has been reached. */
  lemma OnlyRootReached(hm: multiset<Node>, k: seq<bool>, d: seq<nat>, p: seq<int>, order: seq<int>, colors: seq<RGBPixel>, j: int)
    requires Shapes(k, d, p, colors) && Frontier(hm, k, d, p, order, colors)
    requires |order| == 0 && 0 <= j < |colors| && !k[j] && j != 0
    ensures d[j] >= Unreached
  {
  }

  /** A lightest record whose target is unsettled carries the tentative
      distance and parent of its target, and no unsettled colour is closer. */
  lemma LightestRecord(hm: multiset<Node>, k: seq<bool>, d: seq<nat>, p: seq<int>, order: seq<int>, colors: seq<RGBPixel>, node: Node)
    requires Shapes(k, d, p, colors) && Frontier(hm, k, d, p, order, colors)
    requires node in hm && (forall r :: r in hm ==> node.weight <= r.weight)
    requires 0 <= node.to < |colors| && !k[node.to]
    ensures node.weight == d[node.to] && node.index == p[node.to]
    ensures forall y :: 0 <= y < |colors| && !k[y] ==> node.weight <= d[y]
  {
    var x := node.to;
    assert node.weight < Unreached;
    assert Node(p[x], x, d[x]) in hm;
    forall y | 0 <= y < |colors| && !k[y]
      ensures node.weight <= d[y]
    {
      if d[y] < Unreached {
        assert Node(p[y], y, d[y]) in hm;
      }
    }
  }

  lemma FreshSettled(order: seq<int>, k: seq<bool>, colors: seq<RGBPixel>, x: int)
    requires |k| == |colors| && Settled(order, k, colors)
    requires 0 <= x < |colors| && !k[x]
    ensures Settled(order + [x], k[x := true], colors)
  {
  }

  lemma FreshRecorded(tree: seq<Node>, order: seq<int>, d: seq<nat>, p: seq<int>, node: Node)
    requires |tree| == |order| && |d| == |p|
    requires forall a :: 0 <= a < |order| ==> 0 <= order[a] < |d|
    requires Recorded(tree, order, d, p)
    requires 0 <= node.to < |d| && node.weight == d[node.to] && node.index == p[node.to]
    requires |order| == 0 ==> node == Sentinel
    ensures Recorded(tree + [node], order + [node.to], d, p)
  {
  }

  lemma FreshEdges(tree: seq<Node>, order: seq<int>, colors: seq<RGBPixel>, node: Node)
    requires |tree| == |order|
    requires forall a :: 0 <= a < |order| ==> 0 <= order[a] < |colors|
    requires Edges(tree, order, colors)
    requires 0 <= node.to < |colors|
    requires |order| > 0 ==> (node.index in order && 0 <= node.index < |colors| &&
      node.weight == SquaredDistance(colors[node.index], colors[node.to]))
    ensures Edges(tree + [node], order + [node.to], colors)
  {
    var order', tree' := order + [node.to], tree + [node];
    forall a | 1 <= a < |tree'|
      ensures tree'[a].index in order'[..a]
    {
      if a < |tree| {
        assert order'[..a] == order[..a];
      } else {
        assert order'[..a] == order;
      }
    }
  }

  lemma FreshGreedy(tree: seq<Node>, order: seq<int>, k: seq<bool>, d: seq<nat>, colors: seq<RGBPixel>, node: Node)
    requires |tree| == |order| && |k| == |colors| && |d| == |colors|
    requires Settled(order, k, colors) && Greedy(tree, order, colors)
    requires Bounded(k, d, order, colors, |order|)
    requires 0 <= node.to < |colors|
    requires forall y :: 0 <= y < |colors| && !k[y] ==> node.weight <= d[y]
    ensures Greedy(tree + [node], order + [node.to], colors)
  {
    var order', tree' := order + [node.to], tree + [node];
    forall a, b, y | 1 <= a < |tree'| && 0 <= b < a && 0 <= y < |colors| && y !in order'[..a]
      ensures tree'[a].weight <= EdgeWeight(colors, order'[b], y)
    {
      if a < |tree| {
        assert order'[..a] == order[..a];
        assert tree'[a] == tree[a] && order'[b] == order[b];
      } else {
        assert order'[..a] == order;
        assert !k[y];
      }
    }
  }

  /** Removing the lightest record and settling its target keeps the heap
      description. */
  lemma FreshFrontier(hm: multiset<Node>, order: seq<int>, k: seq<bool>, d: seq<nat>, p: seq<int>, colors: seq<RGBPixel>, node: Node)
    requires Shapes(k, d, p, colors) && Frontier(hm, k, d, p, order, colors)
    requires node in hm && 0 <= node.to < |colors| && !k[node.to]
    requires |order| == 0 ==> node == Sentinel
    ensures Frontier(hm - multiset{node}, k[node.to := true], d, p, order + [node.to], colors)
  {
    var x := node.to;
    var k', order', hm' := k[x := true], order + [x], hm - multiset{node};
    if |order| == 0 {
      assert hm' == multiset{};
      forall j | 0 <= j < |colors| && !k'[j]
        ensures d[j] >= Unreached
      {
        OnlyRootReached(hm, k, d, p, order, colors, j);
      }
    } else {
      forall j | 0 <= j < |colors| && !k'[j] && d[j] < Unreached
        ensures Node(p[j], j, d[j]) in hm'
      {
        assert Node(p[j], j, d[j]) in hm;
      }
    }
  }

  /** Settling a colour keeps the distance bounds for the colours settled
      before it. */
  lemma FreshBounded(order: seq<int>, k: seq<bool>, d: seq<nat>, colors: seq<RGBPixel>, x: int)
    requires |k| == |colors| && |d| == |colors| && 0 <= x < |colors|
    requires Bounded(k, d, order, colors, |order|)
    ensures Bounded(k[x := true], d, order + [x], colors, |order|)
  {
    forall j, a | 0 <= j < |colors| && !k[x := true][j] && 0 <= a < |order| && 0 <= order[a] < |colors|
      ensures d[j] <= EdgeWeight(colors, (order + [x])[a], j)
    {
      assert (order + [x])[a] == order[a];
    }
  }

  /** Lowering the tentative distance and parent of an unsettled colour
      leaves the settled part alone. */
  lemma RelaxExplored(tree: seq<Node>, order: seq<int>, k: seq<bool>, d: seq<nat>, p: seq<int>, colors: seq<RGBPixel>, i: int, v: nat, x: int)
    requires Shapes(k, d, p, colors) && Explored(tree, order, k, d, p, colors)
    requires 0 <= i < |colors| && !k[i]
    ensures Explored(tree, order, k, d[i := v], p[i := x], colors)
  {
    forall a | 0 <= a < |tree|
      ensures order[a] != i
    {
      assert k[order[a]];
    }
  }

  /** Relaxing colour i through the settled colour x: the new record joins the
      heap and becomes the current record of i. */
  lemma RelaxFrontier(hm: multiset<Node>, order: seq<int>, k: seq<bool>, d: seq<nat>, p: seq<int>, colors: seq<RGBPixel>, x: int, i: int)
    requires Shapes(k, d, p, colors) && Frontier(hm, k, d, p, order, colors)
    requires |order| > 0 && 0 <= x < |colors| && k[x] && 0 <= i < |colors| && !k[i]
    requires SquaredDistance(colors[x], colors[i]) < d[i]
    ensures var w := SquaredDistance(colors[x], colors[i]);
      Frontier(hm + multiset{Node(x, i, w)}, k, d[i := w], p[i := x], order, colors)
  {
    var w := SquaredDistance(colors[x], colors[i]);
    var hm', d', p' := hm + multiset{Node(x, i, w)}, d[i := w], p[i := x];
    forall r | r in hm' && !k[r.to]
      ensures d'[r.to] <= r.weight && (r.weight == d'[r.to] ==> r.index == p'[r.to])
    {
      if r != Node(x, i, w) && r.to == i {
        assert d[i] <= r.weight;
      }
    }
  }

  /** Lowering a tentative distance keeps every upper bound. */
  lemma RelaxBounded(k: seq<bool>, d: seq<nat>, order: seq<int>, colors: seq<RGBPixel>, n: int, i: int, v: nat)
    requires |k| == |colors| && |d| == |colors| && 0 <= i < |colors| && v <= d[i]
    requires Bounded(k, d, order, colors, n)
    ensures Bounded(k, d[i := v], order, colors, n)
  {
  }

  /** Once every colour has been relaxed through the newest settled colour,
      the bounds cover all settled colours. */
  lemma RelaxDone(k: seq<bool>, d: seq<nat>, order: seq<int>, colors: seq<RGBPixel>)
    requires |k| == |colors| && |d| == |colors| && |order| > 0 && 0 <= order[|order| - 1] < |colors|
    requires Bounded(k, d, order, colors, |order| - 1)
    requires Relaxed(k, d, order[|order| - 1], colors, |colors|)
    ensures Bounded(k, d, order, colors, |order|)
  {
  }

  /** Once something is settled, every unsettled colour has a record in the
      heap. */
  lemma Reachable(hm: multiset<Node>, order: seq<int>, k: seq<bool>, d: seq<nat>, p: seq<int>, colors: seq<RGBPixel>, j: int)
    requires Shapes(k, d, p, colors) && Settled(order, k, colors) && Frontier(hm, k, d, p, order, colors)
    requires Bounded(k, d, order, colors, |order|)
    requires |order| > 0 && 0 <= j < |colors| && !k[j]
    ensures Node(p[j], j, d[j]) in hm
  {
    assert d[j] <= EdgeWeight(colors, order[0], j);
  }

  /** When the heap runs empty every colour is settled. */
  lemma AllReached(hm: multiset<Node>, order: seq<int>, k: seq<bool>, d: seq<nat>, p: seq<int>, colors: seq<RGBPixel>)
    requires Shapes(k, d, p, colors) && Settled(order, k, colors) && Frontier(hm, k, d, p, order, colors)
    requires Bounded(k, d, order, colors, |order|)
    requires hm == multiset{}
    ensures |order| > 0
    ensures forall j :: 0 <= j < |colors| ==> k[j]
  {
    assert |order| > 0 by {
      assert |order| == 0 ==> Sentinel in hm;
    }
    forall j | 0 <= j < |colors|
      ensures k[j]
    {
      if !k[j] {
        Reachable(hm, order, k, d, p, colors, j);
      }
    }
  }

  /** Dropping a record whose target is already settled keeps the heap
      description. */
  lemma StaleExtract(hm: multiset<Node>, order: seq<int>, k: seq<bool>, d: seq<nat>, p: seq<int>, colors: seq<RGBPixel>, node: Node)
    requires Shapes(k, d, p, colors) && Settled(order, k, colors) && Frontier(hm, k, d, p, order, colors)
    requires node in hm && 0 <= node.to < |colors| && k[node.to]
    ensures Frontier(hm - multiset{node}, k, d, p, order, colors)
  {
    assert node.to in order;
    forall j | 0 <= j < |colors| && !k[j] && d[j] < Unreached
      ensures Node(p[j], j, d[j]) in hm - multiset{node}
    {
      assert Node(p[j], j, d[j]) in hm;
    }
  }

  /** Everything the construction keeps between two heap extractions: the
      settled part, the heap description, the distance bounds through the
      first n settled colours, the settled count and the weight so far. */
  ghost predicate Progress(hm: multiset<Node>, tree: seq<Node>, order: seq<int>, k: seq<bool>, d: seq<nat>, p: seq<int>, colors: seq<RGBPixel>, n: int)
  {
    && Shapes(k, d, p, colors)
    && Explored(tree, order, k, d, p, colors)
    && Frontier(hm, k, d, p, order, colors)
    && Bounded(k, d, order, colors, n)
    && |order| == CountTrue(k)
    && TreeWeight(tree) == SumWhere(d, k)
  }

  /** The state right after the root record is pushed: nothing settled, only
      colour 0 reached. */
  lemma Start(k: seq<bool>, d: seq<nat>, p: seq<int>, colors: seq<RGBPixel>)
    requires |colors| > 0 && Shapes(k, d, p, colors)
    requires forall j :: 0 <= j < |colors| ==> !k[j]
    requires d[0] == 0 && p[0] == -1
    requires forall j :: 1 <= j < |colors| ==> d[j] == Unreached
    ensures Progress(multiset{Sentinel}, [], [], k, d, p, colors, 0)
  {
    NoneFlagged(d, k);
  }

  /** Extracting a lightest record: a record of a settled colour is dropped;
      otherwise its colour is settled with that record, which then bounds the
      colours settled before it. */
  lemma Extract(hm: multiset<Node>, tree: seq<Node>, order: seq<int>, k: seq<bool>, d: seq<nat>, p: seq<int>, colors: seq<RGBPixel>, node: Node)
    requires Progress(hm, tree, order, k, d, p, colors, |order|)
    requires node in hm && forall r :: r in hm ==> node.weight <= r.weight
    ensures 0 <= node.to < |colors|
    ensures k[node.to] ==> Progress(hm - multiset{node}, tree, order, k, d, p, colors, |order|)
    ensures !k[node.to] ==>
      && |order| < |colors|
      && Progress(hm - multiset{node}, tree + [node], order + [node.to], k[node.to := true], d, p, colors, |order|)
  {
    var x := node.to;
    if k[x] {
      StaleExtract(hm, order, k, d, p, colors, node);
    } else {
      LightestRecord(hm, k, d, p, order, colors, node);
      FreshSettled(order, k, colors, x);
      FreshRecorded(tree, order, d, p, node);
      FreshEdges(tree, order, colors, node);
      FreshGreedy(tree, order, k, d, colors, node);
      FreshFrontier(hm, order, k, d, p, colors, node);
      FreshBounded(order, k, d, colors, x);
      CountMark(k, x);
      SumWhereFlag(d, k, x);
      TreeWeightSnoc(tree, node);
    }
  }

  /** Offering colour i the edge from the newest settled colour x, when it is
      closer than the tentative distance of i, keeps the state and extends
      the relaxed prefix past i. */
  lemma Relax(hm: multiset<Node>, tree: seq<Node>, order: seq<int>, k: seq<bool>, d: seq<nat>, p: seq<int>, colors: seq<RGBPixel>, x: int, i: int)
    requires Progress(hm, tree, order, k, d, p, colors, |order| - 1)
    requires |order| > 0 && x == order[|order| - 1]
    requires 0 <= i < |colors| && !k[i] && EdgeWeight(colors, x, i) < d[i]
    requires Relaxed(k, d, x, colors, i)
    ensures var w := EdgeWeight(colors, x, i);
      && Progress(hm + multiset{Node(x, i, w)}, tree, order, k, d[i := w], p[i := x], colors, |order| - 1)
      && Relaxed(k, d[i := w], x, colors, i + 1)
  {
    var w := EdgeWeight(colors, x, i);
    RelaxExplored(tree, order, k, d, p, colors, i, w, x);
    RelaxFrontier(hm, order, k, d, p, colors, x, i);
    RelaxBounded(k, d, order, colors, |order| - 1, i, w);
    SumWhereUnflagged(d, k, i, w);
  }

  /** Colour i needs no new record when it is settled or already as close. */
  lemma Skip(k: seq<bool>, d: seq<nat>, x: int, colors: seq<RGBPixel>, i: int)
    requires |k| == |colors| && |d| == |colors| && 0 <= x < |colors| && 0 <= i < |colors|
    requires Relaxed(k, d, x, colors, i)
    requires k[i] || d[i] <= EdgeWeight(colors, x, i)
    ensures Relaxed(k, d, x, colors, i + 1)
  {
  }

  /** Once every colour has been offered the edge from the newest settled
      colour, the bounds cover all settled colours. */
  lemma RelaxedAll(hm: multiset<Node>, tree: seq<Node>, order: seq<int>, k: seq<bool>, d: seq<nat>, p: seq<int>, colors: seq<RGBPixel>)
    requires Progress(hm, tree, order, k, d, p, colors, |order| - 1)
    requires |order| > 0 && Relaxed(k, d, order[|order| - 1], colors, |colors|)
    ensures Progress(hm, tree, order, k, d, p, colors, |order|)
  {
    RelaxDone(k, d, order, colors);
  }

  /** What the construction delivers for a non-empty colour list: the indexed
      colours; one record per colour, the root sentinel first, every colour
      settled exactly once; each later record the edge from an earlier settled
      colour and no heavier than any edge leaving the colours settled before
      it; the parent array naming each colour's tree neighbour towards the
      root; and the weight the sum of the record weights. */
  ghost predicate WellFormedMst(m: Mst, colors: seq<RGBPixel>)
  {
    && |colors| >= 1
    && |m.indexColor| == |colors|
    && (forall i :: 0 <= i < |colors| ==> m.indexColor[i] == Color(colors[i], i))
    && |m.tree| == |colors| && |m.parent| == |colors|
    && m.tree[0] == Sentinel
    && NoDuplicates(Targets(m.tree))
    && (forall a :: 0 <= a < |m.tree| ==> 0 <= m.tree[a].to < |colors|)
    && (forall j :: 0 <= j < |colors| ==> j in Targets(m.tree))
    && Edges(m.tree, Targets(m.tree), colors)
    && Greedy(m.tree, Targets(m.tree), colors)
    && (forall a :: 0 <= a < |m.tree| ==> m.parent[m.tree[a].to] == m.tree[a].index)
    && m.weight == TreeWeight(m.tree)
  }

  /** When the heap runs empty every colour is settled, and the records, the
      parent array and the sum of the tentative distances form the result. */
  lemma Finished(hm: multiset<Node>, tree: seq<Node>, order: seq<int>, k: seq<bool>, d: seq<nat>, p: seq<int>, colors: seq<RGBPixel>, indexColor: seq<Color>)
    requires Progress(hm, tree, order, k, d, p, colors, |order|) && hm == multiset{}
    requires |indexColor| == |colors| && forall i :: 0 <= i < |colors| ==> indexColor[i] == Color(colors[i], i)
    ensures WellFormedMst(Mst(Sum(d), tree, p, indexColor), colors)
  {
    AllReached(hm, order, k, d, p, colors);
    CountAll(k);
    SumWhereAll(d, k);
    CoverNoDuplicates(order, |colors|);
    assert Targets(tree) == order;
  }
}
