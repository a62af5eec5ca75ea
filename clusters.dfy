/** One cluster of the cut forest at a time: the breadth-first walk from a
    start colour that visits its tree, averages the member colours and writes
    the average into the palette slot of every member. */
module Clusters {
  import opened Pixels
  import opened Forest
  import opened Adjacency

  /** x is a colour in the tree of p. */
  ghost predicate SameTree(up: seq<int>, rank: seq<nat>, p: int, x: int)
    requires ForestOk(up, rank) && 0 <= p < |up|
  {
    0 <= x < |up| && Root(up, rank, x) == Root(up, rank, p)
  }

  /** The colours below n in the tree whose root is `root`, ascending. */
  ghost function MembersBelow(up: seq<int>, rank: seq<nat>, root: int, n: nat): (m: seq<int>)
    requires ForestOk(up, rank) && n <= |up|
    ensures forall i :: 0 <= i < |m| ==> 0 <= m[i] < n
    ensures forall x :: x in m <==> 0 <= x < n && Root(up, rank, x) == root
    ensures NoDuplicates(m)
  {
    if n == 0 then []
    else
      var m0 := MembersBelow(up, rank, root, n - 1);
      if Root(up, rank, n - 1) == root then m0 + [n - 1] else m0
  }

  /** The cluster of colour x: every colour of its tree, ascending. */
  ghost function Cluster(up: seq<int>, rank: seq<nat>, x: int): (m: seq<int>)
    requires ForestOk(up, rank) && 0 <= x < |up|
    ensures forall i :: 0 <= i < |m| ==> 0 <= m[i] < |up|
    ensures forall y :: y in m <==> SameTree(up, rank, x, y)
    ensures x in m && NoDuplicates(m)
  {
    MembersBelow(up, rank, Root(up, rank, x), |up|)
  }

  /** The colour values of the listed colour indices. */
  function ColorsOf(indexColor: seq<Color>, m: seq<int>): seq<RGBPixel>
    requires forall i :: 0 <= i < |m| ==> 0 <= m[i] < |indexColor|
  {
    seq(|m|, i requires 0 <= i < |m| => indexColor[m[i]].val)
  }

  /** The colour the palette assigns to the cluster of x: the per-channel mean
      of its member colours, truncated. */
  ghost function ClusterMean(indexColor: seq<Color>, up: seq<int>, rank: seq<nat>, x: int): RGBPixel
    requires ForestOk(up, rank) && 0 <= x < |up| && |indexColor| == |up|
  {
    Mean(ColorsOf(indexColor, Cluster(up, rank, x)))
  }

  /** The neighbours in l not visited yet, in list order: what one pass over
      an adjacency list enqueues. */
  function Fresh(l: seq<Neighbor>, vs: seq<bool>): (f: seq<int>)
    requires forall r :: 0 <= r < |l| ==> 0 <= l[r].to < |vs|
    ensures forall i :: 0 <= i < |f| ==> f[i] in Tos(l) && 0 <= f[i] < |vs| && !vs[f[i]]
    ensures forall r :: 0 <= r < |l| && !vs[l[r].to] ==> l[r].to in f
    ensures (forall r, r' :: 0 <= r < r' < |l| ==> l[r].to != l[r'].to) ==> NoDuplicates(f)
  {
    if l == [] then []
    else
      var m := |l| - 1;
      var f0 := Fresh(l[..m], vs);
      assert Tos(l[..m]) == Tos(l)[..m];
      var y := l[m].to;
      if vs[y] then f0 else f0 + [y]
  }

  /** What holds between two dequeues of the walk from p, with `done` the
      colours dequeued so far and q the queue: every colour seen is in the
      tree of p, seen once, p first; the step towards p of every other seen
      colour has been dequeued; every neighbour of a dequeued colour has been
      seen; and within the tree the visited flags mark exactly the dequeued
      colours. */
  ghost predicate BfsState(up: seq<int>, rank: seq<nat>, p: int, adj: seq<seq<Neighbor>>, vs: seq<bool>,
                           done: seq<int>, q: seq<int>)
    requires ForestOk(up, rank) && 0 <= p < |up| && |adj| == |up| && |vs| == |up|
  {
    var s := done + q;
    && |s| > 0 && s[0] == p
    && NoDuplicates(s)
    && (forall i :: 0 <= i < |s| ==> SameTree(up, rank, p, s[i]))
    && (forall i :: 0 <= i < |s| && s[i] != p ==> vs[Toward(up, rank, p, s[i])])
    && (forall i, r :: 0 <= i < |done| && 0 <= r < |adj[s[i]]| ==> adj[s[i]][r].to in s)
    && (forall x {:trigger SameTree(up, rank, p, x)} :: SameTree(up, rank, p, x) ==> (vs[x] <==> x in done))
  }

  /** The walk starts with p queued and its whole tree unvisited. */
  lemma BfsStart(up: seq<int>, rank: seq<nat>, p: int, adj: seq<seq<Neighbor>>, vs: seq<bool>)
    requires ForestOk(up, rank) && 0 <= p < |up| && |adj| == |up| && |vs| == |up|
    requires forall x :: 0 <= x < |up| && Root(up, rank, x) == Root(up, rank, p) ==> !vs[x]
    ensures BfsState(up, rank, p, adj, vs, [], [p])
  {
    assert [] + [p] == [p];
  }

  /** Distinct colour indices below n number at most n. */
  lemma {:induction false} NoDupBound(s: seq<int>, n: nat)
    requires NoDuplicates(s) && forall i :: 0 <= i < |s| ==> 0 <= s[i] < n
    ensures |s| <= n
    decreases |s|
  {
    if s != [] {
      // Drop the first element x and rename n - 1 to x in the rest: the rest
      // then holds distinct indices below n - 1.
      var x := s[0];
      var rest := seq(|s| - 1, k requires 0 <= k < |s| - 1 => if s[k + 1] == n - 1 then x else s[k + 1]);
      forall a | 0 <= a < |rest|
        ensures 0 <= rest[a] < n - 1
      {
        assert s[0] != s[a + 1];
      }
      forall a, b | 0 <= a < b < |rest|
        ensures rest[a] != rest[b]
      {
        assert s[a + 1] != s[b + 1] && s[0] != s[a + 1] && s[0] != s[b + 1];
      }
      NoDupBound(rest, n - 1);
    }
  }

  /** One round of the walk on the ghost state: dequeueing the head of the
      queue, enqueueing its unvisited neighbours and marking it visited keeps
      the walk's state, and the walk has room for the dequeued colour. */
  lemma Dequeue(up: seq<int>, rank: seq<nat>, p: int, adj: seq<seq<Neighbor>>, vs: seq<bool>, done: seq<int>, q0: seq<int>)
    requires ForestOk(up, rank) && ListsNeighbours(adj, up) && 0 <= p < |up| && |vs| == |up|
    requires q0 != [] && BfsState(up, rank, p, adj, vs, done, q0)
    ensures SameTree(up, rank, p, q0[0]) && |done| + |q0| <= |up|
    ensures BfsState(up, rank, p, adj, vs[q0[0] := true], done + [q0[0]], q0[1..] + Fresh(adj[q0[0]], vs))
  {
    BfsBound(up, rank, p, adj, vs, done, q0);
    var root := q0[0];
    assert [root] + q0[1..] == q0;
    assert (done + q0)[|done|] == root;
    OwnList(adj, up, root);
    VisitStep(up, rank, p, adj, vs, done, root, q0[1..]);
  }

  /** The walk has seen at most every colour once. */
  lemma BfsBound(up: seq<int>, rank: seq<nat>, p: int, adj: seq<seq<Neighbor>>, vs: seq<bool>, done: seq<int>, q: seq<int>)
    requires ForestOk(up, rank) && 0 <= p < |up| && |adj| == |up| && |vs| == |up|
    requires BfsState(up, rank, p, adj, vs, done, q)
    ensures |done| + |q| <= |up|
  {
    NoDupBound(done + q, |up|);
  }

  /** What the walk's state says about the head of the queue and the rest of
      it: root is in the tree of p, not visited and not dequeued, and oriented
      like every other queued colour; p is dequeued unless it is root. */
  lemma QueueHead(up: seq<int>, rank: seq<nat>, p: int, adj: seq<seq<Neighbor>>, vs: seq<bool>,
                  done: seq<int>, root: int, q0: seq<int>)
    requires ForestOk(up, rank) && 0 <= p < |up| && |adj| == |up| && |vs| == |up|
    requires BfsState(up, rank, p, adj, vs, done, [root] + q0)
    ensures SameTree(up, rank, p, root) && root !in done && !vs[root]
    ensures root != p ==> vs[Toward(up, rank, p, root)]
    ensures p in done || root == p
    ensures forall x :: x in q0 ==> SameTree(up, rank, p, x) && (x != p ==> vs[Toward(up, rank, p, x)])
    ensures forall x {:trigger SameTree(up, rank, p, x)} :: SameTree(up, rank, p, x) ==> (vs[x] <==> x in done)
  {
    var s := done + [root] + q0;
    assert done + ([root] + q0) == s;
    assert s[|done|] == root;
    forall i | 0 <= i < |done|
      ensures done[i] != root
    {
      assert s[i] == done[i];
    }
    if done != [] {
      assert done[0] == s[0];
    }
    forall x | x in q0
      ensures SameTree(up, rank, p, x) && (x != p ==> vs[Toward(up, rank, p, x)])
    {
      var i :| 0 <= i < |q0| && q0[i] == x;
      assert s[|done| + 1 + i] == x;
    }
  }

  /** The adjacency list l of colour u lists only neighbours of u in the
      forest, once each. */
  ghost predicate ListsOwn(l: seq<Neighbor>, up: seq<int>, u: int)
    requires 0 <= u < |up|
  {
    && (forall r :: 0 <= r < |l| ==> 0 <= l[r].to < |up| && Adjacent(up, u, l[r].to))
    && (forall r, r' :: 0 <= r < r' < |l| ==> l[r].to != l[r'].to)
  }

  /** What the adjacency lists say about the list of one colour. */
  lemma OwnList(adj: seq<seq<Neighbor>>, up: seq<int>, u: int)
    requires ListsNeighbours(adj, up) && 0 <= u < |up|
    ensures ListsOwn(adj[u], up, u)
  {
  }

  /** Every neighbour of the dequeued colour that is not visited yet lies in
      the tree of p and has not been seen: the only seen neighbour of root is
      its step towards p, which is visited, so root is the step towards p of
      every unvisited neighbour. The requirements are what QueueHead derives
      from the walk's state. */
  lemma FreshNeighbours(up: seq<int>, rank: seq<nat>, p: int, adj: seq<seq<Neighbor>>, vs: seq<bool>,
                        done: seq<int>, root: int, q0: seq<int>)
    requires ForestOk(up, rank) && |adj| == |up| && 0 <= p < |up| && |vs| == |up|
    requires 0 <= root < |up| && ListsOwn(adj[root], up, root)
    requires SameTree(up, rank, p, root) && root !in done && !vs[root]
    requires root != p ==> vs[Toward(up, rank, p, root)]
    requires p in done || root == p
    requires forall x :: x in q0 ==> SameTree(up, rank, p, x) && (x != p ==> vs[Toward(up, rank, p, x)])
    requires forall x {:trigger SameTree(up, rank, p, x)} :: SameTree(up, rank, p, x) ==> (vs[x] <==> x in done)
    ensures forall y :: y in Fresh(adj[root], vs) ==>
      SameTree(up, rank, p, y) && y !in done + ([root] + q0) && y != p && Toward(up, rank, p, y) == root
  {
    var l := adj[root];
    forall y | y in Fresh(l, vs)
      ensures SameTree(up, rank, p, y) && y !in done + ([root] + q0) && y != p && Toward(up, rank, p, y) == root
    {
      var r :| 0 <= r < |l| && Tos(l)[r] == y;
      assert Adjacent(up, root, y);
      NotSelfAdjacent(up, rank, root);
      AdjacentSameRoot(up, rank, root, y);
      assert SameTree(up, rank, p, y);
      assert !vs[y] && y != root;
      assert y !in done;
      assert y != p;
      TowardOrient(up, rank, p, root, y);
      assert Toward(up, rank, p, y) == root;
      assert y !in q0;
    }
  }

  /** Appending colours of the tree of p that were not seen and whose step
      towards p is root keeps the seen list free of repeats, inside the tree,
      and oriented once root is marked visited. */
  lemma SeenExtend(up: seq<int>, rank: seq<nat>, p: int, vs: seq<bool>, s: seq<int>, f: seq<int>, root: int, s': seq<int>)
    requires ForestOk(up, rank) && 0 <= p < |up| && |vs| == |up| && 0 <= root < |up|
    requires NoDuplicates(s) && NoDuplicates(f) && s' == s + f
    requires forall i :: 0 <= i < |s| ==>
      SameTree(up, rank, p, s[i]) && (s[i] != p ==> vs[Toward(up, rank, p, s[i])])
    requires forall y :: y in f ==> SameTree(up, rank, p, y) && y !in s && y != p && Toward(up, rank, p, y) == root
    ensures NoDuplicates(s')
    ensures forall i :: 0 <= i < |s'| ==>
      SameTree(up, rank, p, s'[i]) && (s'[i] != p ==> vs[root := true][Toward(up, rank, p, s'[i])])
  {
    forall a, b | 0 <= a < b < |s'|
      ensures s'[a] != s'[b]
    {
      if b >= |s| {
        assert s'[b] in f;
        if a < |s| {
          assert s'[a] == s[a];
        }
      } else {
        assert s'[a] == s[a] && s'[b] == s[b];
      }
    }
    forall i | 0 <= i < |s'|
      ensures SameTree(up, rank, p, s'[i])
      ensures s'[i] != p ==> vs[root := true][Toward(up, rank, p, s'[i])]
    {
      if i < |s| {
        assert s'[i] == s[i];
      } else {
        assert s'[i] in f;
      }
    }
  }

  /** Dequeueing `root`, enqueueing its unvisited neighbours and marking it
      visited keeps the walk's state: in a forest no neighbour enqueued here
      was seen before. */
  lemma VisitStep(up: seq<int>, rank: seq<nat>, p: int, adj: seq<seq<Neighbor>>, vs: seq<bool>,
                  done: seq<int>, root: int, q0: seq<int>)
    requires ForestOk(up, rank) && |adj| == |up| && 0 <= p < |up| && |vs| == |up|
    requires BfsState(up, rank, p, adj, vs, done, [root] + q0)
    requires 0 <= root < |up| && ListsOwn(adj[root], up, root)
    ensures SameTree(up, rank, p, root) && !vs[root]
    ensures BfsState(up, rank, p, adj, vs[root := true], done + [root], q0 + Fresh(adj[root], vs))
  {
    QueueHead(up, rank, p, adj, vs, done, root, q0);
    var s := done + ([root] + q0);
    var f := Fresh(adj[root], vs);
    FreshNeighbours(up, rank, p, adj, vs, done, root, q0);
    var s' := done + [root] + (q0 + f);
    Regroup(done, [root], q0, f);
    SeenExtend(up, rank, p, vs, s, f, root, s');
    NeighboursSeen(up, rank, p, adj, vs, done, root, q0, s, s');
  }

  /** Concatenation regrouped. */
  lemma Regroup(a: seq<int>, b: seq<int>, c: seq<int>, d: seq<int>)
    ensures a + b + (c + d) == a + (b + c) + d
  {
  }

  /** After dequeueing root and enqueueing its unvisited neighbours, every
      neighbour of a dequeued colour has been seen. */
  lemma NeighboursSeen(up: seq<int>, rank: seq<nat>, p: int, adj: seq<seq<Neighbor>>, vs: seq<bool>,
                       done: seq<int>, root: int, q0: seq<int>, s: seq<int>, s': seq<int>)
    requires ForestOk(up, rank) && |adj| == |up| && 0 <= p < |up| && |vs| == |up|
    requires 0 <= root < |up| && ListsOwn(adj[root], up, root) && SameTree(up, rank, p, root)
    requires s == done + ([root] + q0) && s' == done + [root] + (q0 + Fresh(adj[root], vs))
    requires forall i :: 0 <= i < |s| ==> SameTree(up, rank, p, s[i])
    requires forall i, r :: 0 <= i < |done| && 0 <= s[i] < |adj| && 0 <= r < |adj[s[i]]| ==> adj[s[i]][r].to in s
    requires forall x {:trigger SameTree(up, rank, p, x)} :: SameTree(up, rank, p, x) ==> (vs[x] <==> x in done)
    requires forall i :: 0 <= i < |s'| ==> SameTree(up, rank, p, s'[i])
    ensures forall i, r :: 0 <= i < |done + [root]| && 0 <= s'[i] < |adj| && 0 <= r < |adj[s'[i]]| ==>
      adj[s'[i]][r].to in s'
  {
    var f := Fresh(adj[root], vs);
    forall i, r | 0 <= i < |done + [root]| && 0 <= s'[i] < |adj| && 0 <= r < |adj[s'[i]]|
      ensures adj[s'[i]][r].to in s'
    {
      var y := adj[s'[i]][r].to;
      if i < |done| {
        assert s'[i] == s[i];
        assert y in s;
      } else {
        assert s'[i] == root;
        assert Adjacent(up, root, y);
        AdjacentSameRoot(up, rank, root, y);
        assert SameTree(up, rank, p, y);
        if !vs[y] {
          assert y in f;
        }
      }
    }
  }

  /** When the queue runs empty the dequeued colours are exactly the tree of
      p, because they contain p and every neighbour of theirs. */
  lemma BfsDone(up: seq<int>, rank: seq<nat>, p: int, adj: seq<seq<Neighbor>>, vs: seq<bool>, done: seq<int>)
    requires ForestOk(up, rank) && ListsNeighbours(adj, up) && 0 <= p < |up| && |vs| == |up|
    requires BfsState(up, rank, p, adj, vs, done, [])
    ensures NoDuplicates(done)
    ensures forall i :: 0 <= i < |done| ==> 0 <= done[i] < |up|
    ensures forall x :: x in done <==> SameTree(up, rank, p, x)
  {
    assert done + [] == done;
    var set_done := set x | x in done;
    forall x, y | x in set_done && 0 <= x < |up| && 0 <= y < |up| && Adjacent(up, x, y)
      ensures y in set_done
    {
      assert y in Tos(adj[x]);
      var r :| 0 <= r < |adj[x]| && Tos(adj[x])[r] == y;
      var i :| 0 <= i < |done| && done[i] == x;
      assert (done + [])[i] == x;
    }
    forall x | SameTree(up, rank, p, x)
      ensures x in done
    {
      assert done[0] == p;
      ClosedContainsTree(up, rank, set_done, p, x);
    }
  }

  /** A list without repeats holds each of its elements once. */
  lemma {:induction false} NoDupCount(a: seq<int>, x: int)
    requires NoDuplicates(a)
    ensures multiset(a)[x] == if x in a then 1 else 0
  {
    if a != [] {
      var m := |a| - 1;
      assert a == a[..m] + [a[m]];
      assert x !in a[..m] || x != a[m];
      NoDupCount(a[..m], x);
    }
  }

  /** Two lists without repeats that hold the same elements are permutations
      of each other. */
  lemma SameMembers(a: seq<int>, b: seq<int>)
    requires NoDuplicates(a) && NoDuplicates(b) && forall x :: x in a <==> x in b
    ensures multiset(a) == multiset(b)
  {
    forall x
      ensures multiset(a)[x] == multiset(b)[x]
    {
      NoDupCount(a, x);
      NoDupCount(b, x);
    }
  }

  lemma ColorsAppend(indexColor: seq<Color>, a: seq<int>, b: seq<int>)
    requires forall i :: 0 <= i < |a| ==> 0 <= a[i] < |indexColor|
    requires forall i :: 0 <= i < |b| ==> 0 <= b[i] < |indexColor|
    ensures ColorsOf(indexColor, a + b) == ColorsOf(indexColor, a) + ColorsOf(indexColor, b)
  {
  }

  /** Removing position i from the indices removes one occurrence of its
      colour from their colours. */
  lemma ColorsRemove(indexColor: seq<Color>, b: seq<int>, i: int, rest: seq<int>)
    requires 0 <= i < |b| && forall j :: 0 <= j < |b| ==> 0 <= b[j] < |indexColor|
    requires rest == b[..i] + b[i + 1..]
    ensures forall j :: 0 <= j < |rest| ==> 0 <= rest[j] < |indexColor|
    ensures multiset(ColorsOf(indexColor, b)) == multiset(ColorsOf(indexColor, rest)) + multiset{indexColor[b[i]].val}
  {
    var left, x, right := b[..i], b[i], b[i + 1..];
    SplitAt(b, i);
    ColorsAppend(indexColor, left + [x], right);
    ColorsAppend(indexColor, left, [x]);
    ColorsAppend(indexColor, left, right);
  }

  /** Permuting the colour indices permutes their colours. */
  lemma {:induction false} ColorsPermutation(indexColor: seq<Color>, a: seq<int>, b: seq<int>)
    requires multiset(a) == multiset(b)
    requires forall i :: 0 <= i < |a| ==> 0 <= a[i] < |indexColor|
    requires forall i :: 0 <= i < |b| ==> 0 <= b[i] < |indexColor|
    ensures multiset(ColorsOf(indexColor, a)) == multiset(ColorsOf(indexColor, b))
    decreases |a|
  {
    if a == [] {
      assert |multiset(b)| == 0;
    } else {
      var m := |a| - 1;
      var x := a[m];
      assert x in multiset(b);
      var i :| 0 <= i < |b| && b[i] == x;
      MultisetRemove(a, m);
      MultisetRemove(b, i);
      assert a[..m] + a[m + 1..] == a[..m];
      ColorsRemove(indexColor, a, m, a[..m]);
      ColorsRemove(indexColor, b, i, b[..i] + b[i + 1..]);
      ColorsPermutation(indexColor, a[..m], b[..i] + b[i + 1..]);
    }
  }

  /** The colours dequeued by a walk that met exactly the tree of p are the
      cluster's colours in another order, so they have the cluster's mean. */
  lemma WalkMean(indexColor: seq<Color>, up: seq<int>, rank: seq<nat>, p: int, done: seq<int>)
    requires ForestOk(up, rank) && |indexColor| == |up| && 0 <= p < |up|
    requires NoDuplicates(done) && forall i :: 0 <= i < |done| ==> 0 <= done[i] < |up|
    requires forall x :: x in done <==> SameTree(up, rank, p, x)
    ensures |done| == |Cluster(up, rank, p)| > 0
    ensures Mean(ColorsOf(indexColor, done)) == ClusterMean(indexColor, up, rank, p)
    ensures forall c :: c in ColorsOf(indexColor, done) <==> c in ColorsOf(indexColor, Cluster(up, rank, p))
  {
    var m := Cluster(up, rank, p);
    SameMembers(done, m);
    assert |done| == |multiset(done)| == |multiset(m)| == |m|;
    ColorsPermutation(indexColor, done, m);
    MeanPermutation(ColorsOf(indexColor, done), ColorsOf(indexColor, m));
    forall c
      ensures c in ColorsOf(indexColor, done) <==> c in ColorsOf(indexColor, m)
    {
      assert c in ColorsOf(indexColor, done) <==> c in multiset(ColorsOf(indexColor, done));
      assert c in ColorsOf(indexColor, m) <==> c in multiset(ColorsOf(indexColor, m));
    }
  }

  /** The inner loop of the walk: enqueues every neighbour in l that is not
      visited yet and counts it. */
  method EnqueueUnvisited(l: seq<Neighbor>, v: array<bool>, q0: seq<int>, count0: int) returns (q: seq<int>, count: int)
    requires forall r :: 0 <= r < |l| ==> 0 <= l[r].to < v.Length
    ensures q == q0 + Fresh(l, v[..]) && count == count0 + |Fresh(l, v[..])|
  {
    q, count := q0, count0;
    var r := 0;
    while r < |l|
      invariant 0 <= r <= |l|
      invariant q == q0 + Fresh(l[..r], v[..]) && count == count0 + |Fresh(l[..r], v[..])|
    {
      assert l[..r + 1][..r] == l[..r];
      if v[l[r].to] == false {
        q := q + [l[r].to];
        count := count + 1;
      }
      r := r + 1;
    }
    assert l[..|l|] == l;
  }

  /** Writes the colour avg into the palette slot of every colour in ch; the
      palette is keyed red, blue, green. Every other slot keeps its value. */
  method Paint(palette: array3<RGBPixel>, ch: seq<RGBPixel>, avg: RGBPixel)
    requires palette.Length0 == 256 && palette.Length1 == 256 && palette.Length2 == 256
    modifies palette
    ensures forall j :: 0 <= j < |ch| ==> palette[ch[j].red, ch[j].blue, ch[j].green] == avg
    ensures forall r: Byte, g: Byte, b: Byte {:trigger palette[r, b, g]} :: RGBPixel(r, g, b) !in ch ==> palette[r, b, g] == old(palette[r, b, g])
  {
    var i := 0;
    while i < |ch|
      invariant 0 <= i <= |ch|
      invariant forall j :: 0 <= j < i ==> palette[ch[j].red, ch[j].blue, ch[j].green] == avg
      invariant forall r: Byte, g: Byte, b: Byte {:trigger palette[r, b, g]} :: RGBPixel(r, g, b) !in ch[..i] ==> palette[r, b, g] == old(palette[r, b, g])
    {
      var c := ch[i];
      SetSlot(palette, c, avg);
      assert forall x :: x in ch[..i + 1] <==> x in ch[..i] || x == c by {
        assert ch[..i + 1] == ch[..i] + [c];
      }
      i := i + 1;
    }
    assert ch[..|ch|] == ch;
  }

  /** One palette write, at the slot keyed red, blue, green. */
  method SetSlot(palette: array3<RGBPixel>, c: RGBPixel, avg: RGBPixel)
    requires palette.Length0 == 256 && palette.Length1 == 256 && palette.Length2 == 256
    modifies palette
    ensures palette[c.red, c.blue, c.green] == avg
    ensures forall r: Byte, g: Byte, b: Byte {:trigger palette[r, b, g]} :: RGBPixel(r, g, b) != c ==> palette[r, b, g] == old(palette[r, b, g])
  {
    palette[c.red, c.blue, c.green] := avg;
  }

  /** Dequeueing root appends its colour to the dequeued colours and adds
      its channels to their sums. */
  lemma Accumulate(indexColor: seq<Color>, done0: seq<int>, root: int, ch0: seq<RGBPixel>, avg0: Sums,
                   done: seq<int>, ch: seq<RGBPixel>, avg: Sums)
    requires forall i :: 0 <= i < |done0| ==> 0 <= done0[i] < |indexColor|
    requires 0 <= root < |indexColor| && ch0 == ColorsOf(indexColor, done0) && avg0 == Total(ch0)
    requires done == done0 + [root] && ch == ch0 + [indexColor[root].val]
    requires avg == Sums(avg0.red + indexColor[root].val.red, avg0.green + indexColor[root].val.green,
                         avg0.blue + indexColor[root].val.blue)
    ensures forall i :: 0 <= i < |done| ==> 0 <= done[i] < |indexColor|
    ensures ch == ColorsOf(indexColor, done) && avg == Total(ch)
  {
    var c := indexColor[root].val;
    ColorsAppend(indexColor, done0, [root]);
    assert ColorsOf(indexColor, [root]) == [c];
    assert [c][..0] == [];
    TotalAppend(ch0, [c]);
  }

  /** avgcolor_BFS: walks the tree of pIndex breadth first from pIndex,
      summing the colours it dequeues and counting the colours it enqueues,
      then writes the truncated mean into the palette slot of every member.
      It marks exactly the tree of pIndex visited and rewrites exactly the
      slots of its member colours. */
  method AvgColorBfs(indexColor: seq<Color>, pIndex: int, palette: array3<RGBPixel>, v: array<bool>, adj: array<seq<Neighbor>>,
                     ghost up: seq<int>, ghost rank: seq<nat>)
    requires ForestOk(up, rank) && ListsNeighbours(adj[..], up)
    requires |indexColor| == |up| && v.Length == |up| && 0 <= pIndex < |up|
    requires palette.Length0 == 256 && palette.Length1 == 256 && palette.Length2 == 256
    requires forall x :: 0 <= x < |up| && Root(up, rank, x) == Root(up, rank, pIndex) ==> !v[x]
    modifies palette, v
    ensures forall x :: 0 <= x < |up| ==> v[x] == (old(v[x]) || Root(up, rank, x) == Root(up, rank, pIndex))
    ensures forall r: Byte, g: Byte, b: Byte ::
      palette[r, b, g] == (if RGBPixel(r, g, b) in ColorsOf(indexColor, Cluster(up, rank, pIndex))
                           then ClusterMean(indexColor, up, rank, pIndex) else old(palette[r, b, g]))
  {
    var count, avg, ch, done := Walk(indexColor, pIndex, v, adj, up, rank);
    WalkMean(indexColor, up, rank, pIndex, done);
    TotalBound(ch);
    DivBound(avg.red, count);
    DivBound(avg.green, count);
    DivBound(avg.blue, count);
    var mean := RGBPixel(avg.red / count, avg.green / count, avg.blue / count);
    Paint(palette, ch, mean);
    forall r: Byte, g: Byte, b: Byte | RGBPixel(r, g, b) in ch
      ensures palette[r, b, g] == mean
    {
      var j :| 0 <= j < |ch| && ch[j] == RGBPixel(r, g, b);
    }
  }

  /** The queue loop of avgcolor_BFS: dequeues every colour of the tree of
      pIndex exactly once, marking it visited, adding its colour to ch and its
      channels to avg; count ends as the number of colours enqueued, which is
      the size of the tree. */
  method Walk(indexColor: seq<Color>, pIndex: int, v: array<bool>, adj: array<seq<Neighbor>>,
              ghost up: seq<int>, ghost rank: seq<nat>)
    returns (count: int, avg: Sums, ch: seq<RGBPixel>, ghost done: seq<int>)
    requires ForestOk(up, rank) && ListsNeighbours(adj[..], up)
    requires |indexColor| == |up| && v.Length == |up| && 0 <= pIndex < |up|
    requires forall x :: 0 <= x < |up| && Root(up, rank, x) == Root(up, rank, pIndex) ==> !v[x]
    modifies v
    ensures forall x :: 0 <= x < |up| ==> v[x] == (old(v[x]) || Root(up, rank, x) == Root(up, rank, pIndex))
    ensures NoDuplicates(done) && forall i :: 0 <= i < |done| ==> 0 <= done[i] < |up|
    ensures forall x :: x in done <==> SameTree(up, rank, pIndex, x)
    ensures count == |done| && ch == ColorsOf(indexColor, done) && avg == Total(ch)
  {
    count := 1;
    avg := Sums(0, 0, 0);
    var q := [pIndex];
    ch := [];
    done := [];
    BfsStart(up, rank, pIndex, adj[..], v[..]);
    while q != []
      invariant BfsState(up, rank, pIndex, adj[..], v[..], done, q)
      invariant count == |done| + |q|
      invariant forall i :: 0 <= i < |done| ==> 0 <= done[i] < |up|
      invariant ch == ColorsOf(indexColor, done) && avg == Total(ch)
      invariant forall x {:trigger v[x]} :: 0 <= x < |up| && Root(up, rank, x) != Root(up, rank, pIndex) ==> v[x] == old(v[x])
      decreases |up| - |done|
    {
      q, count, ch, avg, done := Visit(indexColor, pIndex, v, adj, up, rank, q, count, ch, avg, done);
    }
    assert done + [] == done;
    BfsDone(up, rank, pIndex, adj[..], v[..], done);
    forall x | 0 <= x < |up| && Root(up, rank, x) == Root(up, rank, pIndex)
      ensures v[x]
    {
      assert SameTree(up, rank, pIndex, x);
    }
  }

  /** One round of the queue loop: dequeues root, adds its colour to ch and
      avg, enqueues and counts its unvisited neighbours and marks it visited. */
  method Visit(indexColor: seq<Color>, pIndex: int, v: array<bool>, adj: array<seq<Neighbor>>,
               ghost up: seq<int>, ghost rank: seq<nat>,
               q0: seq<int>, count0: int, ch0: seq<RGBPixel>, avg0: Sums, ghost done0: seq<int>)
    returns (q: seq<int>, count: int, ch: seq<RGBPixel>, avg: Sums, ghost done: seq<int>)
    requires ForestOk(up, rank) && ListsNeighbours(adj[..], up)
    requires |indexColor| == |up| && v.Length == |up| && 0 <= pIndex < |up|
    requires q0 != [] && BfsState(up, rank, pIndex, adj[..], v[..], done0, q0)
    requires count0 == |done0| + |q0|
    requires forall i :: 0 <= i < |done0| ==> 0 <= done0[i] < |up|
    requires ch0 == ColorsOf(indexColor, done0) && avg0 == Total(ch0)
    modifies v
    ensures BfsState(up, rank, pIndex, adj[..], v[..], done, q)
    ensures count == |done| + |q|
    ensures forall i :: 0 <= i < |done| ==> 0 <= done[i] < |up|
    ensures ch == ColorsOf(indexColor, done) && avg == Total(ch)
    ensures forall x {:trigger v[x]} :: 0 <= x < |up| && Root(up, rank, x) != Root(up, rank, pIndex) ==> v[x] == old(v[x])
    ensures |done0| < |done| <= |up|
  {
    var root := q0[0];
    ghost var vs := v[..];
    ghost var a := adj[..];
    Dequeue(up, rank, pIndex, a, vs, done0, q0);
    q := q0[1..];
    var chColor := indexColor[root].val;
    ch := ch0 + [chColor];
    avg := Sums(avg0.red + chColor.red, avg0.green + chColor.green, avg0.blue + chColor.blue);
    done := done0 + [root];
    Accumulate(indexColor, done0, root, ch0, avg0, done, ch, avg);
    q, count := EnqueueUnvisited(adj[root], v, q, count0);
    v[root] := true;
    assert v[..] == vs[root := true];
    assert adj[..] == a;
  }
}
