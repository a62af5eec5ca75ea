/** The forest left after cutting, as the palette pass sees it: adjacency
    lists built from the tree entries after the first, and the parent links
    and settling ranks those entries define. */
module Adjacency {
  import opened Pixels
  import opened Forest
  import opened PrimSpec
  import opened Cut

  /** The neighbours an adjacency list names, in order. */
  function Tos(l: seq<Neighbor>): (s: seq<int>)
    ensures |s| == |l|
    ensures forall r :: 0 <= r < |l| ==> s[r] == l[r].to
  {
    seq(|l|, r requires 0 <= r < |l| => l[r].to)
  }

  /** Forest edges over the colours 0 .. |rank|-1: both ends in range, the
      source settled before the target, and no colour the target of two
      edges. */
  ghost predicate EdgesOk(E: seq<Node>, rank: seq<nat>)
  {
    && (forall a :: 0 <= a < |E| ==>
          0 <= E[a].index < |rank| && 0 <= E[a].to < |rank| && rank[E[a].index] < rank[E[a].to])
    && (forall a, b :: 0 <= a < b < |E| ==> E[a].to != E[b].to)
  }

  /** The parent links the edges define: the source of the edge into c, or
      -1 when no edge ends at c. */
  ghost function UpOf(E: seq<Node>, n: nat): (up: seq<int>)
    requires forall a :: 0 <= a < |E| ==> 0 <= E[a].to < n
    ensures |up| == n
  {
    if E == [] then seq(n, _ => -1)
    else UpOf(E[..|E| - 1], n)[E[|E| - 1].to := E[|E| - 1].index]
  }

  lemma {:induction false} UpOfSpec(E: seq<Node>, rank: seq<nat>)
    requires EdgesOk(E, rank)
    ensures ForestOk(UpOf(E, |rank|), rank)
    ensures forall a :: 0 <= a < |E| ==> UpOf(E, |rank|)[E[a].to] == E[a].index
    ensures forall c :: 0 <= c < |rank| ==> (UpOf(E, |rank|)[c] == -1 <==> c !in Targets(E))
  {
    var n := |rank|;
    if E != [] {
      var m := |E| - 1;
      var e := E[m];
      UpOfSpec(E[..m], rank);
      assert Targets(E) == Targets(E[..m]) + [e.to];
      assert forall a :: 0 <= a < m ==> E[a].to != e.to;
    }
  }

  /** The adjacency lists the palette pass builds: each edge is appended to
      the list of its source, naming its target, and then to the list of its
      target, naming its source. */
  function AdjOf(E: seq<Node>, n: nat): (adj: seq<seq<Neighbor>>)
    requires forall a :: 0 <= a < |E| ==> 0 <= E[a].index < n && 0 <= E[a].to < n
    ensures |adj| == n
  {
    if E == [] then seq(n, _ => [])
    else
      var e := E[|E| - 1];
      var adj0 := AdjOf(E[..|E| - 1], n);
      var adj1 := adj0[e.index := adj0[e.index] + [Neighbor(e.to, e.weight)]];
      adj1[e.to := adj1[e.to] + [Neighbor(e.index, e.weight)]]
  }

  /** adj[u] names exactly the neighbours of u in the forest, each once. */
  ghost predicate ListsNeighbours(adj: seq<seq<Neighbor>>, up: seq<int>)
  {
    && |adj| == |up|
    && (forall u, r :: 0 <= u < |adj| && 0 <= r < |adj[u]| ==>
          0 <= adj[u][r].to < |up| && Adjacent(up, u, adj[u][r].to))
    && (forall u, y :: 0 <= u < |up| && 0 <= y < |up| && Adjacent(up, u, y) ==> y in Tos(adj[u]))
    && (forall u, r, s :: 0 <= u < |adj| && 0 <= r < s < |adj[u]| ==> adj[u][r].to != adj[u][s].to)
  }

  /** Appending the edge i -> t to both adjacency lists, where t had no
      parent and i, t were not neighbours, keeps the lists exact. */
  lemma AddEdge(adj0: seq<seq<Neighbor>>, up0: seq<int>, i: int, t: int, w: nat)
    requires ListsNeighbours(adj0, up0)
    requires 0 <= i < |up0| && 0 <= t < |up0| && i != t && up0[t] == -1 && up0[i] != t
    ensures ListsNeighbours(adj0[i := adj0[i] + [Neighbor(t, w)]][t := adj0[t] + [Neighbor(i, w)]], up0[t := i])
  {
    var n := |up0|;
    var up: seq<int> := up0[t := i];
    var adj: seq<seq<Neighbor>> := adj0[i := adj0[i] + [Neighbor(t, w)]][t := adj0[t] + [Neighbor(i, w)]];
    forall u, r | 0 <= u < n && 0 <= r < |adj[u]|
      ensures 0 <= adj[u][r].to < n && Adjacent(up, u, adj[u][r].to)
    {
      if r < |adj0[u]| {
        assert adj[u][r] == adj0[u][r];
        assert Adjacent(up0, u, adj0[u][r].to);
      }
    }
    forall u, y | 0 <= u < n && 0 <= y < n && Adjacent(up, u, y)
      ensures y in Tos(adj[u])
    {
      if (u == t && y == i) || (u == i && y == t) {
        assert adj[u][|adj[u]| - 1].to == y;
      } else {
        assert Adjacent(up0, u, y);
        assert y in Tos(adj0[u]);
        var r :| 0 <= r < |adj0[u]| && adj0[u][r].to == y;
        assert adj[u][r] == adj0[u][r];
      }
    }
    forall u, r, s | 0 <= u < n && 0 <= r < s < |adj[u]|
      ensures adj[u][r].to != adj[u][s].to
    {
      assert adj[u][r] == adj0[u][r];
      if s < |adj0[u]| {
        assert adj[u][s] == adj0[u][s];
      } else {
        assert !Adjacent(up0, u, adj[u][s].to);
      }
    }
  }

  /** The adjacency lists built from forest edges name every neighbour
      exactly once. */
  lemma {:induction false} AdjOfLists(E: seq<Node>, rank: seq<nat>)
    requires EdgesOk(E, rank)
    ensures ListsNeighbours(AdjOf(E, |rank|), UpOf(E, |rank|))
  {
    var n := |rank|;
    if E != [] {
      var m := |E| - 1;
      var e := E[m];
      assert EdgesOk(E[..m], rank);
      AdjOfLists(E[..m], rank);
      UpOfSpec(E[..m], rank);
      var up0: seq<int> := UpOf(E[..m], n);
      assert e.to !in Targets(E[..m]) by {
        assert forall a :: 0 <= a < m ==> E[..m][a].to != e.to;
      }
      AddEdge(AdjOf(E[..m], n), up0, e.index, e.to, e.weight);
    }
  }

  /** The position of x in s. */
  function PositionOf(s: seq<int>, x: int): (i: nat)
    requires x in s
    ensures i < |s| && s[i] == x
  {
    if s[0] == x then 0 else PositionOf(s[1..], x) + 1
  }

  /** The position at which the spanning-tree construction settled each
      colour. */
  ghost function RankOf(tree: seq<Node>, n: nat): (rank: seq<nat>)
    ensures |rank| == n
    ensures forall c :: 0 <= c < n && c in Targets(tree) ==> rank[c] < |tree| && tree[rank[c]].to == c
  {
    seq(n, c => if c in Targets(tree) then PositionOf(Targets(tree), c) else 0)
  }

  /** The entries the palette pass links: every entry after the first. */
  function Kept(t: seq<Node>): (e: seq<Node>)
    ensures |e| == if t == [] then 0 else |t| - 1
  {
    if t == [] then [] else t[1..]
  }

  /** An entry that occurs at two positions is counted twice. */
  lemma TwoPositions(s: seq<Node>, a: int, b: int)
    requires 0 <= a < b < |s| && s[a] == s[b]
    ensures multiset(s)[s[a]] >= 2
  {
    assert s == s[..b] + s[b..];
    assert s[a] in multiset(s[..b]) && s[b] in multiset(s[b..]);
  }

  /** A list whose entries have distinct targets holds no entry twice. */
  lemma {:induction false} DistinctTargetsOnce(t: seq<Node>, x: Node)
    requires NoDuplicates(Targets(t))
    ensures multiset(t)[x] <= 1
  {
    if t != [] {
      var m := |t| - 1;
      assert t == t[..m] + [t[m]];
      assert Targets(t[..m]) == Targets(t)[..m];
      DistinctTargetsOnce(t[..m], x);
      if t[m] == x {
        assert x !in t[..m] by {
          forall j | 0 <= j < m
            ensures t[j] != x
          {
            assert Targets(t)[j] != Targets(t)[m];
          }
        }
      }
    }
  }

  /** The facts about a spanning tree over n colours that the cut needs: one
      entry per colour, the sentinel first, distinct targets in range, and
      each later entry an edge from an earlier settled colour. */
  ghost predicate SettleOrder(tree: seq<Node>, n: nat)
  {
    && |tree| == n && n > 0 && tree[0] == Sentinel
    && NoDuplicates(Targets(tree))
    && (forall b :: 0 <= b < |tree| ==> 0 <= tree[b].to < n)
    && (forall b :: 1 <= b < |tree| ==> SettledBefore(tree, b))
  }

  /** Entry b of the tree starts at a colour settled by an earlier entry. */
  ghost predicate SettledBefore(tree: seq<Node>, b: int)
    requires 0 <= b < |tree|
  {
    tree[b].index in Targets(tree)[..b]
  }

  lemma TreeFacts(m: Mst, colors: seq<RGBPixel>)
    requires WellFormedMst(m, colors) && NoDuplicates(colors)
    ensures SettleOrder(m.tree, |colors|)
    ensures SentinelFirst(m.tree)
  {
    var order := Targets(m.tree);
    forall b | 1 <= b < |m.tree|
      ensures SettledBefore(m.tree, b)
    {
      assert m.tree[b].index in order[..b];
    }
    forall a | 1 <= a < |m.tree|
      ensures m.tree[a].weight > 0
    {
      var i := m.tree[a].index;
      assert i in order[..a];
      var c :| 0 <= c < a && order[c] == i;
      assert i != order[a];
      assert colors[i] != colors[order[a]];
    }
  }

  /** An entry of a sub-multiset, other than the leading sentinel, is a tree
      edge from a colour settled before its target. */
  lemma KeptEntry(tree: seq<Node>, n: nat, r: seq<Node>, j: int) returns (b: int)
    requires SettleOrder(tree, n) && multiset(r) <= multiset(tree)
    requires |r| > 0 && r[0] == Sentinel && 1 <= j < |r|
    ensures 1 <= b < |tree| && tree[b] == r[j]
    ensures 0 <= r[j].index < n && 0 <= r[j].to < n
    ensures RankOf(tree, n)[r[j].to] == b && RankOf(tree, n)[r[j].index] < b
  {
    b := EntryPosition(tree, r, j);
    if b == 0 {
      TwoPositions(r, 0, j);
      DistinctTargetsOnce(tree, Sentinel);
    }
    RankIsPosition(tree, n, b);
    assert SettledBefore(tree, b);
    assert r[j].index in Targets(tree)[..b];
    var c :| 0 <= c < b && Targets(tree)[c] == r[j].index;
    RankIsPosition(tree, n, c);
  }

  /** Entries of a sub-multiset of the tree have distinct targets. */
  lemma KeptTargetsDistinct(tree: seq<Node>, r: seq<Node>, j: int, j': int)
    requires NoDuplicates(Targets(tree)) && multiset(r) <= multiset(tree)
    requires 0 <= j < j' < |r|
    ensures r[j].to != r[j'].to
  {
    var b := EntryPosition(tree, r, j);
    var b' := EntryPosition(tree, r, j');
    if r[j].to == r[j'].to {
      assert Targets(tree)[b] == Targets(tree)[b'];
      TwoPositions(r, j, j');
      DistinctTargetsOnce(tree, r[j]);
    }
  }

  /** Entries of a sub-multiset of the tree behind a leading sentinel are tree
      edges from a colour settled before their target. */
  lemma KeptEdgesRanked(tree: seq<Node>, n: nat, r: seq<Node>)
    requires SettleOrder(tree, n) && multiset(r) <= multiset(tree)
    requires r != [] ==> r[0] == Sentinel
    ensures forall a :: 1 <= a < |r| ==>
      0 <= r[a].index < n && 0 <= r[a].to < n && RankOf(tree, n)[r[a].index] < RankOf(tree, n)[r[a].to]
  {
    forall a | 1 <= a < |r|
      ensures 0 <= r[a].index < n && 0 <= r[a].to < n && RankOf(tree, n)[r[a].index] < RankOf(tree, n)[r[a].to]
    {
      var b := KeptEntry(tree, n, r, a);
    }
  }

  /** After the cut, the entries behind the leading sentinel are forest edges
      over the colours, ranked by settling order. */
  lemma KeptEdgesOk(tree: seq<Node>, n: nat, r: seq<Node>)
    requires SettleOrder(tree, n) && multiset(r) <= multiset(tree)
    requires r != [] ==> r[0] == Sentinel
    ensures EdgesOk(Kept(r), RankOf(tree, n))
  {
    if r != [] {
      KeptEdgesRanked(tree, n, r);
      forall a, a' | 1 <= a < a' < |r|
        ensures r[a].to != r[a'].to
      {
        KeptTargetsDistinct(tree, r, a, a');
      }
      var E := r[1..];
      assert Kept(r) == E;
      assert forall a :: 0 <= a < |E| ==> E[a] == r[a + 1];
    }
  }

  /** The entries the palette pass links after n cuts are forest edges over
      the colours, ranked by settling order; there are V-1-n of them while
      the sentinel survives and none once everything is cut. */
  lemma CutEdgesOk(m: Mst, colors: seq<RGBPixel>, n: int)
    requires WellFormedMst(m, colors) && NoDuplicates(colors) && n <= |colors|
    ensures EdgesOk(Kept(Prune(m.tree, n).value), RankOf(m.tree, |colors|))
    ensures |Kept(Prune(m.tree, n).value)| ==
      if n <= 0 then |colors| - 1 else if n < |colors| then |colors| - 1 - n else 0
  {
    TreeFacts(m, colors);
    CutForestEdges(m.tree, |colors|, n);
  }

  lemma CutForestEdges(tree: seq<Node>, V: nat, n: int)
    requires SettleOrder(tree, V) && SentinelFirst(tree) && n <= V
    ensures EdgesOk(Kept(Prune(tree, n).value), RankOf(tree, V))
  {
    var r := Prune(tree, n).value;
    PruneSubMultiset(tree, n);
    if n < V {
      PruneKeepsSentinel(tree, n);
    }
    KeptEdgesOk(tree, V, r);
  }

  /** A position of the tree that holds entry j of a sub-multiset. */
  lemma EntryPosition(tree: seq<Node>, r: seq<Node>, j: int) returns (b: int)
    requires multiset(r) <= multiset(tree) && 0 <= j < |r|
    ensures 0 <= b < |tree| && tree[b] == r[j]
  {
    assert r[j] in multiset(tree);
    b :| 0 <= b < |tree| && tree[b] == r[j];
  }

  /** With distinct targets, the rank of a colour is the one position that
      attaches it. */
  lemma RankIsPosition(tree: seq<Node>, n: nat, b: int)
    requires NoDuplicates(Targets(tree)) && 0 <= b < |tree| && 0 <= tree[b].to < n
    ensures RankOf(tree, n)[tree[b].to] == b
  {
    var rank := RankOf(tree, n);
    var c := tree[b].to;
    assert Targets(tree)[rank[c]] == Targets(tree)[b];
  }
}
