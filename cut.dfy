/** Cutting the spanning tree into clusters: the first pass of palette
    extraction removes the heaviest tree entry K-1 times. */
module Cut {
  import opened Pixels

  /** Position of the first heaviest entry, as a left-to-right scan that moves
      its candidate only on a strictly heavier entry finds it; 0 for an empty
      list. */
  function Heaviest(t: seq<Node>): (i: nat)
    ensures t == [] ==> i == 0
    ensures t != [] ==> i < |t|
    ensures t != [] ==> forall j :: 0 <= j < |t| ==> t[j].weight <= t[i].weight
    ensures t != [] ==> forall j :: 0 <= j < i ==> t[j].weight < t[i].weight
  {
    if |t| <= 1 then 0
    else
      var j := Heaviest(t[..|t| - 1]);
      if t[j].weight < t[|t| - 1].weight then |t| - 1 else j
  }

  /** The scan over the tree entries that picks the entry to remove. */
  method HeaviestEntry(tree: seq<Node>) returns (index: int)
    ensures index == Heaviest(tree)
  {
    var w: int := -1;
    index := 0;
    var i := 0;
    while i < |tree|
      invariant 0 <= i <= |tree|
      invariant i == 0 ==> index == 0 && w == -1
      invariant i > 0 ==> index == Heaviest(tree[..i]) && w == tree[index].weight
    {
      assert tree[..i + 1][..i] == tree[..i];
      if w < tree[i].weight {
        w := tree[i].weight;
        index := i;
      }
      i := i + 1;
    }
    assert tree[..|tree|] == tree;
  }

  /** The list without its entry at position i. */
  function RemoveAt(t: seq<Node>, i: nat): (r: seq<Node>)
    requires i < |t|
    ensures |r| == |t| - 1
    ensures forall j :: 0 <= j < i ==> r[j] == t[j]
    ensures forall j :: i <= j < |r| ==> r[j] == t[j + 1]
  {
    t[..i] + t[i + 1..]
  }

  /** Removing the entry at position i removes one copy of it. */
  lemma RemoveAtMultiset(t: seq<Node>, i: nat)
    requires i < |t|
    ensures multiset(RemoveAt(t, i)) == multiset(t) - multiset{t[i]}
  {
    MultisetRemove(t, i);
  }

  /** The tree entries left after n removals of the first heaviest entry;
      removing from an empty list fails with ArgumentOutOfRange. */
  function Prune(t: seq<Node>, n: int): (r: Result<seq<Node>>)
    ensures r.Success? <==> n <= |t|
    ensures r.Failure? ==> r.error == ArgumentOutOfRange
    ensures r.Success? ==> |r.value| == |t| - (if n < 0 then 0 else n)
    decreases if n < 0 then 0 else n
  {
    if n <= 0 then Success(t)
    else
      match Prune(t, n - 1)
      case Failure(e) => Failure(e)
      case Success(u) =>
        if u == [] then Failure(ArgumentOutOfRange)
        else Success(RemoveAt(u, Heaviest(u)))
  }

  /** One more removal takes the first heaviest entry out of what is left. */
  lemma PruneNext(t: seq<Node>, n: nat, u: seq<Node>)
    requires Prune(t, n) == Success(u) && u != []
    ensures Prune(t, n + 1) == Success(RemoveAt(u, Heaviest(u)))
  {
  }

  /** Cutting only removes entries. */
  lemma {:induction false} PruneSubMultiset(t: seq<Node>, n: int)
    requires n <= |t|
    ensures multiset(Prune(t, n).value) <= multiset(t)
    decreases if n < 0 then 0 else n
  {
    if n > 0 {
      PruneSubMultiset(t, n - 1);
      var u := Prune(t, n - 1).value;
      RemoveSubMultiset(t, u);
      assert Prune(t, n).value == RemoveAt(u, Heaviest(u));
    }
  }

  /** Removing an entry of a sub-multiset of t leaves a sub-multiset of t. */
  lemma RemoveSubMultiset(t: seq<Node>, u: seq<Node>)
    ensures u != [] && multiset(u) <= multiset(t) ==> multiset(RemoveAt(u, Heaviest(u))) <= multiset(t)
  {
    if u != [] {
      RemoveAtMultiset(u, Heaviest(u));
    }
  }

  /** Every entry of r, a sub-multiset of t, weighs at most as much as every
      entry of t that r lacks. */
  ghost predicate LightestKept(t: seq<Node>, r: seq<Node>)
  {
    forall e, x :: e in r && x in multiset(t) - multiset(r) ==> e.weight <= x.weight
  }

  /** Every entry removed weighs at least as much as every entry left. */
  lemma {:induction false} PruneRemovesHeaviest(t: seq<Node>, n: int)
    requires n <= |t|
    ensures LightestKept(t, Prune(t, n).value)
    decreases if n < 0 then 0 else n
  {
    if n > 0 {
      PruneRemovesHeaviest(t, n - 1);
      PruneSubMultiset(t, n - 1);
      var u := Prune(t, n - 1).value;
      RemoveHeaviestStep(t, u);
      assert Prune(t, n).value == RemoveAt(u, Heaviest(u));
    }
  }

  /** Removing the heaviest entry of u keeps every entry left no heavier than
      every entry removed from t. */
  lemma RemoveHeaviestStep(t: seq<Node>, u: seq<Node>)
    ensures u != [] && multiset(u) <= multiset(t) && LightestKept(t, u) ==> LightestKept(t, RemoveAt(u, Heaviest(u)))
  {
    if u != [] && multiset(u) <= multiset(t) && LightestKept(t, u) {
      RemoveHeaviestKeeps(t, u);
    }
  }

  lemma RemoveHeaviestKeeps(t: seq<Node>, u: seq<Node>)
    requires u != [] && multiset(u) <= multiset(t) && LightestKept(t, u)
    ensures LightestKept(t, RemoveAt(u, Heaviest(u)))
  {
    var h := Heaviest(u);
    var r := RemoveAt(u, h);
    RemoveAtMultiset(u, h);
    forall e, x | e in r && x in multiset(t) - multiset(r)
      ensures e.weight <= x.weight
    {
      assert e in multiset(u);
      if x != u[h] {
        assert x in multiset(t) - multiset(u);
      }
    }
  }

  /** The root sentinel first, then entries of positive weight: the shape of
      a spanning tree over distinct colours. */
  ghost predicate SentinelFirst(t: seq<Node>)
  {
    && |t| > 0 && t[0] == Sentinel
    && forall a :: 1 <= a < |t| ==> t[a].weight > 0
  }

  /** While fewer than all entries are removed, the sentinel stays in front:
      every other entry is heavier. */
  lemma {:induction false} PruneKeepsSentinel(t: seq<Node>, n: int)
    requires SentinelFirst(t) && n < |t|
    ensures SentinelFirst(Prune(t, n).value)
    decreases if n < 0 then 0 else n
  {
    if n > 0 {
      PruneKeepsSentinel(t, n - 1);
      SentinelStep(t, n);
    } else {
      assert Prune(t, n).value == t;
    }
  }

  /** One more cut, while at least two entries are left, keeps the sentinel
      in front. */
  lemma SentinelStep(t: seq<Node>, n: int)
    requires 0 < n < |t| && SentinelFirst(Prune(t, n - 1).value)
    ensures SentinelFirst(Prune(t, n).value)
  {
    var u := Prune(t, n - 1).value;
    assert |u| >= 2;
    RemoveKeepsSentinel(u);
    assert Prune(t, n).value == RemoveAt(u, Heaviest(u));
  }

  /** With at least one entry behind the sentinel, the heaviest entry is not
      the sentinel, and removing it keeps the sentinel in front. */
  lemma RemoveKeepsSentinel(u: seq<Node>)
    requires SentinelFirst(u) && |u| >= 2
    ensures SentinelFirst(RemoveAt(u, Heaviest(u)))
  {
    var h := Heaviest(u);
    assert u[1].weight <= u[h].weight;
    var r := RemoveAt(u, h);
    forall a | 1 <= a < |r|
      ensures r[a].weight > 0
    {
      if a < h {
        assert r[a] == u[a];
      } else {
        assert r[a] == u[a + 1];
      }
    }
  }

  /** The number of removals the first loop makes for K clusters: `K - 1` in
      32-bit `int` arithmetic, so K = -2^31 asks for 2^31 - 1 removals. */
  function CutsFor(numOfClusters: int): (n: int)
    requires Int32(numOfClusters)
    ensures Int32(n)
    ensures numOfClusters > -0x8000_0000 ==> n == numOfClusters - 1
    ensures numOfClusters == -0x8000_0000 ==> n == 0x7fff_ffff
  {
    Wrap32(numOfClusters - 1)
  }

  /** The first loop: removes the first heaviest entry as often as `K - 1`
      says; removing from an empty list fails with ArgumentOutOfRange. */
  method RemoveHeaviest(tree0: seq<Node>, numOfClusters: int) returns (r: Result<seq<Node>>)
    requires Int32(numOfClusters)
    ensures r == Prune(tree0, CutsFor(numOfClusters))
  {
    var tree := tree0;
    var cuts := Wrap32(numOfClusters - 1);
    var l := 0;
    while l < cuts
      invariant 0 <= l <= |tree0| && (l <= cuts || l == 0)
      invariant Prune(tree0, l) == Success(tree)
    {
      var index := HeaviestEntry(tree);
      if index >= |tree| {
        assert Prune(tree0, cuts).Failure?;
        return Failure(ArgumentOutOfRange);
      }
      PruneNext(tree0, l, tree);
      tree := RemoveAt(tree, index);
      l := l + 1;
    }
    assert l == cuts || Prune(tree0, cuts) == Prune(tree0, 0);
    r := Success(tree);
  }
}
