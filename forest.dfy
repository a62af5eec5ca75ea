/** The forest left after the heaviest tree entries are cut: every colour has
    at most one parent, and parents rank strictly lower than their children
    (the rank is the position at which the spanning-tree construction
    settled the colour). Components, roots and the direction towards a chosen
    start node are defined here. */
module Forest {

  /** up[c] is the parent of c, or -1 when c is the root of its tree; every
      parent ranks lower than its child. */
  ghost predicate ForestOk(up: seq<int>, rank: seq<nat>)
  {
    && |rank| == |up|
    && forall c :: 0 <= c < |up| ==> up[c] == -1 || (0 <= up[c] < |up| && rank[up[c]] < rank[c])
  }

  /** The root of the tree that contains c. */
  ghost function Root(up: seq<int>, rank: seq<nat>, c: int): (r: int)
    requires ForestOk(up, rank) && 0 <= c < |up|
    ensures 0 <= r < |up| && up[r] == -1
    decreases rank[c]
  {
    if up[c] == -1 then c else Root(up, rank, up[c])
  }

  /** x and y are joined by an edge of the forest. */
  ghost predicate Adjacent(up: seq<int>, x: int, y: int)
    requires 0 <= x < |up| && 0 <= y < |up|
  {
    up[x] == y || up[y] == x
  }

  /** No colour is its own neighbour. */
  lemma NotSelfAdjacent(up: seq<int>, rank: seq<nat>, x: int)
    requires ForestOk(up, rank) && 0 <= x < |up|
    ensures !Adjacent(up, x, x)
  {
  }

  /** The two ends of an edge lie in the same tree. */
  lemma AdjacentSameRoot(up: seq<int>, rank: seq<nat>, x: int, y: int)
    requires ForestOk(up, rank) && 0 <= x < |up| && 0 <= y < |up|
    requires Adjacent(up, x, y)
    ensures Root(up, rank, x) == Root(up, rank, y)
  {
  }

  /** a lies on the path from c up to its root (c included). */
  ghost predicate IsAncestor(up: seq<int>, rank: seq<nat>, a: int, c: int)
    requires ForestOk(up, rank) && 0 <= c < |up|
    decreases rank[c]
  {
    a == c || (up[c] != -1 && IsAncestor(up, rank, a, up[c]))
  }

  lemma {:induction false} AncestorFacts(up: seq<int>, rank: seq<nat>, a: int, c: int)
    requires ForestOk(up, rank) && 0 <= c < |up| && IsAncestor(up, rank, a, c)
    ensures 0 <= a < |up| && rank[a] <= rank[c]
    ensures a != c ==> rank[a] < rank[c]
    ensures Root(up, rank, a) == Root(up, rank, c)
    decreases rank[c]
  {
    if a != c {
      AncestorFacts(up, rank, a, up[c]);
    }
  }

  lemma {:induction false} RootIsAncestor(up: seq<int>, rank: seq<nat>, c: int)
    requires ForestOk(up, rank) && 0 <= c < |up|
    ensures IsAncestor(up, rank, Root(up, rank, c), c)
    decreases rank[c]
  {
    if up[c] != -1 {
      RootIsAncestor(up, rank, up[c]);
    }
  }

  /** The parent of an ancestor is an ancestor too. */
  lemma {:induction false} AncestorParent(up: seq<int>, rank: seq<nat>, a: int, c: int)
    requires ForestOk(up, rank) && 0 <= c < |up| && IsAncestor(up, rank, a, c)
    requires 0 <= a < |up| && up[a] != -1
    ensures IsAncestor(up, rank, up[a], c)
    decreases rank[c]
  {
    if a != c {
      AncestorParent(up, rank, a, up[c]);
    }
  }

  /** Two ancestors of the same node lie on one path: one is an ancestor of
      the other. */
  lemma {:induction false} AncestorsOnOnePath(up: seq<int>, rank: seq<nat>, a: int, b: int, c: int)
    requires ForestOk(up, rank) && 0 <= c < |up|
    requires IsAncestor(up, rank, a, c) && IsAncestor(up, rank, b, c)
    ensures 0 <= a < |up| && 0 <= b < |up|
    ensures IsAncestor(up, rank, a, b) || IsAncestor(up, rank, b, a)
    decreases rank[c]
  {
    AncestorFacts(up, rank, a, c);
    AncestorFacts(up, rank, b, c);
    if a != c && b != c {
      AncestorsOnOnePath(up, rank, a, b, up[c]);
    }
  }

  /** Among the ancestors of c, at most one has parent a. */
  lemma AncestorChildUnique(up: seq<int>, rank: seq<nat>, c: int, b1: int, b2: int)
    requires ForestOk(up, rank) && 0 <= c < |up|
    requires IsAncestor(up, rank, b1, c) && IsAncestor(up, rank, b2, c)
    requires 0 <= b1 < |up| && 0 <= b2 < |up| && up[b1] != -1 && up[b1] == up[b2]
    ensures b1 == b2
  {
    AncestorsOnOnePath(up, rank, b1, b2, c);
    if b1 != b2 {
      if IsAncestor(up, rank, b1, b2) {
        AncestorFacts(up, rank, b1, up[b2]);
      } else {
        AncestorFacts(up, rank, b2, up[b1]);
      }
    }
  }

  /** For a proper ancestor a of c: the node on the path from c whose parent
      is a. */
  ghost function ChildToward(up: seq<int>, rank: seq<nat>, c: int, a: int): (b: int)
    requires ForestOk(up, rank) && 0 <= c < |up|
    requires IsAncestor(up, rank, a, c) && a != c
    ensures 0 <= b < |up| && up[b] == a && IsAncestor(up, rank, b, c)
    decreases rank[c]
  {
    if up[c] == a then c else ChildToward(up, rank, up[c], a)
  }

  /** For y in the tree of p, y != p: the neighbour of y on the path from y to
      p. Going up from y when p is not below y, otherwise down towards p. */
  ghost function Toward(up: seq<int>, rank: seq<nat>, p: int, y: int): (t: int)
    requires ForestOk(up, rank) && 0 <= p < |up| && 0 <= y < |up| && y != p
    requires Root(up, rank, y) == Root(up, rank, p)
    ensures 0 <= t < |up| && Adjacent(up, y, t)
    ensures Root(up, rank, t) == Root(up, rank, p)
  {
    RootIsAncestor(up, rank, p);
    if IsAncestor(up, rank, y, p) then
      ChildToward(up, rank, p, y)
    else
      up[y]
  }

  /** Every edge of the tree of p points towards p in one of its directions:
      an edge at p is the last step towards p, and of any other edge one end
      is the step towards p of the other. */
  lemma TowardOrient(up: seq<int>, rank: seq<nat>, p: int, x: int, y: int)
    requires ForestOk(up, rank) && 0 <= p < |up| && 0 <= x < |up| && 0 <= y < |up|
    requires Adjacent(up, x, y) && y != p && Root(up, rank, x) == Root(up, rank, p)
    ensures Root(up, rank, y) == Root(up, rank, p)
    ensures x == p ==> Toward(up, rank, p, y) == x
    ensures x != p ==> Toward(up, rank, p, x) == y || Toward(up, rank, p, y) == x
  {
    AdjacentSameRoot(up, rank, x, y);
    if up[y] == x {
      if IsAncestor(up, rank, y, p) {
        AncestorFacts(up, rank, y, p);
        AncestorParent(up, rank, y, p);
        AncestorFacts(up, rank, x, p);
        var b := ChildToward(up, rank, p, x);
        AncestorChildUnique(up, rank, p, b, y);
      }
    } else {
      assert up[x] == y;
      if x == p {
        assert IsAncestor(up, rank, y, p);
      } else if IsAncestor(up, rank, x, p) {
        AncestorParent(up, rank, x, p);
        AncestorFacts(up, rank, x, p);
        AncestorFacts(up, rank, y, p);
        var b := ChildToward(up, rank, p, y);
        AncestorChildUnique(up, rank, p, b, x);
      }
    }
  }

  /** A set closed under the forest's edges reaches the root from any of its
      members. */
  lemma {:induction false} ClosedReachesRoot(up: seq<int>, rank: seq<nat>, s: set<int>, c: int)
    requires ForestOk(up, rank) && 0 <= c < |up| && c in s
    requires forall x, y :: x in s && 0 <= x < |up| && 0 <= y < |up| && Adjacent(up, x, y) ==> y in s
    ensures Root(up, rank, c) in s
    decreases rank[c]
  {
    if up[c] != -1 {
      assert Adjacent(up, c, up[c]);
      ClosedReachesRoot(up, rank, s, up[c]);
    }
  }

  /** A set closed under the forest's edges that contains p contains the whole
      tree of p. */
  lemma ClosedContainsTree(up: seq<int>, rank: seq<nat>, s: set<int>, p: int, c: int)
    requires ForestOk(up, rank) && 0 <= p < |up| && 0 <= c < |up| && p in s
    requires forall x, y :: x in s && 0 <= x < |up| && 0 <= y < |up| && Adjacent(up, x, y) ==> y in s
    requires Root(up, rank, c) == Root(up, rank, p)
    ensures c in s
  {
    ClosedReachesRoot(up, rank, s, p);
    ClosedFromRoot(up, rank, s, c);
  }

  lemma {:induction false} ClosedFromRoot(up: seq<int>, rank: seq<nat>, s: set<int>, c: int)
    requires ForestOk(up, rank) && 0 <= c < |up| && Root(up, rank, c) in s
    requires forall x, y :: x in s && 0 <= x < |up| && 0 <= y < |up| && Adjacent(up, x, y) ==> y in s
    ensures c in s
    decreases rank[c]
  {
    if up[c] != -1 {
      ClosedFromRoot(up, rank, s, up[c]);
      assert Adjacent(up, up[c], c);
    }
  }

  /** The roots among the first n colours. */
  ghost function RootsBelow(up: seq<int>, n: nat): (r: set<int>)
    requires n <= |up|
    ensures forall c :: c in r <==> 0 <= c < n && up[c] == -1
  {
    if n == 0 then {}
    else if up[n - 1] == -1 then RootsBelow(up, n - 1) + {n - 1}
    else RootsBelow(up, n - 1)
  }

  /** The colours among the first n that have a parent. */
  ghost function ChildrenBelow(up: seq<int>, n: nat): (r: set<int>)
    requires n <= |up|
    ensures forall c :: c in r <==> 0 <= c < n && up[c] != -1
  {
    if n == 0 then {}
    else if up[n - 1] != -1 then ChildrenBelow(up, n - 1) + {n - 1}
    else ChildrenBelow(up, n - 1)
  }

  /** Every colour is either a root or has a parent. */
  lemma {:induction false} RootsAndChildren(up: seq<int>, n: nat)
    requires n <= |up|
    ensures |RootsBelow(up, n)| + |ChildrenBelow(up, n)| == n
  {
    if n > 0 {
      RootsAndChildren(up, n - 1);
      var roots, children := RootsBelow(up, n - 1), ChildrenBelow(up, n - 1);
      if up[n - 1] == -1 {
        assert RootsBelow(up, n) == roots + {n - 1} && ChildrenBelow(up, n) == children;
        AddNew(roots, n - 1);
      } else {
        assert RootsBelow(up, n) == roots && ChildrenBelow(up, n) == children + {n - 1};
        AddNew(children, n - 1);
      }
    }
  }

  lemma AddNew(s: set<int>, x: int)
    requires x !in s
    ensures |s + {x}| == |s| + 1
  {}
}
