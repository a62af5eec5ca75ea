/** The binary min-heap of tree records that drives the MST construction,
    stored in a growable list and ordered by weight. */
module MinHeap {
  import opened Pixels

  /** Index of the parent slot; -1 for the root and for negative indices. */
  function Parent(i: int): (r: int)
    ensures i <= 0 ==> r == -1
    ensures i > 0 ==> 0 <= r < i && (2 * r + 1 == i || 2 * r + 2 == i)
  {
    if i <= 0 then -1 else (i - 1) / 2
  }

  /** Index of the left child slot. */
  function Left(i: int): (r: int)
    ensures i >= 0 ==> i < r && Parent(r) == i
  {
    2 * i + 1
  }

  /** Index of the right child slot, just after the left one. */
  function Right(i: int): (r: int)
    ensures i >= 0 ==> r == Left(i) + 1 && Parent(r) == i
  {
    2 * i + 2
  }

  /** Every record weighs at least as much as the record in its parent slot. */
  ghost predicate HeapOrdered(s: seq<Node>)
  {
    forall i :: 0 < i < |s| ==> s[Parent(i)].weight <= s[i].weight
  }

  /** Heap order holds except between slot k and its parent; the parent of k
      is still no heavier than the children of k. This is what `HeapifyUp(k)`
      repairs. */
  ghost predicate OrderedExceptUp(s: seq<Node>, k: int)
  {
    && (forall i :: 0 < i < |s| && i != k ==> s[Parent(i)].weight <= s[i].weight)
    && (k > 0 ==> forall i :: 0 < i < |s| && Parent(i) == k ==> s[Parent(k)].weight <= s[i].weight)
  }

  /** Heap order holds except between slot k and its children; the parent of k
      is no heavier than the children of k. This is what `MinHeapify(k)`
      repairs. */
  ghost predicate OrderedExceptDown(s: seq<Node>, k: int)
  {
    && (forall i :: 0 < i < |s| && Parent(i) != k ==> s[Parent(i)].weight <= s[i].weight)
    && (k > 0 ==> forall i :: 0 < i < |s| && Parent(i) == k ==> s[Parent(k)].weight <= s[i].weight)
  }

  /** In a heap-ordered list the root is a lightest record. */
  lemma {:induction false} RootIsMinimum(s: seq<Node>, i: nat)
    requires HeapOrdered(s) && i < |s|
    ensures s[0].weight <= s[i].weight
    decreases i
  {
    if i > 0 {
      RootIsMinimum(s, Parent(i));
    }
  }

  /** Exchanging slot k with its lighter child m moves the defect down to m. */
  lemma SiftDownStep(s: seq<Node>, k: nat, m: nat)
    requires OrderedExceptDown(s, k)
    requires m < |s| && Parent(m) == k && s[m].weight < s[k].weight
    requires forall c :: 0 < c < |s| && Parent(c) == k ==> s[m].weight <= s[c].weight
    ensures OrderedExceptDown(s[k := s[m]][m := s[k]], m)
  {
    var t := s[k := s[m]][m := s[k]];
    forall i | 0 < i < |t| && Parent(i) != m
      ensures t[Parent(i)].weight <= t[i].weight
    {
      if i == m {
      } else if Parent(i) == k {
        assert t[i] == s[i];
      } else if i == k {
        assert t[Parent(i)] == s[Parent(i)];
      } else {
        assert t[i] == s[i] && t[Parent(i)] == s[Parent(i)];
      }
    }
    forall i | 0 < i < |t| && Parent(i) == m
      ensures t[Parent(m)].weight <= t[i].weight
    {
      assert t[i] == s[i];
    }
  }

  /** A defect at k whose children are no lighter than k is no defect. */
  lemma SiftDownDone(s: seq<Node>, k: nat)
    requires OrderedExceptDown(s, k)
    requires forall c :: 0 < c < |s| && Parent(c) == k ==> s[k].weight <= s[c].weight
    ensures HeapOrdered(s)
  {
  }

  /** Exchanging slot k with its heavier parent moves the defect up. */
  lemma SiftUpStep(s: seq<Node>, k: nat)
    requires k < |s| && OrderedExceptUp(s, k)
    requires k > 0 && s[Parent(k)].weight > s[k].weight
    ensures OrderedExceptUp(s[k := s[Parent(k)]][Parent(k) := s[k]], Parent(k))
  {
    var p := Parent(k);
    var t := s[k := s[p]][p := s[k]];
    forall i | 0 < i < |t| && i != p
      ensures t[Parent(i)].weight <= t[i].weight
    {
      if i == k {
      } else if Parent(i) == k {
        assert t[i] == s[i];
      } else if Parent(i) == p {
        assert t[i] == s[i];
      } else {
        assert t[i] == s[i] && t[Parent(i)] == s[Parent(i)];
      }
    }
    if p > 0 {
      forall i | 0 < i < |t| && Parent(i) == p
        ensures t[Parent(p)].weight <= t[i].weight
      {
        assert t[Parent(p)] == s[Parent(p)];
        if i != k {
          assert t[i] == s[i];
        }
      }
    }
  }

  /** Exchanging two slots only moves records. */
  lemma SwapKeepsMultiset(s: seq<Node>, i: nat, j: nat)
    requires i < |s| && j < |s|
    ensures multiset(s[i := s[j]][j := s[i]]) == multiset(s)
  {
    var t := s[i := s[j]];
    assert multiset(t) == multiset(s) - multiset{s[i]} + multiset{s[j]};
    assert multiset(t[j := s[i]]) == multiset(t) - multiset{t[j]} + multiset{s[i]};
  }

  /** Moving the last record of a heap-ordered list into the root slot and
      dropping the last slot removes one lightest record and leaves the defect
      at the root, for `MinHeapify(0)` to repair. */
  lemma RemoveRoot(s: seq<Node>)
    requires HeapOrdered(s) && |s| > 0
    ensures forall x :: x in s ==> s[0].weight <= x.weight
    ensures var t := s[0 := s[|s| - 1]][..|s| - 1];
      && multiset(t) == multiset(s) - multiset{s[0]}
      && OrderedExceptDown(t, 0)
  {
    forall x | x in s
      ensures s[0].weight <= x.weight
    {
      var i :| 0 <= i < |s| && s[i] == x;
      RootIsMinimum(s, i);
    }
    var t := s[0 := s[|s| - 1]][..|s| - 1];
    if |s| > 1 {
      assert s == [s[0]] + s[1..|s| - 1] + [s[|s| - 1]];
      assert t == [s[|s| - 1]] + s[1..|s| - 1];
    } else {
      assert t == [];
    }
    forall i | 0 < i < |t| && Parent(i) != 0
      ensures t[Parent(i)].weight <= t[i].weight
    {
      assert t[i] == s[i] && t[Parent(i)] == s[Parent(i)];
    }
  }

  class Heap {
    var elements: seq<Node>

    /** The class invariant: the list is heap-ordered. */
    ghost predicate Valid()
      reads this
    {
      HeapOrdered(elements)
    }

    constructor ()
      ensures Valid() && elements == []
    {
      elements := [];
    }

    function Empty(): (b: bool)
      reads this
      ensures b <==> elements == []
    {
      if |elements| > 0 then false else true
    }

    /** Removes and returns a lightest record; fails on an empty heap. */
    method ExtractMin() returns (r: Result<Node>)
      requires Valid()
      modifies this
      ensures Valid()
      ensures old(elements) == [] ==> r == Failure(InvalidOperation) && elements == old(elements)
      ensures old(elements) != [] ==>
        && r.Success?
        && r.value in old(elements)
        && (forall x :: x in old(elements) ==> r.value.weight <= x.weight)
        && |elements| == |old(elements)| - 1
        && multiset(elements) == multiset(old(elements)) - multiset{r.value}
    {
      if |elements| > 0 {
        var min := elements[0];
        RemoveRoot(elements);
        elements := elements[0 := elements[|elements| - 1]];
        elements := elements[..|elements| - 1];
        MinHeapify(0);
        return Success(min);
      }
      return Failure(InvalidOperation);
    }

    /** Sifts the record at `index` down until neither child is lighter. */
    method MinHeapify(index: nat)
      requires OrderedExceptDown(elements, index)
      modifies this
      ensures HeapOrdered(elements)
      ensures |elements| == |old(elements)|
      ensures multiset(elements) == multiset(old(elements))
      decreases |elements| - index
    {
      var smallest := index;
      var left := Left(index);
      var right := Right(index);
      if left < |elements| && elements[left].weight < elements[smallest].weight {
        smallest := left;
      }
      if right < |elements| && elements[right].weight < elements[smallest].weight {
        smallest := right;
      }
      assert forall c :: 0 < c < |elements| && Parent(c) == index ==> c == left || c == right;
      if smallest != index {
        SiftDownStep(elements, index, smallest);
        SwapKeepsMultiset(elements, index, smallest);
        var temp := elements[index];
        elements := elements[index := elements[smallest]];
        elements := elements[smallest := temp];
        MinHeapify(smallest);
      } else {
        SiftDownDone(elements, index);
      }
    }

    /** Appends a record at a new leaf and sifts it up. */
    method Insert(element: Node)
      requires Valid()
      modifies this
      ensures Valid()
      ensures |elements| == |old(elements)| + 1
      ensures multiset(elements) == multiset(old(elements)) + multiset{element}
    {
      elements := elements + [element];
      HeapifyUp(|elements| - 1);
    }

    /** Sifts the record at `index` up while its parent is heavier. */
    method HeapifyUp(index: nat)
      requires index < |elements|
      requires OrderedExceptUp(elements, index)
      modifies this
      ensures HeapOrdered(elements)
      ensures |elements| == |old(elements)|
      ensures multiset(elements) == multiset(old(elements))
      decreases index
    {
      var parent := Parent(index);
      if parent >= 0 && elements[parent].weight > elements[index].weight {
        SiftUpStep(elements, index);
        SwapKeepsMultiset(elements, index, parent);
        var temp := elements[index];
        elements := elements[index := elements[parent]];
        elements := elements[parent := temp];
        HeapifyUp(parent);
      }
    }
  }
}
