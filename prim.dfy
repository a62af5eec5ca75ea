/** Prim's construction of a spanning tree over the distinct colours of an
    image, driven by the min-heap of tree records. */
module PrimMst {
  import opened Pixels
  import opened MinHeap
  import opened DistinctColors
  import opened PrimSpec

  /** MST_Weight: builds the spanning tree over the distinct colours of the
      image with Prim's algorithm and returns it with its total weight. An
      image without pixels has no colour 0 and fails with IndexOutOfRange. */
  method MstWeight(img: array2<RGBPixel>) returns (r: Result<Mst>)
    ensures r.Failure? <==> GetHeight(img) == 0 || GetWidth(img) == 0
    ensures r.Failure? ==> r.error == IndexOutOfRange
    ensures r.Success? ==> WellFormedMst(r.value, Distinct(RowMajor(img)))
  {
    var colorList := ListOfDistinctColors(img);
    var indexColor := ListOfIndexedColor(colorList);
    var size := |colorList|;
    var k, d, p := Initialize(size);
    DistinctEmpty(img);
    if size == 0 {
      return Failure(IndexOutOfRange);
    }
    p[0] := -1;
    d[0] := 0;
    var mst := Build(colorList, indexColor, k, d, p);
    r := Success(mst);
  }

  /** Pushes the root record and runs the extraction loop. */
  method Build(colorList: seq<RGBPixel>, indexColor: seq<Color>, k: array<bool>, d: array<nat>, p: array<int>)
    returns (mst: Mst)
    requires |colorList| > 0
    requires |indexColor| == |colorList| && forall i :: 0 <= i < |colorList| ==> indexColor[i] == Color(colorList[i], i)
    requires k.Length == |colorList| && d.Length == |colorList| && p.Length == |colorList|
    requires forall j :: 0 <= j < |colorList| ==> !k[j]
    requires forall j :: 1 <= j < |colorList| ==> d[j] == Unreached && p[j] == -1
    requires d[0] == 0 && p[0] == -1
    modifies k, d, p
    ensures WellFormedMst(mst, colorList)
  {
    var heap := new Heap();
    heap.Insert(Sentinel);
    Start(k[..], d[..], p[..], colorList);
    mst := Grow(colorList, indexColor, heap, k, d, p);
  }

  /** The visited flags, tentative distances and parents as the first loop
      leaves them: nothing visited, every colour but 0 unreached with no
      parent. */
  method Initialize(size: nat) returns (k: array<bool>, d: array<nat>, p: array<int>)
    ensures fresh(k) && fresh(d) && fresh(p)
    ensures k.Length == size && d.Length == size && p.Length == size
    ensures forall j :: 0 <= j < size ==> !k[j]
    ensures forall j :: 1 <= j < size ==> d[j] == Unreached && p[j] == -1
  {
    k := new bool[size](_ => false);
    p := new int[size](_ => 0);
    d := new nat[size](_ => 0);
    var i := 1;
    while i < size
      modifies k, d, p
      invariant 1 <= i && (i <= size || size == 0)
      invariant forall j :: 0 <= j < size ==> !k[j]
      invariant forall j :: 1 <= j < i && j < size ==> d[j] == Unreached && p[j] == -1
    {
      k[i] := false;
      d[i] := Unreached;
      p[i] := -1;
      i := i + 1;
    }
  }

  /** The main loop: extracts records until the heap is empty, then sums the
      tentative distances into the tree weight. */
  method Grow(colorList: seq<RGBPixel>, indexColor: seq<Color>, heap: Heap, k: array<bool>, d: array<nat>, p: array<int>)
    returns (mst: Mst)
    requires |indexColor| == |colorList| && forall i :: 0 <= i < |colorList| ==> indexColor[i] == Color(colorList[i], i)
    requires heap.Valid() && Progress(multiset(heap.elements), [], [], k[..], d[..], p[..], colorList, 0)
    modifies heap, k, d, p
    ensures WellFormedMst(mst, colorList)
  {
    var tree := [];
    ghost var order: seq<int> := [];
    while !heap.Empty()
      invariant heap.Valid()
      invariant Progress(multiset(heap.elements), tree, order, k[..], d[..], p[..], colorList, |order|)
      decreases |colorList| - |order|, |heap.elements|
    {
      tree, order := ExtractAndRelax(colorList, indexColor, heap, k, d, p, tree, order);
    }
    Finished(multiset(heap.elements), tree, order, k[..], d[..], p[..], colorList, indexColor);
    var weight := TotalWeight(d);
    mst := Mst(weight, tree, p[..], indexColor);
  }

  /** One round of the main loop: extracts a lightest record; a record of a
      visited colour is dropped, otherwise its colour is settled and every
      other colour is offered the edge from it. Either one more colour is
      settled or the heap shrinks. */
  method ExtractAndRelax(colorList: seq<RGBPixel>, indexColor: seq<Color>, heap: Heap, k: array<bool>, d: array<nat>, p: array<int>,
                         tree0: seq<Node>, ghost order0: seq<int>)
    returns (tree: seq<Node>, ghost order: seq<int>)
    requires |indexColor| == |colorList| && forall i :: 0 <= i < |colorList| ==> indexColor[i] == Color(colorList[i], i)
    requires heap.Valid() && heap.elements != []
    requires Progress(multiset(heap.elements), tree0, order0, k[..], d[..], p[..], colorList, |order0|)
    modifies heap, k, d, p
    ensures heap.Valid()
    ensures Progress(multiset(heap.elements), tree, order, k[..], d[..], p[..], colorList, |order|)
    ensures |order0| < |order| <= |colorList| || (order == order0 && |heap.elements| < old(|heap.elements|))
  {
    tree, order := tree0, order0;
    ghost var hm, k0, d0, p0 := multiset(heap.elements), k[..], d[..], p[..];
    var res := heap.ExtractMin();
    var node := res.value;
    Extract(hm, tree, order, k0, d0, p0, colorList, node);
    var index := node.to;
    if k[index] {
      assert k[..] == k0 && d[..] == d0 && p[..] == p0;
      return;
    }
    assert k[..] == k0 && d[..] == d0 && p[..] == p0;
    tree := tree + [node];
    order := order + [index];
    Attach(index, indexColor[index].val, colorList, k, d, p, heap, tree, order);
  }

  /** Marks colour x visited and relaxes every colour through it. */
  method Attach(x: int, color1: RGBPixel, colorList: seq<RGBPixel>, k: array<bool>, d: array<nat>, p: array<int>, heap: Heap,
                ghost tree: seq<Node>, ghost order: seq<int>)
    requires heap.Valid()
    requires |order| > 0 && x == order[|order| - 1] && 0 <= x < |colorList| && k.Length == |colorList|
    requires color1 == colorList[x]
    requires Progress(multiset(heap.elements), tree, order, k[..][x := true], d[..], p[..], colorList, |order| - 1)
    modifies k, d, p, heap
    ensures heap.Valid()
    ensures Progress(multiset(heap.elements), tree, order, k[..], d[..], p[..], colorList, |order|)
  {
    k[x] := true;
    assert k[..] == old(k[..])[x := true];
    RelaxThrough(x, color1, colorList, k, d, p, heap, tree, order);
  }

  /** The sum of the tentative distances, which end as the tree edge weights. */
  method TotalWeight(d: array<nat>) returns (weight: nat)
    ensures weight == Sum(d[..])
  {
    weight := 0;
    var i := 0;
    while i < d.Length
      invariant 0 <= i <= d.Length
      invariant weight == Sum(d[..i])
    {
      assert d[..i + 1][..i] == d[..i];
      weight := weight + d[i];
      i := i + 1;
    }
    assert d[..d.Length] == d[..];
  }

  /** Offers every unvisited colour the edge from the newly settled colour x,
      pushing a record for each colour it brings closer. */
  method RelaxThrough(x: int, color1: RGBPixel, colorList: seq<RGBPixel>, k: array<bool>, d: array<nat>, p: array<int>, heap: Heap,
                      ghost tree: seq<Node>, ghost order: seq<int>)
    requires heap.Valid()
    requires |order| > 0 && x == order[|order| - 1] && 0 <= x < |colorList| && k.Length == |colorList| && k[x]
    requires color1 == colorList[x]
    requires Progress(multiset(heap.elements), tree, order, k[..], d[..], p[..], colorList, |order| - 1)
    modifies d, p, heap
    ensures heap.Valid()
    ensures Progress(multiset(heap.elements), tree, order, k[..], d[..], p[..], colorList, |order|)
  {
    var j := 0;
    while j < |colorList|
      invariant 0 <= j <= |colorList|
      invariant heap.Valid()
      invariant Progress(multiset(heap.elements), tree, order, k[..], d[..], p[..], colorList, |order| - 1)
      invariant Relaxed(k[..], d[..], x, colorList, j)
    {
      var color2 := colorList[j];
      if j != x && !k[j] && SquaredDistance(color1, color2) < d[j] {
        Improve(x, j, SquaredDistance(color1, color2), colorList, k, d, p, heap, tree, order);
      } else {
        Skip(k[..], d[..], x, colorList, j);
      }
      j := j + 1;
    }
    RelaxedAll(multiset(heap.elements), tree, order, k[..], d[..], p[..], colorList);
  }

  /** Lowers the tentative distance of colour j to its distance from x,
      makes x its parent and pushes the record of that edge. */
  method Improve(x: int, j: int, dist: nat, colorList: seq<RGBPixel>, k: array<bool>, d: array<nat>, p: array<int>, heap: Heap,
                 ghost tree: seq<Node>, ghost order: seq<int>)
    requires heap.Valid()
    requires |order| > 0 && x == order[|order| - 1] && 0 <= x < |colorList| && k.Length == |colorList| && k[x]
    requires d.Length == |colorList| && p.Length == |colorList|
    requires 0 <= j < |colorList| && !k[j] && dist == SquaredDistance(colorList[x], colorList[j]) && dist < d[j]
    requires Progress(multiset(heap.elements), tree, order, k[..], d[..], p[..], colorList, |order| - 1)
    requires Relaxed(k[..], d[..], x, colorList, j)
    modifies d, p, heap
    ensures heap.Valid()
    ensures Progress(multiset(heap.elements), tree, order, k[..], d[..], p[..], colorList, |order| - 1)
    ensures Relaxed(k[..], d[..], x, colorList, j + 1)
  {
    ghost var hm, d0, p0 := multiset(heap.elements), d[..], p[..];
    Relax(hm, tree, order, k[..], d0, p0, colorList, x, j);
    d[j] := dist;
    p[j] := x;
    heap.Insert(Node(x, j, dist));
    assert d[..] == d0[j := dist] && p[..] == p0[j := x];
  }
}
