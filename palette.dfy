/** Extract_color_palette: cuts the K-1 heaviest entries out of the spanning
    tree, turns the remaining entries into adjacency lists and paints every
    cluster of the resulting forest with its mean colour. */
module Palette {
  import opened Pixels
  import opened PrimSpec
  import opened Forest
  import opened Cut
  import opened Adjacency
  import opened Clusters

  /** The parent links of a set of forest edges. */
  ghost function ForestUp(E: seq<Node>, rank: seq<nat>): (up: seq<int>)
    requires EdgesOk(E, rank)
    ensures ForestOk(up, rank)
  {
    UpOfSpec(E, rank);
    UpOf(E, |rank|)
  }

  /** What the palette pass needs of the spanning tree over the colour list:
      the settling order of its entries, the sentinel in front, distinct
      colours, one parent slot and one indexed colour per colour. */
  ghost predicate PaletteInput(m: Mst, colors: seq<RGBPixel>)
  {
    && SettleOrder(m.tree, |colors|) && SentinelFirst(m.tree) && NoDuplicates(colors)
    && |m.parent| == |colors| && |m.indexColor| == |colors|
    && forall i :: 0 <= i < |colors| ==> m.indexColor[i].val == colors[i]
  }

  /** Every spanning tree the construction delivers over distinct colours is
      a valid input of the palette pass. */
  lemma MstFacts(m: Mst, colors: seq<RGBPixel>)
    requires WellFormedMst(m, colors) && NoDuplicates(colors)
    ensures PaletteInput(m, colors)
  {
    TreeFacts(m, colors);
  }

  /** The parent links of the forest left after the cut for K clusters. */
  ghost function CutUp(m: Mst, colors: seq<RGBPixel>, numOfClusters: int): (up: seq<int>)
    requires PaletteInput(m, colors) && Int32(numOfClusters) && CutsFor(numOfClusters) <= |colors|
    ensures ForestOk(up, RankOf(m.tree, |colors|))
  {
    CutForestEdges(m.tree, |colors|, CutsFor(numOfClusters));
    ForestUp(Kept(Prune(m.tree, CutsFor(numOfClusters)).value), RankOf(m.tree, |colors|))
  }

  /** The roots of the trees met among the first n colours. */
  ghost function RootsSeen(up: seq<int>, rank: seq<nat>, n: nat): (s: set<int>)
    requires ForestOk(up, rank) && n <= |up|
    ensures forall c :: c in s ==> 0 <= c < |up| && up[c] == -1
    ensures forall y :: 0 <= y < n ==> Root(up, rank, y) in s
  {
    if n == 0 then {} else RootsSeen(up, rank, n - 1) + {Root(up, rank, n - 1)}
  }

  /** Once every colour has been met, the roots met are all the roots. */
  lemma AllRootsSeen(up: seq<int>, rank: seq<nat>)
    requires ForestOk(up, rank)
    ensures RootsSeen(up, rank, |up|) == RootsBelow(up, |up|)
  {
    var seen := RootsSeen(up, rank, |up|);
    var roots := RootsBelow(up, |up|);
    forall c | c in roots
      ensures c in seen
    {
      assert Root(up, rank, c) == c;
    }
    forall c | c in seen
      ensures c in roots
    {
    }
    assert seen == roots;
  }

  /** A list without repeats has as many distinct elements as entries. */
  lemma {:induction false} NoDupCard(s: seq<int>)
    requires NoDuplicates(s)
    ensures |set x | x in s| == |s|
  {
    if s != [] {
      var m := |s| - 1;
      assert s == s[..m] + [s[m]];
      NoDupCard(s[..m]);
      assert (set x | x in s) == (set x | x in s[..m]) + {s[m]};
      assert s[m] !in s[..m];
    }
  }

  /** The forest of the edges E over n colours has n - |E| trees. */
  lemma ForestRoots(E: seq<Node>, rank: seq<nat>)
    requires EdgesOk(E, rank)
    ensures |RootsBelow(UpOf(E, |rank|), |rank|)| == |rank| - |E|
  {
    var n := |rank|;
    var up := UpOf(E, n);
    RootsAndChildren(up, n);
    ChildrenAreTargets(E, rank);
    NoDupCard(Targets(E));
  }

  /** The colours with a parent are exactly the edge targets. */
  lemma ChildrenAreTargets(E: seq<Node>, rank: seq<nat>)
    requires EdgesOk(E, rank)
    ensures NoDuplicates(Targets(E))
    ensures ChildrenBelow(UpOf(E, |rank|), |rank|) == set x | x in Targets(E)
  {
    var up := UpOf(E, |rank|);
    var t := Targets(E);
    UpOfSpec(E, rank);
    var children := ChildrenBelow(up, |rank|);
    var targets := set x | x in t;
    forall c | c in targets
      ensures c in children
    {
      var a :| 0 <= a < |t| && t[a] == c;
    }
    forall c | c in children
      ensures c in targets
    {
    }
    assert children == targets;
  }

  /** Cutting for K clusters leaves exactly K trees when 1 <= K <= V, one tree
      when K <= 1, and V single-colour trees when K = V + 1. K = -2^31, whose
      `K - 1` wraps to 2^31 - 1, never gets here: there are fewer colours. */
  lemma ClusterCount(m: Mst, colors: seq<RGBPixel>, numOfClusters: int)
    requires PaletteInput(m, colors) && Int32(numOfClusters) && CutsFor(numOfClusters) <= |colors|
    ensures numOfClusters > -0x8000_0000
    ensures |RootsBelow(CutUp(m, colors, numOfClusters), |colors|)| ==
      if numOfClusters <= 1 then 1 else if numOfClusters <= |colors| then numOfClusters else |colors|
  {
    ColourCount(colors);
    var rank := RankOf(m.tree, |colors|);
    var E := Kept(Prune(m.tree, numOfClusters - 1).value);
    CutForestEdges(m.tree, |colors|, numOfClusters - 1);
    assert CutUp(m, colors, numOfClusters) == UpOf(E, |rank|);
    CutCount(m.tree, rank, numOfClusters - 1);
  }

  /** K = -2^31 always fails: `K - 1` wraps to 2^31 - 1 removals, more than
      the at most 2^24 distinct colours have tree entries. */
  lemma WrappedCountFails(m: Mst, colors: seq<RGBPixel>)
    requires PaletteInput(m, colors)
    ensures CutsFor(-0x8000_0000) > |colors|
  {
    ColourCount(colors);
  }

  /** After n cuts of a list of V entries the forest of the entries that
      follow the first has V - (V - 1 - n) trees, clamped to 1..V. */
  lemma CutCount(t: seq<Node>, rank: seq<nat>, n: int)
    requires 0 < |t| == |rank| && n <= |t|
    requires EdgesOk(Kept(Prune(t, n).value), rank)
    ensures |RootsBelow(UpOf(Kept(Prune(t, n).value), |rank|), |rank|)| ==
      if n <= 0 then 1 else if n < |t| then n + 1 else |t|
  {
    ForestRoots(Kept(Prune(t, n).value), rank);
  }

  /** Marks every colour unvisited. */
  method ClearFlags(v: array<bool>)
    modifies v
    ensures forall x :: 0 <= x < v.Length ==> !v[x]
  {
    var r := 0;
    while r < v.Length
      invariant 0 <= r <= v.Length
      invariant forall x :: 0 <= x < r ==> !v[x]
    {
      v[r] := false;
      r := r + 1;
    }
  }

  /** Gives every colour an empty adjacency list. */
  method ClearLists(adj: array<seq<Neighbor>>)
    modifies adj
    ensures forall x :: 0 <= x < adj.Length ==> adj[x] == []
  {
    var i := 0;
    while i < adj.Length
      invariant 0 <= i <= adj.Length
      invariant forall x :: 0 <= x < i ==> adj[x] == []
    {
      adj[i] := [];
      i := i + 1;
    }
  }

  /** Taking one more entry of the tree appends it to the linked edges. */
  lemma KeptStep(tree: seq<Node>, i: int, n: nat)
    requires 1 <= i < |tree|
    requires forall a :: 1 <= a < |tree| ==> 0 <= tree[a].index < n && 0 <= tree[a].to < n
    ensures var e := tree[i];
            var adj0 := AdjOf(Kept(tree[..i]), n);
            var adj1 := adj0[e.index := adj0[e.index] + [Neighbor(e.to, e.weight)]];
            AdjOf(Kept(tree[..i + 1]), n) == adj1[e.to := adj1[e.to] + [Neighbor(e.index, e.weight)]]
  {
    var E := Kept(tree[..i + 1]);
    assert E[..|E| - 1] == Kept(tree[..i]);
    assert E[|E| - 1] == tree[i];
  }

  /** The adjacency loop: skips the first entry and appends every later entry
      to the list of its source and, reversed, to the list of its target. */
  method BuildAdjacency(tree: seq<Node>, adj: array<seq<Neighbor>>)
    requires forall a :: 1 <= a < |tree| ==> 0 <= tree[a].index < adj.Length && 0 <= tree[a].to < adj.Length
    requires forall x :: 0 <= x < adj.Length ==> adj[x] == []
    modifies adj
    ensures adj[..] == AdjOf(Kept(tree), adj.Length)
  {
    var k := 0;
    var i := 0;
    assert adj[..] == seq(adj.Length, _ => []);
    while i < |tree|
      invariant 0 <= i <= |tree| && k == (if i == 0 then 0 else 1)
      invariant adj[..] == AdjOf(Kept(tree[..i]), adj.Length)
    {
      var color := tree[i];
      if k == 0 {
        assert Kept(tree[..i + 1]) == [];
        k := k + 1;
        i := i + 1;
        continue;
      }
      KeptStep(tree, i, adj.Length);
      var n := Neighbor(color.to, color.weight);
      var n2 := Neighbor(color.index, color.weight);
      adj[color.index] := adj[color.index] + [n];
      adj[color.to] := adj[color.to] + [n2];
      i := i + 1;
    }
    assert tree[..|tree|] == tree;
  }

  /** The state of the driver loop after the first n colours: the visited
      colours are the trees met so far, the slot of each listed colour holds
      its cluster mean once its tree is visited and black before, and every
      other slot is black. */
  ghost predicate Painted(indexColor: seq<Color>, palette: array3<RGBPixel>, v: array<bool>,
                          up: seq<int>, rank: seq<nat>, colors: seq<RGBPixel>, n: nat)
    reads palette, v
    requires ForestOk(up, rank) && |indexColor| == |up| && |colors| == |up| && v.Length == |up| && n <= |up|
    requires palette.Length0 == 256 && palette.Length1 == 256 && palette.Length2 == 256
  {
    && (forall x :: 0 <= x < |up| ==> (v[x] <==> Root(up, rank, x) in RootsSeen(up, rank, n)))
    && (forall x :: 0 <= x < |up| ==>
          palette[colors[x].red, colors[x].blue, colors[x].green] ==
            (if v[x] then ClusterMean(indexColor, up, rank, x) else RGBPixel(0, 0, 0)))
    && BlackOutside(palette, colors)
  }

  /** Every palette slot is black, as in a freshly allocated palette. */
  ghost predicate AllBlack(palette: array3<RGBPixel>)
    reads palette
    requires palette.Length0 == 256 && palette.Length1 == 256 && palette.Length2 == 256
  {
    forall rd: Byte, gr: Byte, bl: Byte :: palette[rd, bl, gr] == RGBPixel(0, 0, 0)
  }

  /** Every palette slot that belongs to no listed colour is black. */
  ghost predicate BlackOutside(palette: array3<RGBPixel>, colors: seq<RGBPixel>)
    reads palette
    requires palette.Length0 == 256 && palette.Length1 == 256 && palette.Length2 == 256
  {
    forall rd: Byte, gr: Byte, bl: Byte :: RGBPixel(rd, gr, bl) !in colors ==> palette[rd, bl, gr] == RGBPixel(0, 0, 0)
  }

  /** avgcolor_BFS is applied once to every tree of the forest: the slot of
      each colour receives the mean of its cluster, the slots of colours not in
      the list stay black, and the number of calls is the number of trees. */
  method PaintClusters(indexColor: seq<Color>, palette: array3<RGBPixel>, v: array<bool>, adj: array<seq<Neighbor>>,
                       ghost up: seq<int>, ghost rank: seq<nat>, ghost colors: seq<RGBPixel>)
    returns (ghost calls: nat)
    requires ForestOk(up, rank) && ListsNeighbours(adj[..], up)
    requires |indexColor| == |up| && |colors| == |up| && v.Length == |up| && NoDuplicates(colors)
    requires forall i :: 0 <= i < |up| ==> indexColor[i].val == colors[i]
    requires palette.Length0 == 256 && palette.Length1 == 256 && palette.Length2 == 256
    requires forall x :: 0 <= x < |up| ==> !v[x]
    requires AllBlack(palette)
    modifies palette, v
    ensures forall x :: 0 <= x < |up| ==>
      palette[colors[x].red, colors[x].blue, colors[x].green] == ClusterMean(indexColor, up, rank, x)
    ensures BlackOutside(palette, colors)
    ensures calls == |RootsBelow(up, |up|)|
  {
    calls := 0;
    var r := 0;
    ghost var lists := adj[..];
    PaintStart(indexColor, palette, v, up, rank, colors);
    while r < v.Length
      invariant 0 <= r <= v.Length
      invariant Painted(indexColor, palette, v, up, rank, colors, r)
      invariant calls == |RootsSeen(up, rank, r)|
      invariant adj[..] == lists
    {
      calls := PaintCluster(indexColor, r, palette, v, adj, up, rank, colors, calls);
      r := r + 1;
    }
    assert r == |up|;
    PaintEnd(indexColor, palette, v, up, rank, colors);
    AllRootsSeen(up, rank);
  }

  /** Before the loop nothing is visited and the whole palette is black. */
  lemma PaintStart(indexColor: seq<Color>, palette: array3<RGBPixel>, v: array<bool>,
                   up: seq<int>, rank: seq<nat>, colors: seq<RGBPixel>)
    requires ForestOk(up, rank) && |indexColor| == |up| && |colors| == |up| && v.Length == |up|
    requires palette.Length0 == 256 && palette.Length1 == 256 && palette.Length2 == 256
    requires forall x :: 0 <= x < |up| ==> !v[x]
    requires AllBlack(palette)
    ensures Painted(indexColor, palette, v, up, rank, colors, 0)
  {
  }

  /** After the loop every tree has been met, so every colour is visited. */
  lemma PaintEnd(indexColor: seq<Color>, palette: array3<RGBPixel>, v: array<bool>,
                 up: seq<int>, rank: seq<nat>, colors: seq<RGBPixel>)
    requires ForestOk(up, rank) && |indexColor| == |up| && |colors| == |up| && v.Length == |up|
    requires palette.Length0 == 256 && palette.Length1 == 256 && palette.Length2 == 256
    requires Painted(indexColor, palette, v, up, rank, colors, |up|)
    ensures forall x :: 0 <= x < |up| ==>
      palette[colors[x].red, colors[x].blue, colors[x].green] == ClusterMean(indexColor, up, rank, x)
    ensures BlackOutside(palette, colors)
  {
    forall x | 0 <= x < |up|
      ensures v[x]
    {
      assert Root(up, rank, x) in RootsSeen(up, rank, |up|);
    }
  }

  /** A colour whose tree was already painted leaves the loop state as it is. */
  lemma SeenBefore(indexColor: seq<Color>, r: int, palette: array3<RGBPixel>, v: array<bool>,
                   up: seq<int>, rank: seq<nat>, colors: seq<RGBPixel>)
    requires ForestOk(up, rank) && |indexColor| == |up| && |colors| == |up| && v.Length == |up|
    requires palette.Length0 == 256 && palette.Length1 == 256 && palette.Length2 == 256
    requires 0 <= r < |up| && v[r] && Painted(indexColor, palette, v, up, rank, colors, r)
    ensures RootsSeen(up, rank, r + 1) == RootsSeen(up, rank, r)
    ensures Painted(indexColor, palette, v, up, rank, colors, r + 1)
  {
  }

  /** Meeting a new root adds one tree. */
  lemma SeenGrows(up: seq<int>, rank: seq<nat>, r: int)
    requires ForestOk(up, rank) && 0 <= r < |up|
    ensures RootsSeen(up, rank, r + 1) == RootsSeen(up, rank, r) + {Root(up, rank, r)}
    ensures Root(up, rank, r) !in RootsSeen(up, rank, r) ==>
      |RootsSeen(up, rank, r + 1)| == |RootsSeen(up, rank, r)| + 1
  {
  }

  /** One pass of the driver loop at colour r: an unvisited colour starts
      avgcolor_BFS, which paints its whole tree and counts one more call; a
      visited one belongs to a tree painted already. */
  method PaintCluster(indexColor: seq<Color>, r: int, palette: array3<RGBPixel>, v: array<bool>, adj: array<seq<Neighbor>>,
                      ghost up: seq<int>, ghost rank: seq<nat>, ghost colors: seq<RGBPixel>, ghost calls0: nat)
    returns (ghost calls: nat)
    requires ForestOk(up, rank) && ListsNeighbours(adj[..], up)
    requires |indexColor| == |up| && |colors| == |up| && v.Length == |up| && NoDuplicates(colors)
    requires forall i :: 0 <= i < |up| ==> indexColor[i].val == colors[i]
    requires palette.Length0 == 256 && palette.Length1 == 256 && palette.Length2 == 256
    requires 0 <= r < |up| && Painted(indexColor, palette, v, up, rank, colors, r)
    requires calls0 == |RootsSeen(up, rank, r)|
    modifies palette, v
    ensures calls == |RootsSeen(up, rank, r + 1)|
    ensures Painted(indexColor, palette, v, up, rank, colors, r + 1)
  {
    if v[r] {
      SeenBefore(indexColor, r, palette, v, up, rank, colors);
      return calls0;
    }
    ghost var seen := RootsSeen(up, rank, r);
    ghost var root := Root(up, rank, r);
    SeenGrows(up, rank, r);
    forall x | 0 <= x < |up| && Root(up, rank, x) == root
      ensures !v[x]
    {
    }
    ghost var cs := ColorsOf(indexColor, Cluster(up, rank, r));
    ghost var cm := ClusterMean(indexColor, up, rank, r);
    AvgColorBfs(indexColor, r, palette, v, adj, up, rank);
    ClusterColors(indexColor, up, rank, r, colors);
    forall x | 0 <= x < |up|
      ensures v[x] <==> Root(up, rank, x) in RootsSeen(up, rank, r + 1)
    {
    }
    forall x | 0 <= x < |up|
      ensures palette[colors[x].red, colors[x].blue, colors[x].green] ==
        (if v[x] then ClusterMean(indexColor, up, rank, x) else RGBPixel(0, 0, 0))
    {
      var c := colors[x];
      assert RGBPixel(c.red, c.green, c.blue) == c;
      assert palette[c.red, c.blue, c.green] == if c in cs then cm else old(palette[c.red, c.blue, c.green]);
      if Root(up, rank, x) == root {
        assert Cluster(up, rank, x) == Cluster(up, rank, r);
      }
    }
    forall rd: Byte, gr: Byte, bl: Byte | RGBPixel(rd, gr, bl) !in colors
      ensures palette[rd, bl, gr] == RGBPixel(0, 0, 0)
    {
      assert RGBPixel(rd, gr, bl) !in cs;
    }
    calls := calls0 + 1;
  }

  /** The colours of the cluster of p are the listed colours of exactly the
      members of the tree of p. */
  lemma ClusterColors(indexColor: seq<Color>, up: seq<int>, rank: seq<nat>, p: int, colors: seq<RGBPixel>)
    requires ForestOk(up, rank) && 0 <= p < |up| && |indexColor| == |up| && |colors| == |up| && NoDuplicates(colors)
    requires forall i :: 0 <= i < |up| ==> indexColor[i].val == colors[i]
    ensures forall c :: c in ColorsOf(indexColor, Cluster(up, rank, p)) ==> c in colors
    ensures forall x :: 0 <= x < |up| ==>
      (colors[x] in ColorsOf(indexColor, Cluster(up, rank, p)) <==> Root(up, rank, x) == Root(up, rank, p))
  {
    var m := Cluster(up, rank, p);
    var cs := ColorsOf(indexColor, m);
    forall c | c in cs
      ensures c in colors
    {
      var i :| 0 <= i < |cs| && cs[i] == c;
      assert colors[m[i]] == c;
    }
    forall x | 0 <= x < |up|
      ensures colors[x] in cs <==> Root(up, rank, x) == Root(up, rank, p)
    {
      if colors[x] in cs {
        var i :| 0 <= i < |cs| && cs[i] == colors[x];
        assert colors[m[i]] == colors[x];
        assert m[i] == x;
      }
      if Root(up, rank, x) == Root(up, rank, p) {
        assert x in m;
        var i :| 0 <= i < |m| && m[i] == x;
        assert cs[i] == colors[x];
      }
    }
  }

  /** The palette pass proper, after the cut: every colour unvisited, every
      list emptied, the entries after the first linked, and every tree
      painted with its mean. */
  method LinkAndPaint(tree: seq<Node>, indexColor: seq<Color>, palette: array3<RGBPixel>, v: array<bool>,
                      adj: array<seq<Neighbor>>, ghost rank: seq<nat>, ghost colors: seq<RGBPixel>)
    returns (ghost calls: nat)
    requires EdgesOk(Kept(tree), rank) && NoDuplicates(colors)
    requires |indexColor| == |rank| && |colors| == |rank| && v.Length == |rank| && adj.Length == |rank|
    requires forall i :: 0 <= i < |rank| ==> indexColor[i].val == colors[i]
    requires palette.Length0 == 256 && palette.Length1 == 256 && palette.Length2 == 256
    requires AllBlack(palette)
    modifies palette, v, adj
    ensures forall x :: 0 <= x < |rank| ==>
      palette[colors[x].red, colors[x].blue, colors[x].green] == ClusterMean(indexColor, ForestUp(Kept(tree), rank), rank, x)
    ensures BlackOutside(palette, colors)
    ensures calls == |RootsBelow(ForestUp(Kept(tree), rank), |rank|)|
  {
    ghost var up := ForestUp(Kept(tree), rank);
    AdjOfLists(Kept(tree), rank);
    ClearFlags(v);
    ClearLists(adj);
    BuildAdjacency(tree, adj);
    calls := PaintClusters(indexColor, palette, v, adj, up, rank, colors);
  }

  /** Extract_color_palette: cuts the K-1 heaviest tree entries, with K-1
      computed in 32-bit arithmetic (failing with ArgumentOutOfRange when that
      exceeds the number of entries, as for K = -2^31), links the
      remaining entries after the first into adjacency lists, and paints each
      tree of the forest with the mean of its colours. The palette slot of
      every colour holds the mean of its cluster, every other slot is black,
      and avgcolor_BFS runs once per tree. */
  method ExtractColorPalette(mst: Mst, numOfClusters: int, ghost colors: seq<RGBPixel>)
    returns (r: Result<array3<RGBPixel>>, ghost calls: nat)
    requires PaletteInput(mst, colors) && Int32(numOfClusters)
    ensures r.Failure? <==> CutsFor(numOfClusters) > |colors|
    ensures r.Failure? <==> numOfClusters - 1 > |colors| || numOfClusters == -0x8000_0000
    ensures r.Failure? ==> r.error == ArgumentOutOfRange
    ensures r.Success? ==> fresh(r.value)
    ensures r.Success? ==> r.value.Length0 == 256 && r.value.Length1 == 256 && r.value.Length2 == 256
    ensures r.Success? ==> forall x :: 0 <= x < |colors| ==>
      r.value[colors[x].red, colors[x].blue, colors[x].green] ==
        ClusterMean(mst.indexColor, CutUp(mst, colors, numOfClusters), RankOf(mst.tree, |colors|), x)
    ensures r.Success? ==> forall rd: Byte, gr: Byte, bl: Byte ::
      RGBPixel(rd, gr, bl) !in colors ==> r.value[rd, bl, gr] == RGBPixel(0, 0, 0)
    ensures r.Success? ==> calls == |RootsBelow(CutUp(mst, colors, numOfClusters), |colors|)|
  {
    var colorPalette := new RGBPixel[256, 256, 256]((_, _, _) => RGBPixel(0, 0, 0));
    assert AllBlack(colorPalette);
    var v := new bool[|mst.parent|];
    var adj := new seq<Neighbor>[|mst.parent|];
    WrappedCountFails(mst, colors);
    var pruned := RemoveHeaviest(mst.tree, numOfClusters);
    if pruned.Failure? {
      return Failure(pruned.error), 0;
    }
    CutForestEdges(mst.tree, |colors|, CutsFor(numOfClusters));
    ghost var rank := RankOf(mst.tree, |colors|);
    assert CutUp(mst, colors, numOfClusters) == ForestUp(Kept(pruned.value), rank);
    calls := LinkAndPaint(pruned.value, mst.indexColor, colorPalette, v, adj, rank, colors);
    r := Success(colorPalette);
  }
}
