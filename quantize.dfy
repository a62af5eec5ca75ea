/** The last stage of the pipeline: every pixel of the image is replaced by
    the palette entry of its colour. */
module Quantize {
  import opened Pixels
  import opened Forest
  import opened Cut
  import opened Adjacency
  import opened Clusters
  import opened Palette
  import opened PrimSpec
  import opened DistinctColors
  import opened PrimMst

  /** The palette entry of colour c, looked up with the key order
      [red, blue, green] the palette was written with. */
  function Slot(palette: array3<RGBPixel>, c: RGBPixel): RGBPixel
    reads palette
    requires palette.Length0 == 256 && palette.Length1 == 256 && palette.Length2 == 256
  {
    palette[c.red, c.blue, c.green]
  }

  /** Quntization: row by row, each pixel becomes the palette entry of its
      own colour; the palette itself is left as it is. */
  method Quantization(img: array2<RGBPixel>, palette: array3<RGBPixel>)
    requires palette.Length0 == 256 && palette.Length1 == 256 && palette.Length2 == 256
    modifies img
    ensures forall i, j :: 0 <= i < img.Length0 && 0 <= j < img.Length1 ==>
      img[i, j] == Slot(palette, old(img[i, j]))
  {
    var width := GetWidth(img);
    var height := GetHeight(img);
    var i := 0;
    while i < height
      invariant 0 <= i <= height
      invariant forall a, b :: 0 <= a < i && 0 <= b < width ==> img[a, b] == Slot(palette, old(img[a, b]))
      invariant forall a, b :: i <= a < height && 0 <= b < width ==> img[a, b] == old(img[a, b])
    {
      QuantizeRow(img, palette, i);
      i := i + 1;
    }
  }

  /** The inner loop of Quntization over the pixels of row i. */
  method QuantizeRow(img: array2<RGBPixel>, palette: array3<RGBPixel>, i: int)
    requires palette.Length0 == 256 && palette.Length1 == 256 && palette.Length2 == 256
    requires 0 <= i < img.Length0
    modifies img
    ensures forall b :: 0 <= b < img.Length1 ==> img[i, b] == Slot(palette, old(img[i, b]))
    ensures forall a, b :: 0 <= a < img.Length0 && a != i && 0 <= b < img.Length1 ==> img[a, b] == old(img[a, b])
  {
    var j := 0;
    while j < img.Length1
      invariant 0 <= j <= img.Length1
      invariant forall b :: 0 <= b < j ==> img[i, b] == Slot(palette, old(img[i, b]))
      invariant forall a, b :: 0 <= a < img.Length0 && 0 <= b < img.Length1 && (a != i || j <= b) ==>
        img[a, b] == old(img[a, b])
    {
      var index := img[i, j];
      var col := palette[index.red, index.blue, index.green];
      img[i, j] := RGBPixel(col.red, col.green, col.blue);
      j := j + 1;
    }
  }

  /** The colour a pixel of colour c ends up with: the mean of the cluster of
      c in the tree cut for K clusters. */
  ghost function Quantized(m: Mst, colors: seq<RGBPixel>, numOfClusters: int, c: RGBPixel): RGBPixel
    requires PaletteInput(m, colors) && Int32(numOfClusters) && CutsFor(numOfClusters) <= |colors|
    requires c in colors
  {
    ClusterMean(m.indexColor, CutUp(m, colors, numOfClusters), RankOf(m.tree, |colors|), FirstIndex(colors, c))
  }

  /** With K = V or K = V + 1 clusters every colour is quantized to itself. */
  lemma QuantizedIdentity(m: Mst, colors: seq<RGBPixel>, numOfClusters: int, c: RGBPixel)
    requires PaletteInput(m, colors) && Int32(numOfClusters) && |colors| <= numOfClusters <= |colors| + 1
    requires c in colors
    ensures CutsFor(numOfClusters) <= |colors|
    ensures Quantized(m, colors, numOfClusters, c) == c
  {
    EveryColourKept(m, colors, numOfClusters);
    var x := FirstIndex(colors, c);
  }

  /** A palette that holds the cluster mean in the slot of every listed
      colour maps each listed colour to its quantized colour. */
  lemma PaletteSlots(m: Mst, colors: seq<RGBPixel>, numOfClusters: int, palette: array3<RGBPixel>)
    requires PaletteInput(m, colors) && Int32(numOfClusters) && CutsFor(numOfClusters) <= |colors|
    requires palette.Length0 == 256 && palette.Length1 == 256 && palette.Length2 == 256
    requires forall x :: 0 <= x < |colors| ==>
      palette[colors[x].red, colors[x].blue, colors[x].green] ==
        ClusterMean(m.indexColor, CutUp(m, colors, numOfClusters), RankOf(m.tree, |colors|), x)
    ensures forall c :: c in colors ==> Slot(palette, c) == Quantized(m, colors, numOfClusters, c)
  {
    forall c | c in colors
      ensures Slot(palette, c) == Quantized(m, colors, numOfClusters, c)
    {
      var x := FirstIndex(colors, c);
      assert colors[x] == c;
    }
  }

  /** Extract_color_palette seen from the pixels' side: fails with
      ArgumentOutOfRange when `K - 1` exceeds the colour count, and otherwise
      returns a new palette mapping every listed colour to its quantized
      colour. */
  method PaletteFor(m: Mst, numOfClusters: int, ghost colors: seq<RGBPixel>) returns (r: Result<array3<RGBPixel>>)
    requires PaletteInput(m, colors) && Int32(numOfClusters)
    ensures r.Failure? <==> CutsFor(numOfClusters) > |colors|
    ensures r.Failure? ==> r.error == ArgumentOutOfRange
    ensures r.Success? ==> fresh(r.value)
    ensures r.Success? ==> r.value.Length0 == 256 && r.value.Length1 == 256 && r.value.Length2 == 256
    ensures r.Success? ==> forall c :: c in colors ==> Slot(r.value, c) == Quantized(m, colors, numOfClusters, c)
  {
    ghost var calls;
    r, calls := ExtractColorPalette(m, numOfClusters, colors);
    if r.Success? {
      PaletteSlots(m, colors, numOfClusters, r.value);
    }
  }

  /** Extract_color_palette followed by Quntization: fails with
      ArgumentOutOfRange, leaving the image as it was, when `K - 1` exceeds
      the colour count; otherwise every pixel becomes the mean of its
      colour's cluster. */
  method Recolor(img: array2<RGBPixel>, m: Mst, numOfClusters: int, ghost colors: seq<RGBPixel>)
    returns (r: Result<Mst>)
    requires PaletteInput(m, colors) && Int32(numOfClusters)
    requires forall i, j :: 0 <= i < img.Length0 && 0 <= j < img.Length1 ==> img[i, j] in colors
    modifies img
    ensures r.Failure? <==> CutsFor(numOfClusters) > |colors|
    ensures r.Failure? ==> r.error == ArgumentOutOfRange
    ensures r.Failure? ==> forall i, j :: 0 <= i < img.Length0 && 0 <= j < img.Length1 ==> img[i, j] == old(img[i, j])
    ensures r.Success? ==> r.value == m && forall i, j :: 0 <= i < img.Length0 && 0 <= j < img.Length1 ==>
      img[i, j] == Quantized(m, colors, numOfClusters, old(img[i, j]))
  {
    var palette := PaletteFor(m, numOfClusters, colors);
    if palette.Failure? {
      return Failure(palette.error);
    }
    Quantization(img, palette.value);
    r := Success(m);
  }

  /** The pipeline run once an image is opened: count its distinct colours,
      build the spanning tree, extract the palette for K clusters and rewrite
      the image with it. An empty image fails while the tree is built, and a
      K whose `K - 1` exceeds the colour count fails while the tree is cut;
      either way the image is left as it was. Otherwise every pixel becomes
      the mean of its colour's cluster, and with K = V or K = V + 1 the image
      comes out unchanged. */
  method Operations(img: array2<RGBPixel>, numOfClusters: int) returns (count: int, r: Result<Mst>, ghost colors: seq<RGBPixel>)
    requires Int32(numOfClusters)
    modifies img
    ensures colors == old(Distinct(RowMajor(img))) && count == |colors|
    ensures count == 0 <==> GetHeight(img) == 0 || GetWidth(img) == 0
    ensures forall i, j :: 0 <= i < img.Length0 && 0 <= j < img.Length1 ==> old(img[i, j]) in colors
    ensures r.Failure? <==> count == 0 || CutsFor(numOfClusters) > count
    ensures r.Failure? ==> r.error == if count == 0 then IndexOutOfRange else ArgumentOutOfRange
    ensures r.Failure? ==> forall i, j :: 0 <= i < img.Length0 && 0 <= j < img.Length1 ==> img[i, j] == old(img[i, j])
    ensures r.Success? ==> WellFormedMst(r.value, colors) && PaletteInput(r.value, colors)
    ensures r.Success? ==> forall i, j :: 0 <= i < img.Length0 && 0 <= j < img.Length1 ==>
      img[i, j] == Quantized(r.value, colors, numOfClusters, old(img[i, j]))
    ensures r.Success? && count <= numOfClusters <= count + 1 ==>
      forall i, j :: 0 <= i < img.Length0 && 0 <= j < img.Length1 ==> img[i, j] == old(img[i, j])
  {
    colors := Distinct(RowMajor(img));
    forall i, j | 0 <= i < img.Length0 && 0 <= j < img.Length1
      ensures img[i, j] in colors
    {
      PixelInRowMajor(img, i, j);
    }
    count := GetNumberOfColor(img);
    var mst := MstWeight(img);
    if mst.Failure? {
      return count, mst, colors;
    }
    MstFacts(mst.value, colors);
    r := Recolor(img, mst.value, numOfClusters, colors);
    if r.Success? && count <= numOfClusters <= count + 1 {
      forall i, j | 0 <= i < img.Length0 && 0 <= j < img.Length1
        ensures img[i, j] == old(img[i, j])
      {
        QuantizedIdentity(mst.value, colors, numOfClusters, old(img[i, j]));
      }
    }
  }

  /** A colour alone in its cluster is its own mean. */
  lemma SingletonMean(indexColor: seq<Color>, up: seq<int>, rank: seq<nat>, x: int)
    requires ForestOk(up, rank) && 0 <= x < |up| && |indexColor| == |up|
    requires |Cluster(up, rank, x)| == 1
    ensures ClusterMean(indexColor, up, rank, x) == indexColor[x].val
  {
    var m := Cluster(up, rank, x);
    assert m[0] == x;
    MeanOfCopies(ColorsOf(indexColor, m), indexColor[x].val);
  }

  /** With K = V or K = V + 1 clusters every tree entry after the sentinel is
      cut, each colour forms its own cluster, and the palette maps every
      colour to itself: quantization then leaves the image unchanged. */
  lemma EveryColourKept(m: Mst, colors: seq<RGBPixel>, numOfClusters: int)
    requires PaletteInput(m, colors) && Int32(numOfClusters) && |colors| <= numOfClusters <= |colors| + 1
    ensures forall x :: 0 <= x < |colors| ==>
      ClusterMean(m.indexColor, CutUp(m, colors, numOfClusters), RankOf(m.tree, |colors|), x) == colors[x]
  {
    NothingKept(m, colors, numOfClusters);
    AllSingletons(m.indexColor, CutUp(m, colors, numOfClusters), RankOf(m.tree, |colors|));
  }

  /** Cutting V-1 or V entries leaves no links at all. */
  lemma NothingKept(m: Mst, colors: seq<RGBPixel>, numOfClusters: int)
    requires PaletteInput(m, colors) && Int32(numOfClusters) && |colors| <= numOfClusters <= |colors| + 1
    ensures forall x :: 0 <= x < |colors| ==> CutUp(m, colors, numOfClusters)[x] == -1
  {
    var t := Prune(m.tree, CutsFor(numOfClusters)).value;
    assert Kept(t) == [];
  }

  /** In a forest without links every colour is its own mean. */
  lemma AllSingletons(indexColor: seq<Color>, up: seq<int>, rank: seq<nat>)
    requires ForestOk(up, rank) && |indexColor| == |up|
    requires forall x :: 0 <= x < |up| ==> up[x] == -1
    ensures forall x :: 0 <= x < |up| ==> ClusterMean(indexColor, up, rank, x) == indexColor[x].val
  {
    forall x | 0 <= x < |up|
      ensures ClusterMean(indexColor, up, rank, x) == indexColor[x].val
    {
      var c := Cluster(up, rank, x);
      forall y | y in c
        ensures y == x
      {
        assert Root(up, rank, y) == y;
      }
      assert (set y | y in c) == {x};
      NoDupCard(c);
      SingletonMean(indexColor, up, rank, x);
    }
  }
}
