/** Extraction of the distinct colours of an image, in row-major order of
    first occurrence, and their dense indexing. */
module DistinctColors {
  import opened Pixels

  /** The number of rows of the image: the row-major listing the scan walks
      is h rows of one row's width, and it is empty when h is 0. */
  function GetHeight(img: array2<RGBPixel>): (h: nat)
    reads img
    ensures |RowMajor(img)| == h * img.Length1
    ensures h == 0 ==> RowMajor(img) == []
  {
    RowsLength(img, img.Length0);
    img.Length0
  }

  /** The number of columns of the image: the row-major listing the scan
      walks holds w pixels per row, and it is empty when w is 0. */
  function GetWidth(img: array2<RGBPixel>): (w: nat)
    reads img
    ensures |RowMajor(img)| == img.Length0 * w
    ensures w == 0 ==> RowMajor(img) == []
  {
    RowsLength(img, img.Length0);
    img.Length1
  }

  /** The first j pixels of row i, left to right. */
  ghost function Row(img: array2<RGBPixel>, i: nat, j: nat): (r: seq<RGBPixel>)
    requires i < img.Length0 && j <= img.Length1
    reads img
    ensures |r| == j
    ensures forall c :: 0 <= c < j ==> r[c] == img[i, c]
  {
    if j == 0 then [] else Row(img, i, j - 1) + [img[i, j - 1]]
  }

  /** The first i rows of the image, concatenated top to bottom. */
  ghost function Rows(img: array2<RGBPixel>, i: nat): seq<RGBPixel>
    requires i <= img.Length0
    reads img
  {
    if i == 0 then [] else Rows(img, i - 1) + Row(img, i - 1, img.Length1)
  }

  /** All pixels of the image in row-major order. */
  ghost function RowMajor(img: array2<RGBPixel>): seq<RGBPixel>
    reads img
  {
    Rows(img, img.Length0)
  }

  lemma {:induction false} RowsLength(img: array2<RGBPixel>, i: nat)
    requires i <= img.Length0
    ensures |Rows(img, i)| == i * img.Length1
  {
    if i > 0 {
      RowsLength(img, i - 1);
      assert i * img.Length1 == (i - 1) * img.Length1 + img.Length1;
    }
  }

  lemma RowMajorLength(img: array2<RGBPixel>)
    ensures |RowMajor(img)| == GetHeight(img) * GetWidth(img)
    ensures |RowMajor(img)| == 0 <==> GetHeight(img) == 0 || GetWidth(img) == 0
  {
    var h, w := img.Length0, img.Length1;
    RowsLength(img, h);
    if h > 0 && w > 0 {
      Pixels.MulLe(1, h, w);
    }
  }

  /** Every pixel of the first i rows occurs in their row-major listing. */
  lemma {:induction false} PixelInRows(img: array2<RGBPixel>, i: nat, a: nat, b: nat)
    requires i <= img.Length0 && a < i && b < img.Length1
    ensures img[a, b] in Rows(img, i)
  {
    if a == i - 1 {
      assert Row(img, i - 1, img.Length1)[b] == img[a, b];
    } else {
      PixelInRows(img, i - 1, a, b);
    }
  }

  lemma PixelInRowMajor(img: array2<RGBPixel>, a: nat, b: nat)
    requires a < img.Length0 && b < img.Length1
    ensures img[a, b] in RowMajor(img)
  {
    PixelInRows(img, img.Length0, a, b);
  }

  /** The distinct elements of s, in order of first occurrence. */
  function Distinct(s: seq<RGBPixel>): (r: seq<RGBPixel>)
    ensures |r| <= |s|
    ensures forall x :: x in r <==> x in s
    ensures NoDuplicates(r)
  {
    if s == [] then []
    else
      var d := Distinct(s[..|s| - 1]);
      var x := s[|s| - 1];
      assert forall y :: y in s <==> y in s[..|s| - 1] || y == x by {
        assert s == s[..|s| - 1] + [x];
      }
      if x in d then d else d + [x]
  }

  lemma DistinctSnoc(p: seq<RGBPixel>, x: RGBPixel)
    ensures Distinct(p + [x]) == if x in Distinct(p) then Distinct(p) else Distinct(p) + [x]
  {
    assert (p + [x])[..|p|] == p;
  }

  /** The position where x first occurs in s. */
  function FirstIndex(s: seq<RGBPixel>, x: RGBPixel): (i: nat)
    requires x in s
    ensures i < |s| && s[i] == x && x !in s[..i]
  {
    if s[0] == x then 0
    else
      var i := FirstIndex(s[1..], x);
      assert s[..i + 1] == [s[0]] + s[1..][..i];
      i + 1
  }

  lemma FirstIndexUnique(s: seq<RGBPixel>, x: RGBPixel, i: nat)
    requires i < |s| && s[i] == x && x !in s[..i]
    ensures FirstIndex(s, x) == i
  {
  }

  /** The distinct colours come in the order in which they are first seen. */
  lemma {:induction false} DistinctFirstSeenOrder(s: seq<RGBPixel>, i: nat, j: nat)
    requires i < j < |Distinct(s)|
    ensures FirstIndex(s, Distinct(s)[i]) < FirstIndex(s, Distinct(s)[j])
    decreases |s|
  {
    var n := |s| - 1;
    var p, x := s[..n], s[n];
    var d := Distinct(p);
    var r := Distinct(s);
    assert s == p + [x];
    assert r[i] in p by {
      if x in d {
      } else {
        assert r[i] == d[i];
      }
    }
    FirstIndexUnique(s, r[i], FirstIndex(p, r[i])) by {
      assert s[..FirstIndex(p, r[i])] == p[..FirstIndex(p, r[i])];
    }
    if x !in d && j == |d| {
      assert r[j] == x && x !in p;
      FirstIndexUnique(s, x, n);
    } else {
      assert r[j] == d[j] && r[i] == d[i];
      FirstIndexUnique(s, r[j], FirstIndex(p, r[j])) by {
        assert s[..FirstIndex(p, r[j])] == p[..FirstIndex(p, r[j])];
      }
      DistinctFirstSeenOrder(p, i, j);
    }
  }

  /** Row i starts empty and, once complete, extends the first i rows to i + 1. */
  lemma RowStart(img: array2<RGBPixel>, i: nat)
    requires i < img.Length0
    ensures Rows(img, i) + Row(img, i, 0) == Rows(img, i)
    ensures Rows(img, i + 1) == Rows(img, i) + Row(img, i, img.Length1)
  {
  }

  /** One step of the scan: the pixel at (i, j) extends the listing exactly
      when it is not in the set of colours already seen. */
  lemma ScanStep(img: array2<RGBPixel>, i: nat, j: nat, list: seq<RGBPixel>, seen: set<RGBPixel>)
    requires i < img.Length0 && j < img.Length1
    requires list == Distinct(Rows(img, i) + Row(img, i, j))
    requires forall x :: x in seen <==> x in list
    ensures img[i, j] in seen ==> list == Distinct(Rows(img, i) + Row(img, i, j + 1))
    ensures img[i, j] !in seen ==> list + [img[i, j]] == Distinct(Rows(img, i) + Row(img, i, j + 1))
    ensures forall x :: x in seen + {img[i, j]} <==> x in list + [img[i, j]]
  {
    assert Rows(img, i) + Row(img, i, j + 1) == Rows(img, i) + Row(img, i, j) + [img[i, j]];
    DistinctSnoc(Rows(img, i) + Row(img, i, j), img[i, j]);
  }

  /** Scans the image row by row and lists each colour the first time it is
      seen, remembering the colours met so far in `colorState`. */
  method ListOfDistinctColors(img: array2<RGBPixel>) returns (list: seq<RGBPixel>)
    ensures list == Distinct(RowMajor(img))
  {
    list := [];
    var colorState: set<RGBPixel> := {};
    var height := img.Length0;
    var i := 0;
    while i < height
      invariant 0 <= i <= height
      invariant list == Distinct(Rows(img, i))
      invariant forall x :: x in colorState <==> x in list
    {
      list, colorState := ScanRow(img, i, list, colorState);
      i := i + 1;
    }
  }

  /** The inner loop of the scan: walks row i left to right, appending each
      colour not in `colorState` to the listing and to the set. */
  method ScanRow(img: array2<RGBPixel>, i: nat, list0: seq<RGBPixel>, colorState0: set<RGBPixel>)
    returns (list: seq<RGBPixel>, colorState: set<RGBPixel>)
    requires i < img.Length0
    requires list0 == Distinct(Rows(img, i))
    requires forall x :: x in colorState0 <==> x in list0
    ensures list == Distinct(Rows(img, i + 1))
    ensures forall x :: x in colorState <==> x in list
  {
    list, colorState := list0, colorState0;
    var width := img.Length1;
    var j := 0;
    RowStart(img, i);
    while j < width
      invariant 0 <= j <= width
      invariant list == Distinct(Rows(img, i) + Row(img, i, j))
      invariant forall x :: x in colorState <==> x in list
    {
      ScanStep(img, i, j, list, colorState);
      if img[i, j] !in colorState {
        list := list + [img[i, j]];
        colorState := colorState + {img[i, j]};
      }
      j := j + 1;
    }
  }

  /** Pairs each distinct colour with its position. */
  method ListOfIndexedColor(h: seq<RGBPixel>) returns (indexColor: seq<Color>)
    ensures |indexColor| == |h|
    ensures forall i :: 0 <= i < |h| ==> indexColor[i] == Color(h[i], i)
  {
    indexColor := [];
    var i := 0;
    while i < |h|
      invariant 0 <= i <= |h|
      invariant |indexColor| == i
      invariant forall m :: 0 <= m < i ==> indexColor[m] == Color(h[m], m)
    {
      var c1 := Color(h[i], i);
      indexColor := indexColor + [c1];
      i := i + 1;
    }
  }

  /** An image has distinct colours exactly when it has pixels. */
  lemma DistinctEmpty(img: array2<RGBPixel>)
    ensures |Distinct(RowMajor(img))| == 0 <==> GetHeight(img) == 0 || GetWidth(img) == 0
  {
    RowMajorLength(img);
    if RowMajor(img) != [] {
      assert RowMajor(img)[0] in Distinct(RowMajor(img));
    }
  }

  /** The number of distinct colours of the image. */
  method GetNumberOfColor(img: array2<RGBPixel>) returns (n: int)
    ensures n == |Distinct(RowMajor(img))|
    ensures n <= GetHeight(img) * GetWidth(img)
    ensures n == 0 <==> GetHeight(img) == 0 || GetWidth(img) == 0
  {
    var list := ListOfDistinctColors(img);
    RowMajorLength(img);
    DistinctEmpty(img);
    n := |list|;
  }
}
