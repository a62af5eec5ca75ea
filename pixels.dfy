/** Value types shared by the quantizer: pixels, indexed colours, tree records,
    colour distance and per-cluster averages. */
module Pixels {

  /** An 8-bit channel intensity. */
  type Byte = x: int | 0 <= x < 256

  /** One pixel of the image grid (struct RGBPixel). */
  datatype RGBPixel = RGBPixel(red: Byte, green: Byte, blue: Byte)

  /** A distinct colour together with its dense index (struct Color). */
  datatype Color = Color(val: RGBPixel, index: int)

  /** A heap record and MST entry: the edge that attached node `to` to the tree
      through node `index` (-1 for the root sentinel), with its weight. */
  datatype Node = Node(index: int, to: int, weight: nat)

  /** The root sentinel the tree construction starts from. */
  const Sentinel: Node := Node(-1, 0, 0)

  /** An adjacency-list entry (node2): the neighbour and the edge weight. */
  datatype Neighbor = Neighbor(to: int, weight: nat)

  /** The exceptions the core can raise. */
  datatype Error = IndexOutOfRange | InvalidOperation | ArgumentOutOfRange

  datatype Result<T> = Success(value: T) | Failure(error: Error)

  /** Channel sums accumulated over a cluster (the RGBPixelD accumulator). */
  datatype Sums = Sums(red: int, green: int, blue: int)

  /** No element occurs twice. */
  ghost predicate NoDuplicates<T>(s: seq<T>)
  {
    forall i, j :: 0 <= i < j < |s| ==> s[i] != s[j]
  }

  /** Larger than every squared distance between two colours: stands in for the
      `double.MaxValue` that marks a colour not reached yet. */
  const Unreached: nat := 3 * 255 * 255 + 1

  function Square(x: int): (r: nat)
    ensures r == 0 <==> x == 0
    ensures -255 <= x <= 255 ==> r <= 255 * 255
  {
    SquareBound(x);
    x * x
  }

  lemma {:induction false} MulLe(a: int, b: int, c: nat)
    requires 0 <= a <= b
    ensures a * c <= b * c
  {
    if c > 0 {
      MulLe(a, b, c - 1);
      assert a * c == a * (c - 1) + a;
      assert b * c == b * (c - 1) + b;
    }
  }

  lemma SquareBound(x: int)
    ensures x * x >= 0
    ensures x * x == 0 <==> x == 0
    ensures -255 <= x <= 255 ==> x * x <= 255 * 255
  {
    var a := if x < 0 then -x else x;
    assert x * x == a * a;
    MulLe(0, a, a);
    if a > 0 { MulLe(1, a, a); }
    if a <= 255 { MulLe(a, 255, a); MulLe(a, 255, 255); assert a * 255 == 255 * a; }
  }

  /** The squared Euclidean distance between two colours. The source takes its
      square root; the root is strictly increasing, so every comparison the
      algorithms make has the same outcome on the squared value. */
  function SquaredDistance(a: RGBPixel, b: RGBPixel): (r: nat)
    ensures r == 0 <==> a == b
    ensures r < Unreached
  {
    Square(a.red - b.red) + Square(a.green - b.green) + Square(a.blue - b.blue)
  }

  lemma DistanceSymmetric(a: RGBPixel, b: RGBPixel)
    ensures SquaredDistance(a, b) == SquaredDistance(b, a)
  {
    assert Square(a.red - b.red) == Square(b.red - a.red) by { SquareNegate(a.red - b.red); }
    assert Square(a.green - b.green) == Square(b.green - a.green) by { SquareNegate(a.green - b.green); }
    assert Square(a.blue - b.blue) == Square(b.blue - a.blue) by { SquareNegate(a.blue - b.blue); }
  }

  lemma SquareNegate(x: int)
    ensures Square(x) == Square(-x)
  {
    assert x * x == (-x) * (-x);
  }

  /** Channel sums of a sequence of colours. */
  function Total(cs: seq<RGBPixel>): Sums
  {
    if cs == [] then Sums(0, 0, 0)
    else
      var t := Total(cs[..|cs| - 1]);
      var c := cs[|cs| - 1];
      Sums(t.red + c.red, t.green + c.green, t.blue + c.blue)
  }

  lemma {:induction false} TotalBound(cs: seq<RGBPixel>)
    ensures 0 <= Total(cs).red <= 255 * |cs|
    ensures 0 <= Total(cs).green <= 255 * |cs|
    ensures 0 <= Total(cs).blue <= 255 * |cs|
  {
    if cs != [] {
      TotalBound(cs[..|cs| - 1]);
    }
  }

  /** The per-channel mean of a cluster, truncated to a byte. */
  function Mean(cs: seq<RGBPixel>): (m: RGBPixel)
    requires |cs| > 0
  {
    var t := Total(cs);
    TotalBound(cs);
    DivBound(t.red, |cs|);
    DivBound(t.green, |cs|);
    DivBound(t.blue, |cs|);
    RGBPixel(t.red / |cs|, t.green / |cs|, t.blue / |cs|)
  }

  lemma DivBound(s: int, n: int)
    requires n > 0 && 0 <= s <= 255 * n
    ensures 0 <= s / n <= 255
  {
    var q := s / n;
    assert n * q <= s;
    if q >= 256 { MulLe(256, q, n); }
  }

  lemma DivExact(a: nat, n: int)
    requires n > 0
    ensures (a * n) / n == a
  {
    var q := (a * n) / n;
    var r := (a * n) % n;
    assert a * n == q * n + r;
    if q < a { MulLe(q + 1, a, n); }
  }

  lemma {:induction false} TotalOfCopies(cs: seq<RGBPixel>, c: RGBPixel)
    requires forall i :: 0 <= i < |cs| ==> cs[i] == c
    ensures Total(cs) == Sums(c.red * |cs|, c.green * |cs|, c.blue * |cs|)
  {
    if cs != [] {
      var n := |cs|;
      TotalOfCopies(cs[..n - 1], c);
      assert c.red * n == c.red * (n - 1) + c.red;
      assert c.green * n == c.green * (n - 1) + c.green;
      assert c.blue * n == c.blue * (n - 1) + c.blue;
    }
  }

  /** A cluster whose members all have one colour averages to that colour; in
      particular a singleton cluster maps its colour back to itself. */
  lemma MeanOfCopies(cs: seq<RGBPixel>, c: RGBPixel)
    requires |cs| > 0
    requires forall i :: 0 <= i < |cs| ==> cs[i] == c
    ensures Mean(cs) == c
  {
    TotalOfCopies(cs, c);
    DivExact(c.red, |cs|);
    DivExact(c.green, |cs|);
    DivExact(c.blue, |cs|);
  }

  lemma {:induction false} TotalAppend(a: seq<RGBPixel>, b: seq<RGBPixel>)
    ensures Total(a + b).red == Total(a).red + Total(b).red
    ensures Total(a + b).green == Total(a).green + Total(b).green
    ensures Total(a + b).blue == Total(a).blue + Total(b).blue
    decreases |b|
  {
    if b != [] {
      assert (a + b)[..|a + b| - 1] == a + b[..|b| - 1];
      TotalAppend(a, b[..|b| - 1]);
    } else {
      assert a + b == a;
    }
  }

  lemma TotalRemove(b: seq<RGBPixel>, i: nat)
    requires i < |b|
    ensures Total(b).red == Total(b[..i] + b[i + 1..]).red + b[i].red
    ensures Total(b).green == Total(b[..i] + b[i + 1..]).green + b[i].green
    ensures Total(b).blue == Total(b[..i] + b[i + 1..]).blue + b[i].blue
  {
    var left, x, right := b[..i], b[i], b[i + 1..];
    SplitAt(b, i);
    TotalSingle(x);
    TotalAppend(left + [x], right);
    TotalAppend(left, [x]);
    TotalAppend(left, right);
  }

  lemma TotalSingle(x: RGBPixel)
    ensures Total([x]) == Sums(x.red, x.green, x.blue)
  {
    assert [x][..0] == [];
  }

  lemma MultisetRemove<T>(b: seq<T>, i: nat)
    requires i < |b|
    ensures multiset(b[..i] + b[i + 1..]) == multiset(b) - multiset{b[i]}
  {
    SplitAt(b, i);
  }

  lemma SplitAt<T>(b: seq<T>, i: nat)
    requires i < |b|
    ensures b == b[..i] + [b[i]] + b[i + 1..]
  {
  }

  /** Channel sums do not depend on the order in which members are visited. */
  lemma {:induction false} TotalPermutation(a: seq<RGBPixel>, b: seq<RGBPixel>)
    requires multiset(a) == multiset(b)
    ensures Total(a) == Total(b)
    decreases |a|
  {
    if a == [] {
      assert |multiset(b)| == 0;
    } else {
      var n := |a| - 1;
      var x := a[n];
      assert x in multiset(b);
      var i :| 0 <= i < |b| && b[i] == x;
      MultisetRemove(b, i);
      MultisetRemove(a, n);
      assert a[..n] + a[n + 1..] == a[..n];
      TotalPermutation(a[..n], b[..i] + b[i + 1..]);
      TotalRemove(b, i);
      TotalRemove(a, n);
    }
  }

  lemma MeanPermutation(a: seq<RGBPixel>, b: seq<RGBPixel>)
    requires |a| > 0 && multiset(a) == multiset(b)
    ensures |b| == |a| && Mean(a) == Mean(b)
  {
    assert |multiset(a)| == |multiset(b)|;
    TotalPermutation(a, b);
  }
  /** x is a value of C#'s 32-bit `int`. */
  predicate Int32(x: int)
  {
    -0x8000_0000 <= x < 0x8000_0000
  }

  /** The 32-bit `int` that unchecked C# arithmetic yields for the exact value
      x: the one in range that differs from x by a multiple of 2^32. */
  function Wrap32(x: int): (r: int)
    ensures Int32(r)
    ensures (x - r) % 0x1_0000_0000 == 0
    ensures Int32(x) ==> r == x
  {
    (x + 0x8000_0000) % 0x1_0000_0000 - 0x8000_0000
  }

  /** A colour packed into one number, eight bits per channel. */
  function Code(c: RGBPixel): (k: nat)
    ensures k < 0x100_0000
  {
    c.red * 0x1_0000 + c.green * 0x100 + c.blue
  }

  /** Different colours have different codes. */
  lemma CodeInjective(a: RGBPixel, b: RGBPixel)
    requires Code(a) == Code(b)
    ensures a == b
  {
    assert a.red == Code(a) / 0x1_0000 && b.red == Code(b) / 0x1_0000;
    assert a.green * 0x100 + a.blue == b.green * 0x100 + b.blue;
    assert a.green == (a.green * 0x100 + a.blue) / 0x100;
    assert b.green == (b.green * 0x100 + b.blue) / 0x100;
  }

  /** Dropping one entry keeps a list free of repeats. */
  lemma RemoveKeepsNoDuplicates<T>(s: seq<T>, j: nat, rest: seq<T>)
    requires NoDuplicates(s) && j < |s| && rest == s[..j] + s[j + 1..]
    ensures NoDuplicates(rest)
    ensures forall a :: 0 <= a < |rest| ==> rest[a] != s[j]
  {
    forall a | 0 <= a < |rest|
      ensures rest[a] == s[if a < j then a else a + 1]
    {
    }
  }

  /** A list of distinct colours whose codes all lie below n has at most n
      entries. */
  lemma {:induction false} FewColours(s: seq<RGBPixel>, n: nat)
    requires NoDuplicates(s)
    requires forall i :: 0 <= i < |s| ==> Code(s[i]) < n
    ensures |s| <= n
    decreases n
  {
    if s != [] {
      assert Code(s[0]) < n;
      if j :| 0 <= j < |s| && Code(s[j]) == n - 1 {
        var rest := s[..j] + s[j + 1..];
        RemoveKeepsNoDuplicates(s, j, rest);
        forall a | 0 <= a < |rest|
          ensures Code(rest[a]) < n - 1
        {
          assert rest[a] in s;
          if Code(rest[a]) == n - 1 {
            CodeInjective(rest[a], s[j]);
          }
        }
        FewColours(rest, n - 1);
      } else {
        FewColours(s, n - 1);
      }
    }
  }

  /** A list of distinct colours has at most 2^24 entries. */
  lemma ColourCount(s: seq<RGBPixel>)
    requires NoDuplicates(s)
    ensures |s| <= 0x100_0000
  {
    FewColours(s, 0x100_0000);
  }
}
