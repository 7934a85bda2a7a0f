// The byte layout of the synthetic NV12 test image: a full-resolution luma
// (Y) plane of width*height bytes, followed by a half-resolution chroma plane
// of interleaved (U, V) byte pairs, inside a buffer of width*height*3/2 bytes.
//
// `SampleImage` is the reference definition: it says, for every byte offset
// of the buffer, which plane, row and column the offset belongs to and what
// value it must hold. The generator in module Texture is proved to produce
// exactly this sequence; the lemmas below state what the image looks like
// in terms of pixel coordinates.
module Nv12 {
  import opened Arith

  /** C++ `unsigned char`. */
  newtype uint8 = x: int | 0 <= x < 256

  /** `static_cast<unsigned char>` of a `size_t`: keeps the low eight bits. */
  function UCharCast(x: int): (r: uint8)
    ensures 0 <= x < 256 ==> r as int == x
  {
    (x % 256) as uint8
  }

  // ---- Sizes and offsets -------------------------------------------------

  /** Length of the buffer the generator allocates (row pitch = width). */
  function ImageSize(width: nat, height: nat): nat
  {
    width * height * 3 / 2
  }

  /** Number of luma bytes; the chroma plane starts at this offset. */
  function LumaSize(width: nat, height: nat): nat
  {
    width * height
  }

  /** Bytes per chroma row: one (U, V) pair per two luma columns. */
  function ChromaPitch(width: nat): nat
  {
    2 * (width / 2)
  }

  /** One past the last byte the chroma loop writes. */
  function WrittenEnd(width: nat, height: nat): nat
  {
    LumaSize(width, height) + 2 * ((width / 2) * (height / 2))
  }

  /** Offset of luma sample (column i, row j). */
  function LumaOffset(width: nat, i: nat, j: nat): nat
  {
    i + j * width
  }

  /** Offset of the U byte of chroma sample (column i, row j); V follows it. */
  function ChromaOffset(width: nat, height: nat, i: nat, j: nat): nat
  {
    LumaSize(width, height) + 2 * (j * (width / 2) + i)
  }

  // ---- Sample values -----------------------------------------------------

  /**
   * The scaled gradient the generator writes: position x of a run of n
   * samples maps to x*255/n, which never reaches 255, so the cast to
   * `unsigned char` keeps it; the position keeps the divisor positive.
   */
  function Gradient(x: nat, n: nat): (r: uint8)
    requires x < n
    ensures r as int == x * 255 / n && r <= 254
    ensures x == 0 ==> r == 0
  {
    ScaledDivBound(x, n, 255);
    UCharCast(x * 255 / n)
  }

  /** Luma of row j: a vertical gradient over the rows. */
  function LumaValue(height: nat, j: nat): uint8
    requires j < height
  {
    Gradient(j, height)
  }

  /** U of chroma row j: a gradient over the chroma rows. */
  function ChromaU(height: nat, j: nat): uint8
    requires j < height / 2
  {
    Gradient(j, height / 2)
  }

  /** V of chroma column i: a gradient over the chroma columns. */
  function ChromaV(width: nat, i: nat): uint8
    requires i < width / 2
  {
    Gradient(i, width / 2)
  }

  // ---- Reference image ---------------------------------------------------

  /** The value byte k of the image must hold, found by decoding k into a plane position. */
  function ExpectedByte(width: nat, height: nat, k: nat): uint8
    requires k < ImageSize(width, height)
  {
    var nLuma := LumaSize(width, height);
    if k < nLuma then
      DivLess(k, width, height);
      LumaValue(height, k / width)
    else if k < WrittenEnd(width, height) then
      var pair := (k - nLuma) / 2;
      ChromaPairBound(width, height, k - nLuma);
      if (k - nLuma) % 2 == 0 then ChromaU(height, pair / (width / 2))
      else ChromaV(width, pair % (width / 2))
    else
      0
  }

  /** The first n bytes of the image, each decoded from its offset. */
  function SamplePrefix(width: nat, height: nat, n: nat): (s: seq<uint8>)
    requires n <= ImageSize(width, height)
    ensures |s| == n
  {
    if n == 0 then [] else SamplePrefix(width, height, n - 1) + [ExpectedByte(width, height, n - 1)]
  }

  /** The whole image: every byte of the buffer, in offset order. */
  function SampleImage(width: nat, height: nat): (img: seq<uint8>)
    ensures |img| == ImageSize(width, height)
  {
    SamplePrefix(width, height, ImageSize(width, height))
  }

  lemma {:induction false} SamplePrefixAt(width: nat, height: nat, n: nat, k: nat)
    requires k < n <= ImageSize(width, height)
    ensures SamplePrefix(width, height, n)[k] == ExpectedByte(width, height, k)
  {
    if k < n - 1 {
      SamplePrefixAt(width, height, n - 1, k);
    }
  }

  /** Byte k of the image is the value its offset decodes to. */
  lemma SampleImageAt(width: nat, height: nat, k: nat)
    requires k < ImageSize(width, height)
    ensures SampleImage(width, height)[k] == ExpectedByte(width, height, k)
  {
    SamplePrefixAt(width, height, ImageSize(width, height), k);
  }

  lemma DivLess(k: nat, d: nat, n: nat)
    requires k < d * n
    ensures d > 0 && k / d < n
  {
    assert d == 0 ==> d * n == 0;
    var q := k / d;
    assert k == q * d + k % d;
    assert n * d == d * n;
    if q >= n {
      MulMonotone(n, q, d);
    }
  }

  /** A chroma byte's pair index decodes to a valid chroma row and column. */
  lemma ChromaPairBound(width: nat, height: nat, m: nat)
    requires m < 2 * ((width / 2) * (height / 2))
    ensures width / 2 > 0
    ensures (m / 2) / (width / 2) < height / 2 && (m / 2) % (width / 2) < width / 2
  {
    var cw, ch := width / 2, height / 2;
    DivLess(m / 2, cw, ch);
  }

  // ---- Properties --------------------------------------------------------

  /** Every write of the generator stays inside the allocated buffer. */
  lemma WritesInBounds(width: nat, height: nat)
    ensures LumaSize(width, height) <= WrittenEnd(width, height) <= ImageSize(width, height)
  {
    var cw, ch := width / 2, height / 2;
    var n := width * height;
    MulMonotone(2 * cw, width, 2 * ch);
    MulMonotone(2 * ch, height, width);
    assert (2 * cw) * (2 * ch) == 4 * (cw * ch);
    assert height * width == n;
    assert n * 3 == 2 * n + n;
  }

  /** The luma sample at (i, j) lies in the luma plane and holds the gradient of row j. */
  lemma LumaAt(width: nat, height: nat, i: nat, j: nat)
    requires i < width && j < height
    ensures LumaOffset(width, i, j) < LumaSize(width, height) <= |SampleImage(width, height)|
    ensures SampleImage(width, height)[LumaOffset(width, i, j)] == LumaValue(height, j)
  {
    var off := LumaOffset(width, i, j);
    WritesInBounds(width, height);
    MulMonotone(j + 1, height, width);
    assert (j + 1) * width == j * width + width;
    assert height * width == width * height;
    assert off < LumaSize(width, height);
    DivModUnique(off, width, j, i);
    SampleImageAt(width, height, off);
  }

  /** The chroma sample at (i, j) lies after the luma plane and before WrittenEnd. */
  lemma ChromaInBounds(width: nat, height: nat, i: nat, j: nat)
    requires i < width / 2 && j < height / 2
    ensures LumaSize(width, height) <= ChromaOffset(width, height, i, j)
    ensures ChromaOffset(width, height, i, j) + 1 < WrittenEnd(width, height) <= ImageSize(width, height)
  {
    var cw, ch := width / 2, height / 2;
    WritesInBounds(width, height);
    assert 0 <= j * cw;
    MulMonotone(j + 1, ch, cw);
    assert (j + 1) * cw == j * cw + cw;
    assert ch * cw == cw * ch;
  }

  /** The chroma sample at (i, j) is a (U, V) pair inside the buffer, U a row and V a column gradient. */
  lemma ChromaAt(width: nat, height: nat, i: nat, j: nat)
    requires i < width / 2 && j < height / 2
    ensures LumaSize(width, height) <= ChromaOffset(width, height, i, j)
    ensures ChromaOffset(width, height, i, j) + 1 < WrittenEnd(width, height) <= |SampleImage(width, height)|
    ensures SampleImage(width, height)[ChromaOffset(width, height, i, j)] == ChromaU(height, j)
    ensures SampleImage(width, height)[ChromaOffset(width, height, i, j) + 1] == ChromaV(width, i)
  {
    var cw, ch := width / 2, height / 2;
    var p := j * cw + i;
    ChromaInBounds(width, height, i, j);
    DivModUnique(2 * p, 2, p, 0);
    DivModUnique(2 * p + 1, 2, p, 1);
    DivModUnique(p, cw, j, i);
    SampleImageAt(width, height, ChromaOffset(width, height, i, j));
    SampleImageAt(width, height, ChromaOffset(width, height, i, j) + 1);
  }

  /** Chroma row j ends where row j + 1 begins, within the bytes the generator writes. */
  lemma ChromaRowInBounds(width: nat, height: nat, j: nat)
    requires j < height / 2
    ensures ChromaOffset(width, height, 0, j) + ChromaPitch(width) == ChromaOffset(width, height, 0, j + 1)
    ensures ChromaOffset(width, height, 0, j + 1) <= WrittenEnd(width, height) <= ImageSize(width, height)
  {
    var cw, ch := width / 2, height / 2;
    WritesInBounds(width, height);
    assert 0 <= j * cw;
    MulMonotone(j + 1, ch, cw);
    assert (j + 1) * cw == j * cw + cw;
    assert ch * cw == cw * ch;
  }

  /** The row after the last chroma row would start at WrittenEnd: the chroma loop ends there. */
  lemma ChromaPlaneEnd(width: nat, height: nat)
    ensures ChromaOffset(width, height, 0, height / 2) == WrittenEnd(width, height)
  {
    assert (height / 2) * (width / 2) == (width / 2) * (height / 2);
  }

  /** Byte m of chroma row j: U at even positions, the V of chroma column m/2 at odd ones. */
  function ChromaRowByte(width: nat, height: nat, j: nat, m: nat): uint8
    requires j < height / 2 && m < ChromaPitch(width)
  {
    if m % 2 == 0 then ChromaU(height, j) else ChromaV(width, m / 2)
  }

  /** Chroma row j occupies ChromaPitch(width) consecutive bytes of the image, interleaving U and V. */
  lemma ChromaRowAt(width: nat, height: nat, j: nat, m: nat)
    requires j < height / 2 && m < ChromaPitch(width)
    ensures ChromaOffset(width, height, 0, j) + m < |SampleImage(width, height)|
    ensures SampleImage(width, height)[ChromaOffset(width, height, 0, j) + m] == ChromaRowByte(width, height, j, m)
  {
    var i := m / 2;
    ChromaAt(width, height, i, j);
    assert ChromaOffset(width, height, 0, j) + m == ChromaOffset(width, height, i, j) + m % 2;
  }

  /** A buffer whose bytes spell out chroma row j at the row's offset agrees there with the image. */
  lemma ChromaRowMatches(width: nat, height: nat, j: nat, s: seq<uint8>)
    requires |s| == ImageSize(width, height) && j < height / 2
    requires ChromaOffset(width, height, 0, j) + ChromaPitch(width) <= |s|
    requires forall k :: ChromaOffset(width, height, 0, j) <= k < ChromaOffset(width, height, 0, j) + ChromaPitch(width) ==>
      s[k] == ChromaRowByte(width, height, j, k - ChromaOffset(width, height, 0, j))
    ensures forall k :: ChromaOffset(width, height, 0, j) <= k < ChromaOffset(width, height, 0, j) + ChromaPitch(width) ==>
      s[k] == SampleImage(width, height)[k]
  {
    var start := ChromaOffset(width, height, 0, j);
    forall k | start <= k < start + ChromaPitch(width)
      ensures s[k] == SampleImage(width, height)[k]
    {
      ChromaRowAt(width, height, j, k - start);
    }
  }

  /** Bytes past the chroma plane's last pair are never written and keep their zero. */
  lemma TrailingBytesZero(width: nat, height: nat, k: nat)
    requires WrittenEnd(width, height) <= k < ImageSize(width, height)
    ensures SampleImage(width, height)[k] == 0
  {
    assert 0 <= (width / 2) * (height / 2);
    SampleImageAt(width, height, k);
  }

  /** With even dimensions the two planes fill the buffer exactly. */
  lemma EvenDimensionsFullyWritten(width: nat, height: nat)
    requires width % 2 == 0 && height % 2 == 0
    ensures WrittenEnd(width, height) == ImageSize(width, height)
  {
    var cw, ch := width / 2, height / 2;
    assert width * height == (2 * cw) * (2 * ch) == 4 * (cw * ch);
  }

  /** With an odd width and at least two rows, bytes are left over at the end of the buffer. */
  lemma OddWidthLeavesTrailingBytes(width: nat, height: nat)
    requires width % 2 == 1 && height >= 2
    ensures WrittenEnd(width, height) < ImageSize(width, height)
  {
    var cw, ch := width / 2, height / 2;
    var n := width * height;
    assert n == (2 * cw + 1) * height == 2 * (cw * height) + height;
    MulMonotone(2 * ch, height, cw);
    assert (2 * ch) * cw == 2 * (cw * ch) && height * cw == cw * height;
    assert n * 3 == 2 * n + n;
  }

  /** With an odd height and at least two columns, bytes are left over at the end of the buffer. */
  lemma OddHeightLeavesTrailingBytes(width: nat, height: nat)
    requires height % 2 == 1 && width >= 2
    ensures WrittenEnd(width, height) < ImageSize(width, height)
  {
    var cw, ch := width / 2, height / 2;
    var n := width * height;
    assert n == width * (2 * ch + 1) == 2 * (width * ch) + width;
    MulMonotone(2 * cw, width, ch);
    assert (2 * cw) * ch == 2 * (cw * ch) && width * ch == ch * width;
    assert n * 3 == 2 * n + n;
  }

  /**
   * The buffer keeps unwritten bytes at its end exactly when a dimension is
   * odd and the image has at least two pixels; otherwise the two planes fill
   * it.
   */
  lemma TrailingBytesExactlyWhenOdd(width: nat, height: nat)
    ensures WrittenEnd(width, height) <= ImageSize(width, height)
    ensures WrittenEnd(width, height) < ImageSize(width, height)
        <==> (width % 2 == 1 || height % 2 == 1) && width * height >= 2
  {
    WritesInBounds(width, height);
    if width % 2 == 0 && height % 2 == 0 {
      EvenDimensionsFullyWritten(width, height);
    } else if width % 2 == 1 && height >= 2 {
      OddWidthLeavesTrailingBytes(width, height);
      MulMonotone(1, width, height);
    } else if height % 2 == 1 && width >= 2 {
      OddHeightLeavesTrailingBytes(width, height);
      MulMonotone(1, height, width);
      assert height * width == width * height;
    } else if width % 2 == 1 {
      assert height <= 1;
      assert WrittenEnd(width, height) == width * height;
    } else {
      assert width == 0;
      assert WrittenEnd(width, height) == width * height;
    }
  }

  /** Every byte of the luma plane is the sample of exactly the column and row its offset encodes. */
  lemma LumaOffsetOnto(width: nat, height: nat, k: nat)
    requires k < LumaSize(width, height)
    ensures width > 0 && 0 <= k % width < width && 0 <= k / width < height
    ensures LumaOffset(width, k % width, k / width) == k
  {
    DivLess(k, width, height);
    assert k == (k / width) * width + k % width;
  }

  /** Every byte between the luma plane and WrittenEnd is the U or the V of some chroma sample. */
  lemma ChromaOffsetOnto(width: nat, height: nat, k: nat)
    requires LumaSize(width, height) <= k < WrittenEnd(width, height)
    ensures exists i: nat, j: nat ::
              i < width / 2 && j < height / 2 &&
              (k == ChromaOffset(width, height, i, j) || k == ChromaOffset(width, height, i, j) + 1)
  {
    var m := k - LumaSize(width, height);
    ChromaPairBound(width, height, m);
    var cw := width / 2;
    var i, j := (m / 2) % cw, (m / 2) / cw;
    assert m / 2 == j * cw + i;
    assert k == ChromaOffset(width, height, i, j) + m % 2;
  }

  /** With even dimensions every byte of the buffer is a luma sample or half of a chroma sample. */
  lemma EveryByteIsASample(width: nat, height: nat, k: nat)
    requires width % 2 == 0 && height % 2 == 0 && k < ImageSize(width, height)
    ensures (exists i: nat, j: nat :: i < width && j < height && k == LumaOffset(width, i, j))
         || (exists i: nat, j: nat :: i < width / 2 && j < height / 2 &&
               (k == ChromaOffset(width, height, i, j) || k == ChromaOffset(width, height, i, j) + 1))
  {
    if k < LumaSize(width, height) {
      LumaOffsetOnto(width, height, k);
      var i: nat, j: nat := k % width, k / width;
      assert i < width && j < height && k == LumaOffset(width, i, j);
    } else {
      EvenDimensionsFullyWritten(width, height);
      ChromaOffsetOnto(width, height, k);
    }
  }

  /** Chroma rows use the luma row pitch exactly when the width is even. */
  lemma ChromaPitchMatchesRowPitch(width: nat)
    ensures ChromaPitch(width) == width <==> width % 2 == 0
  {
  }

  /** Every luma row holds one value. */
  lemma LumaRowsConstant(width: nat, height: nat, i1: nat, i2: nat, j: nat)
    requires i1 < width && i2 < width && j < height
    ensures LumaOffset(width, i1, j) < |SampleImage(width, height)| && LumaOffset(width, i2, j) < |SampleImage(width, height)|
    ensures SampleImage(width, height)[LumaOffset(width, i1, j)]
         == SampleImage(width, height)[LumaOffset(width, i2, j)]
  {
    LumaAt(width, height, i1, j);
    LumaAt(width, height, i2, j);
  }

  /** Luma is non-decreasing from the top row down, starts at 0 and never exceeds 254. */
  lemma LumaGradient(width: nat, height: nat, i: nat, j1: nat, j2: nat)
    requires i < width && j1 <= j2 < height
    ensures LumaOffset(width, i, 0) < |SampleImage(width, height)|
    ensures LumaOffset(width, i, j1) < |SampleImage(width, height)| && LumaOffset(width, i, j2) < |SampleImage(width, height)|
    ensures SampleImage(width, height)[LumaOffset(width, i, 0)] == 0
    ensures SampleImage(width, height)[LumaOffset(width, i, j1)]
         <= SampleImage(width, height)[LumaOffset(width, i, j2)] <= 254
  {
    LumaAt(width, height, i, 0);
    LumaAt(width, height, i, j1);
    LumaAt(width, height, i, j2);
    GradientMonotone(j1, j2, height);
  }

  /** U is non-decreasing down the chroma rows, starts at 0 and never exceeds 254. */
  lemma ChromaUGradient(width: nat, height: nat, i: nat, j1: nat, j2: nat)
    requires i < width / 2 && j1 <= j2 < height / 2
    ensures ChromaOffset(width, height, i, 0) < |SampleImage(width, height)|
    ensures ChromaOffset(width, height, i, j1) < |SampleImage(width, height)|
    ensures ChromaOffset(width, height, i, j2) < |SampleImage(width, height)|
    ensures SampleImage(width, height)[ChromaOffset(width, height, i, 0)] == 0
    ensures SampleImage(width, height)[ChromaOffset(width, height, i, j1)]
         <= SampleImage(width, height)[ChromaOffset(width, height, i, j2)] <= 254
  {
    var img := SampleImage(width, height);
    ChromaInBounds(width, height, i, 0);
    ChromaInBounds(width, height, i, j1);
    ChromaInBounds(width, height, i, j2);
    assert img[ChromaOffset(width, height, i, 0)] == 0 by {
      ChromaAt(width, height, i, 0);
      assert ChromaU(height, 0) == 0;
    }
    assert img[ChromaOffset(width, height, i, j1)] == ChromaU(height, j1) by {
      ChromaAt(width, height, i, j1);
    }
    assert img[ChromaOffset(width, height, i, j2)] == ChromaU(height, j2) by {
      ChromaAt(width, height, i, j2);
    }
    GradientMonotone(j1, j2, height / 2);
  }

  /** V is non-decreasing across the chroma columns, starts at 0 and never exceeds 254. */
  lemma ChromaVGradient(width: nat, height: nat, i1: nat, i2: nat, j: nat)
    requires i1 <= i2 < width / 2 && j < height / 2
    ensures ChromaOffset(width, height, 0, j) + 1 < |SampleImage(width, height)|
    ensures ChromaOffset(width, height, i1, j) + 1 < |SampleImage(width, height)|
    ensures ChromaOffset(width, height, i2, j) + 1 < |SampleImage(width, height)|
    ensures SampleImage(width, height)[ChromaOffset(width, height, 0, j) + 1] == 0
    ensures SampleImage(width, height)[ChromaOffset(width, height, i1, j) + 1]
         <= SampleImage(width, height)[ChromaOffset(width, height, i2, j) + 1] <= 254
  {
    var img := SampleImage(width, height);
    ChromaInBounds(width, height, 0, j);
    ChromaInBounds(width, height, i1, j);
    ChromaInBounds(width, height, i2, j);
    assert img[ChromaOffset(width, height, 0, j) + 1] == 0 by {
      ChromaAt(width, height, 0, j);
      assert ChromaV(width, 0) == 0;
    }
    assert img[ChromaOffset(width, height, i1, j) + 1] == ChromaV(width, i1) by {
      ChromaAt(width, height, i1, j);
    }
    assert img[ChromaOffset(width, height, i2, j) + 1] == ChromaV(width, i2) by {
      ChromaAt(width, height, i2, j);
    }
    GradientMonotone(i1, i2, width / 2);
  }

  /** U depends only on the chroma row and V only on the chroma column. */
  lemma ChromaSeparable(width: nat, height: nat, i1: nat, i2: nat, j1: nat, j2: nat)
    requires i1 < width / 2 && i2 < width / 2 && j1 < height / 2 && j2 < height / 2
    ensures ChromaOffset(width, height, i1, j1) + 1 < |SampleImage(width, height)|
    ensures ChromaOffset(width, height, i2, j1) < |SampleImage(width, height)|
    ensures ChromaOffset(width, height, i1, j2) + 1 < |SampleImage(width, height)|
    ensures SampleImage(width, height)[ChromaOffset(width, height, i1, j1)]
         == SampleImage(width, height)[ChromaOffset(width, height, i2, j1)]
    ensures SampleImage(width, height)[ChromaOffset(width, height, i1, j1) + 1]
         == SampleImage(width, height)[ChromaOffset(width, height, i1, j2) + 1]
  {
    var img := SampleImage(width, height);
    ChromaInBounds(width, height, i1, j1);
    ChromaInBounds(width, height, i2, j1);
    ChromaInBounds(width, height, i1, j2);
    assert img[ChromaOffset(width, height, i1, j1)] == ChromaU(height, j1)
        && img[ChromaOffset(width, height, i1, j1) + 1] == ChromaV(width, i1) by {
      ChromaAt(width, height, i1, j1);
    }
    assert img[ChromaOffset(width, height, i2, j1)] == ChromaU(height, j1) by {
      ChromaAt(width, height, i2, j1);
    }
    assert img[ChromaOffset(width, height, i1, j2) + 1] == ChromaV(width, i1) by {
      ChromaAt(width, height, i1, j2);
    }
  }

  /** The gradient is non-decreasing along its run. */
  lemma GradientMonotone(x1: nat, x2: nat, n: nat)
    requires x1 <= x2 < n
    ensures Gradient(x1, n) <= Gradient(x2, n)
  {
    MulMonotone(x1, x2, 255);
    DivMonotone(x1 * 255, x2 * 255, n);
  }
}
