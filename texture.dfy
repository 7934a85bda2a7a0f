// The texture-side code of the NV12 demo: the generator that fills a
// zero-initialised byte buffer with the synthetic test image, and the fixed
// 1200x1000 texture description that feeds it to the graphics device.
module Texture {
  import opened Arith
  import opened Nv12

  /**
   * Allocates width*height*3/2 zero bytes and fills them in place: the luma
   * plane row by row, then the chroma plane pair by pair. The buffer is
   * returned by value.
   */
  method CreateYUV420SampleImage(width: nat, height: nat) returns (bitmap: seq<uint8>)
    ensures |bitmap| == width * height * 3 / 2
    ensures bitmap == SampleImage(width, height)
  {
    var rowPitch := width;
    var buf := new uint8[rowPitch * height * 3 / 2](_ => 0);
    ghost var img := SampleImage(width, height);
    FillLumaPlane(buf, width, height);
    FillChromaPlane(buf, width, height);
    forall k | WrittenEnd(width, height) <= k < buf.Length
      ensures buf[k] == img[k]
    {
      TrailingBytesZero(width, height, k);
    }
    bitmap := buf[..];
  }

  /** Writes row j's gradient to every luma byte of row j; nothing past the luma plane changes. */
  method FillLumaPlane(buf: array<uint8>, width: nat, height: nat)
    requires buf.Length == ImageSize(width, height)
    modifies buf
    ensures forall k :: 0 <= k < LumaSize(width, height) ==> buf[k] == SampleImage(width, height)[k]
    ensures forall k :: LumaSize(width, height) <= k < buf.Length ==> buf[k] == old(buf[k])
  {
    var rowPitch := width;
    ghost var img := SampleImage(width, height);
    WritesInBounds(width, height);
    var j := 0;
    while j < height
      invariant j <= height
      invariant j * width <= LumaSize(width, height)
      invariant forall k :: 0 <= k < j * width ==> buf[k] == img[k]
      invariant forall k :: 0 <= k < buf.Length && j * width <= k ==> buf[k] == old(buf[k])
    {
      MulMonotone(j + 1, height, width);
      assert j * width + width == (j + 1) * width;
      var i := 0;
      while i < width
        invariant i <= width
        invariant j * width + i <= LumaSize(width, height)
        invariant forall k :: 0 <= k < j * width + i ==> buf[k] == img[k]
        invariant forall k :: 0 <= k < buf.Length && j * width + i <= k ==> buf[k] == old(buf[k])
      {
        LumaAt(width, height, i, j);
        buf[i + j * rowPitch] := UCharCast((j * 255) / height);
        i := i + 1;
      }
      j := j + 1;
    }
  }

  /**
   * Writes the (U, V) pairs of the chroma plane row by row, from the end of
   * the luma plane on. The luma plane and the bytes past the last pair keep
   * their values.
   */
  method FillChromaPlane(buf: array<uint8>, width: nat, height: nat)
    requires buf.Length == ImageSize(width, height)
    modifies buf
    ensures LumaSize(width, height) <= WrittenEnd(width, height) <= buf.Length
    ensures forall k :: 0 <= k < LumaSize(width, height) ==> buf[k] == old(buf[k])
    ensures forall k :: LumaSize(width, height) <= k < WrittenEnd(width, height) ==> buf[k] == SampleImage(width, height)[k]
    ensures forall k :: WrittenEnd(width, height) <= k < buf.Length ==> buf[k] == old(buf[k])
  {
    ghost var img := SampleImage(width, height);
    WritesInBounds(width, height);
    var rowPitch := width;
    var nLuma := rowPitch * height;
    var uv := nLuma;
    var uvWidth := width / 2;
    var uvHeight := height / 2;
    var j := 0;
    while j < uvHeight
      invariant j <= uvHeight
      invariant uv == ChromaOffset(width, height, 0, j) <= WrittenEnd(width, height)
      invariant nLuma <= uv <= |img| == buf.Length
      invariant forall k :: 0 <= k < nLuma ==> buf[k] == old(buf[k])
      invariant forall k :: nLuma <= k < uv ==> buf[k] == img[k]
      invariant forall k :: uv <= k < buf.Length ==> buf[k] == old(buf[k])
    {
      ChromaRowInBounds(width, height, j);
      uv := FillImageChromaRow(buf, width, height, j, uv);
      j := j + 1;
    }
    ChromaPlaneEnd(width, height);
  }

  /** Chroma row j of the image, written by FillChromaRow at the row's offset. */
  method FillImageChromaRow(buf: array<uint8>, width: nat, height: nat, j: nat, uvStart: nat) returns (uv: nat)
    requires buf.Length == ImageSize(width, height)
    requires j < height / 2 && uvStart == ChromaOffset(width, height, 0, j)
    requires uvStart + ChromaPitch(width) <= buf.Length
    modifies buf
    ensures uv == uvStart + ChromaPitch(width)
    ensures forall k :: 0 <= k < uvStart ==> buf[k] == old(buf[k])
    ensures forall k :: uvStart <= k < uv ==> buf[k] == SampleImage(width, height)[k]
    ensures forall k :: uv <= k < buf.Length ==> buf[k] == old(buf[k])
  {
    uv := FillChromaRow(buf, width, height, j, uvStart);
    ChromaRowMatches(width, height, j, buf[..]);
  }

  /**
   * Writes the (U, V) pairs of chroma row j through a write position that
   * starts at the row's first byte and advances one byte per write (the C++
   * `UV` pointer, here an index into the buffer); returns the advanced
   * position. Only the row's own bytes change.
   */
  method FillChromaRow(buf: array<uint8>, width: nat, height: nat, j: nat, uvStart: nat) returns (uv: nat)
    requires j < height / 2 && uvStart + ChromaPitch(width) <= buf.Length
    modifies buf
    ensures uv == uvStart + ChromaPitch(width)
    ensures forall k :: 0 <= k < uvStart ==> buf[k] == old(buf[k])
    ensures forall k :: uvStart <= k < uv ==> buf[k] == ChromaRowByte(width, height, j, k - uvStart)
    ensures forall k :: uv <= k < buf.Length ==> buf[k] == old(buf[k])
  {
    var uvWidth := width / 2;
    var uvHeight := height / 2;
    uv := uvStart;
    var i := 0;
    while i < uvWidth
      invariant i <= uvWidth
      invariant uv == uvStart + 2 * i
      invariant forall k :: 0 <= k < uvStart ==> buf[k] == old(buf[k])
      invariant forall k :: uvStart <= k < uv ==> buf[k] == ChromaRowByte(width, height, j, k - uvStart)
      invariant forall k :: uv <= k < buf.Length ==> buf[k] == old(buf[k])
    {
      assert ChromaRowByte(width, height, j, 2 * i) == UCharCast(j * 255 / uvHeight);
      assert ChromaRowByte(width, height, j, 2 * i + 1) == UCharCast(i * 255 / uvWidth);
      buf[uv] := UCharCast(j * 255 / uvHeight);
      uv := uv + 1;
      buf[uv] := UCharCast(i * 255 / uvWidth);
      uv := uv + 1;
      i := i + 1;
    }
  }

  /** What the demo hands to the device: the texture's size and its initial data with its row pitch. */
  datatype InitialData = InitialData(width: nat, height: nat, sysMem: seq<uint8>, sysMemPitch: nat)

  /**
   * The fixed 1200x1000 NV12 texture: the generated image is its initial
   * data, with the luma width as row pitch. The chroma rows the generator
   * packs have that same pitch, and the image fills its buffer exactly.
   */
  method CreateTexture() returns (data: InitialData)
    ensures data.width == 1200 && data.height == 1000
    ensures data.sysMem == SampleImage(data.width, data.height)
    ensures |data.sysMem| == 1_800_000 && data.sysMemPitch == data.width
    ensures ChromaPitch(data.width) == data.sysMemPitch
    ensures WrittenEnd(data.width, data.height) == |data.sysMem|
  {
    var width, height := 1200, 1000;
    var bitmap := CreateYUV420SampleImage(width, height);
    EvenDimensionsFullyWritten(width, height);
    data := InitialData(width, height, bitmap, width);
  }
}
