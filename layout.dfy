/**
 * Byte layout of a 32-bit-per-pixel bitmap (Bitmap32.cs): pixel (x, y) starts at
 * byte y * stride + x * 4, and its four bytes hold blue, green, red and alpha in
 * that order. Everything here is a pure function of a byte sequence.
 */
module BitmapLayout {
  import opened Pixels
  import opened Arith

  /** Bytes per pixel in the 32bpp ARGB format. */
  const BytesPerPixel: int := 4

  /** Position of each channel inside a pixel's four bytes. */
  const BlueIndex: int := 0
  const GreenIndex: int := 1
  const RedIndex: int := 2
  const AlphaIndex: int := 3

  /** Dimensions of a bitmap and the byte length of one of its rows. */
  datatype Shape = Shape(width: nat, height: nat, stride: nat) {

    /** A row is wide enough to hold all of its pixels. */
    predicate Valid() {
      BytesPerPixel * width <= stride
    }

    /** Byte length of the whole pixel buffer. */
    function Size(): nat {
      stride * height
    }

    predicate Contains(x: int, y: int) {
      0 <= x < width && 0 <= y < height
    }
  }

  /** Byte offset of pixel (x, y): the stride-aware index function. */
  function Offset(stride: int, x: int, y: int): int {
    y * stride + x * BytesPerPixel
  }

  /** All four bytes of the pixel starting at `o` lie in a buffer of `size` bytes. */
  predicate PixelFits(size: int, o: int) {
    0 <= o && o + BytesPerPixel <= size
  }

  /** The pixel whose four bytes start at offset `o`. */
  function PixelAtOffset(bytes: seq<byte>, o: int): PixelData
    requires PixelFits(|bytes|, o)
  {
    PixelData(bytes[o + RedIndex], bytes[o + GreenIndex], bytes[o + BlueIndex], bytes[o + AlphaIndex])
  }

  /** The pixel at coordinates (x, y) of a buffer laid out as `s`. */
  function PixelAt(bytes: seq<byte>, s: Shape, x: int, y: int): PixelData
    requires s.Valid() && |bytes| == s.Size() && s.Contains(x, y)
  {
    OffsetInBounds(s, x, y);
    PixelAtOffset(bytes, Offset(s.stride, x, y))
  }

  /** The buffer after writing pixel `p` at offset `o`, blue first. */
  function WritePixel(bytes: seq<byte>, o: int, p: PixelData): (r: seq<byte>)
    requires PixelFits(|bytes|, o)
    ensures |r| == |bytes|
  {
    bytes[o + BlueIndex := p.B][o + GreenIndex := p.G][o + RedIndex := p.R][o + AlphaIndex := p.A]
  }

  /** `before` and `after` agree on every byte outside the pixel starting at `o`. */
  ghost predicate SameOutsidePixel(before: seq<byte>, after: seq<byte>, o: int) {
    |before| == |after| &&
    forall i :: 0 <= i < |before| && (i < o || o + BytesPerPixel <= i) ==> after[i] == before[i]
  }

  /**
   * Every byte of an in-range pixel lies inside the buffer, given that a row is
   * at least 4 * width bytes long.
   */
  lemma OffsetInBounds(s: Shape, x: int, y: int)
    requires s.Valid() && s.Contains(x, y)
    ensures PixelFits(s.Size(), Offset(s.stride, x, y))
  {
    MulMonotone(0, y, s.stride);
    MulMonotone(y, s.height - 1, s.stride);
    assert (s.height - 1) * s.stride == s.Size() - s.stride;
  }

  /**
   * Pixels are laid out in row-major order: a pixel earlier in a row, or in an
   * earlier row, ends before the later one begins.
   */
  lemma RowMajorOrder(s: Shape, x1: int, y1: int, x2: int, y2: int)
    requires s.Valid() && s.Contains(x1, y1) && s.Contains(x2, y2)
    requires y1 < y2 || (y1 == y2 && x1 < x2)
    ensures Offset(s.stride, x1, y1) + BytesPerPixel <= Offset(s.stride, x2, y2)
  {
    if y1 < y2 {
      MulMonotone(y1 + 1, y2, s.stride);
      assert (y1 + 1) * s.stride == y1 * s.stride + s.stride;
    }
  }

  /** The byte ranges of two different in-range pixels do not overlap. */
  lemma PixelsDisjoint(s: Shape, x1: int, y1: int, x2: int, y2: int)
    requires s.Valid() && s.Contains(x1, y1) && s.Contains(x2, y2)
    requires x1 != x2 || y1 != y2
    ensures Offset(s.stride, x1, y1) + BytesPerPixel <= Offset(s.stride, x2, y2)
         || Offset(s.stride, x2, y2) + BytesPerPixel <= Offset(s.stride, x1, y1)
  {
    if y1 < y2 || (y1 == y2 && x1 < x2) {
      RowMajorOrder(s, x1, y1, x2, y2);
    } else {
      RowMajorOrder(s, x2, y2, x1, y1);
    }
  }

  /** Reading back a pixel just written yields exactly that pixel. */
  lemma ReadAfterWrite(bytes: seq<byte>, o: int, p: PixelData)
    requires PixelFits(|bytes|, o)
    ensures PixelAtOffset(WritePixel(bytes, o, p), o) == p
    ensures SameOutsidePixel(bytes, WritePixel(bytes, o, p), o)
  {
  }

  /**
   * A change confined to the bytes of pixel (x1, y1) leaves every other in-range
   * pixel as it was.
   */
  lemma OtherPixelUnchanged(before: seq<byte>, after: seq<byte>, s: Shape, x1: int, y1: int, x2: int, y2: int)
    requires s.Valid() && |before| == s.Size() && s.Contains(x1, y1) && s.Contains(x2, y2)
    requires x1 != x2 || y1 != y2
    requires SameOutsidePixel(before, after, Offset(s.stride, x1, y1))
    ensures PixelAt(after, s, x2, y2) == PixelAt(before, s, x2, y2)
  {
    PixelsDisjoint(s, x1, y1, x2, y2);
    OffsetInBounds(s, x2, y2);
    var o := Offset(s.stride, x2, y2);
    assert after[o + RedIndex] == before[o + RedIndex];
    assert after[o + GreenIndex] == before[o + GreenIndex];
    assert after[o + BlueIndex] == before[o + BlueIndex];
    assert after[o + AlphaIndex] == before[o + AlphaIndex];
  }
}
