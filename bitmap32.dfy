/**
 * The locked-bitmap view of Bitmap32.cs: a byte copy of a bitmap's native pixel
 * storage, pixel and channel accessors on it, the lock/unlock protocol that copies
 * the storage in and out, and the image arithmetic built on them.
 */
module Bitmaps {
  import opened Pixels
  import opened BitmapLayout
  import opened Arith

  /** The pixel storage of a freshly created bitmap: every byte zero. */
  function BlankStorage(size: nat): seq<byte> {
    seq(size, _ => 0)
  }

  class Bitmap32 {
    /** Dimensions of the wrapped bitmap. */
    const Width: nat
    const Height: nat
    /** Bytes per row of the native storage, fixed by the bitmap. */
    const Stride: nat

    /** The wrapped bitmap's own pixel storage. */
    var Native: seq<byte>
    /** The working copy of the pixels; null while unlocked. */
    var ImageBytes: array?<byte>
    var RowSizeBytes: int
    var IsLocked: bool

    ghost predicate Valid()
      reads this
    {
      Width > 0 && Height > 0 && Shape().Valid() && |Native| == Shape().Size() &&
      (IsLocked <==> ImageBytes != null) &&
      (IsLocked ==> ImageBytes.Length == Shape().Size() && RowSizeBytes == Stride)
    }

    function Shape(): BitmapLayout.Shape {
      BitmapLayout.Shape(Width, Height, Stride)
    }

    /** The image as the program sees it: the working copy while locked, else the storage. */
    ghost function Contents(): (s: seq<byte>)
      reads this, ImageBytes
      requires Valid()
      ensures |s| == Shape().Size()
    {
      if IsLocked then ImageBytes[..] else Native
    }

    /** Wraps an existing bitmap; nothing is copied until it is locked. */
    constructor (width: nat, height: nat, stride: nat, storage: seq<byte>)
      requires width > 0 && height > 0 && BytesPerPixel * width <= stride
      requires |storage| == stride * height
      ensures Valid() && !IsLocked && RowSizeBytes == 0
      ensures Width == width && Height == height && Stride == stride && Native == storage
    {
      Width, Height, Stride := width, height, stride;
      Native := storage;
      ImageBytes := null;
      RowSizeBytes := 0;
      IsLocked := false;
    }

    method GetPixel(x: int, y: int) returns (red: byte, green: byte, blue: byte, alpha: byte)
      requires Valid() && IsLocked && PixelFits(ImageBytes.Length, Offset(Stride, x, y))
      ensures PixelData(red, green, blue, alpha) == PixelAtOffset(ImageBytes[..], Offset(Stride, x, y))
    {
      var i := y * Stride + x * 4;
      blue := ImageBytes[i];
      i := i + 1;
      green := ImageBytes[i];
      i := i + 1;
      red := ImageBytes[i];
      i := i + 1;
      alpha := ImageBytes[i];
    }

    method SetPixel(x: int, y: int, red: byte, green: byte, blue: byte, alpha: byte)
      requires Valid() && IsLocked && PixelFits(ImageBytes.Length, Offset(Stride, x, y))
      modifies ImageBytes
      ensures ImageBytes[..] == WritePixel(old(ImageBytes[..]), Offset(Stride, x, y), PixelData(red, green, blue, alpha))
      ensures PixelAtOffset(ImageBytes[..], Offset(Stride, x, y)) == PixelData(red, green, blue, alpha)
      ensures SameOutsidePixel(old(ImageBytes[..]), ImageBytes[..], Offset(Stride, x, y))
    {
      var i := y * Stride + x * 4;
      ImageBytes[i] := blue;
      i := i + 1;
      ImageBytes[i] := green;
      i := i + 1;
      ImageBytes[i] := red;
      i := i + 1;
      ImageBytes[i] := alpha;
    }

    method GetBlue(x: int, y: int) returns (blue: byte)
      requires Valid() && IsLocked && 0 <= Offset(Stride, x, y) + BlueIndex < ImageBytes.Length
      ensures blue == ImageBytes[Offset(Stride, x, y) + BlueIndex]
      ensures PixelFits(ImageBytes.Length, Offset(Stride, x, y)) ==>
                blue == PixelAtOffset(ImageBytes[..], Offset(Stride, x, y)).B
    {
      var i := y * Stride + x * 4;
      return ImageBytes[i];
    }

    method SetBlue(x: int, y: int, blue: byte)
      requires Valid() && IsLocked && 0 <= Offset(Stride, x, y) + BlueIndex < ImageBytes.Length
      modifies ImageBytes
      ensures ImageBytes[Offset(Stride, x, y) + BlueIndex] == blue
      ensures forall i :: 0 <= i < ImageBytes.Length && i != Offset(Stride, x, y) + BlueIndex ==>
                ImageBytes[i] == old(ImageBytes[i])
      ensures PixelFits(ImageBytes.Length, Offset(Stride, x, y)) ==>
                PixelAtOffset(ImageBytes[..], Offset(Stride, x, y)) ==
                old(PixelAtOffset(ImageBytes[..], Offset(Stride, x, y))).(B := blue)
    {
      var i := y * Stride + x * 4;
      ImageBytes[i] := blue;
    }

    method GetGreen(x: int, y: int) returns (green: byte)
      requires Valid() && IsLocked && 0 <= Offset(Stride, x, y) + GreenIndex < ImageBytes.Length
      ensures green == ImageBytes[Offset(Stride, x, y) + GreenIndex]
      ensures PixelFits(ImageBytes.Length, Offset(Stride, x, y)) ==>
                green == PixelAtOffset(ImageBytes[..], Offset(Stride, x, y)).G
    {
      var i := y * Stride + x * 4;
      return ImageBytes[i + 1];
    }

    method SetGreen(x: int, y: int, green: byte)
      requires Valid() && IsLocked && 0 <= Offset(Stride, x, y) + GreenIndex < ImageBytes.Length
      modifies ImageBytes
      ensures ImageBytes[Offset(Stride, x, y) + GreenIndex] == green
      ensures forall i :: 0 <= i < ImageBytes.Length && i != Offset(Stride, x, y) + GreenIndex ==>
                ImageBytes[i] == old(ImageBytes[i])
      ensures PixelFits(ImageBytes.Length, Offset(Stride, x, y)) ==>
                PixelAtOffset(ImageBytes[..], Offset(Stride, x, y)) ==
                old(PixelAtOffset(ImageBytes[..], Offset(Stride, x, y))).(G := green)
    {
      var i := y * Stride + x * 4;
      ImageBytes[i + 1] := green;
    }

    method GetRed(x: int, y: int) returns (red: byte)
      requires Valid() && IsLocked && 0 <= Offset(Stride, x, y) + RedIndex < ImageBytes.Length
      ensures red == ImageBytes[Offset(Stride, x, y) + RedIndex]
      ensures PixelFits(ImageBytes.Length, Offset(Stride, x, y)) ==>
                red == PixelAtOffset(ImageBytes[..], Offset(Stride, x, y)).R
    {
      var i := y * Stride + x * 4;
      return ImageBytes[i + 2];
    }

    method SetRed(x: int, y: int, red: byte)
      requires Valid() && IsLocked && 0 <= Offset(Stride, x, y) + RedIndex < ImageBytes.Length
      modifies ImageBytes
      ensures ImageBytes[Offset(Stride, x, y) + RedIndex] == red
      ensures forall i :: 0 <= i < ImageBytes.Length && i != Offset(Stride, x, y) + RedIndex ==>
                ImageBytes[i] == old(ImageBytes[i])
      ensures PixelFits(ImageBytes.Length, Offset(Stride, x, y)) ==>
                PixelAtOffset(ImageBytes[..], Offset(Stride, x, y)) ==
                old(PixelAtOffset(ImageBytes[..], Offset(Stride, x, y))).(R := red)
    {
      var i := y * Stride + x * 4;
      ImageBytes[i + 2] := red;
    }

    method GetAlpha(x: int, y: int) returns (alpha: byte)
      requires Valid() && IsLocked && 0 <= Offset(Stride, x, y) + AlphaIndex < ImageBytes.Length
      ensures alpha == ImageBytes[Offset(Stride, x, y) + AlphaIndex]
      ensures PixelFits(ImageBytes.Length, Offset(Stride, x, y)) ==>
                alpha == PixelAtOffset(ImageBytes[..], Offset(Stride, x, y)).A
    {
      var i := y * Stride + x * 4;
      return ImageBytes[i + 3];
    }

    method SetAlpha(x: int, y: int, alpha: byte)
      requires Valid() && IsLocked && 0 <= Offset(Stride, x, y) + AlphaIndex < ImageBytes.Length
      modifies ImageBytes
      ensures ImageBytes[Offset(Stride, x, y) + AlphaIndex] == alpha
      ensures forall i :: 0 <= i < ImageBytes.Length && i != Offset(Stride, x, y) + AlphaIndex ==>
                ImageBytes[i] == old(ImageBytes[i])
      ensures PixelFits(ImageBytes.Length, Offset(Stride, x, y)) ==>
                PixelAtOffset(ImageBytes[..], Offset(Stride, x, y)) ==
                old(PixelAtOffset(ImageBytes[..], Offset(Stride, x, y))).(A := alpha)
    {
      var i := y * Stride + x * 4;
      ImageBytes[i + 3] := alpha;
    }

    /** Copies the native storage into a fresh working buffer; a no-op when already locked. */
    method LockBitmap()
      requires Valid()
      modifies this
      ensures Valid() && IsLocked
      ensures Contents() == old(Contents()) && Native == old(Native)
      ensures old(IsLocked) ==> unchanged(this)
      ensures !old(IsLocked) ==> fresh(ImageBytes) && ImageBytes[..] == Native
    {
      if IsLocked {
        return;
      }
      RowSizeBytes := Stride;
      var totalSize := Stride * Height;
      var storage := Native;
      ImageBytes := new byte[totalSize](i requires 0 <= i < totalSize => storage[i]);
      IsLocked := true;
    }

    /** Copies the working buffer back into the native storage and drops it; a no-op when unlocked. */
    method UnlockBitmap()
      requires Valid()
      modifies this
      ensures Valid() && !IsLocked && ImageBytes == null
      ensures Contents() == old(Contents())
      ensures !old(IsLocked) ==> unchanged(this)
      ensures old(IsLocked) ==> Native == old(ImageBytes[..]) && RowSizeBytes == old(RowSizeBytes)
    {
      if !IsLocked {
        return;
      }
      Native := ImageBytes[..];
      ImageBytes := null;
      IsLocked := false;
    }

    /** Releasing the view is unlocking it. */
    method Dispose()
      requires Valid()
      modifies this
      ensures Valid() && !IsLocked && ImageBytes == null
      ensures Contents() == old(Contents())
      ensures !old(IsLocked) ==> unchanged(this)
      ensures old(IsLocked) ==> Native == old(ImageBytes[..]) && RowSizeBytes == old(RowSizeBytes)
    {
      UnlockBitmap();
    }

    /** `a - b` for the bytes of one channel. */
    static function Difference(l: byte, r: byte): int {
      l - r
    }

    /** `a + b` for the bytes of one channel. */
    static function Sum(l: byte, r: byte): int {
      l + r
    }

    /** Every channel of the result, alpha included, combines the same channel of both pixels. */
    static function CombinePixels(p: PixelData, q: PixelData, f: (byte, byte) -> int, toByte: int -> byte): PixelData {
      PixelData(toByte(f(p.R, q.R)), toByte(f(p.G, q.G)), toByte(f(p.B, q.B)), toByte(f(p.A, q.A)))
    }

    /** Colour channels scaled by the factor; alpha is scaled from the blue channel. */
    static function ScalePixel<F>(p: PixelData, factor: F, scaleToByte: (byte, F) -> byte): PixelData {
      PixelData(scaleToByte(p.R, factor), scaleToByte(p.G, factor), scaleToByte(p.B, factor), scaleToByte(p.B, factor))
    }

    /**
     * The shared body of `+` and `-`: a fresh image over the overlap of both
     * operands, each pixel combining the operands' pixels at the same place.
     * All three images are left unlocked.
     */
    static method Op(lhs: Bitmap32, rhs: Bitmap32, f: (byte, byte) -> int, toByte: int -> byte) returns (target: Bitmap32)
      requires lhs.Valid() && rhs.Valid()
      modifies lhs, rhs
      ensures fresh(target) && target.Valid() && !target.IsLocked
      ensures target.Width == Min(lhs.Width, rhs.Width) && target.Height == Min(lhs.Height, rhs.Height)
      ensures target.Stride == BytesPerPixel * target.Width && target.RowSizeBytes == target.Stride
      ensures lhs.Valid() && !lhs.IsLocked && lhs.Native == old(lhs.Contents()) && lhs.RowSizeBytes == lhs.Stride
      ensures rhs.Valid() && !rhs.IsLocked && rhs.Native == old(rhs.Contents()) && rhs.RowSizeBytes == rhs.Stride
      ensures forall x, y | target.Shape().Contains(x, y) ::
                PixelAt(target.Native, target.Shape(), x, y) ==
                CombinePixels(PixelAt(old(lhs.Contents()), lhs.Shape(), x, y),
                              PixelAt(old(rhs.Contents()), rhs.Shape(), x, y), f, toByte)
    {
      var width := Min(lhs.Width, rhs.Width);
      var height := Min(lhs.Height, rhs.Height);
      target := new Bitmap32(width, height, BytesPerPixel * width, BlankStorage(BytesPerPixel * width * height));
      ghost var left := lhs.Contents();

      lhs.LockBitmap();
      rhs.LockBitmap();
      assert lhs.ImageBytes[..] == left by {
        if lhs != rhs {
          assert lhs.ImageBytes[..] == left;
        }
      }
      target.LockBitmap();
      CombineRows(lhs, rhs, target, f, toByte);

      lhs.UnlockBitmap();
      rhs.UnlockBitmap();
      target.UnlockBitmap();
    }

    /**
     * The row loop of `+` and `-` (a parallel loop over rows in the source, whose
     * rows write disjoint pixels), run row after row: every pixel of the locked
     * target combines the locked operands' pixels at the same place.
     */
    static method CombineRows(lhs: Bitmap32, rhs: Bitmap32, target: Bitmap32, f: (byte, byte) -> int, toByte: int -> byte)
      requires lhs.Valid() && lhs.IsLocked && rhs.Valid() && rhs.IsLocked && target.Valid() && target.IsLocked
      requires target.Width <= lhs.Width && target.Width <= rhs.Width
      requires target.Height <= lhs.Height && target.Height <= rhs.Height
      requires target.ImageBytes != lhs.ImageBytes && target.ImageBytes != rhs.ImageBytes
      modifies target.ImageBytes
      ensures forall x, y | target.Shape().Contains(x, y) ::
                PixelAt(target.ImageBytes[..], target.Shape(), x, y) ==
                CombinePixels(PixelAt(lhs.ImageBytes[..], lhs.Shape(), x, y),
                              PixelAt(rhs.ImageBytes[..], rhs.Shape(), x, y), f, toByte)
    {
      var width, height := target.Width, target.Height;
      var bytes := target.ImageBytes;
      ghost var left, right := lhs.ImageBytes[..], rhs.ImageBytes[..];
      ghost var ls, rs, ts := lhs.Shape(), rhs.Shape(), target.Shape();
      var y := 0;
      while y < height
        invariant 0 <= y <= height
        invariant forall yy, xx | 0 <= yy < y && 0 <= xx < width ::
                    PixelAt(bytes[..], ts, xx, yy) ==
                    CombinePixels(PixelAt(left, ls, xx, yy), PixelAt(right, rs, xx, yy), f, toByte)
        modifies bytes
      {
        var x := 0;
        while x < width
          invariant 0 <= x <= width
          invariant forall yy, xx | 0 <= yy < height && 0 <= xx < width && (yy < y || (yy == y && xx < x)) ::
                      PixelAt(bytes[..], ts, xx, yy) ==
                      CombinePixels(PixelAt(left, ls, xx, yy), PixelAt(right, rs, xx, yy), f, toByte)
          modifies bytes
        {
          OffsetInBounds(ls, x, y);
          OffsetInBounds(rs, x, y);
          OffsetInBounds(ts, x, y);
          var r1, g1, b1, a1 := lhs.GetPixel(x, y);
          var r2, g2, b2, a2 := rhs.GetPixel(x, y);
          ghost var before := bytes[..];
          target.SetPixel(x, y, toByte(f(r1, r2)), toByte(f(g1, g2)), toByte(f(b1, b2)), toByte(f(a1, a2)));
          forall yy, xx | 0 <= yy < height && 0 <= xx < width && (yy < y || (yy == y && xx <= x))
            ensures PixelAt(bytes[..], ts, xx, yy) ==
                    CombinePixels(PixelAt(left, ls, xx, yy), PixelAt(right, rs, xx, yy), f, toByte)
          {
            if xx != x || yy != y {
              OtherPixelUnchanged(before, bytes[..], ts, x, y, xx, yy);
            }
          }
          x := x + 1;
        }
        y := y + 1;
      }
    }

    /** `lhs - rhs`: channel-wise difference over the overlapping region. */
    static method Subtract(lhs: Bitmap32, rhs: Bitmap32, toByte: int -> byte) returns (target: Bitmap32)
      requires lhs.Valid() && rhs.Valid()
      modifies lhs, rhs
      ensures fresh(target) && target.Valid() && !target.IsLocked
      ensures target.Width == Min(lhs.Width, rhs.Width) && target.Height == Min(lhs.Height, rhs.Height)
      ensures target.Stride == BytesPerPixel * target.Width && target.RowSizeBytes == target.Stride
      ensures lhs.Valid() && !lhs.IsLocked && lhs.Native == old(lhs.Contents()) && lhs.RowSizeBytes == lhs.Stride
      ensures rhs.Valid() && !rhs.IsLocked && rhs.Native == old(rhs.Contents()) && rhs.RowSizeBytes == rhs.Stride
      ensures forall x, y | target.Shape().Contains(x, y) ::
                PixelAt(target.Native, target.Shape(), x, y) ==
                CombinePixels(PixelAt(old(lhs.Contents()), lhs.Shape(), x, y),
                              PixelAt(old(rhs.Contents()), rhs.Shape(), x, y), Difference, toByte)
    {
      target := Op(lhs, rhs, Difference, toByte);
    }

    /** `lhs + rhs`: channel-wise sum over the overlapping region. */
    static method Add(lhs: Bitmap32, rhs: Bitmap32, toByte: int -> byte) returns (target: Bitmap32)
      requires lhs.Valid() && rhs.Valid()
      modifies lhs, rhs
      ensures fresh(target) && target.Valid() && !target.IsLocked
      ensures target.Width == Min(lhs.Width, rhs.Width) && target.Height == Min(lhs.Height, rhs.Height)
      ensures target.Stride == BytesPerPixel * target.Width && target.RowSizeBytes == target.Stride
      ensures lhs.Valid() && !lhs.IsLocked && lhs.Native == old(lhs.Contents()) && lhs.RowSizeBytes == lhs.Stride
      ensures rhs.Valid() && !rhs.IsLocked && rhs.Native == old(rhs.Contents()) && rhs.RowSizeBytes == rhs.Stride
      ensures forall x, y | target.Shape().Contains(x, y) ::
                PixelAt(target.Native, target.Shape(), x, y) ==
                CombinePixels(PixelAt(old(lhs.Contents()), lhs.Shape(), x, y),
                              PixelAt(old(rhs.Contents()), rhs.Shape(), x, y), Sum, toByte)
    {
      target := Op(lhs, rhs, Sum, toByte);
    }

    /**
     * `source * factor`: a fresh image of the source's size whose colour channels
     * are the source's scaled by the factor and whose alpha is the scaled blue.
     * Both images are left unlocked.
     */
    static method Multiply<F>(source: Bitmap32, factor: F, scaleToByte: (byte, F) -> byte) returns (target: Bitmap32)
      requires source.Valid()
      modifies source
      ensures fresh(target) && target.Valid() && !target.IsLocked
      ensures target.Width == source.Width && target.Height == source.Height
      ensures target.Stride == BytesPerPixel * target.Width && target.RowSizeBytes == target.Stride
      ensures source.Valid() && !source.IsLocked && source.Native == old(source.Contents()) && source.RowSizeBytes == source.Stride
      ensures forall x, y | target.Shape().Contains(x, y) ::
                PixelAt(target.Native, target.Shape(), x, y) ==
                ScalePixel(PixelAt(old(source.Contents()), source.Shape(), x, y), factor, scaleToByte)
    {
      var width := source.Width;
      var height := source.Height;
      target := new Bitmap32(width, height, BytesPerPixel * width, BlankStorage(BytesPerPixel * width * height));
      source.LockBitmap();
      target.LockBitmap();
      ScaleRows(source, target, factor, scaleToByte);

      source.UnlockBitmap();
      target.UnlockBitmap();
    }

    /**
     * The row loop of `source * factor`, run row after row: every pixel of the
     * locked target is the locked source's pixel at the same place, scaled.
     */
    static method ScaleRows<F>(source: Bitmap32, target: Bitmap32, factor: F, scaleToByte: (byte, F) -> byte)
      requires source.Valid() && source.IsLocked && target.Valid() && target.IsLocked
      requires target.Width <= source.Width && target.Height <= source.Height
      requires target.ImageBytes != source.ImageBytes
      modifies target.ImageBytes
      ensures forall x, y | target.Shape().Contains(x, y) ::
                PixelAt(target.ImageBytes[..], target.Shape(), x, y) ==
                ScalePixel(PixelAt(source.ImageBytes[..], source.Shape(), x, y), factor, scaleToByte)
    {
      var width, height := target.Width, target.Height;
      var bytes := target.ImageBytes;
      ghost var src := source.ImageBytes[..];
      ghost var ss, ts := source.Shape(), target.Shape();
      var y := 0;
      while y < height
        invariant 0 <= y <= height
        invariant forall yy, xx | 0 <= yy < y && 0 <= xx < width ::
                    PixelAt(bytes[..], ts, xx, yy) == ScalePixel(PixelAt(src, ss, xx, yy), factor, scaleToByte)
        modifies bytes
      {
        var x := 0;
        while x < width
          invariant 0 <= x <= width
          invariant forall yy, xx | 0 <= yy < height && 0 <= xx < width && (yy < y || (yy == y && xx < x)) ::
                      PixelAt(bytes[..], ts, xx, yy) == ScalePixel(PixelAt(src, ss, xx, yy), factor, scaleToByte)
          modifies bytes
        {
          OffsetInBounds(ss, x, y);
          OffsetInBounds(ts, x, y);
          var r, g, b, a := source.GetPixel(x, y);
          ghost var before := bytes[..];
          target.SetPixel(x, y, scaleToByte(r, factor), scaleToByte(g, factor), scaleToByte(b, factor), scaleToByte(b, factor));
          forall yy, xx | 0 <= yy < height && 0 <= xx < width && (yy < y || (yy == y && xx <= x))
            ensures PixelAt(bytes[..], ts, xx, yy) == ScalePixel(PixelAt(src, ss, xx, yy), factor, scaleToByte)
          {
            if xx != x || yy != y {
              OtherPixelUnchanged(before, bytes[..], ts, x, y, xx, yy);
            }
          }
          x := x + 1;
        }
        y := y + 1;
      }
    }

    /** `factor * source` is defined as `source * factor`. */
    static method MultiplyFactorFirst<F>(factor: F, source: Bitmap32, scaleToByte: (byte, F) -> byte) returns (target: Bitmap32)
      requires source.Valid()
      modifies source
      ensures fresh(target) && target.Valid() && !target.IsLocked
      ensures target.Width == source.Width && target.Height == source.Height
      ensures target.Stride == BytesPerPixel * target.Width && target.RowSizeBytes == target.Stride
      ensures source.Valid() && !source.IsLocked && source.Native == old(source.Contents()) && source.RowSizeBytes == source.Stride
      ensures forall x, y | target.Shape().Contains(x, y) ::
                PixelAt(target.Native, target.Shape(), x, y) ==
                ScalePixel(PixelAt(old(source.Contents()), source.Shape(), x, y), factor, scaleToByte)
    {
      target := Multiply(source, factor, scaleToByte);
    }
  }
}
