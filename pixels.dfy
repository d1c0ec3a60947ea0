/** The four-byte pixel value of the image processor (PixelData.cs). */
module Pixels {

  /** An unsigned 8-bit value, C#'s `byte`. */
  type byte = b: int | 0 <= b < 256

  /** Opacity used when a pixel is built without an explicit alpha. */
  const OpaqueAlpha: byte := 255

  /** Largest possible brightness: three channels at 255. */
  const MaxBrightness: int := 765

  /** A pixel: red, green, blue and alpha channels, one byte each. */
  datatype PixelData = PixelData(R: byte, G: byte, B: byte, A: byte) {

    /** Unweighted sum of the three colour channels; alpha plays no part. */
    function Brightness(): (b: int)
      ensures 0 <= b <= MaxBrightness
      ensures b == 0 <==> R == 0 && G == 0 && B == 0
      ensures b == MaxBrightness <==> R == 255 && G == 255 && B == 255
    {
      R + G + B
    }
  }

  /** The struct's constructor; alpha defaults to fully opaque. */
  function NewPixel(r: byte, g: byte, b: byte, a: byte := OpaqueAlpha): (p: PixelData)
    ensures p.R == r && p.G == g && p.B == b && p.A == a
  {
    PixelData(r, g, b, a)
  }

  /** Omitting alpha yields an opaque pixel whose colour channels are the arguments. */
  lemma DefaultAlphaIsOpaque(r: byte, g: byte, b: byte)
    ensures NewPixel(r, g, b) == PixelData(r, g, b, 255)
  {
  }

  /** Changing only the alpha channel never changes the brightness. */
  lemma BrightnessIgnoresAlpha(p: PixelData, a: byte)
    ensures p.(A := a).Brightness() == p.Brightness()
  {
  }

  /** Brightness is monotone in every colour channel. */
  lemma BrightnessMonotone(p: PixelData, q: PixelData)
    requires p.R <= q.R && p.G <= q.G && p.B <= q.B
    ensures p.Brightness() <= q.Brightness()
    ensures p.Brightness() == q.Brightness() ==> p.R == q.R && p.G == q.G && p.B == q.B
  {
  }
}
