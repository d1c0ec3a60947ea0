# Verified model of the image processor's pixel buffer and montage layout

This project models three parts of a C# image-processing application. It proves properties about each part.

- **`Bitmap32`** is a 32-bit-per-pixel view of a bitmap. Locking the view copies the bitmap's native pixel storage into a byte array, `ImageBytes`. Unlocking copies the array back and drops it. Locking a locked view or unlocking an unlocked one does nothing. Pixel (x, y) starts at byte `y * Stride + x * 4`. Its four bytes hold blue, green, red and alpha, in that order. Whole-pixel and single-channel getters and setters work on the locked array. The image operators `+`, `-` and `*` each create a new bitmap and fill it pixel by pixel. `+` and `-` cover the region where both operands overlap and combine all four channels. `*` keeps the source's size and scales red, green and blue. As in the source, it computes alpha from the *blue* channel. Each operator leaves every bitmap it touches unlocked.
- **`PixelData`** is a four-byte RGBA value. Its brightness is the unweighted sum R + G + B. Its constructor defaults alpha to 255.
- **`MakeMontage`** places n images four per row. Each image sits in a cell the size of the widest and the tallest image. The canvas is `cols * maxWidth` by `rows * maxHeight`, and image i is drawn at `((i % 4) * maxWidth, (i / 4) * maxHeight)`.

Files:

- `pixels.dfy` (module `Pixels`): `PixelData` and its brightness.
- `layout.dfy` (module `BitmapLayout`): the stride-aware offset function and the pure byte-level meaning of a pixel. It proves that offsets stay in bounds, that pixels follow row-major order and that different pixels use disjoint bytes.
- `bitmap32.dfy` (module `Bitmaps`): class `Bitmap32`, which covers the lock protocol, the accessors and the operators.
- `montage.dfy` (module `Montage`): the montage layout method and the lemmas about where tiles go.
- `arith.dfy` (module `Arith`): `Min`, `Max` and a fact about multiplication that the other modules share.

Modelling choices:

- The bitmap's native storage is the field `Bitmap32.Native`. It is a byte sequence of length `Stride * Height`. `Width`, `Height` and `Stride` are constants fixed when the view is created.
- `IsLocked` is a field. The view's `BitmapData` record is represented by `IsLocked` together with `Stride`.
- The ghost function `Contents()` gives the image as the program sees it: the working array while locked, the native storage otherwise. Locking and unlocking both keep `Contents()` unchanged.
- The source calls an extension method `ToByte` on `int` and on `float`, but it is defined in none of the files modelled here. So `+` and `-` take it as a parameter, `toByte: int -> byte`. `*` takes the float multiplication and conversion together as a parameter, `scaleToByte: (byte, F) -> byte`. The type parameter `F` stands for `float`.
- The source creates each result with `new Bitmap(width, height)`. This is modelled as a bitmap of stride `4 * width` wrapped around an all-zero storage (`Bitmaps.BlankStorage`). The operators overwrite every byte of it.
- C# integer division rounds toward zero, and Dafny's rounds down. `Montage.TruncatedDiv` models C#'s rule. For an empty list of images, `(0 - 1) / 4 + 1` is 1 row in C#. Dafny's own division would give 0.
- For zero images the canvas is 0 by 0. The bitmap constructor rejects that size with an exception. The model returns `InvalidCanvasSize` whenever the canvas width or height is not positive.

The model keeps the following behaviour as the code has it, although a reader might expect otherwise:

- Repeated locks and unlocks are silent no-ops. They raise no "already locked" error.
- The scale operator takes its alpha from the blue channel.
- The conversion to a byte is not defined in the code (see above).
- There is no filter, point-operation, enhancement or HSL logic in the pixel buffer. The menu handlers for those features are empty.

## Model

| member | source | states |
|---|---|---|
| `Pixels.PixelData.Brightness` | PixelData.cs:16 | Brightness is between 0 and 765. It is 0 exactly when R, G and B are all 0, and 765 exactly when all three are 255. |
| `Pixels.NewPixel` | PixelData.cs:18-24 | The constructor stores r, g, b and a unchanged. When alpha is omitted it is 255. |
| `Pixels.DefaultAlphaIsOpaque` | PixelData.cs:18 | Building a pixel without alpha gives `PixelData(r, g, b, 255)`. |
| `Pixels.BrightnessIgnoresAlpha` | PixelData.cs:14-16 | Changing only A never changes the brightness. |
| `Pixels.BrightnessMonotone` | PixelData.cs:16 | Raising colour channels never lowers brightness. Equal brightness under channel-wise ≤ means equal colour channels. |
| `BitmapLayout.OffsetInBounds` | Bitmap32.cs:128-129 | Take 0 ≤ x < Width, 0 ≤ y < Height and Stride ≥ 4·Width. Then all four bytes `y*Stride + x*4 + k` (k ≤ 3) are at least 0 and below `Stride*Height`, the length of `ImageBytes`. |
| `BitmapLayout.RowMajorOrder` | Bitmap32.cs:58 | A pixel earlier in a row, or in an earlier row, ends at or before the byte where a later pixel starts. |
| `BitmapLayout.PixelsDisjoint` | Bitmap32.cs:64-71 | The four-byte ranges of two different in-range pixels do not overlap. |
| `BitmapLayout.ReadAfterWrite` | Bitmap32.cs:56-71 | Writing a pixel and reading it back at the same offset gives that pixel. No byte outside its four bytes changes. |
| `BitmapLayout.OtherPixelUnchanged` | Bitmap32.cs:64-71 | A change confined to one pixel's four bytes leaves every other in-range pixel as it was. |
| `Bitmaps.Bitmap32.constructor` | Bitmap32.cs:31-34 | Wrapping a bitmap records its size, stride and storage. The new view is unlocked. |
| `Bitmaps.Bitmap32.GetPixel` | Bitmap32.cs:56-63 | Returns the red, green, blue and alpha that the byte layout puts at `y*Stride + x*4`: blue at +0, green at +1, red at +2, alpha at +3. |
| `Bitmaps.Bitmap32.SetPixel` | Bitmap32.cs:64-71 | Afterwards the pixel reads back exactly as (red, green, blue, alpha). Every byte outside its four bytes is unchanged. |
| `Bitmaps.Bitmap32.GetBlue` | Bitmap32.cs:72-76 | Returns the byte at the pixel's offset +0, which is the blue channel of `GetPixel`'s result. |
| `Bitmaps.Bitmap32.SetBlue` | Bitmap32.cs:77-81 | Changes exactly the byte at offset +0: the pixel's blue channel and nothing else. |
| `Bitmaps.Bitmap32.GetGreen` | Bitmap32.cs:82-86 | Returns the byte at offset +1, which is the green channel of `GetPixel`'s result. |
| `Bitmaps.Bitmap32.SetGreen` | Bitmap32.cs:87-91 | Changes exactly the byte at offset +1: the green channel and nothing else. |
| `Bitmaps.Bitmap32.GetRed` | Bitmap32.cs:92-96 | Returns the byte at offset +2, which is the red channel of `GetPixel`'s result. |
| `Bitmaps.Bitmap32.SetRed` | Bitmap32.cs:97-101 | Changes exactly the byte at offset +2: the red channel and nothing else. |
| `Bitmaps.Bitmap32.GetAlpha` | Bitmap32.cs:102-106 | Returns the byte at offset +3, which is the alpha channel of `GetPixel`'s result. |
| `Bitmaps.Bitmap32.SetAlpha` | Bitmap32.cs:107-111 | Changes exactly the byte at offset +3: the alpha channel and nothing else. |
| `Bitmaps.Bitmap32.LockBitmap` | Bitmap32.cs:114-136 | On a locked view it changes nothing. Otherwise `ImageBytes` becomes a fresh array of length `Stride*Height` equal to the native storage. `IsLocked` then holds, `RowSizeBytes` is the stride and the image's contents are unchanged. |
| `Bitmaps.Bitmap32.UnlockBitmap` | Bitmap32.cs:140-158 | On an unlocked view it changes nothing. Otherwise the native storage becomes the last `ImageBytes`, `ImageBytes` becomes null and `IsLocked` becomes false. |
| `Bitmaps.Bitmap32.Dispose` | Bitmap32.cs:160-163 | Same contract as `UnlockBitmap`. |
| `Bitmaps.Bitmap32.Op` | Bitmap32.cs:172-201 | The result is a fresh `min(widths)` by `min(heights)` image. Each of its pixels applies `toByte(f(c1, c2))` to every channel, alpha included, using both operands' pixels at the same (x, y). The result's stride is exactly `4*width`, so these pixels fix every byte of its storage. Operands and result end unlocked with `RowSizeBytes` equal to their stride. An operand locked by the caller has its current bytes flushed to its storage. |
| `Bitmaps.Bitmap32.CombineRows` | Bitmap32.cs:183-195 | After the row loop, every pixel of the target combines the operands' pixels at the same place. |
| `Bitmaps.Bitmap32.Subtract` | Bitmap32.cs:165-166 | `Op`'s full contract with the channel difference `l - r`: result size, stride `4*width`, unlocked operands with `RowSizeBytes` = stride, and every result pixel the channel-wise `toByte(l - r)` of the operands' pixels. |
| `Bitmaps.Bitmap32.Add` | Bitmap32.cs:168-169 | `Op`'s full contract with the channel sum `l + r`: result size, stride `4*width`, unlocked operands with `RowSizeBytes` = stride, and every result pixel the channel-wise `toByte(l + r)` of the operands' pixels. |
| `Bitmaps.Bitmap32.Multiply` | Bitmap32.cs:206-232 | The result is a fresh image of the source's size. Each pixel has R, G and B set to the scaled source channel, and A set to the scaled source *blue* channel. The result's stride is exactly `4*width`. Source and result end unlocked with `RowSizeBytes` equal to their stride. |
| `Bitmaps.Bitmap32.ScaleRows` | Bitmap32.cs:216-227 | After the row loop, every pixel of the target is the scaled source pixel at the same place. |
| `Bitmaps.Bitmap32.MultiplyFactorFirst` | Bitmap32.cs:203-204 | `factor * source` has exactly the contract of `source * factor`. |
| `Montage.MaxOf` | Form1.cs:128-138 | The running maximum from 0 is at least every element. It is 0 for no elements, and otherwise equal to one of the elements. |
| `Montage.TruncatedDiv` | Form1.cs:140 | C# division: the quotient is rounded toward zero for either sign of the dividend. |
| `Montage.MakeMontage` | Form1.cs:126-156 | Fails exactly when the canvas would be empty. Otherwise the canvas is `cols*maxWidth` by `rows*maxHeight`, and there is one draw per image, in input order. Image i goes at `((i % 4)*maxWidth, (i / 4)*maxHeight)`. |
| `Montage.RowsCoverImages` | Form1.cs:140-141 | For n ≥ 1: rows ≥ 1 and `4*(rows-1) < n ≤ 4*rows`. Also 1 ≤ cols = min(n, 4) ≤ 4. |
| `Montage.NoImagesNoColumns` | Form1.cs:140-141 | With no images, C#'s truncating division gives 1 row and 0 columns. |
| `Montage.CellInGrid` | Form1.cs:149-150 | Image i < n has column `i % 4` < cols and row `i / 4` < rows. |
| `Montage.TileInsideCanvas` | Form1.cs:143-151 | Every image's rectangle `[x, x+w_i) × [y, y+h_i)` lies inside the canvas. |
| `Montage.TilesDisjoint` | Form1.cs:149-150 | The rectangles of two different images do not overlap. |
| `Montage.FailsOnlyWithoutImages` | Form1.cs:131-143 | When every image has a positive size, the canvas is non-empty exactly when there is at least one image. |

## Left out

- Native storage calls (`Bitmap.LockBits`, `Marshal.Copy`, `Bitmap.UnlockBits`) are foreign. They are modelled as copies between the `Native` sequence and the `ImageBytes` array. `Width` and `Height` are constants rather than reads of the wrapped `Bitmap`. The public `Bitmap` field and the constant `PixelDataSize` are not modelled.
- `Parallel.For` in `+`, `-` and `*` becomes a sequential loop over rows. Different rows write disjoint pixels (`BitmapLayout.PixelsDisjoint`), so the order does not matter.
- The `ToByte` extension method is not part of this model. It is a parameter of the operators, so no clamping or rounding behaviour is claimed for it.
- The GDI+ constructor `new Bitmap(width, height)` is foreign. It is modelled by `Bitmaps.BlankStorage`, an all-zero storage of `4 * width * height` bytes. Its initial bytes are never observed, because the operators write every pixel of a stride-`4 * width` target.
- Float arithmetic is not part of this model. In `*`, `channel * factor` followed by the conversion is the parameter `scaleToByte`, and the factor's type is a type parameter.
- Exceptions from the accessors are not modelled. An accessor on an unlocked view dereferences a null `BitmapData`. An index outside `ImageBytes` raises an out-of-range exception. Instead, the accessors require a locked view and bytes that lie inside `ImageBytes`, which is exactly what the source needs to run without an exception. Coordinates outside the image whose bytes still fall inside the array are accepted, as in the source.
- Negative strides (bottom-up bitmaps) and 32-bit overflow of `y * Stride + x * 4` or of `cols * maxWidth` are not modelled. Integers are unbounded.
- One native bitmap wrapped by two `Bitmap32` views is not modelled. Each view owns its storage, so a second `LockBits` on the same bitmap cannot arise.
- HSL.cs is left out: it is float arithmetic with float remainder and `Math.Round`.
- Extensions.cs and image_processor/Extensions.cs are left out: file saving and GDI+ rotation.
- InputForm.cs is left out: dialogs and text parsing.
- The rest of Form1.cs is left out: menu and mouse handlers, file dialogs, `LoadBitmapUnlocked`, and the empty filter, point-operation and enhancement handlers.
- `Montage.MakeMontage` leaves out loading the files, clearing the canvas to the background colour, and the pixels that `DrawImage` writes. It keeps the sizes, the canvas size and the ordered list of draw positions.
