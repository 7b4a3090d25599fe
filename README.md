# Pixel filter engine, modelled in Dafny

This project models the filter engine of a small Java image-manipulation
program and proves what its filters do.

- `ImageManipulator` holds the filters: grayscale, sepia, invert, black and
  white, rotation, the generated gradient image, the three-pass "Instagram"
  filter, and the hue, saturation and lightness adjustments.
- The filters run over a pixel buffer. `ImageWrapper` is that buffer, and
  `Img` is a near-duplicate of it. Each packs an RGB triple into a 24-bit int
  with `& 0xFF` masks.
- `RGB` is a mutable triple of channels.
- `HSL` has saturating setters and a sextant conversion back to RGB.

## Modules

| file | module | what it holds |
|---|---|---|
| `java_num.dfy` | `JavaNum` | Java's `(int)` cast of a double, `Math.ceil`, `%` on a double, int `/`, 32-bit int wrap-around. |
| `rgb.dfy` | `Rgb` | The `Pixel` value and the `RGB` class. |
| `packing.dfy` | `Packing` | The 0xRRGGBB packing and its round trips. |
| `grid.dfy` | `Grid` | `Raster`, the abstract contents of a buffer. Also the row-by-row visiting order, and the invariant shared by the in-place passes. |
| `image_wrapper.dfy` | `Wrapper` | The `ImageWrapper` class: a 2-D `array2<int>` of packed pixels, plus a ghost `Raster` it is proved to hold. |
| `img.dfy` | `ImgBuffer` | The `Img` class, with the same structure. |
| `hsl.dfy` | `Hsl` | `HslValue`, the clamps, the sextant conversion `ToRgb` with its range proofs, and the `HSL` class. |
| `sorting.dfy` | `Sorting` | The ascending sort that black and white applies to its luminances, and the counting facts the median rests on. |
| `filters.dfy` | `Filters` | Each filter as a function on pixels and rasters, with the lemmas about it. |
| `manipulator.dfy` | `Manipulator` | Each filter as the source's nested `i`/`j` loops over an `ImageWrapper`. Each loop method is proved to leave exactly the raster that `Filters` specifies. |

Design choices:

- Doubles are exact reals.
- A Java `(int)` cast of a double is `Trunc`. It rounds toward zero, and a
  value beyond the int range becomes `Integer.MIN_VALUE` or
  `Integer.MAX_VALUE`, as Java's narrowing conversion does. `(int) Math.ceil`
  is `Ceil`, saturated the same way.
- Java int `/` is `Div`, which also rounds toward zero.
- The model follows what the code does where the system's specification
  describes something else:
  - `RGB` stores any int, unclamped. Out-of-range channels are reduced
    modulo 256 only when `SetRGB` stores them.
  - The `HSL` constructor stores its arguments as given. Only the setters
    clamp.
  - `HSL.GetRGB` truncates each channel and does not clamp.
  - `AddLightness`, `AddSaturation` and `AddHue` add a delta to the current
    component through the clamping setter. They do not set an absolute value.
  - `applyTransform` keeps red, divides green by 1.5 and divides blue by 3.
  - The halo blend adds 20 and then applies `truncate`. The grain blend is
    only cast with `(int)`, not clamped by `truncate`.
  - Black and white reads its median at index `(n + 1) / 2`. For an image of
    one pixel that index is out of range and the code throws, so
    `ConvertToBW` reports `IndexOutOfBounds` and leaves the image untouched.
- Hue 0 falls into the default branch of the `GetRGB` switch, so fully
  saturated red at hue 0 comes out black (`HueZeroIsBlack`). The model keeps
  this behaviour.
- Some loop bodies are split into small methods so that each proof stays
  small. The statements and their order are kept. The split-out methods are
  `ApplyTransformRgb`, `SampleOverlay`, `MixHalo`, `MixGrain` and the three
  `*Step` methods.
- `ClassifyPixels` takes the luminance function as a parameter, and
  `ConvertToBW` passes `Luminance` to it.

## Model

| member | source | states |
|---|---|---|
| `JavaNum.Trunc` | src/HSL.java:121 | `(int)` of a double is a Java int: it rounds toward zero inside the int range (within 1 below a non-negative value, within 1 above a negative one) and saturates at Integer.MIN_VALUE and Integer.MAX_VALUE outside it. |
| `JavaNum.Ceil` | src/HSL.java:75 | `(int) Math.ceil(x)` is the least integer not below x inside the int range and saturates outside it. |
| `JavaNum.FMod2` | src/HSL.java:72 | `hprime % 2` keeps the sign of the dividend and lies in [0, 2) for non-negative input. |
| `JavaNum.Div` | src/ImageManipulator.java:20 | Int division rounds toward zero: the quotient brackets the dividend from the side of zero. |
| `JavaNum.WrapInt32` | src/ImageManipulator.java:214 | Int addition yields a 32-bit value congruent to the exact sum, equal to it when it fits. |
| `Rgb.RGB.Zero` | src/RGB.java:9-13 | The default constructor yields (0, 0, 0). |
| `Rgb.RGB.constructor` | src/RGB.java:14-18 | The three-argument constructor stores its arguments exactly, with no clamping. |
| `Rgb.RGB.GetRed` | src/RGB.java:20-22 | Returns the red channel currently held. |
| `Rgb.RGB.GetGreen` | src/RGB.java:24-26 | Returns the green channel currently held. |
| `Rgb.RGB.GetBlue` | src/RGB.java:28-30 | Returns the blue channel currently held. |
| `Rgb.RGB.SetRed` | src/RGB.java:32-34 | Changes red to the given value and nothing else. |
| `Rgb.RGB.SetGreen` | src/RGB.java:36-38 | Changes green to the given value and nothing else. |
| `Rgb.RGB.SetBlue` | src/RGB.java:40-42 | Changes blue to the given value and nothing else. |
| `Rgb.StoresUnclamped` | src/RGB.java:14-30 | RGB(300, -10, 128) reads back as 300, -10, 128. |
| `Rgb.LastStoreWins` | src/RGB.java:20-42 | After a setter call each getter returns the last value stored for its channel. |
| `Rgb.DefaultIsBlack` | src/RGB.java:9-30 | The default-constructed RGB reads back as 0, 0, 0. |
| `Packing.Mask8` | src/ImageWrapper.java:28-30 | `c & 0xFF` lies in [0, 255], is congruent to c modulo 256, and is c for a byte. |
| `Packing.Wrap` | src/ImageWrapper.java:28-30 | Masking all three channels gives an in-range pixel, and changes nothing for an in-range one. |
| `Packing.Pack` | src/ImageWrapper.java:28-30 | The packed value fits in 24 bits. |
| `Packing.Unpack` | src/ImageWrapper.java:20-23 | Channels extracted from bits 16-23, 8-15 and 0-7 are in [0, 255]. |
| `Packing.UnpackPack` | src/ImageWrapper.java:19-33 | Unpacking a packed pixel gives each channel modulo 256. |
| `Packing.UnpackPackInRange` | src/ImageWrapper.java:19-33 | In-range channels survive packing and unpacking exactly. |
| `Packing.PackUnpack` | src/ImageWrapper.java:19-33 | Every 24-bit value is the packing of the channels read from it. |
| `Packing.PackWrap` | src/ImageWrapper.java:28-30 | Packing a pixel and packing its masked form store the same int. |
| `Grid.Raster.Set` | src/ImageWrapper.java:27-33 | Writing one pixel changes that pixel only and keeps the dimensions. |
| `Grid.Filled` | src/Img.java:36-38 | A new w x h buffer holds the same pixel everywhere (black for BufferedImage). |
| `Grid.RowMajorAt` | src/ImageManipulator.java:54-62 | The loops visit pixel (x, y) at position y * width + x, so each pixel is listed exactly once. |
| `Wrapper.ImageWrapper.constructor` | src/Img.java:36-38 | `new ImageWrapper(w, h)` is a valid all-black w x h buffer. |
| `Wrapper.ImageWrapper.GetRGB` | src/ImageWrapper.java:19-25 | Returns a fresh RGB holding the stored pixel, every channel in [0, 255]. |
| `Wrapper.ImageWrapper.SetRGB` | src/ImageWrapper.java:27-33 | The pixel at (x, y) becomes the masked channels, every other pixel and the size stay, the buffer stays valid. |
| `Wrapper.ImageWrapper.GetWidth` | src/ImageWrapper.java:35-37 | The width of the contents, positive. |
| `Wrapper.ImageWrapper.GetHeight` | src/ImageWrapper.java:39-41 | The height of the contents, positive. |
| `Wrapper.WriteThenRead` | src/ImageWrapper.java:19-41 | A channel written and read back is its value mod 256 (256 reads 0, -1 reads 255). Other pixels and the size are unchanged. |
| `ImgBuffer.Img.constructor` | src/Img.java:36-38 | `new Img(w, h)` is a valid all-black buffer with width w and height h. |
| `ImgBuffer.Img.GetRGB` | src/Img.java:46-52 | Returns a fresh RGB holding the stored pixel, every channel in [0, 255]. |
| `ImgBuffer.Img.SetRGB` | src/Img.java:60-66 | Stores each channel mod 256 at (x, y) only; the size is unchanged. |
| `ImgBuffer.Img.GetWidth` | src/Img.java:72-74 | The width of the contents, positive. |
| `ImgBuffer.Img.GetHeight` | src/Img.java:80-82 | The height of the contents, positive. |
| `ImgBuffer.WriteThenRead` | src/Img.java:46-82 | Round trip through SetRGB and GetRGB is mod 256; neighbours and size untouched. |
| `Hsl.ClampHue` | src/HSL.java:27-39 | Hue saturates into [0, 360]: above 360 gives 360, below 0 gives 0, inside is kept. |
| `Hsl.ClampUnit` | src/HSL.java:41-66 | Saturation and lightness saturate into [0, 1] and are kept inside it. |
| `Hsl.Ramp` | src/HSL.java:72 | `1 - abs(hprime % 2 - 1)` lies in [0, 1] for a non-negative hprime. |
| `Hsl.HSL.constructor` | src/HSL.java:9-13 | Stores hue, saturation and lightness unclamped. |
| `Hsl.HSL.GetHue` | src/HSL.java:15-17 | Returns the hue currently held. |
| `Hsl.HSL.GetSaturation` | src/HSL.java:19-21 | Returns the saturation currently held. |
| `Hsl.HSL.GetLightness` | src/HSL.java:23-25 | Returns the lightness currently held. |
| `Hsl.HSL.SetHue` | src/HSL.java:27-39 | Sets the hue to its clamp and changes no other field. |
| `Hsl.HSL.SetSaturation` | src/HSL.java:41-52 | Sets the saturation to its clamp and changes no other field. |
| `Hsl.HSL.SetLightness` | src/HSL.java:54-66 | Sets the lightness to its clamp and changes no other field. |
| `Hsl.HSL.GetRGB` | src/HSL.java:68-122 | Returns a fresh RGB holding the sextant conversion of the current value. |
| `Hsl.ToRgb` | src/HSL.java:68-122 | Every channel is a Java int. When ceil(hue / 60) is outside 1..6 all three channels equal trunc(255 m): a gray. For hue in [0, 360] and saturation, lightness in [0, 1], every channel is in [0, 255]. |
| `Hsl.ToRgbUnsaturated` | src/HSL.java:69-121 | With saturation 0 every channel is trunc(255 * lightness). |
| `Hsl.HueZeroIsBlack` | src/HSL.java:69-121 | Hue 0, saturation 1, lightness 0.5 gives black, through the default branch. |
| `Hsl.HueFullTurnIsRed` | src/HSL.java:106-121 | Hue 360, saturation 1, lightness 0.5 gives (255, 0, 0) through sextant 6. |
| `Hsl.ToRgbTruncates` | src/HSL.java:120-121 | Channels are truncated, not rounded: lightness 0.5 gives 127, not 128. |
| `Hsl.ToRgbSaturates` | src/HSL.java:120-121 | An unclamped lightness of 1e10 gives Integer.MAX_VALUE in every channel, as the saturating cast does. |
| `Hsl.ChromaBounds` | src/HSL.java:69-120 | For in-range values 0 <= chroma <= 1 - abs(2l - 1), m >= 0 and chroma + m <= 1. |
| `Hsl.SecondComponentBounds` | src/HSL.java:72 | For in-range values 0 <= x <= chroma. |
| `Hsl.SextantBounds` | src/HSL.java:75-118 | Every switch branch picks components among 0, x and chroma, so each lies in [0, chroma]. |
| `Sorting.Insert` | src/ImageManipulator.java:64 | Inserting into an ascending list keeps it ascending and adds exactly the one element. |
| `Sorting.Sort` | src/ImageManipulator.java:64 | The sorted list is ascending and a permutation of the input. |
| `Sorting.CountPermutation` | src/ImageManipulator.java:64 | How many values are at least t does not depend on their order. |
| `Sorting.SuffixAtLeast` | src/ImageManipulator.java:64-65 | In an ascending list at least n - k values are not below the one at index k. |
| `Sorting.SortConstant` | src/ImageManipulator.java:64-65 | Sorting n copies of one value gives that value at every index. |
| `Filters.GrayPixel` | src/ImageManipulator.java:19-21 | The three channels become one value, between the darkest and brightest channel, in range when the input is. |
| `Filters.GrayPixelFixed` | src/ImageManipulator.java:20 | A gray pixel is its own integer average. |
| `Filters.GrayscaleIdempotent` | src/ImageManipulator.java:16-26 | Grayscale applied twice equals grayscale applied once. |
| `Filters.InvertPixel` | src/ImageManipulator.java:119 | 255 - c keeps a pixel in range, and only an in-range pixel lands in range. |
| `Filters.InvertInvolution` | src/ImageManipulator.java:115-125 | Inverting twice restores every image exactly. |
| `Filters.Capped` | src/ImageManipulator.java:33-40 | A sepia channel is never above 255, never negative for a non-negative sum, and the floor of the sum below 256. |
| `Filters.SepiaPixel` | src/ImageManipulator.java:31-42 | Every sepia channel is at most 255, and sepia of a non-negative pixel is in [0, 255]. |
| `Filters.SepiaWarm` | src/ImageManipulator.java:33-40 | Sepia output has red >= green >= blue. |
| `Filters.Luminance` | src/ImageManipulator.java:49-51 | The luminance measure is never negative, is 0 exactly for black, and is at most 255^2 for an in-range pixel. |
| `Filters.Luminances` | src/ImageManipulator.java:49-62 | The first pass lists one luminance per pixel, in visiting order. |
| `Filters.MedianIndex` | src/ImageManipulator.java:65 | The index (n + 1) / 2 is n / 2 or n / 2 + 1, and lies below n exactly when n >= 2, so the median read succeeds exactly for images of at least 2 pixels. |
| `Filters.Threshold` | src/ImageManipulator.java:64-65 | The median is the luminance of one of the image's pixels. |
| `Filters.BlackAndWhite` | src/ImageManipulator.java:53-82 | Output pixels are only black or white; a pixel is white iff its luminance is at least the median. |
| `Filters.CountWhiteClassified` | src/ImageManipulator.java:67-79 | The white outputs are as many as the luminances at or above the threshold. |
| `Filters.BlackAndWhiteHalfWhite` | src/ImageManipulator.java:53-82 | At least floor(n / 2) pixels come out white. |
| `Filters.BlackAndWhiteUniform` | src/ImageManipulator.java:53-82 | An image of uniform luminance turns entirely white. |
| `Filters.Rotated` | src/ImageManipulator.java:104-113 | The rotated raster has width and height swapped and pixel (j, i) is the old (i, H - 1 - j). |
| `Filters.RotateTwice` | src/ImageManipulator.java:104-113 | Two rotations take each pixel from the opposite corner. |
| `Filters.RotateFourTimes` | src/ImageManipulator.java:104-113 | Four rotations reproduce the original exactly. |
| `Filters.Gradient` | src/ImageManipulator.java:94-96 | Inside the grid red and green are non-negative and blue lies in [1, 255]. |
| `Filters.Constructed` | src/ImageManipulator.java:88-102 | The generated image is w x h with every pixel the masked gradient value. |
| `Filters.ConstructedBlue` | src/ImageManipulator.java:96 | Generated blue lies in [1, 255], is never masked and never rises moving right or down. |
| `Filters.ConstructedSmall` | src/ImageManipulator.java:94-98 | For images of at most 65536 pixels no channel is masked. |
| `Filters.ScaleBelow` | src/ImageManipulator.java:152 | `j * ow / iw` for j below iw lies in [0, ow). |
| `Filters.Truncate` | src/ImageManipulator.java:127-138 | `truncate` clamps into [0, 255] and is the identity inside. |
| `Filters.ApplyTransform` | src/ImageManipulator.java:178-184 | Red is kept; green and blue never grow for non-negative input; in-range pixels stay in range. |
| `Filters.Sample` | src/ImageManipulator.java:152-166 | Overlay sample coordinates always fall inside the overlay. |
| `Filters.HaloChannel` | src/ImageManipulator.java:154-156 | A halo channel lies in [0, 255] and is at least 20 for non-negative input. |
| `Filters.GrainChannel` | src/ImageManipulator.java:168-170 | A grain channel stays in [0, 255] for in-range input and drops at most one level below 20. |
| `Filters.HaloMix` | src/ImageManipulator.java:154-156 | The halo pass leaves a pixel in range, at least 20 in every channel when both pixels are non-negative. |
| `Filters.GrainMix` | src/ImageManipulator.java:168-170 | The grain pass keeps in-range pixels in range, and a channel of at least 20 keeps at least 19. |
| `Filters.Blend` | src/ImageManipulator.java:150-174 | Each pixel is mixed with the overlay pixel at its scaled position; the size is kept. |
| `Filters.Instagram` | src/ImageManipulator.java:140-176 | The three passes keep the image's width and height. |
| `Filters.InstagramBounds` | src/ImageManipulator.java:140-176 | After all three passes every channel lies in [19, 255]. |
| `Filters.WithLightness` | src/ImageManipulator.java:190 | Lightness becomes old + delta clamped to [0, 1]; hue and saturation are unchanged. |
| `Filters.WithSaturation` | src/ImageManipulator.java:202 | Saturation becomes old + delta clamped to [0, 1]; hue and lightness are unchanged. |
| `Filters.WithHue` | src/ImageManipulator.java:214 | Hue stays in [0, 360]; an int32 sum inside [0, 360] is kept, above 360 gives 360, below 0 gives 0; saturation and lightness are unchanged. |
| `Filters.RecolourExact` | src/ImageManipulator.java:186-220 | For in-range HSL input each pixel becomes exactly HSL.GetRGB of the adjusted value, unmasked. |
| `Manipulator.ConvertToGrayScale` | src/ImageManipulator.java:16-26 | The loops leave exactly the grayscale raster of the old contents. |
| `Manipulator.SepiaRgb` | src/ImageManipulator.java:31-42 | The loop body on one pixel returns a new RGB holding the sepia pixel. |
| `Manipulator.ConvertToSepia` | src/ImageManipulator.java:28-47 | The loops leave exactly the sepia raster of the old contents. |
| `Manipulator.InvertImage` | src/ImageManipulator.java:115-125 | The loops leave exactly the inverted raster of the old contents. |
| `Manipulator.InvertTwice` | src/ImageManipulator.java:115-125 | Calling InvertImage twice leaves the buffer as it was. |
| `Manipulator.CollectLuminances` | src/ImageManipulator.java:54-62 | The first pass lists the luminance of every pixel in visiting order, w * h of them, and writes nothing. |
| `Manipulator.ClassifyPixels` | src/ImageManipulator.java:67-79 | The second pass makes each pixel black below the median and white otherwise. |
| `Manipulator.ConvertToBW` | src/ImageManipulator.java:53-82 | Fails with IndexOutOfBounds exactly when the image has fewer than 2 pixels, and then leaves it unchanged; otherwise leaves the black and white raster. |
| `Manipulator.ConstructedImage` | src/ImageManipulator.java:88-102 | Returns a fresh w x h buffer holding the generated gradient. |
| `Manipulator.RotateImage` | src/ImageManipulator.java:104-113 | Returns a fresh buffer holding the rotated raster; the source is only read. |
| `Manipulator.RotateFullTurn` | src/ImageManipulator.java:104-113 | Four calls of RotateImage give a buffer equal to the original. |
| `Manipulator.ApplyTransformRgb` | src/ImageManipulator.java:178-184 | `applyTransform` returns a new RGB holding the transformed pixel. |
| `Manipulator.TransformPass` | src/ImageManipulator.java:142-146 | The first Instagram loop applies the transform to every pixel. |
| `Manipulator.SampleOverlay` | src/ImageManipulator.java:152 | Reads the overlay pixel at the scaled position, always in bounds. |
| `Manipulator.MixHalo` | src/ImageManipulator.java:153-156 | The halo mix of each channel of the pixel object, in range. |
| `Manipulator.MixGrain` | src/ImageManipulator.java:167-170 | The grain mix of each channel of the pixel object, in range for in-range inputs. |
| `Manipulator.HaloPass` | src/ImageManipulator.java:150-160 | The halo loop leaves exactly the halo blend of the old contents. |
| `Manipulator.GrainPass` | src/ImageManipulator.java:164-174 | The grain loop leaves exactly the grain blend of the old contents. |
| `Manipulator.InstagramFilter` | src/ImageManipulator.java:140-176 | Transform, halo pass and grain pass in that order leave exactly the Instagram raster. |
| `Manipulator.LightnessStep` | src/ImageManipulator.java:189-191 | The pixel converted to HSL, lightness added through the setter, converted back. |
| `Manipulator.SaturationStep` | src/ImageManipulator.java:201-203 | The pixel converted to HSL, saturation added through the setter, converted back. |
| `Manipulator.HueStep` | src/ImageManipulator.java:213-215 | The pixel converted to HSL, hue added (32-bit int sum) through the setter, converted back. |
| `Manipulator.AddLightness` | src/ImageManipulator.java:186-196 | Every pixel is replaced by GetRGB of its HSL with lightness adjusted, masked on store. |
| `Manipulator.AddSaturation` | src/ImageManipulator.java:198-208 | Every pixel is replaced by GetRGB of its HSL with saturation adjusted, masked on store. |
| `Manipulator.AddHue` | src/ImageManipulator.java:210-220 | Every pixel is replaced by GetRGB of its HSL with hue adjusted, masked on store. |

## Left out

- File I/O is not modelled. This covers:
  - `LoadImage` and `SaveImage`;
  - the path constructors and `Save` of `ImageWrapper` and `Img`;
  - the overlay loads inside `InstagramFilter`.

  The halo and grain overlays are parameters of `InstagramFilter`.
- The display code is not modelled: `paint`, `GetScaledWidth` and
  `GetScaledHeight`. Neither is the console and window loop of
  `src/Controller.java`.
- `RGB.GetHSL` is called by the three HSL filters but is not part of this
  model. Its source is not available. It is the parameter `toHsl`, a function
  from pixel values to HSL values, with no formula assumed.
- IEEE-754 rounding is not modelled. Doubles are exact reals, so results that
  depend on rounding of the coefficients are not captured. This affects
  sepia, the blends, luminance and `HSL.GetRGB`.
- `Filters.Luminance`: does not model the final `sqrt` of `GetLuminance`,
  because the square root is strictly increasing on non-negative reals. Every
  comparison in black and white therefore comes out the same.
- `Filters.GrayPixel`: does not wrap the sum `r + g + b` to 32 bits. The
  channels come from `GetRGB` and lie in [0, 255], where the sum cannot
  overflow.
- `Filters.HaloChannel`: does not wrap the `+ 20` after the cast to 32
  bits. The channels it mixes come from `GetRGB` and lie in [0, 255], where
  the sum cannot overflow.
- `Filters.Gradient`: ignores 32-bit overflow of `i * w + j`, `j * h`,
  `i * 128` and `j * 128`. These only overflow for images over about 2^31
  pixels or more than 16 million pixels on a side.
- `Filters.Sample`: ignores 32-bit overflow of `j * overlayWidth` and
  `i * overlayHeight`. These only overflow for products beyond 2^31.
- `Wrapper.ImageWrapper.GetRGB`: takes an in-bounds coordinate as a
  precondition. Where BufferedImage would throw for an out-of-bounds one, the
  model instead requires the coordinate. Every filter only passes in-bounds
  coordinates.
- The alpha byte that `BufferedImage.getRGB` adds is not modelled. It is
  masked away on every read.
- Colour models other than packed RGB are not modelled. The buffer always
  holds 0xRRGGBB.
- `Sorting.Sort`: `Double.compareTo` is modelled as the numeric order.
  Luminances are never NaN or -0.0, so the order does not differ.
- `Manipulator.InstagramFilter`: requires the halo and grain buffers to be
  distinct from the image. The source loads both overlays fresh from files,
  so they can never share storage with the image.
- Java exceptions other than the median index are not modelled. For example,
  a null or missing overlay is not.
