/** The filter methods of ImageManipulator (src/ImageManipulator.java). Each
    runs the source's nested loops (rows i outside, columns j inside) over an
    ImageWrapper, reading pixels with GetRGB and writing them with SetRGB, and
    is proved to leave exactly the raster module Filters specifies. The
    filters that work in place return the buffer they were given in the
    source; here they simply update it. */
module Manipulator {
  import opened Rgb
  import opened JavaNum
  import opened Packing
  import opened Grid
  import opened Hsl
  import opened Sorting
  import opened Filters
  import opened Wrapper

  method ConvertToGrayScale(image: ImageWrapper)
    requires image.Valid()
    modifies image, image.pixels
    ensures image.Valid()
    ensures image.Contents == Grayscale(old(image.Contents))
  {
    ghost var orig := image.Contents;
    ghost var target := Grayscale(orig);
    var i := 0;
    while i < image.GetHeight()
      invariant image.Valid() && 0 <= i <= orig.height
      invariant ProcessedUpTo(image.Contents, target, orig, i, 0)
    {
      var j := 0;
      while j < image.GetWidth()
        invariant image.Valid() && 0 <= j <= orig.width
        invariant ProcessedUpTo(image.Contents, target, orig, i, j)
      {
        var rgb := image.GetRGB(j, i);
        var avg := Div(rgb.GetRed() + rgb.GetGreen() + rgb.GetBlue(), 3);
        var gray := new RGB(avg, avg, avg);
        assert target.At(j, i) == GrayPixel(orig.At(j, i)) == gray.Value();
        ProcessedStep(image.Contents, target, orig, i, j);
        image.SetRGB(j, i, gray);
        j := j + 1;
      }
      ProcessedNextRow(image.Contents, target, orig, i);
      i := i + 1;
    }
    ProcessedAll(image.Contents, target, orig);
  }

  /** The body of ConvertToSepia's loops on one pixel: the three weighted sums,
      each cast with `(int)` and capped at 255, as a new RGB. */
  method SepiaRgb(rgb: RGB) returns (sepia: RGB)
    ensures fresh(sepia) && sepia.Value() == SepiaPixel(rgb.Value())
  {
    var p := Pixel(rgb.GetRed(), rgb.GetGreen(), rgb.GetBlue());
    var red := Trunc(SepiaRed(p));
    red := if red > 255 then 255 else red;
    var green := Trunc(SepiaGreen(p));
    green := if green > 255 then 255 else green;
    var blue := Trunc(SepiaBlue(p));
    blue := if blue > 255 then 255 else blue;
    sepia := new RGB(red, green, blue);
  }

  method ConvertToSepia(image: ImageWrapper)
    requires image.Valid()
    modifies image, image.pixels
    ensures image.Valid()
    ensures image.Contents == Sepia(old(image.Contents))
  {
    ghost var orig := image.Contents;
    ghost var target := Sepia(orig);
    var i := 0;
    while i < image.GetHeight()
      invariant image.Valid() && 0 <= i <= orig.height
      invariant ProcessedUpTo(image.Contents, target, orig, i, 0)
    {
      var j := 0;
      while j < image.GetWidth()
        invariant image.Valid() && 0 <= j <= orig.width
        invariant ProcessedUpTo(image.Contents, target, orig, i, j)
      {
        var rgb := image.GetRGB(j, i);
        var sepia := SepiaRgb(rgb);
        assert target.At(j, i) == SepiaPixel(orig.At(j, i)) == sepia.Value();
        ProcessedStep(image.Contents, target, orig, i, j);
        image.SetRGB(j, i, sepia);
        j := j + 1;
      }
      ProcessedNextRow(image.Contents, target, orig, i);
      i := i + 1;
    }
    ProcessedAll(image.Contents, target, orig);
  }

  method InvertImage(image: ImageWrapper)
    requires image.Valid()
    modifies image, image.pixels
    ensures image.Valid()
    ensures image.Contents == Inverted(old(image.Contents))
  {
    ghost var orig := image.Contents;
    ghost var target := Inverted(orig);
    var i := 0;
    while i < image.GetHeight()
      invariant image.Valid() && 0 <= i <= orig.height
      invariant ProcessedUpTo(image.Contents, target, orig, i, 0)
    {
      var j := 0;
      while j < image.GetWidth()
        invariant image.Valid() && 0 <= j <= orig.width
        invariant ProcessedUpTo(image.Contents, target, orig, i, j)
      {
        var pixel := image.GetRGB(j, i);
        var invertedPixel := new RGB(255 - pixel.GetRed(), 255 - pixel.GetGreen(), 255 - pixel.GetBlue());
        assert target.At(j, i) == InvertPixel(orig.At(j, i)) == invertedPixel.Value();
        ProcessedStep(image.Contents, target, orig, i, j);
        image.SetRGB(j, i, invertedPixel);
        j := j + 1;
      }
      ProcessedNextRow(image.Contents, target, orig, i);
      i := i + 1;
    }
    ProcessedAll(image.Contents, target, orig);
  }

  /** A caller inverting twice gets its image back exactly. */
  method InvertTwice(image: ImageWrapper)
    requires image.Valid()
    modifies image, image.pixels
    ensures image.Valid() && image.Contents == old(image.Contents)
  {
    InvertImage(image);
    InvertImage(image);
    InvertInvolution(old(image.Contents));
  }

  /** How ConvertToBW ends: normally, or with the IndexOutOfBoundsException
      that `arrayList.get` throws when the median index is not below the size. */
  datatype Outcome = Completed | IndexOutOfBounds

  /** The first pass of ConvertToBW: the luminance of every pixel, in the
      order the loops visit them. The image is only read. */
  method CollectLuminances(image: ImageWrapper) returns (arrayList: seq<real>)
    requires image.Valid()
    ensures arrayList == Luminances(Pixels(image.Contents))
    ensures |arrayList| == image.Contents.width * image.Contents.height
  {
    ghost var orig := image.Contents;
    arrayList := [];
    var i := 0;
    while i < image.GetHeight()
      invariant 0 <= i <= orig.height
      invariant arrayList == Luminances(RowMajor(orig, i))
    {
      var j := 0;
      while j < image.GetWidth()
        invariant 0 <= j <= orig.width
        invariant arrayList == Luminances(RowMajor(orig, i) + orig.Row(i)[..j])
      {
        var rgb := image.GetRGB(j, i);
        var luminance := Luminance(Pixel(rgb.GetRed(), rgb.GetGreen(), rgb.GetBlue()));
        ghost var seen := RowMajor(orig, i) + orig.Row(i)[..j];
        assert RowMajor(orig, i) + orig.Row(i)[..j + 1] == seen + [orig.At(j, i)];
        LuminancesAppend(seen, [orig.At(j, i)]);
        arrayList := arrayList + [luminance];
        j := j + 1;
      }
      assert orig.Row(i)[..orig.width] == orig.Row(i);
      i := i + 1;
    }
  }

  /** The second pass of ConvertToBW: every pixel black when its luminance is
      below the median, white otherwise. The luminance function is a
      parameter, so the pass holds for any measure; ConvertToBW passes
      Luminance. */
  method ClassifyPixels(image: ImageWrapper, median: real, getLuminance: Pixel -> real)
    requires image.Valid()
    modifies image, image.pixels
    ensures image.Valid()
    ensures image.Contents == MapPixels(old(image.Contents), Classifier(getLuminance, median))
  {
    ghost var orig := image.Contents;
    ghost var target := MapPixels(orig, Classifier(getLuminance, median));
    var i := 0;
    while i < image.GetHeight()
      invariant image.Valid() && 0 <= i <= orig.height
      invariant ProcessedUpTo(image.Contents, target, orig, i, 0)
    {
      var j := 0;
      while j < image.GetWidth()
        invariant image.Valid() && 0 <= j <= orig.width
        invariant ProcessedUpTo(image.Contents, target, orig, i, j)
      {
        var rgb := image.GetRGB(j, i);
        var luminance := getLuminance(Pixel(rgb.GetRed(), rgb.GetGreen(), rgb.GetBlue()));
        assert target.At(j, i) == BWPixel(getLuminance, median, orig.At(j, i));
        ProcessedStep(image.Contents, target, orig, i, j);
        var level := if luminance < median then 0 else 255;
        var shade := new RGB(level, level, level);
        image.SetRGB(j, i, shade);
        j := j + 1;
      }
      ProcessedNextRow(image.Contents, target, orig, i);
      i := i + 1;
    }
    ProcessedAll(image.Contents, target, orig);
  }

  method ConvertToBW(image: ImageWrapper) returns (outcome: Outcome)
    requires image.Valid()
    modifies image, image.pixels
    ensures image.Valid()
    ensures outcome == IndexOutOfBounds <==> !HasMedian(old(image.Contents))
    ensures outcome == IndexOutOfBounds ==> image.Contents == old(image.Contents)
    ensures outcome == Completed ==>
      HasMedian(old(image.Contents)) && image.Contents == BlackAndWhite(old(image.Contents))
  {
    ghost var orig := image.Contents;
    var arrayList := CollectLuminances(image);
    assert |arrayList| == orig.width * orig.height;

    var sorted := Sort(arrayList);
    var index := (|sorted| + 1) / 2;
    if index >= |sorted| {
      return IndexOutOfBounds;
    }
    var median := sorted[index];
    assert median == Threshold(orig);

    ClassifyPixels(image, median, Luminance);
    return Completed;
  }

  /** ConstructedImage: a new w x h buffer filled with the gradient. */
  method ConstructedImage(xWidth: int, xHeight: int) returns (image: ImageWrapper)
    requires xWidth > 0 && xHeight > 0
    ensures fresh(image) && fresh(image.pixels) && image.Valid()
    ensures image.Contents == Constructed(xWidth, xHeight)
  {
    image := new ImageWrapper(xWidth, xHeight);
    ghost var blank := image.Contents;
    ghost var target := Constructed(xWidth, xHeight);
    var h := image.GetHeight();
    var w := image.GetWidth();
    var i := 0;
    while i < h
      invariant image.Valid() && 0 <= i <= h
      invariant ProcessedUpTo(image.Contents, target, blank, i, 0)
    {
      var j := 0;
      while j < w
        invariant image.Valid() && 0 <= j <= w
        invariant ProcessedUpTo(image.Contents, target, blank, i, j)
      {
        var r := (i * image.GetWidth() + j) / 256;
        var g := (i + j * image.GetHeight()) / 256;
        var b := 255 - ((i * 128 / h) + (j * 128 / w));
        var rgb := new RGB(r, g, b);
        assert rgb.Value() == Gradient(xWidth, xHeight, j, i);
        ProcessedStep(image.Contents, target, blank, i, j);
        image.SetRGB(j, i, rgb);
        j := j + 1;
      }
      ProcessedNextRow(image.Contents, target, blank, i);
      i := i + 1;
    }
    ProcessedAll(image.Contents, target, blank);
  }

  /** RotateImage: a new buffer, height x width, filled from the source, which is only read. */
  method RotateImage(image: ImageWrapper) returns (rotatedImage: ImageWrapper)
    requires image.Valid()
    ensures fresh(rotatedImage) && fresh(rotatedImage.pixels) && rotatedImage.Valid()
    ensures rotatedImage.Contents == Rotated(image.Contents)
  {
    ghost var source := image.Contents;
    rotatedImage := new ImageWrapper(image.GetHeight(), image.GetWidth());
    ghost var blank := rotatedImage.Contents;
    ghost var target := Rotated(source);
    var i := 0;
    while i < rotatedImage.GetHeight()
      invariant image.Valid() && image.Contents == source
      invariant rotatedImage.Valid() && fresh(rotatedImage.pixels) && 0 <= i <= source.width
      invariant ProcessedUpTo(rotatedImage.Contents, target, blank, i, 0)
    {
      var j := 0;
      while j < rotatedImage.GetWidth()
        invariant image.Valid() && image.Contents == source
        invariant rotatedImage.Valid() && 0 <= j <= source.height
        invariant ProcessedUpTo(rotatedImage.Contents, target, blank, i, j)
      {
        var oldPixel := image.GetRGB(i, image.GetHeight() - j - 1);
        ProcessedStep(rotatedImage.Contents, target, blank, i, j);
        rotatedImage.SetRGB(j, i, oldPixel);
        j := j + 1;
      }
      ProcessedNextRow(rotatedImage.Contents, target, blank, i);
      i := i + 1;
    }
    ProcessedAll(rotatedImage.Contents, target, blank);
  }

  /** A caller rotating four times gets a new buffer equal to the original. */
  method RotateFullTurn(image: ImageWrapper) returns (result: ImageWrapper)
    requires image.Valid()
    ensures result.Valid() && result.Contents == image.Contents
  {
    var once := RotateImage(image);
    var twice := RotateImage(once);
    var thrice := RotateImage(twice);
    result := RotateImage(thrice);
    RotateFourTimes(image.Contents);
  }

  // ---------------------------------------------------------------- Instagram

  /** `applyTransform`: a new RGB with red kept, green divided by 1.5 and
      truncated, blue divided by 3 in int division. */
  method ApplyTransformRgb(rgb: RGB) returns (result: RGB)
    ensures fresh(result) && result.Value() == ApplyTransform(rgb.Value())
  {
    var r := rgb.GetRed();
    var g := Trunc(rgb.GetGreen() as real / 1.5);
    var b := Div(rgb.GetBlue(), 3);
    result := new RGB(r, g, b);
  }

  /** The first loop of InstagramFilter: applyTransform on every pixel. */
  method TransformPass(image: ImageWrapper)
    requires image.Valid()
    modifies image, image.pixels
    ensures image.Valid()
    ensures image.Contents == MapPixels(old(image.Contents), ApplyTransform)
  {
    ghost var orig := image.Contents;
    ghost var target := MapPixels(orig, ApplyTransform);
    var i := 0;
    while i < image.GetHeight()
      invariant image.Valid() && 0 <= i <= orig.height
      invariant ProcessedUpTo(image.Contents, target, orig, i, 0)
    {
      var j := 0;
      while j < image.GetWidth()
        invariant image.Valid() && 0 <= j <= orig.width
        invariant ProcessedUpTo(image.Contents, target, orig, i, j)
      {
        var rgb := image.GetRGB(j, i);
        var transformed := ApplyTransformRgb(rgb);
        assert target.At(j, i) == ApplyTransform(orig.At(j, i)) == transformed.Value();
        ProcessedStep(image.Contents, target, orig, i, j);
        image.SetRGB(j, i, transformed);
        j := j + 1;
      }
      ProcessedNextRow(image.Contents, target, orig, i);
      i := i + 1;
    }
    ProcessedAll(image.Contents, target, orig);
  }

  /** The overlay pixel that image position (j, i) samples: each coordinate is
      scaled by the ratio of overlay size to image size in int arithmetic, and
      the result always lies inside the overlay. */
  method SampleOverlay(overlay: ImageWrapper, image: ImageWrapper, j: int, i: int) returns (pixel: RGB)
    requires overlay.Valid() && image.Valid() && image.Contents.InBounds(j, i)
    ensures fresh(pixel) && pixel.Value() == SampledAt(image.Contents, overlay.Contents, j, i)
    ensures InRange(pixel.Value())
  {
    var x := Div(j * overlay.GetWidth(), image.GetWidth());
    var y := Div(i * overlay.GetHeight(), image.GetHeight());
    assert x == Sample(j, overlay.Contents.width, image.Contents.width);
    assert y == Sample(i, overlay.Contents.height, image.Contents.height);
    pixel := overlay.GetRGB(x, y);
  }

  /** The body of the halo loop: each channel of imagePixel replaced by
      `truncate((int) (0.65 * c + 0.35 * h) + 20)` with h the halo's channel. */
  method MixHalo(imagePixel: RGB, haloPixel: RGB)
    requires imagePixel != haloPixel
    modifies imagePixel
    ensures imagePixel.Value() == HaloMix(old(imagePixel.Value()), haloPixel.Value())
    ensures InRange(imagePixel.Value())
  {
    imagePixel.SetRed(Truncate(Trunc(0.65 * imagePixel.GetRed() as real + 0.35 * haloPixel.GetRed() as real) + 20));
    imagePixel.SetGreen(Truncate(Trunc(0.65 * imagePixel.GetGreen() as real + 0.35 * haloPixel.GetGreen() as real) + 20));
    imagePixel.SetBlue(Truncate(Trunc(0.65 * imagePixel.GetBlue() as real + 0.35 * haloPixel.GetBlue() as real) + 20));
  }

  /** The body of the grain loop: each channel of imagePixel replaced by
      `(int) (0.95 * c + 0.05 * g)` with g the grain's channel. */
  method MixGrain(imagePixel: RGB, grainPixel: RGB)
    requires imagePixel != grainPixel
    modifies imagePixel
    ensures imagePixel.Value() == GrainMix(old(imagePixel.Value()), grainPixel.Value())
    ensures InRange(old(imagePixel.Value())) && InRange(grainPixel.Value()) ==> InRange(imagePixel.Value())
  {
    imagePixel.SetRed(Trunc(0.95 * imagePixel.GetRed() as real + 0.05 * grainPixel.GetRed() as real));
    imagePixel.SetGreen(Trunc(0.95 * imagePixel.GetGreen() as real + 0.05 * grainPixel.GetGreen() as real));
    imagePixel.SetBlue(Trunc(0.95 * imagePixel.GetBlue() as real + 0.05 * grainPixel.GetBlue() as real));
  }

  /** The second loop of InstagramFilter: every channel mixed 65:35 with the
      halo pixel sampled at the scaled position, lifted by 20 and clamped. */
  method HaloPass(image: ImageWrapper, halo: ImageWrapper)
    requires image.Valid() && halo.Valid()
    requires halo != image && halo.pixels != image.pixels
    modifies image, image.pixels
    ensures image.Valid()
    ensures image.Contents == Blend(old(image.Contents), halo.Contents, HaloMix)
  {
    ghost var orig := image.Contents;
    ghost var target := Blend(orig, halo.Contents, HaloMix);
    var i := 0;
    while i < image.GetHeight()
      invariant image.Valid() && 0 <= i <= orig.height
      invariant ProcessedUpTo(image.Contents, target, orig, i, 0)
    {
      var j := 0;
      while j < image.GetWidth()
        invariant image.Valid() && 0 <= j <= orig.width
        invariant ProcessedUpTo(image.Contents, target, orig, i, j)
      {
        var haloPixel := SampleOverlay(halo, image, j, i);
        var imagePixel := image.GetRGB(j, i);
        MixHalo(imagePixel, haloPixel);
        assert target.At(j, i) == HaloMix(orig.At(j, i), haloPixel.Value()) == imagePixel.Value() == Wrap(imagePixel.Value());
        ProcessedStep(image.Contents, target, orig, i, j);
        image.SetRGB(j, i, imagePixel);
        j := j + 1;
      }
      ProcessedNextRow(image.Contents, target, orig, i);
      i := i + 1;
    }
    ProcessedAll(image.Contents, target, orig);
  }

  /** The third loop of InstagramFilter: every channel mixed 95:5 with the
      grain pixel sampled at the scaled position. */
  method GrainPass(image: ImageWrapper, grain: ImageWrapper)
    requires image.Valid() && grain.Valid()
    requires grain != image && grain.pixels != image.pixels
    modifies image, image.pixels
    ensures image.Valid()
    ensures image.Contents == Blend(old(image.Contents), grain.Contents, GrainMix)
  {
    ghost var orig := image.Contents;
    ghost var target := Blend(orig, grain.Contents, GrainMix);
    var i := 0;
    while i < image.GetHeight()
      invariant image.Valid() && 0 <= i <= orig.height
      invariant ProcessedUpTo(image.Contents, target, orig, i, 0)
    {
      var j := 0;
      while j < image.GetWidth()
        invariant image.Valid() && 0 <= j <= orig.width
        invariant ProcessedUpTo(image.Contents, target, orig, i, j)
      {
        var grainPixel := SampleOverlay(grain, image, j, i);
        var imagePixel := image.GetRGB(j, i);
        MixGrain(imagePixel, grainPixel);
        assert target.At(j, i) == GrainMix(orig.At(j, i), grainPixel.Value()) == imagePixel.Value() == Wrap(imagePixel.Value());
        ProcessedStep(image.Contents, target, orig, i, j);
        image.SetRGB(j, i, imagePixel);
        j := j + 1;
      }
      ProcessedNextRow(image.Contents, target, orig, i);
      i := i + 1;
    }
    ProcessedAll(image.Contents, target, orig);
  }

  /** InstagramFilter: the three passes in turn. The halo and grain overlays,
      which the source reads from image files, are given by the caller. */
  method InstagramFilter(image: ImageWrapper, halo: ImageWrapper, grain: ImageWrapper)
    requires image.Valid() && halo.Valid() && grain.Valid()
    requires halo != image && halo.pixels != image.pixels
    requires grain != image && grain.pixels != image.pixels
    modifies image, image.pixels
    ensures image.Valid()
    ensures image.Contents == Instagram(old(image.Contents), halo.Contents, grain.Contents)
  {
    TransformPass(image);
    HaloPass(image, halo);
    GrainPass(image, grain);
  }

  // ------------------------------------------------------ HSL channel filters

  /** The body of AddLightness's loop: `GetRGB(j, i).GetHSL()`, SetLightness
      with the lightness added, and `GetRGB()` back. */
  method LightnessStep(rgb: RGB, toHsl: Pixel -> HslValue, lightness: real) returns (back: RGB)
    ensures fresh(back) && back.Value() == ToRgb(WithLightness(toHsl(rgb.Value()), lightness))
  {
    var v := toHsl(Pixel(rgb.GetRed(), rgb.GetGreen(), rgb.GetBlue()));
    var hsl := new HSL(v.hue, v.saturation, v.lightness);
    hsl.SetLightness(hsl.GetLightness() + lightness);
    back := hsl.GetRGB();
  }

  /** The body of AddSaturation's loop, moving the saturation instead. */
  method SaturationStep(rgb: RGB, toHsl: Pixel -> HslValue, saturation: real) returns (back: RGB)
    ensures fresh(back) && back.Value() == ToRgb(WithSaturation(toHsl(rgb.Value()), saturation))
  {
    var v := toHsl(Pixel(rgb.GetRed(), rgb.GetGreen(), rgb.GetBlue()));
    var hsl := new HSL(v.hue, v.saturation, v.lightness);
    hsl.SetSaturation(hsl.GetSaturation() + saturation);
    back := hsl.GetRGB();
  }

  /** The body of AddHue's loop: the int sum `GetHue() + hue` wraps at 32 bits
      before SetHue clamps it. */
  method HueStep(rgb: RGB, toHsl: Pixel -> HslValue, hue: int) returns (back: RGB)
    ensures fresh(back) && back.Value() == ToRgb(WithHue(toHsl(rgb.Value()), hue))
  {
    var v := toHsl(Pixel(rgb.GetRed(), rgb.GetGreen(), rgb.GetBlue()));
    var hsl := new HSL(v.hue, v.saturation, v.lightness);
    hsl.SetHue(WrapInt32(hsl.GetHue() + hue));
    assert hsl.Value() == WithHue(v, hue);
    back := hsl.GetRGB();
  }

  /** AddLightness: each pixel converted to HSL (by `toHsl`, which stands for
      RGB.GetHSL), its lightness moved by `lightness` through SetLightness,
      and the result converted back with HSL.GetRGB and stored. */
  method AddLightness(image: ImageWrapper, toHsl: Pixel -> HslValue, lightness: real)
    requires image.Valid()
    modifies image, image.pixels
    ensures image.Valid()
    ensures image.Contents == MapPixels(old(image.Contents), Recolour(toHsl, LightnessBy(lightness)))
  {
    ghost var orig := image.Contents;
    ghost var target := MapPixels(orig, Recolour(toHsl, LightnessBy(lightness)));
    var i := 0;
    while i < image.GetHeight()
      invariant image.Valid() && 0 <= i <= orig.height
      invariant ProcessedUpTo(image.Contents, target, orig, i, 0)
    {
      var j := 0;
      while j < image.GetWidth()
        invariant image.Valid() && 0 <= j <= orig.width
        invariant ProcessedUpTo(image.Contents, target, orig, i, j)
      {
        var rgb := image.GetRGB(j, i);
        var back := LightnessStep(rgb, toHsl, lightness);
        assert target.At(j, i) == Wrap(back.Value());
        ProcessedStep(image.Contents, target, orig, i, j);
        image.SetRGB(j, i, back);
        j := j + 1;
      }
      ProcessedNextRow(image.Contents, target, orig, i);
      i := i + 1;
    }
    ProcessedAll(image.Contents, target, orig);
  }

  /** AddSaturation: as AddLightness, moving the saturation through SetSaturation. */
  method AddSaturation(image: ImageWrapper, toHsl: Pixel -> HslValue, saturation: real)
    requires image.Valid()
    modifies image, image.pixels
    ensures image.Valid()
    ensures image.Contents == MapPixels(old(image.Contents), Recolour(toHsl, SaturationBy(saturation)))
  {
    ghost var orig := image.Contents;
    ghost var target := MapPixels(orig, Recolour(toHsl, SaturationBy(saturation)));
    var i := 0;
    while i < image.GetHeight()
      invariant image.Valid() && 0 <= i <= orig.height
      invariant ProcessedUpTo(image.Contents, target, orig, i, 0)
    {
      var j := 0;
      while j < image.GetWidth()
        invariant image.Valid() && 0 <= j <= orig.width
        invariant ProcessedUpTo(image.Contents, target, orig, i, j)
      {
        var rgb := image.GetRGB(j, i);
        var back := SaturationStep(rgb, toHsl, saturation);
        assert target.At(j, i) == Wrap(back.Value());
        ProcessedStep(image.Contents, target, orig, i, j);
        image.SetRGB(j, i, back);
        j := j + 1;
      }
      ProcessedNextRow(image.Contents, target, orig, i);
      i := i + 1;
    }
    ProcessedAll(image.Contents, target, orig);
  }

  /** AddHue: as AddLightness, moving the hue through SetHue after the int
      addition `GetHue() + hue`, which wraps at 32 bits. */
  method AddHue(image: ImageWrapper, toHsl: Pixel -> HslValue, hue: int)
    requires image.Valid()
    requires MinInt32 <= hue <= MaxInt32
    modifies image, image.pixels
    ensures image.Valid()
    ensures image.Contents == MapPixels(old(image.Contents), Recolour(toHsl, HueBy(hue)))
  {
    ghost var orig := image.Contents;
    ghost var target := MapPixels(orig, Recolour(toHsl, HueBy(hue)));
    var i := 0;
    while i < image.GetHeight()
      invariant image.Valid() && 0 <= i <= orig.height
      invariant ProcessedUpTo(image.Contents, target, orig, i, 0)
    {
      var j := 0;
      while j < image.GetWidth()
        invariant image.Valid() && 0 <= j <= orig.width
        invariant ProcessedUpTo(image.Contents, target, orig, i, j)
      {
        var rgb := image.GetRGB(j, i);
        var back := HueStep(rgb, toHsl, hue);
        assert target.At(j, i) == Wrap(back.Value());
        ProcessedStep(image.Contents, target, orig, i, j);
        image.SetRGB(j, i, back);
        j := j + 1;
      }
      ProcessedNextRow(image.Contents, target, orig, i);
      i := i + 1;
    }
    ProcessedAll(image.Contents, target, orig);
  }
}
