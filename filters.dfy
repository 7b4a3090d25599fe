/** The filters of ImageManipulator (src/ImageManipulator.java) as values: what
    each filter does to one pixel, and the raster each filter's loops leave
    behind. The loop methods in module Manipulator are proved to produce
    exactly these rasters; the lemmas here state what the rasters promise. */
module Filters {
  import opened Rgb
  import opened JavaNum
  import opened Packing
  import opened Grid
  import opened Hsl
  import opened Sorting

  function Darkest(p: Pixel): int
  {
    if p.red <= p.green && p.red <= p.blue then p.red
    else if p.green <= p.blue then p.green
    else p.blue
  }

  function Brightest(p: Pixel): int
  {
    if p.red >= p.green && p.red >= p.blue then p.red
    else if p.green >= p.blue then p.green
    else p.blue
  }

  // ---------------------------------------------------------------- grayscale

  /** ConvertToGrayScale on one pixel: all three channels become the Java int
      average (r + g + b) / 3, which lies between the darkest and the brightest
      channel. */
  function GrayPixel(p: Pixel): (q: Pixel)
    ensures q.red == q.green == q.blue
    ensures Darkest(p) <= q.red <= Brightest(p)
    ensures InRange(p) ==> InRange(q)
  {
    var avg := Div(p.red + p.green + p.blue, 3);
    Pixel(avg, avg, avg)
  }

  function Grayscale(r: Raster): Raster
    requires r.WellFormed()
  {
    MapPixels(r, GrayPixel)
  }

  /** A gray pixel is its own average. */
  lemma GrayPixelFixed(p: Pixel)
    ensures GrayPixel(GrayPixel(p)) == GrayPixel(p)
  {
    var a := GrayPixel(p).red;
    assert Div(a + a + a, 3) == a;
  }

  /** Grayscale twice is grayscale once. */
  lemma GrayscaleIdempotent(r: Raster)
    requires r.WellFormed()
    ensures Grayscale(Grayscale(r)) == Grayscale(r)
  {
    var once := Grayscale(r);
    forall x, y | r.InBounds(x, y)
      ensures Grayscale(once).At(x, y) == once.At(x, y)
    {
      GrayPixelFixed(r.At(x, y));
    }
    Ext(Grayscale(once), once);
  }

  // ------------------------------------------------------------------- invert

  /** InvertImage on one pixel: each channel c becomes 255 - c. */
  function InvertPixel(p: Pixel): (q: Pixel)
    ensures InRange(p) <==> InRange(q)
  {
    Pixel(255 - p.red, 255 - p.green, 255 - p.blue)
  }

  function Inverted(r: Raster): Raster
    requires r.WellFormed()
  {
    MapPixels(r, InvertPixel)
  }

  /** Inverting twice restores every image exactly. */
  lemma InvertInvolution(r: Raster)
    requires r.WellFormed()
    ensures Inverted(Inverted(r)) == r
  {
    Ext(Inverted(Inverted(r)), r);
  }

  // -------------------------------------------------------------------- sepia

  /** `(int)` of a weighted sum, then `x > 255 ? 255 : x`: capped above only. */
  function Capped(weighted: real): (c: int)
    ensures c <= 255
    ensures 0.0 <= weighted ==> 0 <= c
    ensures 0.0 <= weighted < 256.0 ==> c == weighted.Floor
  {
    var v := Trunc(weighted);
    if v > 255 then 255 else v
  }

  function SepiaRed(p: Pixel): real
  {
    0.393 * p.red as real + 0.769 * p.green as real + 0.189 * p.blue as real
  }

  function SepiaGreen(p: Pixel): real
  {
    0.349 * p.red as real + 0.686 * p.green as real + 0.168 * p.blue as real
  }

  function SepiaBlue(p: Pixel): real
  {
    0.272 * p.red as real + 0.534 * p.green as real + 0.131 * p.blue as real
  }

  /** ConvertToSepia on one pixel: every channel is capped at 255, and the
      non-negative weights keep a non-negative pixel's channels at least 0, so
      its sepia output needs no masking. */
  function SepiaPixel(p: Pixel): (q: Pixel)
    ensures q.red <= 255 && q.green <= 255 && q.blue <= 255
    ensures NonNegative(p) ==> InRange(q)
  {
    Pixel(Capped(SepiaRed(p)), Capped(SepiaGreen(p)), Capped(SepiaBlue(p)))
  }

  function Sepia(r: Raster): Raster
    requires r.WellFormed()
  {
    MapPixels(r, SepiaPixel)
  }

  predicate NonNegative(p: Pixel)
  {
    0 <= p.red && 0 <= p.green && 0 <= p.blue
  }

  /** Each coefficient of the red row is at least the matching one of the green
      row, and those of the blue row, so sepia never makes green exceed red or
      blue exceed green. */
  lemma SepiaWarm(p: Pixel)
    requires NonNegative(p)
    ensures SepiaPixel(p).red >= SepiaPixel(p).green >= SepiaPixel(p).blue
  {
    assert SepiaRed(p) >= SepiaGreen(p) >= SepiaBlue(p);
    assert SepiaBlue(p) >= 0.0;
    TruncMonotone(SepiaGreen(p), SepiaRed(p));
    TruncMonotone(SepiaBlue(p), SepiaGreen(p));
  }

  lemma TruncMonotone(a: real, b: real)
    requires 0.0 <= a <= b
    ensures Trunc(a) <= Trunc(b)
  {
  }

  // ----------------------------------------------------------- black and white

  /** GetLuminance without its final square root: 0.299 r^2 + 0.587 g^2 + 0.114 b^2.
      The square root is strictly increasing on non-negative reals, so every
      comparison ConvertToBW makes comes out the same with or without it. */
  function Luminance(p: Pixel): (l: real)
    ensures 0.0 <= l
    ensures l == 0.0 <==> p == Black
    ensures InRange(p) ==> l <= 65025.0
  {
    SquareBounds(p.red);
    SquareBounds(p.green);
    SquareBounds(p.blue);
    0.299 * (p.red as real * p.red as real) + 0.587 * (p.green as real * p.green as real)
      + 0.114 * (p.blue as real * p.blue as real)
  }

  /** c * c is positive unless c is 0, and at most 255 * 255 on [0, 255]. */
  lemma SquareBounds(c: int)
    ensures 0.0 <= c as real * c as real
    ensures c != 0 ==> 0.0 < c as real * c as real
    ensures 0 <= c <= 255 ==> c as real * c as real <= 65025.0
  {
    if c < 0 {
      assert c as real * c as real == (-c) as real * (-c) as real;
    }
    if 0 <= c <= 255 {
      assert c * c <= 255 * c <= 255 * 255;
    }
  }

  function Luminances(s: seq<Pixel>): (l: seq<real>)
    ensures |l| == |s| && forall k :: 0 <= k < |s| ==> l[k] == Luminance(s[k])
  {
    seq(|s|, k requires 0 <= k < |s| => Luminance(s[k]))
  }

  lemma LuminancesAppend(a: seq<Pixel>, b: seq<Pixel>)
    ensures Luminances(a + b) == Luminances(a) + Luminances(b)
  {
  }

  /** The index ConvertToBW reads its median from: (size + 1) / 2. */
  function MedianIndex(n: nat): (i: nat)
    ensures n / 2 <= i <= n / 2 + 1
    ensures i < n <==> n >= 2
  {
    (n + 1) / 2
  }

  /** `arrayList.get(index)` succeeds only for an index below the size: for one
      pixel (or none) the median read throws IndexOutOfBoundsException. */
  predicate HasMedian(r: Raster)
    requires r.WellFormed()
  {
    MedianIndex(r.width * r.height) < r.width * r.height
  }

  /** The luminances in visiting order, sorted ascending, and the one at the median index. */
  function Threshold(r: Raster): (t: real)
    requires r.WellFormed() && HasMedian(r)
    ensures t in Luminances(Pixels(r))
  {
    var sorted := Sort(Luminances(Pixels(r)));
    assert sorted[MedianIndex(r.width * r.height)] in multiset(sorted);
    sorted[MedianIndex(r.width * r.height)]
  }

  /** The second pass of ConvertToBW on one pixel: black when its measure
      (GetLuminance in the source) is below the median, white otherwise. */
  function BWPixel(measure: Pixel -> real, median: real, p: Pixel): Pixel
  {
    if measure(p) < median then Black else White
  }

  function Classifier(measure: Pixel -> real, median: real): Pixel -> Pixel
  {
    p => BWPixel(measure, median, p)
  }

  /** ConvertToBW: every pixel becomes pure black or pure white, white exactly
      when its luminance is at least the median one. */
  function BlackAndWhite(r: Raster): (s: Raster)
    requires r.WellFormed() && HasMedian(r)
    ensures s.WellFormed() && s.width == r.width && s.height == r.height
    ensures forall x, y :: r.InBounds(x, y) ==> s.At(x, y) == Black || s.At(x, y) == White
    ensures forall x, y :: r.InBounds(x, y) ==> (s.At(x, y) == White <==> Luminance(r.At(x, y)) >= Threshold(r))
  {
    MapPixels(r, Classifier(Luminance, Threshold(r)))
  }

  function CountWhite(s: seq<Pixel>): (c: nat)
    ensures c <= |s|
  {
    if s == [] then 0 else (if s[0] == White then 1 else 0) + CountWhite(s[1..])
  }

  /** Counting white outputs is counting luminances at or above the threshold. */
  lemma {:induction false} CountWhiteClassified(s: seq<Pixel>, median: real)
    ensures CountWhite(MapSeq(s, Classifier(Luminance, median))) == CountAtLeast(Luminances(s), median)
  {
    if s != [] {
      CountWhiteClassified(s[1..], median);
      assert MapSeq(s, Classifier(Luminance, median))[1..] == MapSeq(s[1..], Classifier(Luminance, median));
      assert Luminances(s)[1..] == Luminances(s[1..]);
    }
  }

  /** At least half the pixels (rounded down) come out white: the pixel at the
      median index of the sorted luminances and every one after it. */
  lemma BlackAndWhiteHalfWhite(r: Raster)
    requires r.WellFormed() && HasMedian(r)
    ensures CountWhite(Pixels(BlackAndWhite(r))) >= (r.width * r.height) / 2
  {
    var lums := Luminances(Pixels(r));
    var sorted := Sort(lums);
    var t := Threshold(r);
    RowMajorMap(r, Classifier(Luminance, t), r.height);
    CountWhiteClassified(Pixels(r), t);
    CountPermutation(lums, sorted, t);
    SuffixAtLeast(sorted, MedianIndex(r.width * r.height));
  }

  /** An image whose pixels all have one luminance turns entirely white. */
  lemma BlackAndWhiteUniform(r: Raster, level: real)
    requires r.WellFormed() && HasMedian(r)
    requires forall x, y :: r.InBounds(x, y) ==> Luminance(r.At(x, y)) == level
    ensures BlackAndWhite(r) == Filled(r.width, r.height, White)
  {
    var lums := Luminances(Pixels(r));
    UniformLuminances(r, r.height, level);
    SortConstant(lums, level, MedianIndex(r.width * r.height));
    Ext(BlackAndWhite(r), Filled(r.width, r.height, White));
  }

  lemma {:induction false} UniformLuminances(r: Raster, rows: nat, level: real)
    requires r.WellFormed() && rows <= r.height
    requires forall x, y :: r.InBounds(x, y) ==> Luminance(r.At(x, y)) == level
    ensures forall k :: 0 <= k < |RowMajor(r, rows)| ==> Luminance(RowMajor(r, rows)[k]) == level
  {
    if rows > 0 {
      UniformLuminances(r, rows - 1, level);
      assert RowMajor(r, rows) == RowMajor(r, rows - 1) + r.Row(rows - 1);
    }
  }

  // ------------------------------------------------------------------ rotation

  /** RotateImage: a new raster with width and height swapped whose pixel (j, i)
      is the old pixel (i, height - 1 - j). */
  function Rotated(r: Raster): (s: Raster)
    requires r.WellFormed()
    ensures s.WellFormed() && s.width == r.height && s.height == r.width
    ensures forall x, y {:trigger s.At(x, y)} :: s.InBounds(x, y) ==> s.At(x, y) == r.At(y, r.height - 1 - x)
  {
    Raster(r.height, r.width,
      seq(r.height, x requires 0 <= x < r.height =>
        seq(r.width, y requires 0 <= y < r.width => r.columns[y][r.height - 1 - x])))
  }

  /** Two quarter turns are a half turn: the pixel at (x, y) comes from the
      opposite corner's (width - 1 - x, height - 1 - y). */
  lemma {:induction false} RotateTwice(r: Raster, x: int, y: int)
    requires r.WellFormed() && r.InBounds(x, y)
    ensures Rotated(Rotated(r)).WellFormed()
    ensures Rotated(Rotated(r)).width == r.width && Rotated(Rotated(r)).height == r.height
    ensures Rotated(Rotated(r)).At(x, y) == r.At(r.width - 1 - x, r.height - 1 - y)
  {
    var once := Rotated(r);
    assert once.InBounds(y, r.width - 1 - x);
  }

  /** Four quarter turns restore the image exactly. */
  lemma RotateFourTimes(r: Raster)
    requires r.WellFormed()
    ensures Rotated(Rotated(Rotated(Rotated(r)))) == r
  {
    var half := Rotated(Rotated(r));
    var full := Rotated(Rotated(half));
    forall x, y | r.InBounds(x, y)
      ensures full.At(x, y) == r.At(x, y)
    {
      RotateTwice(r, x, y);
      RotateTwice(half, x, y);
      RotateTwice(r, r.width - 1 - x, r.height - 1 - y);
    }
    Ext(full, r);
  }

  // ------------------------------------------------------ the generated image

  /** ConstructedImage's pixel (j, i) before SetRGB masks it: red counts
      row-major positions in steps of 256, green column-major ones, and blue
      falls from 255 towards the bottom-right corner. Every operand is
      non-negative, so Java's `/` and Dafny's agree. */
  function Gradient(w: int, h: int, x: int, y: int): (p: Pixel)
    requires w > 0 && h > 0
    ensures 0 <= x < w && 0 <= y < h ==> 0 <= p.red && 0 <= p.green && 1 <= p.blue <= 255
  {
    GradientScales(w, h, x, y);
    Pixel((y * w + x) / 256, (y + x * h) / 256, 255 - (y * 128 / h + x * 128 / w))
  }

  /** Inside the grid both scaled positions of the blue channel are below 128. */
  lemma GradientScales(w: int, h: int, x: int, y: int)
    requires w > 0 && h > 0
    ensures 0 <= x < w && 0 <= y < h ==> 0 <= y * 128 / h < 128 && 0 <= x * 128 / w < 128
    ensures 0 <= x < w && 0 <= y < h ==> 0 <= y * w + x && 0 <= y + x * h
  {
    if 0 <= x < w && 0 <= y < h {
      ScaleBelow(y, 128, h);
      ScaleBelow(x, 128, w);
      MulMonotone(0, y, w);
      MulMonotone(0, x, h);
    }
  }

  /** The w x h raster ConstructedImage fills in. */
  function Constructed(w: int, h: int): (s: Raster)
    requires w > 0 && h > 0
    ensures s.WellFormed() && s.width == w && s.height == h
    ensures forall x, y {:trigger s.At(x, y)} :: s.InBounds(x, y) ==> s.At(x, y) == Wrap(Gradient(w, h, x, y))
  {
    Raster(w, h, seq(w, x => seq(h, y => Wrap(Gradient(w, h, x, y)))))
  }

  /** Scaling an index below `size` into `range` positions gives a position below `range`. */
  lemma ScaleBelow(i: int, range: int, size: int)
    requires 0 <= i < size && range > 0
    ensures 0 <= i * range / size < range
  {
    var n := i * range;
    MulMonotone(0, i, range);
    MulMonotone(i + 1, size, range);
    assert (i + 1) * range == n + range;
    assert n < size * range;
    var q := n / size;
    assert q * size <= n;
    if q >= range {
      MulMonotone(range, q, size);
      assert false;
    }
  }

  /** Blue is never masked: it stays in [1, 255], is 255 at the top-left corner
      and never rises moving right or down. */
  lemma ConstructedBlue(w: int, h: int, x: int, y: int)
    requires w > 0 && h > 0 && 0 <= x < w && 0 <= y < h
    ensures 1 <= Gradient(w, h, x, y).blue <= 255
    ensures Constructed(w, h).At(x, y).blue == Gradient(w, h, x, y).blue
    ensures x + 1 < w ==> Gradient(w, h, x + 1, y).blue <= Gradient(w, h, x, y).blue
    ensures y + 1 < h ==> Gradient(w, h, x, y + 1).blue <= Gradient(w, h, x, y).blue
  {
    assert x * 128 <= (x + 1) * 128;
    assert y * 128 <= (y + 1) * 128;
    DivMonotone(x * 128, (x + 1) * 128, w);
    DivMonotone(y * 128, (y + 1) * 128, h);
  }

  lemma DivMonotone(a: int, b: int, d: int)
    requires 0 <= a <= b && d > 0
    ensures a / d <= b / d
  {
    var qa, qb := a / d, b / d;
    assert qa * d <= a && b < qb * d + d;
    if qa > qb {
      MulMonotone(qb + 1, qa, d);
      assert false;
    }
  }

  lemma MulMonotone(a: int, b: int, d: int)
    requires a <= b && 0 <= d
    ensures a * d <= b * d
  {
    assert b * d - a * d == (b - a) * d;
  }

  /** In an image of at most 65536 pixels red and green never reach 256, so the
      mask leaves them as computed. */
  lemma ConstructedSmall(w: int, h: int, x: int, y: int)
    requires w > 0 && h > 0 && w * h <= 0x1_0000 && 0 <= x < w && 0 <= y < h
    ensures Constructed(w, h).At(x, y) == Gradient(w, h, x, y)
  {
    IndexBelowArea(w, h, x, y);
    IndexBelowArea(h, w, y, x);
    assert w * h == h * w;
    ConstructedBlue(w, h, x, y);
    assert InRange(Gradient(w, h, x, y));
  }

  /** Position y * w + x of a row-major walk over a w x h grid lies in [0, w * h). */
  lemma IndexBelowArea(w: int, h: int, x: int, y: int)
    requires 0 <= x < w && 0 <= y < h
    ensures 0 <= y * w + x < w * h
  {
    MulMonotone(0, y, w);
    MulMonotone(y, h - 1, w);
    assert (h - 1) * w == w * h - w;
  }

  // --------------------------------------------------------------- Instagram

  /** `truncate`: clamps an int into [0, 255]. */
  function Truncate(value: int): (c: int)
    ensures 0 <= c <= 255
    ensures 0 <= value <= 255 ==> c == value
    ensures value < 0 ==> c == 0
    ensures value > 255 ==> c == 255
  {
    if value < 0 then 0 else if value > 255 then 255 else value
  }

  /** `applyTransform`: red kept, green `(int) (g / 1.5)`, blue `g / 3` in int
      division. No non-negative channel grows. */
  function ApplyTransform(p: Pixel): (q: Pixel)
    ensures q.red == p.red
    ensures NonNegative(p) ==> NonNegative(q) && q.green <= p.green && q.blue <= p.blue
    ensures InRange(p) ==> InRange(q)
  {
    Pixel(p.red, Trunc(p.green as real / 1.5), Div(p.blue, 3))
  }

  /** The overlay position for image position `index`: `index * overlaySize / imageSize`,
      always inside the overlay. */
  function Sample(index: int, overlaySize: int, imageSize: int): (s: int)
    requires 0 <= index < imageSize && overlaySize > 0
    ensures 0 <= s < overlaySize
  {
    ScaleBelow(index, overlaySize, imageSize);
    Div(index * overlaySize, imageSize)
  }

  /** One halo channel: `truncate((int) (0.65 * c + 0.35 * h) + 20)`. */
  function HaloChannel(c: int, h: int): (v: int)
    ensures 0 <= v <= 255
    ensures 0 <= c && 0 <= h ==> 20 <= v
  {
    Truncate(Trunc(0.65 * c as real + 0.35 * h as real) + 20)
  }

  /** One grain channel: `(int) (0.95 * c + 0.05 * g)`, which stays in [0, 255]
      for channels in range and loses at most one level from a channel of at
      least 20. */
  function GrainChannel(c: int, g: int): (v: int)
    ensures 0 <= c <= 255 && 0 <= g <= 255 ==> 0 <= v <= 255
    ensures 20 <= c && 0 <= g ==> 19 <= v
  {
    Trunc(0.95 * c as real + 0.05 * g as real)
  }

  /** The halo pass on one pixel: always in range, and at least 20 in every
      channel when both pixels are non-negative. */
  function HaloMix(p: Pixel, halo: Pixel): (q: Pixel)
    ensures InRange(q)
    ensures NonNegative(p) && NonNegative(halo) ==> 20 <= q.red && 20 <= q.green && 20 <= q.blue
  {
    Pixel(HaloChannel(p.red, halo.red), HaloChannel(p.green, halo.green), HaloChannel(p.blue, halo.blue))
  }

  /** The grain pass on one pixel: in range for in-range pixels, and a
      channel of at least 20 keeps at least 19. */
  function GrainMix(p: Pixel, grain: Pixel): (q: Pixel)
    ensures InRange(p) && InRange(grain) ==> InRange(q)
    ensures 20 <= p.red && 20 <= p.green && 20 <= p.blue && NonNegative(grain) ==>
      19 <= q.red && 19 <= q.green && 19 <= q.blue
  {
    Pixel(GrainChannel(p.red, grain.red), GrainChannel(p.green, grain.green), GrainChannel(p.blue, grain.blue))
  }

  /** The pixel of `overlay` that image position (x, y) samples. */
  function SampledAt(r: Raster, overlay: Raster, x: int, y: int): Pixel
    requires r.WellFormed() && overlay.WellFormed() && r.InBounds(x, y)
    requires overlay.width > 0 && overlay.height > 0
  {
    overlay.At(Sample(x, overlay.width, r.width), Sample(y, overlay.height, r.height))
  }

  /** One blending pass of InstagramFilter: every pixel mixed with the overlay
      pixel sampled at the scaled position. */
  function Blend(r: Raster, overlay: Raster, mix: (Pixel, Pixel) -> Pixel): (s: Raster)
    requires r.WellFormed() && overlay.WellFormed() && overlay.width > 0 && overlay.height > 0
    ensures s.WellFormed() && s.width == r.width && s.height == r.height
    ensures forall x, y {:trigger s.At(x, y)} :: r.InBounds(x, y) ==> s.At(x, y) == mix(r.At(x, y), SampledAt(r, overlay, x, y))
  {
    Raster(r.width, r.height,
      seq(r.width, x requires 0 <= x < r.width =>
        seq(r.height, y requires 0 <= y < r.height => mix(r.columns[x][y], SampledAt(r, overlay, x, y)))))
  }

  predicate Usable(overlay: Raster)
  {
    overlay.WellFormed() && overlay.width > 0 && overlay.height > 0
  }

  /** InstagramFilter: the warm transform, then the halo blend, then the grain blend. */
  function Instagram(r: Raster, halo: Raster, grain: Raster): (s: Raster)
    requires r.WellFormed() && Usable(halo) && Usable(grain)
    ensures s.WellFormed() && s.width == r.width && s.height == r.height
  {
    Blend(Blend(MapPixels(r, ApplyTransform), halo, HaloMix), grain, GrainMix)
  }

  /** Every channel the filter leaves is between 19 and 255: the halo pass lifts
      every channel to at least 20 and the grain pass takes at most one level off. */
  lemma InstagramBounds(r: Raster, halo: Raster, grain: Raster, x: int, y: int)
    requires r.WellFormed() && r.AllInRange() && r.InBounds(x, y)
    requires Usable(halo) && halo.AllInRange() && Usable(grain) && grain.AllInRange()
    ensures InRange(Instagram(r, halo, grain).At(x, y))
    ensures var p := Instagram(r, halo, grain).At(x, y); 19 <= p.red && 19 <= p.green && 19 <= p.blue
  {
    var warm := MapPixels(r, ApplyTransform);
    var haloed := Blend(warm, halo, HaloMix);
    assert InRange(r.At(x, y));
    assert InRange(warm.At(x, y));
    var hp := SampledAt(warm, halo, x, y);
    assert InRange(hp);
    var gp := SampledAt(haloed, grain, x, y);
    assert InRange(gp);
    var p := haloed.At(x, y);
    assert 20 <= p.red && 20 <= p.green && 20 <= p.blue;
  }

  // ------------------------------------------------------ HSL channel filters

  /** AddLightness on one HSL value: the lightness moved by delta and clamped
      into [0, 1], hue and saturation untouched. */
  function WithLightness(v: HslValue, delta: real): (w: HslValue)
    ensures w.hue == v.hue && w.saturation == v.saturation
    ensures 0.0 <= w.lightness <= 1.0
    ensures 0.0 <= v.lightness + delta <= 1.0 ==> w.lightness == v.lightness + delta
    ensures v.lightness + delta > 1.0 ==> w.lightness == 1.0
    ensures v.lightness + delta < 0.0 ==> w.lightness == 0.0
  {
    v.(lightness := ClampUnit(v.lightness + delta))
  }

  /** AddSaturation on one HSL value: the saturation moved and clamped, the rest untouched. */
  function WithSaturation(v: HslValue, delta: real): (w: HslValue)
    ensures w.hue == v.hue && w.lightness == v.lightness
    ensures 0.0 <= w.saturation <= 1.0
    ensures 0.0 <= v.saturation + delta <= 1.0 ==> w.saturation == v.saturation + delta
    ensures v.saturation + delta > 1.0 ==> w.saturation == 1.0
    ensures v.saturation + delta < 0.0 ==> w.saturation == 0.0
  {
    v.(saturation := ClampUnit(v.saturation + delta))
  }

  /** AddHue on one HSL value: `GetHue() + hue` is Java int addition (it wraps
      past 2^31 - 1), then SetHue saturates into [0, 360]. */
  function WithHue(v: HslValue, delta: int): (w: HslValue)
    ensures w.saturation == v.saturation && w.lightness == v.lightness
    ensures 0 <= w.hue <= 360
    ensures MinInt32 <= v.hue + delta <= MaxInt32 && 0 <= v.hue + delta <= 360 ==> w.hue == v.hue + delta
    ensures MinInt32 <= v.hue + delta <= MaxInt32 && v.hue + delta > 360 ==> w.hue == 360
    ensures MinInt32 <= v.hue + delta <= MaxInt32 && v.hue + delta < 0 ==> w.hue == 0
  {
    v.(hue := ClampHue(WrapInt32(v.hue + delta)))
  }

  /** The whole per-pixel step of the three filters: RGB to HSL (an operation
      the model takes as a parameter), the adjustment, HSL.GetRGB, and the
      masking SetRGB does. */
  function Recolour(toHsl: Pixel -> HslValue, adjust: HslValue -> HslValue): Pixel -> Pixel
  {
    p => Wrap(ToRgb(adjust(toHsl(p))))
  }

  function LightnessBy(delta: real): HslValue -> HslValue
  {
    v => WithLightness(v, delta)
  }

  function SaturationBy(delta: real): HslValue -> HslValue
  {
    v => WithSaturation(v, delta)
  }

  function HueBy(delta: int): HslValue -> HslValue
  {
    v => WithHue(v, delta)
  }

  /** When RGB to HSL yields values in the setters' ranges, the adjusted value
      is in range too, GetRGB gives channels in [0, 255] and SetRGB stores them
      unmasked: the pixel becomes exactly HSL.GetRGB of the adjusted value. */
  lemma RecolourExact(toHsl: Pixel -> HslValue, p: Pixel, light: real, sat: real, hue: int)
    requires Canonical(toHsl(p))
    ensures Recolour(toHsl, LightnessBy(light))(p) == ToRgb(WithLightness(toHsl(p), light))
    ensures Recolour(toHsl, SaturationBy(sat))(p) == ToRgb(WithSaturation(toHsl(p), sat))
    ensures Recolour(toHsl, HueBy(hue))(p) == ToRgb(WithHue(toHsl(p), hue))
  {
    assert Canonical(WithLightness(toHsl(p), light));
    assert Canonical(WithSaturation(toHsl(p), sat));
    assert Canonical(WithHue(toHsl(p), hue));
  }
}
