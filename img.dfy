/** The pixel buffer of src/Img.java, a near-duplicate of ImageWrapper that
    the tests use: the same packing over a width x height BufferedImage, plus
    the (width, height) constructor. Contents is the grid of pixel values. */
module ImgBuffer {
  import opened Rgb
  import opened Packing
  import opened Grid

  class Img {
    /** pixels[x, y] is the packed int BufferedImage keeps for (x, y). Its
        dimensions are fixed when the buffer is made. */
    const pixels: array2<int>
    ghost var Contents: Raster

    ghost predicate Valid()
      reads this, pixels
    {
      && Contents.WellFormed()
      && Contents.width == pixels.Length0 && Contents.height == pixels.Length1
      && Contents.width > 0 && Contents.height > 0
      && Contents.AllInRange()
      && forall x, y {:trigger pixels[x, y]} :: 0 <= x < pixels.Length0 && 0 <= y < pixels.Length1 ==>
           pixels[x, y] == Pack(Contents.At(x, y))
    }

    /** `new Img(width, height)`: a black buffer of that size.
        BufferedImage refuses (by throwing) a non-positive dimension. */
    constructor (xWidth: int, yWidth: int)
      requires xWidth > 0 && yWidth > 0
      ensures Valid() && fresh(pixels)
      ensures Contents == Filled(xWidth, yWidth, Black)
    {
      pixels := new int[xWidth, yWidth]((x, y) => 0);
      Contents := Filled(xWidth, yWidth, Black);
    }

    /** The three channels of (xVal, yVal), unpacked into a new RGB object. */
    method GetRGB(xVal: int, yVal: int) returns (rgb: RGB)
      requires Valid() && Contents.InBounds(xVal, yVal)
      ensures fresh(rgb) && rgb.Value() == Contents.At(xVal, yVal)
      ensures InRange(rgb.Value())
    {
      var p := Unpack(pixels[xVal, yVal]);
      rgb := new RGB(p.red, p.green, p.blue);
      UnpackPackInRange(Contents.At(xVal, yVal));
    }

    /** Stores the low eight bits of each channel of rgb at (xVal, yVal);
        every other pixel and the dimensions stay as they were. */
    method SetRGB(xVal: int, yVal: int, rgb: RGB)
      requires Valid() && Contents.InBounds(xVal, yVal)
      modifies this, pixels
      ensures Valid()
      ensures Contents == old(Contents).Set(xVal, yVal, Wrap(rgb.Value()))
    {
      var rgbVal := Pack(Pixel(rgb.GetRed(), rgb.GetGreen(), rgb.GetBlue()));
      pixels[xVal, yVal] := rgbVal;
      PackWrap(rgb.Value());
      Contents := Contents.Set(xVal, yVal, Wrap(rgb.Value()));
    }

    function GetWidth(): (w: int)
      reads this, pixels
      requires Valid()
      ensures w == Contents.width && w > 0
    {
      pixels.Length0
    }

    function GetHeight(): (h: int)
      reads this, pixels
      requires Valid()
      ensures h == Contents.height && h > 0
    {
      pixels.Length1
    }
  }

  /** A client of the buffer: a channel written through SetRGB reads back
      modulo 256, and the neighbouring pixel and the size are untouched. */
  method WriteThenRead(image: Img, x: int, y: int, red: int, green: int, blue: int)
    returns (got: Pixel)
    requires image.Valid() && image.Contents.InBounds(x, y)
    modifies image, image.pixels
    ensures image.Valid()
    ensures got == Pixel(red % 256, green % 256, blue % 256)
    ensures image.Contents.width == old(image.Contents.width) && image.Contents.height == old(image.Contents.height)
    ensures forall x', y' :: image.Contents.InBounds(x', y') && (x' != x || y' != y) ==>
              image.Contents.At(x', y') == old(image.Contents.At(x', y'))
  {
    var c := new RGB(red, green, blue);
    image.SetRGB(x, y, c);
    var back := image.GetRGB(x, y);
    got := Pixel(back.GetRed(), back.GetGreen(), back.GetBlue());
  }
}
