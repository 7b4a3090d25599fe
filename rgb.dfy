/** The RGB channel triple (src/RGB.java): a plain mutable object whose three
    channels are Java ints. It stores whatever it is given and never clamps. */
module Rgb {

  /** The value an RGB object holds at one moment. */
  datatype Pixel = Pixel(red: int, green: int, blue: int)

  /** Every channel fits the 8 bits a pixel buffer keeps. */
  predicate InRange(p: Pixel)
  {
    0 <= p.red <= 255 && 0 <= p.green <= 255 && 0 <= p.blue <= 255
  }

  const Black := Pixel(0, 0, 0)
  const White := Pixel(255, 255, 255)

  class RGB {
    var red: int
    var green: int
    var blue: int

    ghost function Value(): Pixel
      reads this
    {
      Pixel(red, green, blue)
    }

    /** `new RGB()`: all three channels zero. */
    constructor Zero()
      ensures Value() == Black
    {
      red, green, blue := 0, 0, 0;
    }

    /** `new RGB(red, green, blue)`: the channels exactly as given, out-of-range ones included. */
    constructor (red: int, green: int, blue: int)
      ensures Value() == Pixel(red, green, blue)
    {
      this.red, this.green, this.blue := red, green, blue;
    }

    function GetRed(): (c: int)
      reads this
      ensures c == Value().red
    {
      red
    }

    function GetGreen(): (c: int)
      reads this
      ensures c == Value().green
    {
      green
    }

    function GetBlue(): (c: int)
      reads this
      ensures c == Value().blue
    {
      blue
    }

    method SetRed(red: int)
      modifies this`red
      ensures Value() == old(Value()).(red := red)
    {
      this.red := red;
    }

    method SetGreen(green: int)
      modifies this`green
      ensures Value() == old(Value()).(green := green)
    {
      this.green := green;
    }

    method SetBlue(blue: int)
      modifies this`blue
      ensures Value() == old(Value()).(blue := blue)
    {
      this.blue := blue;
    }
  }

  /** A client of RGB: constructing RGB(300, -10, 128) keeps all three values
      as given; nothing is clamped to [0, 255]. */
  method StoresUnclamped() returns (red: int, green: int, blue: int)
    ensures red == 300 && green == -10 && blue == 128
  {
    var c := new RGB(300, -10, 128);
    red, green, blue := c.GetRed(), c.GetGreen(), c.GetBlue();
  }

  /** A client of RGB: after one setter call each getter returns the last value
      stored for its channel, so the setter touched only its own channel. */
  method LastStoreWins(red: int, green: int, blue: int, newGreen: int)
    returns (gotRed: int, gotGreen: int, gotBlue: int)
    ensures gotRed == red && gotGreen == newGreen && gotBlue == blue
  {
    var c := new RGB(red, green, blue);
    c.SetGreen(newGreen);
    gotRed, gotGreen, gotBlue := c.GetRed(), c.GetGreen(), c.GetBlue();
  }

  /** The default constructor yields black. */
  method DefaultIsBlack() returns (red: int, green: int, blue: int)
    ensures red == 0 && green == 0 && blue == 0
  {
    var c := new RGB.Zero();
    red, green, blue := c.GetRed(), c.GetGreen(), c.GetBlue();
  }
}
