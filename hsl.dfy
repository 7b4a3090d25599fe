/** The HSL colour triple (src/HSL.java): an integer hue in degrees, a
    saturation and a lightness (doubles, here exact reals). The constructor stores
    its arguments as given; the setters saturate into range; GetRGB is the
    sextant conversion to RGB. */
module Hsl {
  import opened Rgb
  import opened JavaNum

  datatype HslValue = HslValue(hue: int, saturation: real, lightness: real)

  /** The ranges the setters keep a component in. */
  predicate Canonical(v: HslValue)
  {
    0 <= v.hue <= 360 && 0.0 <= v.saturation <= 1.0 && 0.0 <= v.lightness <= 1.0
  }

  /** What SetHue stores: saturating at both ends, with no wrap-around of the
      colour wheel (361 becomes 360, not 1). */
  function ClampHue(hue: int): (h: int)
    ensures 0 <= h <= 360
    ensures 0 <= hue <= 360 ==> h == hue
    ensures hue > 360 ==> h == 360
    ensures hue < 0 ==> h == 0
  {
    if hue > 360 then 360 else if hue < 0 then 0 else hue
  }

  /** What SetSaturation and SetLightness store: the value saturated into [0, 1]. */
  function ClampUnit(value: real): (c: real)
    ensures 0.0 <= c <= 1.0
    ensures 0.0 <= value <= 1.0 ==> c == value
    ensures value > 1.0 ==> c == 1.0
    ensures value < 0.0 ==> c == 0.0
  {
    if value > 1.0 then 1.0 else if value < 0.0 then 0.0 else value
  }

  function Abs(x: real): real
  {
    if x < 0.0 then -x else x
  }

  /** `(1 - |2 * lightness - 1|) * saturation`. */
  function Chroma(v: HslValue): real
  {
    (1.0 - Abs(2.0 * v.lightness - 1.0)) * v.saturation
  }

  /** `hue / 60.0`. */
  function HuePrime(v: HslValue): real
  {
    v.hue as real / 60.0
  }

  /** `1 - |hprime % 2 - 1|`: rises from 0 to 1 and back over every two units of a
      non-negative hprime. */
  function Ramp(hprime: real): (f: real)
    ensures 0.0 <= hprime ==> 0.0 <= f <= 1.0
  {
    1.0 - Abs(FMod2(hprime) - 1.0)
  }

  /** The second-largest component: `chroma * (1 - |hprime % 2 - 1|)`. */
  function SecondComponent(v: HslValue): real
  {
    Chroma(v) * Ramp(HuePrime(v))
  }

  /** `lightness - chroma / 2`, added to every component. */
  function Offset(v: HslValue): real
  {
    v.lightness - Chroma(v) / 2.0
  }

  datatype Shade = Shade(r: real, g: real, b: real)

  /** The switch on ceil(hprime): six sextants, and (0, 0, 0) for any other value. */
  function Sextant(k: int, chroma: real, x: real): Shade
  {
    match k
    case 1 => Shade(chroma, x, 0.0)
    case 2 => Shade(x, chroma, 0.0)
    case 3 => Shade(0.0, chroma, x)
    case 4 => Shade(0.0, x, chroma)
    case 5 => Shade(x, 0.0, chroma)
    case 6 => Shade(chroma, 0.0, x)
    case _ => Shade(0.0, 0.0, 0.0)
  }

  /** HSL.GetRGB: each channel is `(int) (255 * (component + m))`, truncated
      toward zero and saturated into the int range. When ceil(hue / 60) is not one
      of 1..6 (hue 0 is such a value) the default branch leaves all three
      components 0 and the result is a gray of level trunc(255 * m), whatever
      the saturation. For hue in [0, 360] and saturation and lightness in
      [0, 1] every channel lies in [0, 255]. */
  function ToRgb(v: HslValue): (p: Pixel)
    ensures MinInt32 <= p.red <= MaxInt32 && MinInt32 <= p.green <= MaxInt32 && MinInt32 <= p.blue <= MaxInt32
    ensures !(1 <= Ceil(HuePrime(v)) <= 6) ==> p.red == p.green == p.blue == Trunc(255.0 * Offset(v))
    ensures Canonical(v) ==> InRange(p)
  {
    var s := Sextant(Ceil(HuePrime(v)), Chroma(v), SecondComponent(v));
    var m := Offset(v);
    ShadeInRange(v);
    Pixel(Trunc(255.0 * (s.r + m)), Trunc(255.0 * (s.g + m)), Trunc(255.0 * (s.b + m)))
  }

  /** With saturation 0 the chroma is 0, so every channel is trunc(255 * lightness). */
  lemma ToRgbUnsaturated(v: HslValue)
    requires v.saturation == 0.0
    ensures ToRgb(v) == Pixel(Trunc(255.0 * v.lightness), Trunc(255.0 * v.lightness), Trunc(255.0 * v.lightness))
  {
    assert Chroma(v) == 0.0;
    assert SecondComponent(v) == 0.0;
  }

  /** Hue 0 at full saturation and half lightness (pure red in the usual colour
      wheel) falls in the default branch and comes out black. */
  lemma HueZeroIsBlack(v: HslValue)
    requires v.hue == 0 && v.saturation == 1.0 && v.lightness == 0.5
    ensures ToRgb(v) == Black
  {
    HueZeroDefault(v.hue);
    OffsetOfPureColour(v);
    assert Trunc(255.0 * Offset(v)) == 0;
  }

  lemma HueZeroDefault(hue: int)
    requires hue == 0
    ensures Ceil(HuePrime(HslValue(hue, 0.0, 0.0))) == 0
  {
    assert HuePrime(HslValue(hue, 0.0, 0.0)) == 0.0;
  }

  /** Full saturation at half lightness: chroma 1 and offset 0. */
  lemma OffsetOfPureColour(v: HslValue)
    requires v.saturation == 1.0 && v.lightness == 0.5
    ensures Chroma(v) == 1.0 && Offset(v) == 0.0
  {
    assert Abs(2.0 * v.lightness - 1.0) == 0.0;
  }

  /** Hue 360 at full saturation and half lightness lands in sextant 6 and comes out red. */
  lemma HueFullTurnIsRed()
    ensures ToRgb(HslValue(360, 1.0, 0.5)) == Pixel(255, 0, 0)
  {
    var v := HslValue(360, 1.0, 0.5);
    assert Chroma(v) == 1.0;
    assert HuePrime(v) == 6.0;
    assert Ceil(6.0) == 6;
    assert Trunc(3.0) == 3;
    assert FMod2(6.0) == 0.0;
    assert SecondComponent(v) == 0.0;
    assert Offset(v) == 0.0;
    assert Trunc(255.0) == 255;
  }

  /** Channels are truncated, not rounded: a gray of lightness 0.5 is 127.5 before the cast. */
  lemma ToRgbTruncates()
    ensures ToRgb(HslValue(0, 0.0, 0.5)) == Pixel(127, 127, 127)
  {
    ToRgbUnsaturated(HslValue(0, 0.0, 0.5));
  }

  /** The constructor does not clamp, so GetRGB can see a lightness far above 1:
      the channel's double is then beyond the int range and the cast saturates
      at Integer.MAX_VALUE. */
  lemma ToRgbSaturates()
    ensures ToRgb(HslValue(0, 0.0, 10000000000.0)) == Pixel(MaxInt32, MaxInt32, MaxInt32)
  {
    ToRgbUnsaturated(HslValue(0, 0.0, 10000000000.0));
  }

  lemma ScaledDown(a: real, s: real)
    requires 0.0 <= a && 0.0 <= s <= 1.0
    ensures 0.0 <= a * s <= a
  {
    assert a * s + a * (1.0 - s) == a;
    assert 0.0 <= a * (1.0 - s);
  }

  /** Chroma lies in [0, 1 - |2l - 1|] and the offset m keeps chroma + m within [0, 1]. */
  lemma ChromaBounds(v: HslValue)
    requires Canonical(v)
    ensures 0.0 <= Chroma(v) <= 1.0 - Abs(2.0 * v.lightness - 1.0)
    ensures 0.0 <= Offset(v) && Chroma(v) + Offset(v) <= 1.0
  {
    ChromaFactors(1.0 - Abs(2.0 * v.lightness - 1.0), v.saturation, Chroma(v));
    OffsetBounds(v.lightness, Chroma(v));
  }

  lemma ChromaFactors(a: real, s: real, c: real)
    requires 0.0 <= a && 0.0 <= s <= 1.0 && c == a * s
    ensures 0.0 <= c <= a
  {
    ScaledDown(a, s);
  }

  lemma OffsetBounds(l: real, c: real)
    requires 0.0 <= l <= 1.0 && 0.0 <= c <= 1.0 - Abs(2.0 * l - 1.0)
    ensures 0.0 <= l - c / 2.0 && c + (l - c / 2.0) <= 1.0
  {
  }

  /** The second component lies between 0 and the chroma. */
  lemma SecondComponentBounds(v: HslValue)
    requires Canonical(v)
    ensures 0.0 <= SecondComponent(v) <= Chroma(v)
  {
    var c := Chroma(v);
    assert 0.0 <= c by { ChromaBounds(v); }
    var f := Ramp(HuePrime(v));
    assert 0.0 <= f <= 1.0;
    ScaledDown(c, f);
    assert 0.0 <= c * f <= c;
    assert SecondComponent(v) == c * f;
  }

  /** Whatever the sextant, each component is one of 0, x and chroma. */
  lemma SextantBounds(k: int, chroma: real, x: real)
    requires 0.0 <= x <= chroma
    ensures var s := Sextant(k, chroma, x);
      0.0 <= s.r <= chroma && 0.0 <= s.g <= chroma && 0.0 <= s.b <= chroma
  {
  }

  /** For hue in [0, 360] and saturation and lightness in [0, 1], exact arithmetic
      gives 0 <= x <= chroma, m >= 0 and chroma + m <= 1, so every component
      plus m lies in [0, 1]. */
  lemma ShadeInRange(v: HslValue)
    ensures Canonical(v) ==>
      var s := Sextant(Ceil(HuePrime(v)), Chroma(v), SecondComponent(v));
      var m := Offset(v);
      0.0 <= s.r + m <= 1.0 && 0.0 <= s.g + m <= 1.0 && 0.0 <= s.b + m <= 1.0
  {
    if Canonical(v) {
      ChromaBounds(v);
      SecondComponentBounds(v);
      SextantBounds(Ceil(HuePrime(v)), Chroma(v), SecondComponent(v));
    }
  }

  class HSL {
    var hue: int
    var saturation: real
    var lightness: real

    ghost function Value(): HslValue
      reads this
    {
      HslValue(hue, saturation, lightness)
    }

    /** `new HSL(hue, saturation, lightness)` stores the three values unclamped. */
    constructor (hue: int, saturation: real, lightness: real)
      ensures Value() == HslValue(hue, saturation, lightness)
    {
      this.hue, this.saturation, this.lightness := hue, saturation, lightness;
    }

    function GetHue(): (h: int)
      reads this
      ensures h == Value().hue
    {
      hue
    }

    function GetSaturation(): (s: real)
      reads this
      ensures s == Value().saturation
    {
      saturation
    }

    function GetLightness(): (l: real)
      reads this
      ensures l == Value().lightness
    {
      lightness
    }

    method SetHue(hue: int)
      modifies this`hue
      ensures Value() == old(Value()).(hue := ClampHue(hue))
    {
      if hue > 360 {
        this.hue := 360;
        return;
      }
      if hue < 0 {
        this.hue := 0;
        return;
      }
      this.hue := hue;
    }

    method SetSaturation(saturation: real)
      modifies this`saturation
      ensures Value() == old(Value()).(saturation := ClampUnit(saturation))
    {
      if saturation > 1.0 {
        this.saturation := 1.0;
        return;
      }
      if saturation < 0.0 {
        this.saturation := 0.0;
        return;
      }
      this.saturation := saturation;
    }

    method SetLightness(lightness: real)
      modifies this`lightness
      ensures Value() == old(Value()).(lightness := ClampUnit(lightness))
    {
      if lightness > 1.0 {
        this.lightness := 1.0;
        return;
      }
      if lightness < 0.0 {
        this.lightness := 0.0;
        return;
      }
      this.lightness := lightness;
    }

    /** The sextant conversion, as a new RGB object. */
    method GetRGB() returns (rgb: RGB)
      ensures fresh(rgb) && rgb.Value() == ToRgb(Value())
    {
      var p := ToRgb(HslValue(hue, saturation, lightness));
      rgb := new RGB(p.red, p.green, p.blue);
    }
  }
}
