/** The colour palette (src/palette.rs): a hue origin that cycles back and
    forth, and the mapping of a normalised escape value to an RGB triple
    through the HSL colour model. f32 values are modelled as reals. */
module Palettes {

  import opened Numeric
  import opened Fractals

  datatype Rgb = Rgb(r: Byte, g: Byte, b: Byte)

  const Black: Rgb := Rgb(0, 0, 0)
  const White: Rgb := Rgb(255, 255, 255)

  /** The hue step `cycle` adds in one call, before its sign. */
  const HUE_STEP: real := 0.06

  datatype Palette = Palette(h0: real, hscale: real) {

    /** The states reachable from `Default` by cycling: unit hue scale and a
        hue origin that overshoots 1 in magnitude by at most one step. */
    predicate Bounded() {
      && (hscale == 1.0 || hscale == -1.0)
      && -1.0 - HUE_STEP <= h0 <= 1.0 + HUE_STEP
    }

    /** `cycle`: either turn round (once the origin has passed 1 in the
        current direction) or take one step in the current direction. */
    function Cycle(): (p: Palette)
      ensures h0 * hscale > 1.0 ==> p.h0 == h0 && p.hscale == -hscale
      ensures h0 * hscale <= 1.0 ==> p.hscale == hscale && p.h0 == h0 + HUE_STEP * hscale
      ensures p.hscale == hscale || p.hscale == -hscale
      ensures Bounded() ==> p.Bounded()
    {
      if h0 * hscale > 1.0 then Palette(h0, -hscale)
      else Palette(h0 + HUE_STEP * hscale, hscale)
    }

    /** `color`: black for 0 ("inside the set"), otherwise the HSL colour with
        hue `h0 + hscale*i`, full saturation and lightness rising from 0.05 to
        1 with `i`, each channel scaled to 0..255 by a saturating `as u8`. */
    function Color(i: Value): (rgb: Rgb)
      ensures i == Num(0.0) ==> rgb == Black
      ensures i.NaN? ==> rgb == Black
      ensures i == Num(1.0) ==> rgb == White
    {
      match i
      // every comparison with NaN is false, so hue_to_rgb returns m1, itself
      // NaN, and `as u8` maps NaN to 0
      case NaN => Black
      case Num(v) =>
        if v == 0.0 then Black
        else
          var c := Hsl2Rgb(h0 + hscale * v, 1.0, 0.95 * v + 0.05);
          assert v == 1.0 ==> c == (1.0, 1.0, 1.0) by {
            if v == 1.0 {
              var m := Levels(1.0, 1.0);
              assert m == (1.0, 1.0);
              FlatLevelsGiveOneShade(m.0, m.1, h0 + hscale * v + 1.0 / 3.0);
              FlatLevelsGiveOneShade(m.0, m.1, h0 + hscale * v);
              FlatLevelsGiveOneShade(m.0, m.1, h0 + hscale * v - 1.0 / 3.0);
            }
          }
          Rgb(SaturatingByte(255.0 * c.0), SaturatingByte(255.0 * c.1), SaturatingByte(255.0 * c.2))
    }
  }

  /** `Palette::default()`. */
  function Default(): (p: Palette)
    ensures p.Bounded()
  {
    Palette(0.0, 1.0)
  }

  /** The palette after `n` calls of `cycle`. */
  function CycleTimes(p: Palette, n: nat): Palette
  {
    if n == 0 then p else CycleTimes(p, n - 1).Cycle()
  }

  /** However often the palette is cycled, its state stays bounded. */
  lemma {:induction false} CyclingStaysBounded(n: nat)
    ensures CycleTimes(Default(), n).Bounded()
  {
    if n > 0 {
      CyclingStaysBounded(n - 1);
    }
  }

  /** Cycling never changes the colour of the inside of the set. */
  lemma InsideStaysBlack(n: nat)
    ensures CycleTimes(Default(), n).Color(Num(0.0)) == Black
  {
  }

  /** The two HSL levels `(m1, m2)`: the darkest and brightest channel value. */
  function Levels(l: real, s: real): (m: (real, real))
    ensures m.0 + m.1 == 2.0 * l
    ensures s == 1.0 && 0.0 <= l <= 1.0 ==> 0.0 <= m.0 <= m.1 <= 1.0
  {
    var m2 := if l < 0.5 then l * (s + 1.0) else l + s - l * s;
    (l * 2.0 - m2, m2)
  }

  /** `hsl2rgb`: the red, green and blue shades, a third of a turn apart. */
  function Hsl2Rgb(h: real, s: real, l: real): (c: (real, real, real))
    ensures s == 1.0 && 0.0 <= l <= 1.0 && h >= -2.0 / 3.0 ==>
              && 0.0 <= c.0 <= 1.0 && 0.0 <= c.1 <= 1.0 && 0.0 <= c.2 <= 1.0
  {
    var m := Levels(l, s);
    (HueToRgb(m.0, m.1, h + 1.0 / 3.0), HueToRgb(m.0, m.1, h), HueToRgb(m.0, m.1, h - 1.0 / 3.0))
  }

  /** `hue_to_rgb`: the shade at hue `h` on the piecewise-linear HSL profile
      between the levels; a hue outside [0, 1] is moved back by one turn only. */
  function HueToRgb(m1: real, m2: real, h: real): (v: real)
    ensures m1 <= m2 && h >= -1.0 ==> m1 <= v <= m2
  {
    var h := if h < 0.0 then h + 1.0 else if h > 1.0 then h - 1.0 else h;
    if h * 6.0 < 1.0 then Between(m1, m2, h * 6.0)
    else if h * 2.0 < 1.0 then m2
    else if h * 3.0 < 2.0 then Between(m1, m2, (2.0 / 3.0 - h) * 6.0)
    else m1
  }

  /** `m1 + (m2 - m1) * t`: the point a fraction `t` of the way from m1 to m2. */
  function Between(m1: real, m2: real, t: real): (v: real)
    ensures m1 <= m2 && 0.0 <= t <= 1.0 ==> m1 <= v <= m2
  {
    var v := m1 + (m2 - m1) * t;
    if m1 <= m2 && 0.0 <= t <= 1.0 then BetweenBounds(m1, m2, t, v); v else v
  }

  lemma ScaledGap(d: real, t: real)
    requires d >= 0.0 && 0.0 <= t <= 1.0
    ensures 0.0 <= d * t <= d
  {
  }

  lemma BetweenBounds(m1: real, m2: real, t: real, v: real)
    requires v == m1 + (m2 - m1) * t
    requires m1 <= m2 && 0.0 <= t <= 1.0
    ensures m1 <= v <= m2
  {
    var d := m2 - m1;
    var p := d * t;
    ScaledGap(d, t);
    assert v == m1 + p;
  }

  /** With equal levels every hue gives the same shade. */
  lemma FlatLevelsGiveOneShade(m1: real, m2: real, h: real)
    requires m1 == m2
    ensures HueToRgb(m1, m2, h) == m1
  {
  }

  /** Within one turn either side, the profile repeats with period 1. */
  lemma HueToRgbPeriodic(m1: real, m2: real, h: real)
    ensures -1.0 <= h < 0.0 ==> HueToRgb(m1, m2, h) == HueToRgb(m1, m2, h + 1.0)
    ensures 1.0 < h <= 2.0 ==> HueToRgb(m1, m2, h) == HueToRgb(m1, m2, h - 1.0)
  {
  }

  /** Only one turn is undone: a hue below -1 is not reduced into [0, 1], and
      its shade leaves the range between the levels. */
  lemma HueWrapsOnlyOnce()
    ensures HueToRgb(0.0, 1.0, -1.5) == -3.0
    ensures HueToRgb(0.0, 1.0, -0.5) == 1.0
  {
  }
}
