/** Properties of `hslToHex`'s conversion and formatting steps: the
    `hue2rgb` wrap, channel bounds, the output shape, the achromatic case
    and the hex round trips. */
module HslProperties {
  import opened Strings
  import opened HslConvert

  /** `hue2rgb` wraps `t` once: shifting an argument in (0, 1] down by one,
      or one in [0, 1) up by one, leaves the result unchanged ... */
  lemma Hue2RgbWrapsOnce(p: real, q: real, t: real)
    ensures 0.0 < t <= 1.0 ==> Hue2Rgb(p, q, t - 1.0) == Hue2Rgb(p, q, t)
    ensures 0.0 <= t < 1.0 ==> Hue2Rgb(p, q, t + 1.0) == Hue2Rgb(p, q, t)
  {
    assert Mix(p, q, 6.0 * 0.0) == p;
  }

  /** ... and only once: above 2 the result is `p`, and below -1 it leaves
      [p, q], which is why the bound on `Hue2Rgb` needs `-1 <= t`. */
  lemma Hue2RgbBeyond(p: real, q: real, t: real)
    ensures t > 2.0 ==> Hue2Rgb(p, q, t) == p
    ensures p < q && t < -1.0 ==> Hue2Rgb(p, q, t) < p
  {
    if p < q && t < -1.0 {
      var u := t + 1.0;
      assert u < 0.0 && u < 1.0 / 6.0;
      MixBelow(p, q, 6.0 * u);
      assert Hue2Rgb(p, q, t) == Mix(p, q, 6.0 * u);
    }
  }

  /** Interpolating with a negative factor lands below `p`. */
  lemma MixBelow(p: real, q: real, f: real)
    requires p < q && f < 0.0
    ensures Mix(p, q, f) < p
  {
    var d := q - p;
    var x := d * f;
    assert x < 0.0 by {
      assert 0.0 < d;
      assert 0.0 < -f;
      assert 0.0 < d * -f;
    }
    assert Mix(p, q, f) == p + x;
  }

  /** A channel in [0, 1] rounds to a byte. */
  lemma ByteRange(c: real)
    requires 0.0 <= c <= 1.0
    ensures 0 <= Byte(c) <= 255
  {
    assert 0.0 <= c * 255.0 <= 255.0;
  }

  /** For channels in [0, 1]: `#` and three pairs of lowercase hex digits,
      each the base-16 value of its channel's byte. */
  lemma FormatRgbShape(c: Rgb)
    requires InUnitCube(c)
    ensures |FormatRgb(c)| == 7 && FormatRgb(c)[0] == '#'
    ensures HexPair(FormatRgb(c)[1..3], Byte(c.r))
    ensures HexPair(FormatRgb(c)[3..5], Byte(c.g))
    ensures HexPair(FormatRgb(c)[5..7], Byte(c.b))
  {
    ByteRange(c.r);
    ByteRange(c.g);
    ByteRange(c.b);
    Pairs("#", ToHex(c.r), ToHex(c.g), ToHex(c.b));
  }

  lemma Pairs<T>(h: seq<T>, x: seq<T>, y: seq<T>, z: seq<T>)
    requires |h| == 1 && |x| == 2 && |y| == 2 && |z| == 2
    ensures var r := h + x + y + z;
      |r| == 7 && r[0] == h[0] && r[1..3] == x && r[3..5] == y && r[5..7] == z
  {
  }

  /** When saturation and lightness parse to at most 100, the result is `#`
      and three pairs of lowercase hex digits decoding to the channel bytes. */
  lemma HslToHexInGamut(hsl: string)
    requires MatchHsl(hsl).Some?
    requires NumeralValue(MatchHsl(hsl).value.sat) <= 100.0
    requires NumeralValue(MatchHsl(hsl).value.light) <= 100.0
    ensures var r, c := HslToHex(hsl), ColorOf(MatchHsl(hsl).value);
      && |r| == 7 && r[0] == '#'
      && HexPair(r[1..3], Byte(c.r)) && HexPair(r[3..5], Byte(c.g)) && HexPair(r[5..7], Byte(c.b))
  {
    var m := MatchHsl(hsl).value;
    assert HslToHex(hsl) == FormatRgb(ColorOf(m));
    FormatRgbShape(ColorOf(m));
  }

  /** Zero saturation gives grey: the three byte pairs are those of the
      lightness `l`. */
  lemma HslToHexAchromatic(hsl: string, m: Match, l: real)
    requires MatchHsl(hsl) == Some(m) && NumeralValue(m.sat) == 0.0
    requires l == NumeralValue(m.light) / 100.0
    ensures HslToHex(hsl) == "#" + ToHex(l) + ToHex(l) + ToHex(l)
  {
    GreyColour(m, l);
    assert HslToHex(hsl) == FormatRgb(ColorOf(m));
  }

  lemma GreyColour(m: Match, l: real)
    requires WellFormed(m) && NumeralValue(m.sat) == 0.0
    requires l == NumeralValue(m.light) / 100.0
    ensures ColorOf(m) == Rgb(l, l, l)
  {
    var h, sat := DigitsValue(m.hue) as real / 360.0, NumeralValue(m.sat) / 100.0;
    assert sat == 0.0;
    assert ColorOf(m) == HslToRgb(h, sat, l);
  }

  lemma HexDigitOfValue(c: char)
    requires IsHexDigit(c)
    ensures HexDigit(HexDigitValue(c)) == c
  {
  }

  lemma {:induction false} HexValuePositive(s: string)
    requires |s| > 0 && IsHexDigits(s) && s[0] != '0'
    ensures HexValue(s) > 0
  {
    if |s| > 1 {
      HexValuePositive(s[..|s| - 1]);
    }
  }

  /** `toString(16)` inverts `HexValue` on canonical digit strings: those
      without a leading zero. */
  lemma {:induction false} HexDigitsCanonical(s: string)
    requires |s| > 0 && IsHexDigits(s) && (|s| == 1 || s[0] != '0')
    ensures HexDigits(HexValue(s)) == s
  {
    var c := s[|s| - 1];
    var d := HexDigitValue(c);
    HexDigitOfValue(c);
    if |s| == 1 {
      assert s == [c];
      HexDigitsSingle(c);
    } else {
      var init := s[..|s| - 1];
      assert init[0] == s[0];
      assert s == init + [c];
      HexValuePositive(init);
      HexDigitsCanonical(init);
      var a := HexValue(init);
      HexValueSnoc(init, c);
      assert HexValue(s) == a * 16 + d;
      HexDigitsStep(a, d);
      assert HexDigits(a * 16 + d) == init + [c];
    }
  }

  lemma HexDigitsSingle(c: char)
    requires IsHexDigit(c)
    ensures HexDigits(HexValue([c])) == [c]
  {
    assert [c][..0] == [];
    HexDigitOfValue(c);
  }

  lemma HexValueSnoc(init: string, c: char)
    requires IsHexDigits(init) && IsHexDigit(c)
    ensures IsHexDigits(init + [c]) && HexValue(init + [c]) == HexValue(init) * 16 + HexDigitValue(c)
  {
    var s := init + [c];
    assert s[..|s| - 1] == init;
  }

  /** `toString(16)` of `16a + d` with `a > 0`: the digits of `a`, then `d`. */
  lemma HexDigitsStep(a: nat, d: nat)
    requires a > 0 && d < 16
    ensures HexDigits(a * 16 + d) == HexDigits(a) + [HexDigit(d)]
  {
    DivMod16(a, d);
    var n := a * 16 + d;
    assert n >= 16 by { MulBound(a); }
    assert HexDigits(n) == HexDigits(n / 16) + [HexDigit(n % 16)];
  }

  lemma MulBound(a: nat)
    requires a > 0
    ensures a * 16 >= 16
  {
  }

  /** `toHex`'s padding inverts `HexValue` on two-digit strings: every pair
      of lowercase hex digits is the padded form of exactly one byte. */
  lemma PadHexInverse(s: string)
    requires |s| == 2 && IsHexDigits(s)
    ensures PadHex(HexValue(s)) == s
  {
    if s[0] == '0' {
      assert s[..1] == "0";
      assert HexValue("0") == 0 by { assert "0"[..0] == []; }
      assert HexValue(s) == HexDigitValue(s[1]);
      HexDigitOfValue(s[1]);
      assert s == "0" + [s[1]];
    } else {
      HexDigitsCanonical(s);
    }
  }

  lemma DivMod16(a: nat, b: nat)
    requires b < 16
    ensures (a * 16 + b) / 16 == a && (a * 16 + b) % 16 == b
  {
  }
}
