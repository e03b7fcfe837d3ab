/** `hslToHex` on concrete inputs: the pattern's grammar, the fallback and
    worked conversions. */
module HslExamples {
  import opened Strings
  import opened HslConvert

  /** A whole-number percentage or hue as the pattern captures it. */
  function Integer(digits: string): Numeral {
    Numeral(digits, "")
  }

  /** The parts of `hsl(h, s%, l%)` written with one space after each comma. */
  function Spaced(h: string, s: string, l: string): Match {
    Match(h, " ", Integer(s), " ", Integer(l))
  }

  /** The converter on an input that is one rendered match followed by
      `rest`, given its colour and the formatting of that colour. */
  lemma Converts(hsl: string, m: Match, rest: string, c: Rgb, hex: string)
    requires WellFormed(m) && hsl == Render(m) + rest
    requires ColorOf(m) == c && FormatRgb(c) == hex
    ensures MatchHsl(hsl) == Some(m)
    ensures HslToHex(hsl) == hex
  {
    MatchHslRender(m, rest);
  }

  /** The converter on an input that is exactly one rendered match. */
  lemma ConvertsAlone(hsl: string, m: Match, c: Rgb, hex: string)
    requires WellFormed(m) && hsl == Render(m)
    requires ColorOf(m) == c && FormatRgb(c) == hex
    ensures HslToHex(hsl) == hex
  {
    assert hsl == Render(m) + "";
    MatchHslRender(m, "");
  }

  /** Evaluates the digit string `100` for the examples below; a
      computation on a constant, not a property of the converter. */
  lemma Hundred()
    ensures DigitsValue("100") == 100 && NumeralValue(Integer("100")) == 100.0
  {
    assert "100"[..2] == "10" && "10"[..1] == "1" && "1"[..0] == [];
  }

  lemma HexFF()
    ensures ToHex(1.0) == "ff"
  {
    assert Byte(1.0) == 255;
    assert HexDigits(255) == HexDigits(15) + [HexDigit(15)];
  }

  lemma Hex00()
    ensures ToHex(0.0) == "00"
  {
    assert Byte(0.0) == 0;
  }

  // ---------------------------------------------------------------------
  // White and black
  // ---------------------------------------------------------------------

  lemma WhiteColor()
    ensures ColorOf(Spaced("0", "0", "100")) == Rgb(1.0, 1.0, 1.0)
    ensures FormatRgb(Rgb(1.0, 1.0, 1.0)) == "#ffffff"
  {
    Hundred();
    HexFF();
  }

  lemma WhiteText(t: string)
    requires t == "hsl(0, 0%, 100%)"
    ensures t == Render(Spaced("0", "0", "100"))
  {
  }

  /** `hsl(0, 0%, 100%)` converts to `#ffffff`. */
  lemma White()
    ensures HslToHex("hsl(0, 0%, 100%)") == "#ffffff"
  {
    var hsl := "hsl(0, 0%, 100%)";
    WhiteColor();
    WhiteText(hsl);
    ConvertsAlone(hsl, Spaced("0", "0", "100"), Rgb(1.0, 1.0, 1.0), "#ffffff");
  }

  /** Whitespace after the commas is optional: `hsl(0,0%,100%)` is white too. */
  lemma WhiteUnspaced()
    ensures HslToHex("hsl(0,0%,100%)") == "#ffffff"
  {
    var hsl := "hsl(0,0%,100%)";
    var w := Spaced("0", "0", "100");
    var m := w.(gap1 := "", gap2 := "");
    WhiteColor();
    GapsIgnored(w, "", "");
    UnspacedText(hsl, m);
    ConvertsAlone(hsl, m, Rgb(1.0, 1.0, 1.0), "#ffffff");
  }

  lemma UnspacedText(t: string, m: Match)
    requires t == "hsl(0,0%,100%)" && m == Match("0", "", Integer("0"), "", Integer("100"))
    ensures t == Render(m)
  {
  }

  /** The whitespace runs do not enter the colour. */
  lemma GapsIgnored(m: Match, gap1: string, gap2: string)
    requires WellFormed(m) && IsSpaces(gap1) && IsSpaces(gap2)
    ensures WellFormed(m.(gap1 := gap1, gap2 := gap2))
    ensures ColorOf(m.(gap1 := gap1, gap2 := gap2)) == ColorOf(m)
  {
  }

  /** A prefix without an `h` cannot hold the start of a match. */
  lemma SkipPrefix(hsl: string, p: string, s: string)
    requires hsl == p + s && 'h' !in p
    ensures HslToHex(hsl) == HslToHex(s)
  {
    MatchHslSkip(p, s);
  }

  lemma WhiteThenSemicolon(t: string)
    requires t == "hsl(0, 0%, 100%);"
    ensures HslToHex(t) == "#ffffff"
  {
    var white := "hsl(0, 0%, 100%)";
    assert t == white + ";";
    WhiteColor();
    WhiteText(white);
    Converts(t, Spaced("0", "0", "100"), ";", Rgb(1.0, 1.0, 1.0), "#ffffff");
  }

  /** The match is unanchored: text before and after it is ignored. */
  lemma WhiteInText()
    ensures HslToHex("color: hsl(0, 0%, 100%);") == "#ffffff"
  {
    var hsl := "color: hsl(0, 0%, 100%);";
    var p, t := "color: ", "hsl(0, 0%, 100%);";
    assert hsl == p + t;
    NoH(p);
    SkipPrefix(hsl, p, t);
    WhiteThenSemicolon(t);
  }

  lemma BlackColor()
    ensures ColorOf(Spaced("0", "0", "0")) == Rgb(0.0, 0.0, 0.0)
    ensures FormatRgb(Rgb(0.0, 0.0, 0.0)) == "#000000"
  {
    Hex00();
  }

  /** `hsl(0, 0%, 0%)` is matched, not the fallback, and converts to
      `#000000`. */
  lemma Black()
    ensures MatchHsl("hsl(0, 0%, 0%)") == Some(Spaced("0", "0", "0"))
    ensures HslToHex("hsl(0, 0%, 0%)") == "#000000"
  {
    var hsl := "hsl(0, 0%, 0%)";
    BlackColor();
    BlackText(hsl);
    assert hsl == Render(Spaced("0", "0", "0")) + "";
    Converts(hsl, Spaced("0", "0", "0"), "", Rgb(0.0, 0.0, 0.0), "#000000");
  }

  lemma BlackText(t: string)
    requires t == "hsl(0, 0%, 0%)"
    ensures t == Render(Spaced("0", "0", "0"))
  {
  }

  /** Of two colours in one string the first is converted: white, not
      the black that follows it. */
  lemma FirstOfTwo()
    ensures HslToHex("hsl(0, 0%, 100%) hsl(0, 0%, 0%)") == "#ffffff"
  {
    var white, rest := "hsl(0, 0%, 100%)", " hsl(0, 0%, 0%)";
    assert "hsl(0, 0%, 100%) hsl(0, 0%, 0%)" == white + rest;
    WhiteColor();
    WhiteText(white);
    ConvertsFirst(white, Spaced("0", "0", "100"), rest, Rgb(1.0, 1.0, 1.0), "#ffffff");
  }

  lemma ConvertsFirst(text: string, m: Match, rest: string, c: Rgb, hex: string)
    requires WellFormed(m) && text == Render(m)
    requires ColorOf(m) == c && FormatRgb(c) == hex
    ensures HslToHex(text + rest) == hex
  {
    MatchHslRender(m, rest);
  }

  /** `s` has no `h` at all. */
  lemma NoH(s: string)
    requires forall k :: 0 <= k < |s| ==> s[k] != 'h'
    ensures 'h' !in s
  {
  }

  // ---------------------------------------------------------------------
  // A chromatic colour and an out-of-range one
  // ---------------------------------------------------------------------

  lemma CoralColor()
    ensures ColorOf(Spaced("6", "100", "67")) == Rgb(1.0, 0.406, 0.34)
  {
    Hundred();
    assert "67"[..1] == "6";
    assert DigitsValue("67") == 67;
    assert Q(0.67, 1.0) == 1.0;
    assert Mix(0.34, 1.0, 6.0 * (6.0 / 360.0)) == 0.406;
  }

  lemma CoralFormat()
    ensures FormatRgb(Rgb(1.0, 0.406, 0.34)) == "#ff6857"
  {
    HexFF();
    assert Byte(0.406) == 104;
    assert HexDigits(104) == HexDigits(6) + [HexDigit(8)];
    assert Byte(0.34) == 87;
    assert HexDigits(87) == HexDigits(5) + [HexDigit(7)];
  }

  lemma CoralText(t: string)
    requires t == "hsl(6, 100%, 67%)"
    ensures t == Render(Spaced("6", "100", "67"))
  {
  }

  /** `hsl(6, 100%, 67%)`, the coral base shade, converts to `#ff6857`. */
  lemma Coral()
    ensures HslToHex("hsl(6, 100%, 67%)") == "#ff6857"
  {
    CoralText("hsl(6, 100%, 67%)");
    CoralConverts("hsl(6, 100%, 67%)");
  }

  lemma CoralConverts(hsl: string)
    requires hsl == Render(Spaced("6", "100", "67"))
    ensures HslToHex(hsl) == "#ff6857"
  {
    CoralColor();
    CoralFormat();
    ConvertsAlone(hsl, Spaced("6", "100", "67"), Rgb(1.0, 0.406, 0.34), "#ff6857");
  }

  lemma OverBright()
    ensures ColorOf(Spaced("0", "0", "200")) == Rgb(2.0, 2.0, 2.0)
    ensures FormatRgb(Rgb(2.0, 2.0, 2.0)) == "#1fe1fe1fe"
  {
    assert "200"[..2] == "20" && "20"[..1] == "2" && "2"[..0] == [];
    assert DigitsValue("200") == 200;
    Hex1fe();
  }

  lemma Hex1fe()
    ensures ToHex(2.0) == "1fe"
  {
    assert Byte(2.0) == 510;
    assert HexDigits(510) == HexDigits(31) + [HexDigit(14)];
    assert HexDigits(31) == HexDigits(1) + [HexDigit(15)];
  }

  /** Nothing clamps an out-of-range lightness: 200% gives a channel byte of
      510, three hex digits each. */
  lemma OutOfRange()
    ensures HslToHex("hsl(0, 0%, 200%)") == "#1fe1fe1fe"
  {
    var hsl := "hsl(0, 0%, 200%)";
    OverBright();
    assert hsl == Render(Spaced("0", "0", "200")) + "";
    Converts(hsl, Spaced("0", "0", "200"), "", Rgb(2.0, 2.0, 2.0), "#1fe1fe1fe");
  }

  // ---------------------------------------------------------------------
  // The fallback
  // ---------------------------------------------------------------------

  lemma NoPercent(s: string)
    requires forall k :: 0 <= k < |s| ==> s[k] != '%'
    ensures '%' !in s
  {
  }

  /** The empty string falls back to `#000000`. */
  lemma Empty()
    ensures HslToHex("") == "#000000"
  {
    MatchHslNoH("");
  }

  /** So does another colour syntax. */
  lemma RgbSyntax()
    ensures HslToHex("rgb(0,0,0)") == "#000000"
  {
    var s := "rgb(0,0,0)";
    NoH(s);
    MatchHslNoH(s);
  }

  /** Saturation and lightness need their `%` signs. */
  lemma MissingPercent()
    ensures HslToHex("hsl(0, 0, 0)") == "#000000"
  {
    var s := "hsl(0, 0, 0)";
    NoPercent(s);
    MatchHslNoPercent(s);
  }

  /** An input whose only `h` starts a failed attempt falls back. */
  lemma RejectedAtStart(s: string, j: nat, t: string)
    requires 4 <= j < |s| && !IsDigit(s[j]) && s[j] != ','
    requires forall k :: 4 <= k < j ==> IsDigit(s[k])
    requires s == "h" + t && 'h' !in t
    ensures HslToHex(s) == "#000000"
  {
    MatchAtHueRejects(s, j);
    MatchHslDrop(s, 1);
    assert s[1..] == t;
    MatchHslNoH(t);
  }

  /** No whitespace before the hue. */
  lemma SpaceBeforeHue()
    ensures HslToHex("hsl( 0, 0%, 100%)") == "#000000"
  {
    var s, t := "hsl( 0, 0%, 100%)", "sl( 0, 0%, 100%)";
    assert s == "h" + t;
    NoH(t);
    RejectedAtStart(s, 4, t);
  }

  /** No whitespace before a comma. */
  lemma SpaceBeforeComma()
    ensures HslToHex("hsl(0 ,0%,100%)") == "#000000"
  {
    var s, t := "hsl(0 ,0%,100%)", "sl(0 ,0%,100%)";
    assert s == "h" + t;
    NoH(t);
    RejectedAtStart(s, 5, t);
  }

  /** The hue takes digits only. */
  lemma FractionalHue()
    ensures HslToHex("hsl(0.5, 0%, 100%)") == "#000000"
  {
    var s, t := "hsl(0.5, 0%, 100%)", "sl(0.5, 0%, 100%)";
    assert s == "h" + t;
    NoH(t);
    RejectedAtStart(s, 5, t);
  }
}
