/** `hslToHex` of the colour stories: an unanchored regular-expression match
    of `hsl(h, s%, l%)`, the HSL to RGB conversion of section 4.2.4 of CSS
    Color Module Level 3, and `#rrggbb` formatting. Arithmetic is over `real`;
    `Math.round(x)` is `floor(x + 0.5)`. */
module HslConvert {
  import opened Strings

  // ---------------------------------------------------------------------
  // The pattern /hsl\((\d+),\s*(\d+(?:\.\d+)?)%,\s*(\d+(?:\.\d+)?)%\)/
  // ---------------------------------------------------------------------

  /** `\s`: the WhiteSpace and LineTerminator code points of ECMAScript. */
  predicate IsSpace(c: char) {
    || c == '\t' || c == '\n' || c == '\U{000B}' || c == '\U{000C}' || c == '\r'
    || c == ' ' || c == '\U{00A0}' || c == '\U{1680}'
    || ('\U{2000}' <= c <= '\U{200A}')
    || c == '\U{2028}' || c == '\U{2029}' || c == '\U{202F}' || c == '\U{205F}'
    || c == '\U{3000}' || c == '\U{FEFF}'
  }

  predicate IsSpaces(s: string) {
    forall k :: 0 <= k < |s| ==> IsSpace(s[k])
  }

  /** Length of the run of digits that `t` starts with (what a greedy `\d*`
      consumes). */
  function DigitSpan(t: string): (n: nat)
    ensures n <= |t|
  {
    if t != [] && IsDigit(t[0]) then 1 + DigitSpan(t[1..]) else 0
  }

  /** Length of the run of `\s` that `t` starts with. */
  function SpaceSpan(t: string): (n: nat)
    ensures n <= |t|
  {
    if t != [] && IsSpace(t[0]) then 1 + SpaceSpan(t[1..]) else 0
  }

  /** `DigitSpan` measures a maximal run: digits up to it, none just after. */
  lemma {:induction false} DigitSpanMaximal(t: string)
    ensures IsDigits(t[..DigitSpan(t)])
    ensures DigitSpan(t) == |t| || !IsDigit(t[DigitSpan(t)])
  {
    if t != [] && IsDigit(t[0]) {
      DigitSpanMaximal(t[1..]);
      assert t[..DigitSpan(t)] == [t[0]] + t[1..][..DigitSpan(t[1..])];
    }
  }

  /** `SpaceSpan` measures a maximal run of `\s`. */
  lemma {:induction false} SpaceSpanMaximal(t: string)
    ensures IsSpaces(t[..SpaceSpan(t)])
    ensures SpaceSpan(t) == |t| || !IsSpace(t[SpaceSpan(t)])
  {
    if t != [] && IsSpace(t[0]) {
      SpaceSpanMaximal(t[1..]);
      assert t[..SpaceSpan(t)] == [t[0]] + t[1..][..SpaceSpan(t[1..])];
    }
  }

  /** A run of digits followed by a non-digit is the run `DigitSpan` measures. */
  lemma {:induction false} DigitSpanOf(ds: string, rest: string)
    requires IsDigits(ds) && (rest == [] || !IsDigit(rest[0]))
    ensures DigitSpan(ds + rest) == |ds|
  {
    if ds != [] {
      assert (ds + rest)[1..] == ds[1..] + rest;
      DigitSpanOf(ds[1..], rest);
    }
  }

  /** A run of `\s` followed by anything else is the run `SpaceSpan` measures. */
  lemma {:induction false} SpaceSpanOf(ws: string, rest: string)
    requires IsSpaces(ws) && (rest == [] || !IsSpace(rest[0]))
    ensures SpaceSpan(ws + rest) == |ws|
  {
    if ws != [] {
      assert (ws + rest)[1..] == ws[1..] + rest;
      SpaceSpanOf(ws[1..], rest);
    }
  }

  /** A capture of `\d+(?:\.\d+)?`: its integer digits and its fraction
      digits, the fraction empty when the optional group did not take part. */
  datatype Numeral = Numeral(whole: string, fraction: string)

  predicate WellFormedNumeral(n: Numeral) {
    |n.whole| > 0 && IsDigits(n.whole) && IsDigits(n.fraction)
  }

  /** The captured text. */
  function Text(n: Numeral): string {
    if n.fraction == [] then n.whole else n.whole + "." + n.fraction
  }

  /** `,\s*(\d+(?:\.\d+)?)%`: a comma, a whitespace run and a percentage. */
  function Field(gap: string, n: Numeral): string {
    "," + gap + Text(n) + "%"
  }

  /** One match of the pattern: the three capture groups and the `\s*` runs
      that follow the two commas. */
  datatype Match = Match(hue: string, gap1: string, sat: Numeral, gap2: string, light: Numeral)

  predicate WellFormed(m: Match) {
    && |m.hue| > 0 && IsDigits(m.hue)
    && IsSpaces(m.gap1) && WellFormedNumeral(m.sat)
    && IsSpaces(m.gap2) && WellFormedNumeral(m.light)
  }

  /** The text a match spans: `hsl(` hue `,` gap1 sat `%,` gap2 light `%)`. */
  function Render(m: Match): string {
    "hsl(" + m.hue + Field(m.gap1, m.sat) + Field(m.gap2, m.light) + ")"
  }

  /** The pattern matches at `i`, spanning `m`, in the declarative sense. */
  ghost predicate OccursAt(s: string, i: nat, m: Match)
    requires i <= |s|
  {
    WellFormed(m) && Render(m) <= s[i..]
  }

  /** `(\d+(?:\.\d+)?)%` at the start of `t`: the numeral and what follows
      the `%`. Every quantifier is followed by a character outside its class,
      so the greedy run is the only one the backtracking matcher accepts. */
  function NumeralPrefix(t: string): (r: Option<(Numeral, string)>)
    ensures r.Some? ==> WellFormedNumeral(r.value.0) && t == Text(r.value.0) + "%" + r.value.1
  {
    var w := DigitSpan(t);
    if w == 0 || w == |t| then None
    else
      DigitSpanMaximal(t);
      if t[w] == '.' then FractionPrefix(t, w)
      else if t[w] == '%' then
        Split3(t, w, w + 1);
        Some((Numeral(t[..w], ""), t[w + 1..]))
      else None
  }

  /** `\.\d+%` after the whole digits `t[..w]`. */
  function FractionPrefix(t: string, w: nat): (r: Option<(Numeral, string)>)
    requires 0 < w < |t| && IsDigits(t[..w]) && t[w] == '.'
    ensures r.Some? ==> WellFormedNumeral(r.value.0) && t == Text(r.value.0) + "%" + r.value.1
  {
    var f := DigitSpan(t[w + 1..]);
    if f == 0 || w + 1 + f == |t| || t[w + 1 + f] != '%' then None
    else
      DigitsAfter(t, w + 1);
      NumeralSplit(t, w, f);
      Some((Numeral(t[..w], t[w + 1..w + 1 + f]), t[w + 2 + f..]))
  }

  /** The digit run measured at `i` is all digits. */
  lemma DigitsAfter(t: string, i: nat)
    requires i <= |t|
    ensures i + DigitSpan(t[i..]) <= |t| && IsDigits(t[i..i + DigitSpan(t[i..])])
  {
    DigitSpanMaximal(t[i..]);
    assert t[i..][..DigitSpan(t[i..])] == t[i..i + DigitSpan(t[i..])];
  }

  lemma Split3<T>(t: seq<T>, i: nat, j: nat)
    requires i <= j <= |t|
    ensures t == t[..i] + t[i..j] + t[j..]
  {
  }

  lemma NumeralSplit(t: string, w: nat, f: nat)
    requires 0 < w && 0 < f && w + 1 + f < |t| && t[w] == '.' && t[w + 1 + f] == '%'
    ensures t == t[..w] + "." + t[w + 1..w + 1 + f] + "%" + t[w + 2 + f..]
  {
    assert t == t[..w] + [t[w]] + t[w + 1..w + 1 + f] + [t[w + 1 + f]] + t[w + 2 + f..];
  }

  /** `,\s*(\d+(?:\.\d+)?)%` at the start of `t`: the whitespace run, the
      numeral and what follows the `%`. */
  function FieldPrefix(t: string): (r: Option<(string, Numeral, string)>)
    ensures r.Some? ==>
      && IsSpaces(r.value.0) && WellFormedNumeral(r.value.1)
      && t == Field(r.value.0, r.value.1) + r.value.2
  {
    if t == [] || t[0] != ',' then None
    else
      var c := 1 + SpaceSpan(t[1..]);
      match NumeralPrefix(t[c..])
      case None => None
      case Some((n, rest)) =>
        SpaceSpanMaximal(t[1..]);
        assert t[1..][..c - 1] == t[1..c];
        FieldSpan(t, c, n, rest);
        Some((t[1..c], n, rest))
  }

  lemma FieldSpan(t: string, c: nat, n: Numeral, rest: string)
    requires 1 <= c <= |t| && t[0] == ','
    requires t[c..] == Text(n) + "%" + rest
    ensures t == Field(t[1..c], n) + rest
  {
    Split3(t, 1, c);
    assert t[..1] == ",";
    Regroup4(",", t[1..c], Text(n), "%", rest);
  }

  lemma Regroup4<T>(a: seq<T>, b: seq<T>, c: seq<T>, d: seq<T>, e: seq<T>)
    ensures a + b + (c + d + e) == a + b + c + d + e
  {
  }

  /** `,\s*(\d+(?:\.\d+)?)%,\s*(\d+(?:\.\d+)?)%\)` at the start of `t`:
      the tail of the pattern after the hue. */
  function TailPrefix(t: string): (r: Option<(string, Numeral, string, Numeral, string)>)
    ensures r.Some? ==>
      && IsSpaces(r.value.0) && WellFormedNumeral(r.value.1)
      && IsSpaces(r.value.2) && WellFormedNumeral(r.value.3)
      && t == Field(r.value.0, r.value.1) + Field(r.value.2, r.value.3) + ")" + r.value.4
  {
    match FieldPrefix(t)
    case None => None
    case Some((gap1, sat, rest1)) =>
      match FieldPrefix(rest1)
      case None => None
      case Some((gap2, light, rest2)) =>
        if rest2 == [] || rest2[0] != ')' then None
        else
          CloseParen(t, Field(gap1, sat), rest1, Field(gap2, light), rest2);
          Some((gap1, sat, gap2, light, rest2[1..]))
  }

  /** The pattern anchored at the start of `t`. */
  function MatchPrefix(t: string): (r: Option<Match>)
    ensures r.Some? ==> WellFormed(r.value) && Render(r.value) <= t
  {
    if |t| < 4 || t[..4] != "hsl(" then None
    else
      var b := 4 + DigitSpan(t[4..]);
      if b == 4 then None
      else
        DigitsAfter(t, 4);
        MatchAfterHue(t, b)
  }

  /** The rest of the pattern, once `hsl(` and the hue digits `t[4..b]`
      have been read. */
  function MatchAfterHue(t: string, b: nat): (r: Option<Match>)
    requires 4 < b <= |t| && t[..4] == "hsl(" && IsDigits(t[4..b])
    ensures r.Some? ==> WellFormed(r.value) && Render(r.value) <= t
  {
    match TailPrefix(t[b..])
    case None => None
    case Some((gap1, sat, gap2, light, rest)) =>
      var m := Match(t[4..b], gap1, sat, gap2, light);
      MatchSpan(t, b, m, rest);
      Some(m)
  }

  lemma CloseParen(t: string, a: string, u: string, b: string, rest: string)
    requires t == a + u && u == b + rest && rest != [] && rest[0] == ')'
    ensures t == a + b + ")" + rest[1..]
  {
    assert rest == ")" + rest[1..];
    assert t == a + (b + (")" + rest[1..]));
  }

  lemma MatchSpan(t: string, b: nat, m: Match, rest: string)
    requires 4 < b <= |t| && t[..4] == "hsl(" && t[4..b] == m.hue && IsDigits(m.hue)
    requires IsSpaces(m.gap1) && WellFormedNumeral(m.sat) && IsSpaces(m.gap2) && WellFormedNumeral(m.light)
    requires t[b..] == Field(m.gap1, m.sat) + Field(m.gap2, m.light) + ")" + rest
    ensures WellFormed(m) && t == Render(m) + rest && Render(m) <= t
  {
    Split3(t, 4, b);
    Regroup(t[..4], t[4..b], Field(m.gap1, m.sat), Field(m.gap2, m.light), ")", rest);
  }

  lemma Regroup<T>(a: seq<T>, b: seq<T>, c: seq<T>, d: seq<T>, e: seq<T>, f: seq<T>)
    ensures a + b + (c + d + e + f) == a + b + c + d + e + f
  {
  }

  /** The pattern anchored at `i`. */
  function MatchAt(s: string, i: nat): (r: Option<Match>)
    requires i <= |s|
    ensures r.Some? ==> OccursAt(s, i, r.value)
  {
    MatchPrefix(s[i..])
  }

  // ---------------------------------------------------------------------
  // The matcher accepts exactly the texts the pattern describes
  // ---------------------------------------------------------------------

  lemma Halves<T>(t: seq<T>, a: seq<T>, b: seq<T>)
    requires t == a + b
    ensures |a| <= |t| && t[..|a|] == a && t[|a|..] == b
  {
  }

  lemma Assoc3<T>(a: seq<T>, b: seq<T>, c: seq<T>, d: seq<T>)
    ensures a + b + c + d == a + (b + (c + d))
  {
  }

  lemma Assoc5<T>(a: seq<T>, b: seq<T>, c: seq<T>, d: seq<T>, e: seq<T>, f: seq<T>)
    ensures a + b + c + d + e + f == a + (b + (c + (d + (e + f))))
  {
  }

  /** `NumeralPrefix` reads back every numeral followed by `%`. */
  lemma NumeralPrefixComplete(n: Numeral, rest: string)
    requires WellFormedNumeral(n)
    ensures NumeralPrefix(Text(n) + ("%" + rest)) == Some((n, rest))
  {
    var after := "%" + rest;
    var t := Text(n) + after;
    var w := |n.whole|;
    Halves(after, "%", rest);
    if n.fraction == [] {
      Halves(t, n.whole, after);
      DigitSpanOf(n.whole, after);
    } else {
      var frac := n.fraction + after;
      Assoc3(n.whole, ".", n.fraction, after);
      Halves(t, n.whole, "." + frac);
      DigitSpanOf(n.whole, "." + frac);
      Halves("." + frac, ".", frac);
      DigitSpanOf(n.fraction, after);
      Halves(frac, n.fraction, after);
      FractionSlices(t, w, n.fraction, after);
    }
  }

  lemma FractionSlices(t: string, w: nat, fraction: string, after: string)
    requires w + 1 <= |t| && t[w + 1..] == fraction + after && after != []
    ensures t[w + 1..w + 1 + |fraction|] == fraction
    ensures t[w + 1 + |fraction|] == after[0] && t[w + 2 + |fraction|..] == after[1..]
  {
    Halves(t[w + 1..], fraction, after);
  }

  /** `FieldPrefix` reads back every field. */
  lemma FieldPrefixComplete(gap: string, n: Numeral, rest: string)
    requires IsSpaces(gap) && WellFormedNumeral(n)
    ensures FieldPrefix(Field(gap, n) + rest) == Some((gap, n, rest))
  {
    var u := Text(n) + ("%" + rest);
    FieldText(gap, n, rest);
    assert u[0] == n.whole[0];
    FieldSlices(Field(gap, n) + rest, gap, u);
    NumeralPrefixComplete(n, rest);
  }

  lemma FieldText(gap: string, n: Numeral, rest: string)
    ensures Field(gap, n) + rest == "," + (gap + (Text(n) + ("%" + rest)))
  {
    Assoc3(",", gap, Text(n), "%");
    Assoc5(",", gap, Text(n), "%", rest, []);
  }

  /** How `FieldPrefix` slices a comma, a whitespace run and a text that
      starts with a digit. */
  lemma FieldSlices(t: string, gap: string, u: string)
    requires IsSpaces(gap) && u != [] && IsDigit(u[0]) && t == "," + (gap + u)
    ensures t != [] && t[0] == ','
    ensures 1 + SpaceSpan(t[1..]) == 1 + |gap| <= |t|
    ensures t[1..1 + |gap|] == gap && t[1 + |gap|..] == u
  {
    Halves(t, ",", gap + u);
    SpaceSpanOf(gap, u);
    Halves(gap + u, gap, u);
    assert t[1..][..|gap|] == t[1..1 + |gap|];
  }

  /** `TailPrefix` reads back every tail. */
  lemma TailPrefixComplete(m: Match, rest: string)
    requires WellFormed(m)
    ensures TailPrefix(Field(m.gap1, m.sat) + (Field(m.gap2, m.light) + (")" + rest)))
            == Some((m.gap1, m.sat, m.gap2, m.light, rest))
  {
    FieldPrefixComplete(m.gap1, m.sat, Field(m.gap2, m.light) + (")" + rest));
    FieldPrefixComplete(m.gap2, m.light, ")" + rest);
    Halves(")" + rest, ")", rest);
  }

  /** `MatchPrefix` reads back every match, whatever follows it. */
  lemma MatchPrefixComplete(m: Match, rest: string)
    requires WellFormed(m)
    ensures MatchPrefix(Render(m) + rest) == Some(m)
  {
    var tail := Field(m.gap1, m.sat) + (Field(m.gap2, m.light) + (")" + rest));
    Assoc5("hsl(", m.hue, Field(m.gap1, m.sat), Field(m.gap2, m.light), ")", rest);
    assert tail[0] == ',';
    MatchSlices(Render(m) + rest, m.hue, tail);
    TailPrefixComplete(m, rest);
  }

  /** How `MatchPrefix` slices the opening, a digit run and a text that
      starts with a comma. */
  lemma MatchSlices(t: string, hue: string, tail: string)
    requires IsDigits(hue) && tail != [] && tail[0] == ',' && t == "hsl(" + (hue + tail)
    ensures |t| >= 4 && t[..4] == "hsl("
    ensures 4 + DigitSpan(t[4..]) == 4 + |hue| <= |t|
    ensures t[4..4 + |hue|] == hue && t[4 + |hue|..] == tail
  {
    Halves(t, "hsl(", hue + tail);
    DigitSpanOf(hue, tail);
    Halves(hue + tail, hue, tail);
    assert t[4..][..|hue|] == t[4..4 + |hue|];
  }

  /** Soundness and completeness of the anchored matcher: it finds `m` at
      `i` exactly when the pattern, spanning `m`, occurs there. */
  lemma MatchAtIff(s: string, i: nat, m: Match)
    requires i <= |s|
    ensures MatchAt(s, i) == Some(m) <==> OccursAt(s, i, m)
  {
    if OccursAt(s, i, m) {
      var R := Render(m);
      assert s[i..] == R + s[i + |R|..];
      MatchPrefixComplete(m, s[i + |R|..]);
    }
  }

  /** The first `Some` in `xs` at or after `i`. */
  function FirstSome<T>(xs: seq<Option<T>>, i: nat): Option<T>
    requires i <= |xs|
    decreases |xs| - i
  {
    if i == |xs| then None
    else if xs[i].Some? then xs[i]
    else FirstSome(xs, i + 1)
  }

  lemma {:induction false} FirstSomeNone<T>(xs: seq<Option<T>>, i: nat)
    requires i <= |xs|
    ensures FirstSome(xs, i).None? <==> forall k :: i <= k < |xs| ==> xs[k].None?
    decreases |xs| - i
  {
    if i < |xs| {
      FirstSomeNone(xs, i + 1);
    }
  }

  lemma {:induction false} FirstSomeSome<T>(xs: seq<Option<T>>, i: nat)
    requires i <= |xs| && FirstSome(xs, i).Some?
    ensures exists j :: i <= j < |xs| && xs[j] == FirstSome(xs, i)
                        && forall k :: i <= k < j ==> xs[k].None?
    decreases |xs| - i
  {
    if xs[i].None? {
      FirstSomeSome(xs, i + 1);
      var j :| i + 1 <= j < |xs| && xs[j] == FirstSome(xs, i + 1)
               && forall k :: i + 1 <= k < j ==> xs[k].None?;
      assert forall k :: i <= k < j ==> xs[k].None?;
    }
  }

  lemma {:induction false} FirstSomeFrom<T>(xs: seq<Option<T>>, i: nat, j: nat)
    requires i <= j < |xs| && xs[j].Some?
    requires forall k :: i <= k < j ==> xs[k].None?
    ensures FirstSome(xs, i) == xs[j]
    decreases j - i
  {
    if i < j {
      FirstSomeFrom(xs, i + 1, j);
    }
  }

  /** `f` applied to the suffix at every start position, `0` to `|s|`
      inclusive. */
  function Attempts<T>(f: string -> T, s: string): (xs: seq<T>)
    ensures |xs| == |s| + 1
  {
    seq(|s| + 1, j requires 0 <= j <= |s| => f(s[j..]))
  }

  /** The anchored attempt at every start position. */
  function Candidates(s: string): (xs: seq<Option<Match>>)
    ensures |xs| == |s| + 1
  {
    Attempts(MatchPrefix, s)
  }

  /** `hsl.match(pattern)`: the first position where the pattern matches. */
  function MatchHsl(s: string): (r: Option<Match>)
    ensures r.Some? ==> WellFormed(r.value)
  {
    var xs := Candidates(s);
    var r := FirstSome(xs, 0);
    assert r.Some? ==> WellFormed(r.value) by {
      if r.Some? {
        FirstSomeSome(xs, 0);
        var j :| 0 <= j < |xs| && xs[j] == r && forall k :: 0 <= k < j ==> xs[k].None?;
        assert MatchAt(s, j) == r;
      }
    }
    r
  }

  /** No match exactly when the pattern occurs nowhere in the string. */
  lemma MatchHslNone(s: string)
    ensures MatchHsl(s).None? <==> forall j, m :: 0 <= j <= |s| ==> !OccursAt(s, j, m)
  {
    var xs := Candidates(s);
    FirstSomeNone(xs, 0);
    if MatchHsl(s).None? {
      forall j, m | 0 <= j <= |s| ensures !OccursAt(s, j, m) {
        assert xs[j] == MatchAt(s, j);
        MatchAtIff(s, j, m);
      }
    } else {
      FirstSomeSome(xs, 0);
      var j :| 0 <= j < |xs| && xs[j] == MatchHsl(s) && forall k :: 0 <= k < j ==> xs[k].None?;
      MatchAtIff(s, j, MatchHsl(s).value);
    }
  }

  /** Otherwise the match is the occurrence that starts first. */
  lemma MatchHslSome(s: string, m: Match)
    ensures MatchHsl(s) == Some(m) <==>
      exists j :: 0 <= j <= |s| && OccursAt(s, j, m)
                  && forall k, m' :: 0 <= k < j ==> !OccursAt(s, k, m')
  {
    var xs := Candidates(s);
    if MatchHsl(s) == Some(m) {
      FirstSomeSome(xs, 0);
      var j :| 0 <= j < |xs| && xs[j] == Some(m) && forall k :: 0 <= k < j ==> xs[k].None?;
      MatchAtIff(s, j, m);
      forall k, m' | 0 <= k < j ensures !OccursAt(s, k, m') {
        assert xs[k].None?;
        MatchAtIff(s, k, m');
      }
    }
    if exists j :: 0 <= j <= |s| && OccursAt(s, j, m)
                   && forall k, m' :: 0 <= k < j ==> !OccursAt(s, k, m') {
      var j :| 0 <= j <= |s| && OccursAt(s, j, m)
               && forall k, m' :: 0 <= k < j ==> !OccursAt(s, k, m');
      MatchAtIff(s, j, m);
      forall k | 0 <= k < j ensures xs[k].None? {
        assert xs[k] == MatchAt(s, k);
      }
      FirstSomeFrom(xs, 0, j);
    }
  }

  /** A rendered match at the start of the input is the match found: the
      texts the pattern describes parse back to their parts. */
  lemma MatchHslRender(m: Match, rest: string)
    requires WellFormed(m)
    ensures MatchHsl(Render(m) + rest) == Some(m)
  {
    var s := Render(m) + rest;
    assert s[0..] == s;
    MatchPrefixComplete(m, rest);
    assert Candidates(s)[0] == Some(m);
  }

  /** In an occurrence at the start of `s` the hue is a run of digits right
      after `hsl(` and is followed directly by a comma. */
  lemma HueThenComma(s: string, m: Match)
    requires OccursAt(s, 0, m)
    ensures 4 + |m.hue| < |s| && s[4 + |m.hue|] == ','
    ensures forall k :: 4 <= k < 4 + |m.hue| ==> IsDigit(s[k])
  {
    var r := Render(m);
    assert r == ("hsl(" + m.hue) + ("," + m.gap1 + Text(m.sat) + "%" + Field(m.gap2, m.light) + ")");
    assert r[4 + |m.hue|] == ',';
    forall k | 4 <= k < 4 + |m.hue| ensures IsDigit(s[k]) {
      assert s[k] == r[k] == m.hue[k - 4];
    }
  }

  /** Hence the anchored attempt fails when the digits after `hsl(` run into
      a character that is neither a digit nor a comma (a space before the
      comma, a decimal point in the hue, a space before the hue). */
  lemma MatchAtHueRejects(s: string, j: nat)
    requires 4 <= j < |s| && !IsDigit(s[j]) && s[j] != ','
    requires forall k :: 4 <= k < j ==> IsDigit(s[k])
    ensures MatchAt(s, 0).None?
  {
    if MatchAt(s, 0).Some? {
      HueThenComma(s, MatchAt(s, 0).value);
    }
  }

  /** Positions where the anchored attempt fails can be dropped from the
      front of the search. */
  lemma MatchHslDrop(s: string, n: nat)
    requires n <= |s| && forall k :: 0 <= k < n ==> MatchAt(s, k).None?
    ensures MatchHsl(s) == MatchHsl(s[n..])
  {
    var xs, ys := Candidates(s), Candidates(s[n..]);
    CandidatesNone(s, n);
    CandidatesShift(s, n);
    FirstSomeSkip(xs, n, ys);
    assert MatchHsl(s) == FirstSome(xs, 0);
    assert MatchHsl(s[n..]) == FirstSome(ys, 0);
  }

  lemma CandidatesNone(s: string, n: nat)
    requires n <= |s| && forall k :: 0 <= k < n ==> MatchAt(s, k).None?
    ensures forall k :: 0 <= k < n ==> Candidates(s)[k].None?
  {
    forall k | 0 <= k < n ensures Candidates(s)[k].None? {
      CandidateAt(s, k);
    }
  }

  lemma CandidatesShift(s: string, n: nat)
    requires n <= |s|
    ensures forall j :: 0 <= j <= |s| - n ==> Candidates(s)[n + j] == Candidates(s[n..])[j]
  {
    forall j | 0 <= j <= |s| - n ensures Candidates(s)[n + j] == Candidates(s[n..])[j] {
      CandidateShift(s, n, j);
    }
  }

  lemma CandidateShift(s: string, n: nat, j: nat)
    requires n + j <= |s|
    ensures Candidates(s)[n + j] == Candidates(s[n..])[j]
  {
    AttemptsShift(MatchPrefix, s, n, j);
  }

  lemma AttemptsShift<T>(f: string -> T, s: string, n: nat, j: nat)
    requires n + j <= |s|
    ensures Attempts(f, s)[n + j] == Attempts(f, s[n..])[j]
  {
    assert s[n..][j..] == s[n + j..];
  }

  lemma CandidateAt(s: string, i: nat)
    requires i <= |s|
    ensures Candidates(s)[i] == MatchAt(s, i)
  {
  }

  lemma FirstSomeSkip<T>(xs: seq<Option<T>>, n: nat, ys: seq<Option<T>>)
    requires n <= |xs| && |ys| == |xs| - n
    requires forall k :: 0 <= k < n ==> xs[k].None?
    requires forall j :: 0 <= j < |ys| ==> xs[n + j] == ys[j]
    ensures FirstSome(xs, 0) == FirstSome(ys, 0)
  {
    FirstSomeNones(xs, 0, n);
    FirstSomeShift(xs, n, ys, 0);
  }

  lemma {:induction false} FirstSomeNones<T>(xs: seq<Option<T>>, i: nat, n: nat)
    requires i <= n <= |xs| && forall k :: i <= k < n ==> xs[k].None?
    ensures FirstSome(xs, i) == FirstSome(xs, n)
    decreases n - i
  {
    if i < n {
      FirstSomeNones(xs, i + 1, n);
    }
  }

  lemma {:induction false} FirstSomeShift<T>(xs: seq<Option<T>>, n: nat, ys: seq<Option<T>>, i: nat)
    requires n <= |xs| && |ys| == |xs| - n && i <= |ys|
    requires forall j :: 0 <= j < |ys| ==> xs[n + j] == ys[j]
    ensures FirstSome(xs, n + i) == FirstSome(ys, i)
    decreases |ys| - i
  {
    if i < |ys| {
      FirstSomeShift(xs, n, ys, i + 1);
    }
  }

  /** A prefix without `h` does not change the match: the search is
      unanchored. */
  lemma MatchHslSkip(p: string, s: string)
    requires 'h' !in p
    ensures MatchHsl(p + s) == MatchHsl(s)
  {
    var t := p + s;
    forall k | 0 <= k < |p| ensures MatchAt(t, k).None? {
      assert t[k] == p[k];
      MatchAtNotH(t, k);
    }
    assert t[|p|..] == s;
    MatchHslDrop(t, |p|);
  }

  /** Every attempt starts with `h`. */
  lemma MatchAtNotH(s: string, k: nat)
    requires k < |s| && s[k] != 'h'
    ensures MatchAt(s, k).None?
  {
    assert s[k..][0] == s[k];
  }

  /** Without an `h` there is no match. */
  lemma MatchHslNoH(s: string)
    requires 'h' !in s
    ensures MatchHsl(s) == None
  {
    MatchHslSkip(s, "");
    assert s + "" == s;
    CandidateAt("", 0);
    assert Candidates("") == [None];
  }

  /** The pattern's fixed text contains `%`: without one there is no match. */
  lemma MatchHslNoPercent(s: string)
    requires '%' !in s
    ensures MatchHsl(s) == None
  {
    MatchHslNone(s);
    forall j, m | 0 <= j <= |s| ensures !OccursAt(s, j, m) {
      if OccursAt(s, j, m) {
        var k := PercentIn(m);
      }
    }
  }

  /** The index of the `%` closing the saturation field. */
  lemma PercentIn(m: Match) returns (k: nat)
    requires WellFormed(m)
    ensures k < |Render(m)| && Render(m)[k] == '%'
  {
    var a := "hsl(" + m.hue;
    var f := Field(m.gap1, m.sat);
    var b := Field(m.gap2, m.light) + ")";
    assert Render(m) == a + (f + b);
    k := |a| + |f| - 1;
    assert f[|f| - 1] == '%';
  }

  // ---------------------------------------------------------------------
  // parseFloat of the captures
  // ---------------------------------------------------------------------

  /** Value of fraction digits `d1 d2 ...` as `0.d1d2...`. */
  function FractionValue(ds: string): (r: real)
    requires IsDigits(ds)
    ensures 0.0 <= r < 1.0
  {
    if ds == [] then 0.0 else (DigitValue(ds[0]) as real + FractionValue(ds[1..])) / 10.0
  }

  /** `parseFloat` of a captured numeral. */
  function NumeralValue(n: Numeral): (r: real)
    requires WellFormedNumeral(n)
    ensures DigitsValue(n.whole) as real <= r < DigitsValue(n.whole) as real + 1.0
    ensures n.fraction == [] ==> r == DigitsValue(n.whole) as real
  {
    DigitsValue(n.whole) as real + FractionValue(n.fraction)
  }

  // ---------------------------------------------------------------------
  // HSL to RGB
  // ---------------------------------------------------------------------

  datatype Rgb = Rgb(r: real, g: real, b: real)

  /** `hue2rgb`: wraps `t` once into range, then the piecewise-linear basis
      with sector bounds 1/6, 1/2 and 2/3. */
  function Hue2Rgb(p: real, q: real, t: real): (c: real)
    ensures p <= q && -1.0 <= t ==> p <= c <= q
  {
    var u := if t < 0.0 then t + 1.0 else t;
    var u := if u > 1.0 then u - 1.0 else u;
    if u < 1.0 / 6.0 then Mix(p, q, 6.0 * u)
    else if u < 1.0 / 2.0 then q
    else if u < 2.0 / 3.0 then Mix(p, q, (2.0 / 3.0 - u) * 6.0)
    else p
  }

  /** `p + (q - p) * f`: stays in [p, q] when `f` is in [0, 1]. */
  function Mix(p: real, q: real, f: real): (c: real)
    ensures p <= q && 0.0 <= f <= 1.0 ==> p <= c
    ensures p <= q && 0.0 <= f <= 1.0 ==> c <= q
  {
    var x := (q - p) * f;
    assert p <= q && 0.0 <= f <= 1.0 ==> 0.0 <= x <= q - p by {
      if p <= q && 0.0 <= f <= 1.0 { ProductBounds(q - p, f); }
    }
    p + x
  }

  lemma ProductBounds(d: real, f: real)
    requires 0.0 <= d && 0.0 <= f <= 1.0
    ensures 0.0 <= d * f
    ensures d * f <= d
  {
    assert d * f <= d * 1.0;
  }

  /** `q` of the conversion: the upper end of the channel range, between
      the lightness and 1, and the lightness itself for a grey. */
  function Q(l: real, s: real): (q: real)
    ensures 0.0 <= l <= 1.0 && 0.0 <= s <= 1.0 ==> l <= q <= 1.0
    ensures s == 0.0 ==> q == l
  {
    if l < 0.5 then
      var q := l * (1.0 + s);
      QDark(l, s, q);
      q
    else
      var q := l + s - l * s;
      QLight(l, s, q);
      q
  }

  /** Below half lightness `q` adds `l * s`, at most `l`. */
  lemma QDark(l: real, s: real, q: real)
    requires l < 0.5 && q == l * (1.0 + s)
    ensures 0.0 <= l && 0.0 <= s <= 1.0 ==> l <= q <= 1.0
    ensures s == 0.0 ==> q == l
  {
    var x := l * s;
    if 0.0 <= l && 0.0 <= s <= 1.0 {
      ProductBounds(l, s);
      assert x <= l;
    }
    assert q == l + x;
  }

  /** From half lightness up `q` adds `(1 - l) * s`, at most `1 - l`. */
  lemma QLight(l: real, s: real, q: real)
    requires 0.5 <= l && q == l + s - l * s
    ensures l <= 1.0 && 0.0 <= s <= 1.0 ==> l <= q <= 1.0
    ensures s == 0.0 ==> q == l
  {
    var d := 1.0 - l;
    var x := d * s;
    if l <= 1.0 && 0.0 <= s <= 1.0 {
      ProductBounds(d, s);
      assert x <= d;
    }
    assert q == l + x;
  }

  /** `p` of the conversion: the lower end of the channel range, as far
      below the lightness as `q` is above it. */
  function P(l: real, q: real): real {
    2.0 * l - q
  }

  /** For `s`, `l` in [0, 1]: 0 <= p <= q <= 1. */
  lemma PQBounds(l: real, s: real)
    requires 0.0 <= l <= 1.0 && 0.0 <= s <= 1.0
    ensures 0.0 <= P(l, Q(l, s))
    ensures P(l, Q(l, s)) <= Q(l, s)
    ensures Q(l, s) <= 1.0
  {
    if l < 0.5 {
      var x := l * s;
      ProductBounds(l, s);
      assert Q(l, s) == l + x;
    } else {
      var d := 1.0 - l;
      var x := d * s;
      ProductBounds(d, s);
      assert x <= d;
      assert Q(l, s) == l + x;
    }
  }

  predicate InUnitCube(c: Rgb) {
    0.0 <= c.r <= 1.0 && 0.0 <= c.g <= 1.0 && 0.0 <= c.b <= 1.0
  }

  /** Channel values of `hsl(h, s, l)` with every component a fraction of
      its full scale; black to white for an in-range input. */
  function HslToRgb(h: real, s: real, l: real): (c: Rgb)
    ensures 0.0 <= h && 0.0 <= s <= 1.0 && 0.0 <= l <= 1.0 ==> InUnitCube(c)
    ensures s == 0.0 ==> c == Rgb(l, l, l)
  {
    if s == 0.0 then Rgb(l, l, l)
    else
      var q := Q(l, s);
      var p := P(l, q);
      assert 0.0 <= s <= 1.0 && 0.0 <= l <= 1.0 ==> 0.0 <= p <= q <= 1.0 by {
        if 0.0 <= s <= 1.0 && 0.0 <= l <= 1.0 { PQBounds(l, s); }
      }
      Rgb(Hue2Rgb(p, q, h + 1.0 / 3.0), Hue2Rgb(p, q, h), Hue2Rgb(p, q, h - 1.0 / 3.0))
  }

  /** The colour a match denotes: hue over 360, percentages over 100. */
  function ColorOf(m: Match): (c: Rgb)
    requires WellFormed(m)
    ensures NumeralValue(m.sat) <= 100.0 && NumeralValue(m.light) <= 100.0 ==> InUnitCube(c)
    ensures NumeralValue(m.sat) == 0.0 ==> c.r == c.g == c.b == NumeralValue(m.light) / 100.0
  {
    HslToRgb(DigitsValue(m.hue) as real / 360.0, NumeralValue(m.sat) / 100.0, NumeralValue(m.light) / 100.0)
  }

  // ---------------------------------------------------------------------
  // Hex formatting
  // ---------------------------------------------------------------------

  /** `Math.round`: the nearest integer, halves rounded up. */
  function Round(x: real): (n: int)
    ensures n as real - 0.5 <= x < n as real + 0.5
  {
    (x + 0.5).Floor
  }

  predicate IsHexDigit(c: char) {
    '0' <= c <= '9' || 'a' <= c <= 'f'
  }

  predicate IsHexDigits(s: string) {
    forall k :: 0 <= k < |s| ==> IsHexDigit(s[k])
  }

  function HexDigitValue(c: char): (d: nat)
    requires IsHexDigit(c)
    ensures d < 16
  {
    if c <= '9' then c as int - '0' as int else c as int - 'a' as int + 10
  }

  function HexDigit(d: nat): (c: char)
    requires d < 16
    ensures IsHexDigit(c) && HexDigitValue(c) == d
  {
    if d < 10 then ('0' as int + d) as char else ('a' as int + d - 10) as char
  }

  /** The number a string of lowercase hex digits denotes. */
  function HexValue(s: string): nat
    requires IsHexDigits(s)
  {
    if s == [] then 0 else HexValue(s[..|s| - 1]) * 16 + HexDigitValue(s[|s| - 1])
  }

  /** `n.toString(16)` for `n >= 0`: lowercase, no leading zeros. */
  function HexDigits(n: nat): (r: string)
    ensures |r| > 0 && IsHexDigits(r) && HexValue(r) == n
    ensures |r| == 1 <==> n < 16
    ensures n < 256 ==> |r| <= 2
    ensures |r| > 1 ==> r[0] != '0'
  {
    if n < 16 then [HexDigit(n)]
    else
      var r := HexDigits(n / 16) + [HexDigit(n % 16)];
      assert r[..|r| - 1] == HexDigits(n / 16);
      r
  }

  /** `n.toString(16)` for an integer `n`: a minus sign before the digits of
      a negative number. */
  function Radix16(n: int): (r: string)
    ensures n >= 0 ==> IsHexDigits(r) && HexValue(r) == n
    ensures n < 0 ==> |r| >= 2 && r[0] == '-' && IsHexDigits(r[1..]) && HexValue(r[1..]) == -n
  {
    if n < 0 then "-" + HexDigits(-n) else HexDigits(n)
  }

  /** `toHex`'s padding: a single digit gets a leading `'0'`. */
  function PadHex(n: int): (r: string)
    ensures 0 <= n < 256 ==> |r| == 2 && IsHexDigits(r) && HexValue(r) == n
    ensures |r| >= 2
  {
    var hex := Radix16(n);
    if |hex| == 1 then
      assert HexValue("0" + hex) == HexValue(hex) by {
        assert ("0" + hex)[..1] == "0";
      }
      "0" + hex
    else hex
  }

  /** The byte `toHex` formats: `Math.round(c * 255)`. */
  function Byte(c: real): (b: int)
    ensures b as real - 0.5 <= c * 255.0 < b as real + 0.5
  {
    Round(c * 255.0)
  }

  /** `toHex`: a channel fraction scaled to 0..255, rounded, in hex. */
  function ToHex(c: real): (r: string)
    ensures 0 <= Byte(c) < 256 ==> HexPair(r, Byte(c))
    ensures |r| >= 2
  {
    PadHex(Byte(c))
  }

  /** `s` is two lowercase hex digits denoting `n`. */
  predicate HexPair(s: string, n: int) {
    |s| == 2 && IsHexDigits(s) && HexValue(s) == n
  }

  /** `#rrggbb` for a channel triple. */
  function FormatRgb(c: Rgb): (r: string)
    ensures |r| >= 7 && r[0] == '#'
  {
    "#" + ToHex(c.r) + ToHex(c.g) + ToHex(c.b)
  }

  /** `hslToHex`: black when nothing matches, otherwise the converted colour. */
  function HslToHex(hsl: string): (r: string)
    ensures MatchHsl(hsl).None? ==> r == "#000000"
  {
    match MatchHsl(hsl)
    case None => "#000000"
    case Some(m) => FormatRgb(ColorOf(m))
  }
}
