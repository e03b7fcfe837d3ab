/** The design-token colour table: `colors`, `baseColorPalette` and
    `semantic`. Every value is an `hsl(h, s%, l%)` string with one space
    after each comma; a shade is kept as its key and the numbers it is
    written from, and its string is rendered from them. */
module Palette {
  import opened Strings
  import opened HslConvert

  // ---------------------------------------------------------------------
  // Shades
  // ---------------------------------------------------------------------

  /** A shade key as written in the table: three digits, `'050'` for 50. */
  function Key3(n: nat): (r: string)
    requires n < 1000
    ensures |r| == 3 && IsDigits(r) && DigitsValue(r) == n
  {
    var a, b, c := n / 100, n / 10 % 10, n % 10;
    var r := [DecimalDigit(a), DecimalDigit(b), DecimalDigit(c)];
    assert r[..2][..1] == [r[0]] && [r[0]][..0] == [];
    assert DigitsValue([r[0]]) == a;
    assert DigitsValue(r[..2]) == a * 10 + b;
    assert n == (a * 10 + b) * 10 + c;
    r
  }

  /** A percentage as the table writes it: a whole number such as `97` or
      one with a single decimal such as `99.7`. */
  datatype Percent = Whole(n: nat) | Tenths(n: nat, d: nat) {
    predicate Valid() {
      Tenths? ==> d < 10
    }

    /** The value in tenths of a percent. */
    function Scaled(): nat {
      if Whole? then 10 * n else 10 * n + d
    }

    /** The numeral the pattern captures from it. */
    function Written(): (r: Numeral)
      requires Valid()
      ensures WellFormedNumeral(r) && NumeralValue(r) == Scaled() as real / 10.0
    {
      if Whole? then Numeral(NatToDecimal(n), "")
      else
        var r := Numeral(NatToDecimal(n), [DecimalDigit(d)]);
        assert FractionValue(r.fraction) == d as real / 10.0 by {
          assert r.fraction[1..] == [];
        }
        r
    }
  }

  /** One entry of a family: its key, and the hue, saturation and
      lightness its value is written with. */
  datatype Shade = Shade(key: nat, hue: nat, sat: Percent, light: Percent) {
    predicate Valid() {
      key < 1000 && sat.Valid() && light.Valid()
    }

    function Key(): string
      requires Valid()
    {
      Key3(key)
    }

    /** The parts the pattern captures from the value. */
    function Parts(): (m: Match)
      requires Valid()
      ensures WellFormed(m)
    {
      Match(NatToDecimal(hue), " ", sat.Written(), " ", light.Written())
    }

    /** The value: `hsl(<hue>, <sat>%, <light>%)`. */
    function Value(): string
      requires Valid()
    {
      Render(Parts())
    }
  }

  /** A family's shades in the order the table lists them. */
  type Family = seq<Shade>

  /** The keys `'050'`, `'100'`, ..., `'900'`, `'950'` as numbers. */
  const StandardKeys: seq<nat> := [50, 100, 200, 300, 400, 500, 600, 700, 800, 900, 950]

  function KeyNumbers(f: Family): (ks: seq<nat>)
    ensures |ks| == |f|
    ensures forall i :: 0 <= i < |f| ==> ks[i] == f[i].key
  {
    seq(|f|, i requires 0 <= i < |f| => f[i].key)
  }

  /** The properties of a family's object literal in creation order: each
      key with its value. */
  function Entries(f: Family): (es: seq<(string, string)>)
    requires forall i :: 0 <= i < |f| ==> f[i].Valid()
    ensures |es| == |f|
  {
    seq(|f|, i requires 0 <= i < |f| => (f[i].Key(), f[i].Value()))
  }

  // ---------------------------------------------------------------------
  // colors
  // ---------------------------------------------------------------------

  const White: Family := [
    Shade(50, 0, Whole(0), Whole(100))
  ]

  const Coral: Family := [
    Shade(50, 6, Whole(100), Whole(97)),
    Shade(100, 6, Whole(100), Whole(93)),
    Shade(200, 6, Whole(100), Whole(88)),
    Shade(300, 6, Whole(100), Whole(82)),
    Shade(400, 6, Whole(100), Whole(75)),
    Shade(500, 6, Whole(100), Whole(67)),
    Shade(600, 6, Whole(100), Whole(57)),
    Shade(700, 6, Whole(100), Whole(47)),
    Shade(800, 6, Whole(100), Whole(33)),
    Shade(900, 6, Whole(100), Whole(20)),
    Shade(950, 6, Whole(100), Whole(13))
  ]

  const Black: Family := [
    Shade(50, 0, Whole(0), Whole(92)),
    Shade(100, 0, Whole(0), Whole(85)),
    Shade(200, 0, Whole(0), Whole(75)),
    Shade(300, 0, Whole(0), Whole(65)),
    Shade(400, 0, Whole(0), Whole(55)),
    Shade(500, 0, Whole(0), Whole(45)),
    Shade(600, 0, Whole(0), Whole(36)),
    Shade(700, 0, Whole(0), Whole(27)),
    Shade(800, 0, Whole(0), Whole(18)),
    Shade(900, 0, Whole(0), Whole(9)),
    Shade(950, 0, Whole(0), Whole(3))
  ]

  const Teal: Family := [
    Shade(50, 179, Whole(100), Whole(97)),
    Shade(100, 179, Whole(95), Whole(93)),
    Shade(200, 179, Whole(90), Whole(88)),
    Shade(300, 179, Whole(85), Whole(82)),
    Shade(400, 179, Whole(80), Whole(75)),
    Shade(500, 179, Whole(75), Whole(67)),
    Shade(600, 179, Whole(65), Whole(55)),
    Shade(700, 179, Whole(55), Whole(43)),
    Shade(800, 179, Whole(45), Whole(31)),
    Shade(900, 179, Whole(35), Whole(16)),
    Shade(950, 179, Whole(25), Whole(10))
  ]

  const Beige: Family := [
    Shade(50, 50, Whole(15), Whole(96)),
    Shade(100, 50, Whole(15), Whole(91)),
    Shade(200, 50, Whole(15), Whole(85)),
    Shade(300, 50, Whole(15), Whole(78)),
    Shade(400, 50, Whole(15), Whole(70)),
    Shade(500, 50, Whole(15), Whole(60)),
    Shade(600, 50, Whole(15), Whole(54)),
    Shade(700, 50, Whole(15), Whole(48)),
    Shade(800, 50, Whole(15), Whole(36)),
    Shade(900, 50, Whole(15), Whole(24)),
    Shade(950, 50, Whole(15), Whole(12))
  ]

  /** Two commented-out lines of the source are not entries. */
  const Papaya: Family := [
    Shade(50, 38, Whole(100), Whole(98)),
    Shade(100, 38, Whole(90), Whole(96)),
    Shade(200, 38, Whole(80), Whole(93)),
    Shade(300, 38, Whole(75), Whole(91)),
    Shade(400, 38, Whole(70), Whole(85)),
    Shade(500, 38, Whole(65), Whole(80)),
    Shade(600, 38, Whole(60), Whole(75)),
    Shade(700, 38, Whole(45), Whole(65)),
    Shade(800, 38, Whole(40), Whole(52)),
    Shade(900, 38, Whole(35), Whole(45)),
    Shade(950, 38, Whole(25), Whole(30))
  ]

  const Floral: Family := [
    Shade(50, 54, Whole(100), Tenths(99, 7)),
    Shade(100, 54, Whole(100), Whole(99)),
    Shade(200, 54, Whole(100), Tenths(98, 5)),
    Shade(300, 54, Whole(100), Whole(97)),
    Shade(400, 54, Whole(100), Whole(95)),
    Shade(500, 54, Whole(100), Whole(90)),
    Shade(600, 54, Whole(100), Whole(85)),
    Shade(700, 54, Whole(100), Whole(75)),
    Shade(800, 54, Whole(100), Whole(65)),
    Shade(900, 54, Whole(100), Whole(50)),
    Shade(950, 54, Whole(100), Whole(35))
  ]

  const Ivory: Family := [
    Shade(50, 52, Whole(44), Whole(98)),
    Shade(100, 52, Whole(44), Whole(96)),
    Shade(200, 52, Whole(44), Whole(94)),
    Shade(300, 52, Whole(44), Whole(93)),
    Shade(400, 52, Whole(44), Whole(88)),
    Shade(500, 52, Whole(44), Whole(82)),
    Shade(600, 52, Whole(40), Whole(75)),
    Shade(700, 52, Whole(35), Whole(65)),
    Shade(800, 52, Whole(30), Whole(50)),
    Shade(900, 52, Whole(25), Whole(35)),
    Shade(950, 52, Whole(20), Whole(25))
  ]

  /** `colors`, by family name. */
  const Colors: map<string, Family> := map[
    "white" := White,
    "coral" := Coral,
    "black" := Black,
    "teal" := Teal,
    "beige" := Beige,
    "papaya" := Papaya,
    "floral" := Floral,
    "ivory" := Ivory
  ]

  // ---------------------------------------------------------------------
  // Lookups
  // ---------------------------------------------------------------------

  /** `colors[family][key]`: the first shade of `f` written with `key`. */
  function ShadeNamed(f: Family, key: string): (r: Option<Shade>)
    requires forall i :: 0 <= i < |f| ==> f[i].Valid()
    ensures r.Some? ==> r.value in f && r.value.Key() == key
    ensures r.None? ==> forall i :: 0 <= i < |f| ==> f[i].Key() != key
  {
    if f == [] then None
    else if f[0].Key() == key then Some(f[0])
    else ShadeNamed(f[1..], key)
  }

  /** A dotted token reference `family.shade` split at its first dot. */
  function SplitDot(s: string): (r: Option<(string, string)>)
    ensures r.Some? ==> s == r.value.0 + "." + r.value.1 && '.' !in r.value.0
    ensures r.None? <==> '.' !in s
  {
    if s == [] then None
    else if s[0] == '.' then Some(([], s[1..]))
    else match SplitDot(s[1..])
      case None => None
      case Some((a, b)) => Some(([s[0]] + a, b))
  }

  /** Every family's shades are well formed. */
  predicate ValidFamilies() {
    forall name :: name in Colors ==> forall i :: 0 <= i < |Colors[name]| ==> Colors[name][i].Valid()
  }

  /** The value a reference such as `coral.500` names, if any: only ever
      the value of a shade of a family in the table, reached by the family's
      name, a dot and the shade's key. */
  function Resolve(path: string): (r: Option<string>)
    requires ValidFamilies()
    ensures r.Some? ==>
      exists name, i :: name in Colors && 0 <= i < |Colors[name]|
        && path == name + "." + Colors[name][i].Key() && r.value == Colors[name][i].Value()
  {
    match SplitDot(path)
    case None => None
    case Some((name, key)) =>
      if name !in Colors then None
      else match ShadeNamed(Colors[name], key)
        case None => None
        case Some(sh) => Some(sh.Value())
  }

  // ---------------------------------------------------------------------
  // baseColorPalette and semantic
  // ---------------------------------------------------------------------

  /** An entry of `baseColorPalette`: a family name and the shade its
      value is read from. */
  datatype BaseColor = BaseColor(name: string, shade: Shade) {
    function Value(): string
      requires shade.Valid()
    {
      shade.Value()
    }
  }

  const BaseColorPalette: seq<BaseColor> := [
    BaseColor("coral", Coral[5]),
    BaseColor("black", Black[9]),
    BaseColor("teal", Teal[9]),
    BaseColor("papaya", Papaya[3]),
    BaseColor("floral", Floral[3])
  ]

  /** The template of `semantic.layerBackground`. */
  function Gradient(from: string, to: string): string {
    "linear-gradient(165deg, " + from + " 17.06%, " + to + " 76.43%)"
  }

  /** `semantic.layerBackground`: a gradient from papaya 500 to papaya 300. */
  const LayerBackground: string := Gradient(Papaya[5].Value(), Papaya[3].Value())

  /** `semantic.layerPrimarySurface`: papaya 050. */
  const LayerPrimarySurface: string := Papaya[0].Value()

  /** The dotted references of `semantic`, by token name. */
  const SemanticRefs: seq<(string, string)> := [
    ("objectAccent", "coral.500"),
    ("objectPositive", "teal.500"),
    ("objectPositiveHover", "teal.700"),
    ("objectPositivePressed", "teal.300"),
    ("objectPositiveDisabled", "teal.100"),
    ("objectNegative", "coral.700"),
    ("objectNegativeHover", "coral.900"),
    ("objectNegativePressed", "coral.300"),
    ("objectNegativeDisabled", "coral.100"),
    ("objectWarn", "floral.700"),
    ("objectWarnHover", "floral.800"),
    ("objectWarnPressed", "floral.500"),
    ("objectWarnDisabled", "floral.200")
  ]
}
