/** Well-formedness of the colour table: every value parses and stays in
    gamut, the keys are the expected ones, hue is fixed per family,
    lightness falls as the key rises, every reference resolves, and the
    story shows each family in key order. */
module PaletteProperties {
  import opened Strings
  import opened HslConvert
  import opened HslProperties
  import opened ShadeOrder
  import opened Palette

  // ---------------------------------------------------------------------
  // What is checked entry by entry
  // ---------------------------------------------------------------------

  /** A shade whose value has h < 360 and s, l at most 100. */
  predicate InGamut(sh: Shade) {
    sh.Valid() && sh.hue < 360 && sh.sat.Scaled() <= 1000 && sh.light.Scaled() <= 1000
  }

  predicate AllInGamut(f: Family) {
    forall i :: 0 <= i < |f| ==> InGamut(f[i])
  }

  predicate HueFixed(f: Family)
    requires |f| > 0
  {
    forall i :: 0 <= i < |f| ==> f[i].hue == f[0].hue
  }

  /** Each key is larger than the one before it. */
  predicate KeysRise(f: Family) {
    forall i :: 0 < i < |f| ==> f[i - 1].key < f[i].key
  }

  /** Each lightness is smaller than the one before it. */
  predicate LightFalls(f: Family) {
    forall i :: 0 < i < |f| ==> f[i].light.Scaled() < f[i - 1].light.Scaled()
  }

  predicate Graded(f: Family) {
    |f| > 0 && AllInGamut(f) && HueFixed(f) && KeysRise(f) && LightFalls(f)
  }

  predicate SatFixed(f: Family)
    requires |f| > 0
  {
    forall i :: 0 <= i < |f| ==> f[i].sat.Scaled() == f[0].sat.Scaled()
  }

  /** Every shade has saturation 0. */
  predicate Achromatic(f: Family) {
    forall i :: 0 <= i < |f| ==> f[i].sat.Scaled() == 0
  }

  // ---------------------------------------------------------------------
  // The entries of each family
  // ---------------------------------------------------------------------

  // white

  lemma WhiteInGamut()
    ensures AllInGamut(White)
  {
  }

  lemma WhiteHue()
    ensures |White| > 0 && HueFixed(White)
  {
  }

  lemma WhiteKeysRise()
    ensures KeysRise(White)
  {
  }

  lemma WhiteLightFalls()
    ensures LightFalls(White)
  {
  }

  lemma WhiteKeys()
    ensures KeyNumbers(White) == [50]
  {
  }

  lemma WhiteGrey()
    ensures Achromatic(White)
  {
  }

  lemma WhiteGraded()
    ensures Graded(White) && KeyNumbers(White) == [50] && Achromatic(White)
  {
    WhiteInGamut(); WhiteHue(); WhiteKeysRise(); WhiteLightFalls(); WhiteKeys(); WhiteGrey();
  }

  // coral

  lemma CoralInGamut()
    ensures AllInGamut(Coral)
  {
  }

  lemma CoralHue()
    ensures |Coral| > 0 && HueFixed(Coral)
  {
  }

  lemma CoralKeysRise()
    ensures KeysRise(Coral)
  {
  }

  lemma CoralLightFalls()
    ensures LightFalls(Coral)
  {
  }

  lemma CoralKeys()
    ensures KeyNumbers(Coral) == StandardKeys
  {
  }

  lemma CoralSat()
    ensures |Coral| > 0 && SatFixed(Coral)
  {
  }

  lemma CoralGraded()
    ensures Graded(Coral) && KeyNumbers(Coral) == StandardKeys && SatFixed(Coral)
  {
    CoralInGamut(); CoralHue(); CoralKeysRise(); CoralLightFalls(); CoralKeys(); CoralSat();
  }

  // black

  lemma BlackInGamut()
    ensures AllInGamut(Black)
  {
  }

  lemma BlackHue()
    ensures |Black| > 0 && HueFixed(Black)
  {
  }

  lemma BlackKeysRise()
    ensures KeysRise(Black)
  {
  }

  lemma BlackLightFalls()
    ensures LightFalls(Black)
  {
  }

  lemma BlackKeys()
    ensures KeyNumbers(Black) == StandardKeys
  {
  }

  lemma BlackGrey()
    ensures Achromatic(Black)
  {
  }

  lemma BlackGraded()
    ensures Graded(Black) && KeyNumbers(Black) == StandardKeys && Achromatic(Black)
  {
    BlackInGamut(); BlackHue(); BlackKeysRise(); BlackLightFalls(); BlackKeys(); BlackGrey();
  }

  // teal

  lemma TealInGamut()
    ensures AllInGamut(Teal)
  {
  }

  lemma TealHue()
    ensures |Teal| > 0 && HueFixed(Teal)
  {
  }

  lemma TealKeysRise()
    ensures KeysRise(Teal)
  {
  }

  lemma TealLightFalls()
    ensures LightFalls(Teal)
  {
  }

  lemma TealKeys()
    ensures KeyNumbers(Teal) == StandardKeys
  {
  }

  lemma TealGraded()
    ensures Graded(Teal) && KeyNumbers(Teal) == StandardKeys
  {
    TealInGamut(); TealHue(); TealKeysRise(); TealLightFalls(); TealKeys();
  }

  // beige

  lemma BeigeInGamut()
    ensures AllInGamut(Beige)
  {
  }

  lemma BeigeHue()
    ensures |Beige| > 0 && HueFixed(Beige)
  {
  }

  lemma BeigeKeysRise()
    ensures KeysRise(Beige)
  {
  }

  lemma BeigeLightFalls()
    ensures LightFalls(Beige)
  {
  }

  lemma BeigeKeys()
    ensures KeyNumbers(Beige) == StandardKeys
  {
  }

  lemma BeigeSat()
    ensures |Beige| > 0 && SatFixed(Beige)
  {
  }

  lemma BeigeGraded()
    ensures Graded(Beige) && KeyNumbers(Beige) == StandardKeys && SatFixed(Beige)
  {
    BeigeInGamut(); BeigeHue(); BeigeKeysRise(); BeigeLightFalls(); BeigeKeys(); BeigeSat();
  }

  // papaya

  lemma PapayaInGamut()
    ensures AllInGamut(Papaya)
  {
  }

  lemma PapayaHue()
    ensures |Papaya| > 0 && HueFixed(Papaya)
  {
  }

  lemma PapayaKeysRise()
    ensures KeysRise(Papaya)
  {
  }

  lemma PapayaLightFalls()
    ensures LightFalls(Papaya)
  {
  }

  lemma PapayaKeys()
    ensures KeyNumbers(Papaya) == StandardKeys
  {
  }

  lemma PapayaGraded()
    ensures Graded(Papaya) && KeyNumbers(Papaya) == StandardKeys
  {
    PapayaInGamut(); PapayaHue(); PapayaKeysRise(); PapayaLightFalls(); PapayaKeys();
  }

  // floral

  lemma FloralInGamut()
    ensures AllInGamut(Floral)
  {
  }

  lemma FloralHue()
    ensures |Floral| > 0 && HueFixed(Floral)
  {
  }

  lemma FloralKeysRise()
    ensures KeysRise(Floral)
  {
  }

  lemma FloralLightFalls()
    ensures LightFalls(Floral)
  {
  }

  lemma FloralKeys()
    ensures KeyNumbers(Floral) == StandardKeys
  {
  }

  lemma FloralSat()
    ensures |Floral| > 0 && SatFixed(Floral)
  {
  }

  lemma FloralGraded()
    ensures Graded(Floral) && KeyNumbers(Floral) == StandardKeys && SatFixed(Floral)
  {
    FloralInGamut(); FloralHue(); FloralKeysRise(); FloralLightFalls(); FloralKeys(); FloralSat();
  }

  // ivory

  lemma IvoryInGamut()
    ensures AllInGamut(Ivory)
  {
  }

  lemma IvoryHue()
    ensures |Ivory| > 0 && HueFixed(Ivory)
  {
  }

  lemma IvoryKeysRise()
    ensures KeysRise(Ivory)
  {
  }

  lemma IvoryLightFalls()
    ensures LightFalls(Ivory)
  {
  }

  lemma IvoryKeys()
    ensures KeyNumbers(Ivory) == StandardKeys
  {
  }

  lemma IvoryGraded()
    ensures Graded(Ivory) && KeyNumbers(Ivory) == StandardKeys
  {
    IvoryInGamut(); IvoryHue(); IvoryKeysRise(); IvoryLightFalls(); IvoryKeys();
  }

  /** Every family is graded. */
  lemma ColorsGraded()
    ensures forall name :: name in Colors ==> Graded(Colors[name])
  {
    WhiteGraded(); CoralGraded(); BlackGraded(); TealGraded();
    BeigeGraded(); PapayaGraded(); FloralGraded(); IvoryGraded();
  }

  /** `white` has the one key `'050'` and every other family the eleven
      keys `'050'` ... `'950'`. */
  lemma ColorsKeys()
    ensures forall name :: name in Colors ==>
      KeyNumbers(Colors[name]) == if name == "white" then [50] else StandardKeys
  {
    WhiteKeys(); CoralKeys(); BlackKeys(); TealKeys();
    BeigeKeys(); PapayaKeys(); FloralKeys(); IvoryKeys();
  }

  /** The keys as written: `'050'`, `'100'`, ..., `'950'`. */
  lemma StandardKeyText()
    ensures seq(|StandardKeys|, i requires 0 <= i < |StandardKeys| => Key3(StandardKeys[i]))
      == ["050", "100", "200", "300", "400", "500", "600", "700", "800", "900", "950"]
  {
  }

  // ---------------------------------------------------------------------
  // Consequences for any graded family
  // ---------------------------------------------------------------------

  lemma {:induction false} Increasing(xs: seq<int>, i: nat, j: nat)
    requires forall k :: 0 < k < |xs| ==> xs[k - 1] < xs[k]
    requires i < j < |xs|
    ensures xs[i] < xs[j]
    decreases j - i
  {
    if i + 1 < j {
      Increasing(xs, i, j - 1);
    }
  }

  /** Keys rising step by step rise across the whole family, so the keys
      are distinct. */
  lemma KeysAscend(f: Family)
    requires KeysRise(f)
    ensures forall i, j :: 0 <= i < j < |f| ==> f[i].key < f[j].key
  {
    var ks := seq(|f|, k requires 0 <= k < |f| => f[k].key as int);
    forall i, j | 0 <= i < j < |f| ensures f[i].key < f[j].key {
      Increasing(ks, i, j);
    }
  }

  /** Within a graded family, the lightness the converter reads from a
      shade's value falls as the shade key rises. */
  lemma LightnessFallsAsKeyRises(f: Family)
    requires Graded(f)
    ensures forall i, j :: 0 <= i < |f| && 0 <= j < |f| && f[i].key < f[j].key ==>
      NumeralValue(f[j].Parts().light) < NumeralValue(f[i].Parts().light)
  {
    KeysAscend(f);
    var ls := seq(|f|, k requires 0 <= k < |f| => -(f[k].light.Scaled() as int));
    forall i, j | 0 <= i < |f| && 0 <= j < |f| && f[i].key < f[j].key
      ensures f[j].light.Scaled() < f[i].light.Scaled()
    {
      Increasing(ls, i, j);
    }
  }

  /** The converter reads back from a shade's value exactly the numbers it
      is written from, and the result is `#` and three hex byte pairs. */
  lemma ShadeConverts(sh: Shade)
    requires InGamut(sh)
    ensures MatchHsl(sh.Value()) == Some(sh.Parts())
    ensures var m := sh.Parts();
      && DigitsValue(m.hue) == sh.hue
      && NumeralValue(m.sat) == sh.sat.Scaled() as real / 10.0
      && NumeralValue(m.light) == sh.light.Scaled() as real / 10.0
    ensures var r, c := HslToHex(sh.Value()), ColorOf(sh.Parts());
      && |r| == 7 && r[0] == '#'
      && HexPair(r[1..3], Byte(c.r)) && HexPair(r[3..5], Byte(c.g)) && HexPair(r[5..7], Byte(c.b))
  {
    assert sh.Value() + "" == sh.Value();
    MatchHslRender(sh.Parts(), "");
    HslToHexInGamut(sh.Value());
  }

  /** A grey shade converts to three equal byte pairs. */
  lemma GreyShade(sh: Shade)
    requires InGamut(sh) && sh.sat.Scaled() == 0
    ensures var r := HslToHex(sh.Value());
      |r| == 7 && r[0] == '#' && r[1..3] == r[3..5] && r[3..5] == r[5..7]
  {
    GreyPairs(sh, sh.light.Scaled() as real / 1000.0);
  }

  lemma GreyPairs(sh: Shade, l: real)
    requires InGamut(sh) && sh.sat.Scaled() == 0
    requires l == sh.light.Scaled() as real / 1000.0
    ensures var r := HslToHex(sh.Value());
      |r| == 7 && r[0] == '#' && r[1..3] == r[3..5] && r[3..5] == r[5..7]
  {
    ShadeConverts(sh);
    HslToHexAchromatic(sh.Value(), sh.Parts(), l);
    ByteRange(l);
    Pairs("#", ToHex(l), ToHex(l), ToHex(l));
  }

  // ---------------------------------------------------------------------
  // The whole table
  // ---------------------------------------------------------------------

  /** No table value takes the fallback: each one parses to the numbers it
      is written from and converts to `#` and three byte pairs. */
  lemma ColorsConvert()
    ensures forall name, i :: name in Colors && 0 <= i < |Colors[name]| ==>
      var sh := Colors[name][i];
      && sh.Valid()
      && MatchHsl(sh.Value()) == Some(sh.Parts())
      && |HslToHex(sh.Value())| == 7
  {
    ColorsGraded();
    forall name, i | name in Colors && 0 <= i < |Colors[name]|
      ensures var sh := Colors[name][i];
        sh.Valid() && MatchHsl(sh.Value()) == Some(sh.Parts()) && |HslToHex(sh.Value())| == 7
    {
      ShadeConverts(Colors[name][i]);
    }
  }

  /** White and black are grey: the three byte pairs of every shade agree. */
  lemma WhiteAndBlackGrey()
    ensures forall i :: 0 <= i < |White| ==> var r := HslToHex(White[i].Value());
      White[i].Valid() && |r| == 7 && r[1..3] == r[3..5] && r[3..5] == r[5..7]
    ensures forall i :: 0 <= i < |Black| ==> var r := HslToHex(Black[i].Value());
      Black[i].Valid() && |r| == 7 && r[1..3] == r[3..5] && r[3..5] == r[5..7]
  {
    WhiteGraded();
    BlackGraded();
    forall i | 0 <= i < |White| ensures var r := HslToHex(White[i].Value());
      White[i].Valid() && |r| == 7 && r[1..3] == r[3..5] && r[3..5] == r[5..7]
    {
      GreyShade(White[i]);
    }
    forall i | 0 <= i < |Black| ensures var r := HslToHex(Black[i].Value());
      Black[i].Valid() && |r| == 7 && r[1..3] == r[3..5] && r[3..5] == r[5..7]
    {
      GreyShade(Black[i]);
    }
  }

  /** Within every family lightness falls as the key rises. */
  lemma ColorsLightnessFalls()
    ensures forall name, i, j :: name in Colors && 0 <= i < |Colors[name]| && 0 <= j < |Colors[name]| ==>
      var f := Colors[name];
      f[i].Valid() && f[j].Valid() &&
      (f[i].key < f[j].key ==> NumeralValue(f[j].Parts().light) < NumeralValue(f[i].Parts().light))
  {
    ColorsGraded();
    forall name | name in Colors
      ensures forall i, j :: 0 <= i < |Colors[name]| && 0 <= j < |Colors[name]| ==>
        var f := Colors[name];
        f[i].Valid() && f[j].Valid() &&
        (f[i].key < f[j].key ==> NumeralValue(f[j].Parts().light) < NumeralValue(f[i].Parts().light))
    {
      LightnessFallsAsKeyRises(Colors[name]);
    }
  }

  // ---------------------------------------------------------------------
  // The order the story shows
  // ---------------------------------------------------------------------

  /** `parseInt` of a written key is the key's number; only keys of three
      digits without a leading zero are array indices. */
  lemma Key3Parsed(k: nat)
    requires k < 1000
    ensures IsDigits(Key3(k)) && DigitsValue(Key3(k)) == k
    ensures IsArrayIndex(Key3(k)) <==> 100 <= k
  {
    assert Key3(k)[0] == DecimalDigit(k / 100);
  }

  /** A graded family's properties, in creation order, are strictly
      ascending by `parseInt` of their keys. */
  lemma EntriesAscend(f: Family)
    requires Graded(f)
    ensures DigitKeys(Entries(f)) && StrictlyAscending(Entries(f))
  {
    KeysAscend(f);
    var es := Entries(f);
    forall i | 0 <= i < |es| ensures IsDigits(es[i].0) && KeyOf(es[i]) == f[i].key {
      Key3Parsed(f[i].key);
    }
  }

  /** So the story shows a graded family in the order the table lists it,
      whatever order `Object.entries` hands the properties over in. */
  lemma FamilyDisplayed(f: Family)
    requires Graded(f)
    ensures Display(Entries(f)) == Entries(f)
  {
    EntriesAscend(f);
    DisplayKeepsAscending(Entries(f));
  }

  /** `Object.entries` moves the key `'050'` behind `'950'`, as it is not an
      array index; the numeric sort brings it back to the front. */
  lemma ObjectEntriesMovesFirst(f: Family)
    requires Graded(f) && |f| > 1 && f[0].key < 100 && 100 <= f[1].key
    ensures var es := Entries(f); ObjectEntries(es) == es[1..] + [es[0]]
  {
    var es := Entries(f);
    IndexSplit(f);
    EntriesAscend(f);
    TailAscends(es);
    SortRestores(es[1..], es[1..]);
  }

  lemma IndexSplit(f: Family)
    requires Graded(f) && |f| > 1 && f[0].key < 100 && 100 <= f[1].key
    ensures var es := Entries(f); IndexEntries(es) == es[1..] && OtherEntries(es) == [es[0]]
  {
    var es := Entries(f);
    TailIndices(f);
    Key3Parsed(f[0].key);
    assert !IsArrayIndex(es[0].0);
    OnlyFirstOther(es);
  }

  /** Past the first shade, every key of such a family is an array index. */
  lemma TailIndices(f: Family)
    requires Graded(f) && |f| > 1 && 100 <= f[1].key
    ensures var es := Entries(f); forall i :: 0 <= i < |es| - 1 ==> IsArrayIndex(es[1..][i].0)
  {
    var es := Entries(f);
    KeysAscend(f);
    forall i | 0 <= i < |es| - 1 ensures IsArrayIndex(es[1..][i].0) {
      assert es[1..][i] == es[i + 1];
      Key3Parsed(f[i + 1].key);
    }
  }

  /** Every family is shown in table order. */
  lemma ColorsDisplayed()
    ensures forall name :: name in Colors ==> Display(Entries(Colors[name])) == Entries(Colors[name])
  {
    ColorsGraded();
    forall name | name in Colors ensures Display(Entries(Colors[name])) == Entries(Colors[name]) {
      FamilyDisplayed(Colors[name]);
    }
  }
}
