/** The references into the colour table: the dotted `family.shade` tokens
    of `semantic`, the entries of `baseColorPalette` and the two literal
    layer tokens. */
module PaletteReferences {
  import opened Strings
  import opened HslConvert
  import opened Palette
  import opened PaletteProperties

  /** Splitting `a.b` at its first dot gives back `a` and `b`. */
  lemma {:induction false} SplitDotJoin(a: string, b: string)
    requires '.' !in a
    ensures SplitDot(a + "." + b) == Some((a, b))
  {
    if a != [] {
      SplitDotJoin(a[1..], b);
      assert (a + "." + b)[1..] == a[1..] + "." + b;
      assert [a[0]] + a[1..] == a;
    }
  }

  lemma ValidColors()
    ensures ValidFamilies()
  {
    ColorsGraded();
  }

  lemma KeysRiseTail(f: Family)
    requires f != [] && KeysRise(f)
    ensures KeysRise(f[1..])
  {
    forall i | 0 < i < |f| - 1 ensures f[1..][i - 1].key < f[1..][i].key {
      assert f[1..][i - 1] == f[i] && f[1..][i] == f[i + 1];
    }
  }

  /** In a family whose keys rise, looking a shade up by its written key
      finds that shade. */
  lemma {:induction false} ShadeNamedFinds(f: Family, i: nat)
    requires (forall k :: 0 <= k < |f| ==> f[k].Valid()) && KeysRise(f) && i < |f|
    ensures ShadeNamed(f, f[i].Key()) == Some(f[i])
  {
    if i > 0 {
      KeysAscend(f);
      assert DigitsValue(f[0].Key()) < DigitsValue(f[i].Key());
      KeysRiseTail(f);
      assert f[1..][i - 1] == f[i];
      ShadeNamedFinds(f[1..], i - 1);
    }
  }

  /** A key whose number no shade has names nothing. */
  lemma ShadeNamedMissing(f: Family, key: string)
    requires forall k :: 0 <= k < |f| ==> f[k].Valid()
    requires IsDigits(key) && forall k :: 0 <= k < |f| ==> f[k].key != DigitsValue(key)
    ensures ShadeNamed(f, key) == None
  {
  }

  /** `name.key` resolves to the shade of family `name` written with `key`. */
  lemma ResolveShade(path: string, name: string, i: nat)
    requires name in Colors && '.' !in name && i < |Colors[name]|
    requires Colors[name][i].Valid() && path == name + "." + Colors[name][i].Key()
    ensures ValidFamilies() && Resolve(path) == Some(Colors[name][i].Value())
  {
    ColorsGraded();
    SplitDotJoin(name, Colors[name][i].Key());
    ShadeNamedFinds(Colors[name], i);
  }
  /** `ResolveShade` for a family given by value. */
  lemma ResolveIn(path: string, name: string, f: Family, i: nat)
    requires name in Colors && Colors[name] == f && '.' !in name && i < |f|
    requires f[i].Valid() && path == name + "." + f[i].Key()
    ensures ValidFamilies() && Resolve(path) == Some(f[i].Value())
    ensures name in Colors && f[i].Valid()
  {
    ResolveShade(path, name, i);
  }


  // ---------------------------------------------------------------------
  // semantic
  // ---------------------------------------------------------------------

  lemma Coral500(path: string)
    requires path == "coral.500"
    ensures ValidFamilies() && Resolve(path) == Some(Coral[5].Value())
    ensures "coral" in Colors && Coral[5].Valid()
  {
    ResolveIn(path, "coral", Coral, 5);
  }

  lemma Teal500(path: string)
    requires path == "teal.500"
    ensures ValidFamilies() && Resolve(path) == Some(Teal[5].Value())
  {
    ResolveIn(path, "teal", Teal, 5);
  }

  lemma Teal700(path: string)
    requires path == "teal.700"
    ensures ValidFamilies() && Resolve(path) == Some(Teal[7].Value())
  {
    ResolveIn(path, "teal", Teal, 7);
  }

  lemma Teal300(path: string)
    requires path == "teal.300"
    ensures ValidFamilies() && Resolve(path) == Some(Teal[3].Value())
  {
    ResolveIn(path, "teal", Teal, 3);
  }

  lemma Teal100(path: string)
    requires path == "teal.100"
    ensures ValidFamilies() && Resolve(path) == Some(Teal[1].Value())
  {
    ResolveIn(path, "teal", Teal, 1);
  }

  lemma Coral700(path: string)
    requires path == "coral.700"
    ensures ValidFamilies() && Resolve(path) == Some(Coral[7].Value())
  {
    ResolveIn(path, "coral", Coral, 7);
  }

  lemma Coral900(path: string)
    requires path == "coral.900"
    ensures ValidFamilies() && Resolve(path) == Some(Coral[9].Value())
  {
    ResolveIn(path, "coral", Coral, 9);
  }

  lemma Coral300(path: string)
    requires path == "coral.300"
    ensures ValidFamilies() && Resolve(path) == Some(Coral[3].Value())
  {
    ResolveIn(path, "coral", Coral, 3);
  }

  lemma Coral100(path: string)
    requires path == "coral.100"
    ensures ValidFamilies() && Resolve(path) == Some(Coral[1].Value())
  {
    CoralNamed("coral");
    assert Coral[1].Key() == "100";
    ResolveIn(path, "coral", Coral, 1);
  }

  lemma Floral700(path: string)
    requires path == "floral.700"
    ensures ValidFamilies() && Resolve(path) == Some(Floral[7].Value())
  {
    ResolveIn(path, "floral", Floral, 7);
  }

  lemma Floral800(path: string)
    requires path == "floral.800"
    ensures ValidFamilies() && Resolve(path) == Some(Floral[8].Value())
  {
    ResolveIn(path, "floral", Floral, 8);
  }

  lemma Floral500(path: string)
    requires path == "floral.500"
    ensures ValidFamilies() && Resolve(path) == Some(Floral[5].Value())
  {
    ResolveIn(path, "floral", Floral, 5);
  }

  lemma Floral200(path: string)
    requires path == "floral.200"
    ensures ValidFamilies() && Resolve(path) == Some(Floral[2].Value())
  {
    ResolveIn(path, "floral", Floral, 2);
  }

  /** The `k`-th reference of `semantic` resolves. */
  lemma SemanticRefResolves(k: nat)
    requires k < |SemanticRefs|
    ensures ValidFamilies() && Resolve(SemanticRefs[k].1).Some?
  {
    var p := SemanticRefs[k].1;
    if k == 0 {
      Coral500(p);
    } else if k == 1 {
      Teal500(p);
    } else if k == 2 {
      Teal700(p);
    } else if k == 3 {
      Teal300(p);
    } else if k == 4 {
      Teal100(p);
    } else if k == 5 {
      Coral700(p);
    } else if k == 6 {
      Coral900(p);
    } else if k == 7 {
      Coral300(p);
    } else if k == 8 {
      Coral100(p);
    } else if k == 9 {
      Floral700(p);
    } else if k == 10 {
      Floral800(p);
    } else if k == 11 {
      Floral500(p);
    } else {
      Floral200(p);
    }
  }

  /** Every dotted reference of `semantic` names an existing family and an
      existing shade of it. */
  lemma SemanticResolves()
    ensures ValidFamilies()
    ensures forall k :: 0 <= k < |SemanticRefs| ==> Resolve(SemanticRefs[k].1).Some?
  {
    ValidColors();
    forall k | 0 <= k < |SemanticRefs| ensures Resolve(SemanticRefs[k].1).Some? {
      SemanticRefResolves(k);
    }
  }

  /** A shade key no shade has names nothing. */
  lemma MissingShade(path: string)
    requires path == "coral.999"
    ensures ValidFamilies() && Resolve(path) == None
  {
    var name, key := "coral", "999";
    assert path == name + "." + key;
    CoralNamed(name);
    CoralKeys();
    assert DigitsValue(key) == 999 by {
      assert "999"[..2] == "99" && "99"[..1] == "9" && "9"[..0] == [];
    }
    ResolveMissing(path, name, key);
  }

  lemma CoralNamed(name: string)
    requires name == "coral"
    ensures name in Colors && Colors[name] == Coral && '.' !in name
  {
  }

  lemma ResolveMissing(path: string, name: string, key: string)
    requires name in Colors && '.' !in name && path == name + "." + key
    requires IsDigits(key) && forall k :: 0 <= k < |Colors[name]| ==> Colors[name][k].key != DigitsValue(key)
    ensures ValidFamilies() && Resolve(path) == None
  {
    ValidColors();
    SplitDotJoin(name, key);
    ShadeNamedMissing(Colors[name], key);
  }

  /** A family the table does not have names nothing. */
  lemma MissingFamily(path: string)
    requires path == "nonexistent.500"
    ensures ValidFamilies() && Resolve(path) == None
  {
    ValidColors();
    var name, key := "nonexistent", "500";
    assert path == name + "." + key;
    SplitDotJoin(name, key);
    assert |name| == 11;
    NameLengths();
  }

  lemma NameLengths()
    ensures forall name :: name in Colors ==> |name| <= 6
  {
  }

  /** A path without a dot names nothing. */
  lemma MissingDot(path: string)
    requires '.' !in path
    ensures ValidFamilies() && Resolve(path) == None
  {
    ValidColors();
  }

  // ---------------------------------------------------------------------
  // baseColorPalette and the layer tokens
  // ---------------------------------------------------------------------

  lemma Papaya050(path: string)
    requires path == "papaya.050"
    ensures ValidFamilies() && Resolve(path) == Some(Papaya[0].Value())
  {
    ResolveIn(path, "papaya", Papaya, 0);
  }

  lemma Papaya300(path: string)
    requires path == "papaya.300"
    ensures ValidFamilies() && Resolve(path) == Some(Papaya[3].Value())
    ensures "papaya" in Colors && Papaya[3].Valid()
  {
    ResolveIn(path, "papaya", Papaya, 3);
  }

  lemma Papaya500(path: string)
    requires path == "papaya.500"
    ensures ValidFamilies() && Resolve(path) == Some(Papaya[5].Value())
  {
    ResolveIn(path, "papaya", Papaya, 5);
  }

  /** The shade keys `baseColorPalette` reads its values from. */
  const BaseKeys: seq<string> := ["500", "900", "900", "300", "300"]

  lemma Black900(path: string)
    requires path == "black.900"
    ensures ValidFamilies() && Resolve(path) == Some(Black[9].Value())
    ensures "black" in Colors && Black[9].Valid()
  {
    ResolveIn(path, "black", Black, 9);
  }

  lemma Teal900(path: string)
    requires path == "teal.900"
    ensures ValidFamilies() && Resolve(path) == Some(Teal[9].Value())
    ensures "teal" in Colors && Teal[9].Valid()
  {
    ResolveIn(path, "teal", Teal, 9);
  }

  lemma Floral300(path: string)
    requires path == "floral.300"
    ensures ValidFamilies() && Resolve(path) == Some(Floral[3].Value())
    ensures "floral" in Colors && Floral[3].Valid()
  {
    ResolveIn(path, "floral", Floral, 3);
  }

  /** The `k`-th base colour names a family, and its value is that family's
      shade under the key it is read from. */
  lemma BaseColorResolves(k: nat)
    requires k < |BaseColorPalette|
    ensures ValidFamilies() && BaseColorPalette[k].name in Colors && BaseColorPalette[k].shade.Valid()
    ensures Resolve(BaseColorPalette[k].name + "." + BaseKeys[k]) == Some(BaseColorPalette[k].Value())
  {
    var b, key := BaseColorPalette[k], BaseKeys[k];
    if k == 0 {
      assert b == BaseColor("coral", Coral[5]) && key == "500";
      Coral500(b.name + "." + key);
    } else if k == 1 {
      assert b == BaseColor("black", Black[9]) && key == "900";
      Black900(b.name + "." + key);
    } else if k == 2 {
      assert b == BaseColor("teal", Teal[9]) && key == "900";
      Teal900(b.name + "." + key);
    } else if k == 3 {
      assert b == BaseColor("papaya", Papaya[3]) && key == "300";
      Papaya300(b.name + "." + key);
    } else {
      assert b == BaseColor("floral", Floral[3]) && key == "300";
      Floral300(b.name + "." + key);
    }
  }

  lemma BasePaletteResolves()
    ensures ValidFamilies()
    ensures forall k :: 0 <= k < |BaseColorPalette| ==>
      && BaseColorPalette[k].name in Colors && BaseColorPalette[k].shade.Valid()
      && Resolve(BaseColorPalette[k].name + "." + BaseKeys[k]) == Some(BaseColorPalette[k].Value())
  {
    ValidColors();
    forall k | 0 <= k < |BaseColorPalette|
      ensures BaseColorPalette[k].name in Colors && BaseColorPalette[k].shade.Valid()
      ensures Resolve(BaseColorPalette[k].name + "." + BaseKeys[k]) == Some(BaseColorPalette[k].Value())
    {
      BaseColorResolves(k);
    }
  }

  /** `layerPrimarySurface` is papaya 050. */
  lemma LayerPrimarySurfaceResolves(path: string)
    requires path == "papaya.050"
    ensures ValidFamilies() && Resolve(path) == Some(LayerPrimarySurface)
  {
    Papaya050(path);
  }

  /** `layerBackground` runs from papaya 500 to papaya 300. */
  lemma LayerBackgroundResolves(from: string, to: string)
    requires from == "papaya.500" && to == "papaya.300"
    ensures ValidFamilies() && Resolve(from).Some? && Resolve(to).Some?
    ensures LayerBackground == Gradient(Resolve(from).value, Resolve(to).value)
  {
    Papaya500(from);
    Papaya300(to);
  }

  /** Given to the converter, the gradient yields its first stop. */
  lemma LayerBackgroundConverts()
    ensures MatchHsl(LayerBackground) == Some(Papaya[5].Parts())
    ensures HslToHex(LayerBackground) == HslToHex(Papaya[5].Value())
  {
    GradientConverts(Papaya[5], Papaya[3]);
  }

  /** A gradient from one shade to another converts as its first shade. */
  lemma GradientConverts(a: Shade, b: Shade)
    requires a.Valid() && b.Valid()
    ensures MatchHsl(Gradient(a.Value(), b.Value())) == Some(a.Parts())
    ensures HslToHex(Gradient(a.Value(), b.Value())) == HslToHex(a.Value())
  {
    var m := a.Parts();
    GradientFirstStop(m, b.Value());
    assert a.Value() + "" == a.Value();
    MatchHslRender(m, "");
  }

  /** The prefix `linear-gradient(165deg, ` has no `h`, so the first
      `hsl(...)` stop is the match. */
  lemma GradientFirstStop(m: Match, to: string)
    requires WellFormed(m)
    ensures MatchHsl(Gradient(Render(m), to)) == Some(m)
  {
    var prefix, rest := "linear-gradient(165deg, ", " 17.06%, " + to + " 76.43%)";
    assert forall k :: 0 <= k < |prefix| ==> prefix[k] != 'h';
    assert Gradient(Render(m), to) == prefix + (Render(m) + rest);
    MatchHslSkip(prefix, Render(m) + rest);
    MatchHslRender(m, rest);
  }
}
