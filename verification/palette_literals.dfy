/** The colour table as the source writes it: every entry of every family,
    key by key, with the text of its `hsl(...)` value. */
module PaletteLiterals {
  import opened Strings
  import opened HslConvert
  import opened Palette

  /** The form every value of the table is written in:
      `hsl(<hue>, <sat>%, <light>%)`. */
  function HslText(hue: string, sat: string, light: string): string {
    "hsl(" + hue + ", " + sat + "%, " + light + "%)"
  }

  /** A percentage as written: `97`, or `99.7` with its tenths digit. */
  function PercentText(p: Percent): string
    requires p.Valid()
  {
    if p.Whole? then NatToDecimal(p.n) else NatToDecimal(p.n) + "." + [DecimalDigit(p.d)]
  }

  /** A match with single-space gaps renders in the table's form. */
  lemma Spelled(hue: string, sat: Numeral, light: Numeral)
    ensures Render(Match(hue, " ", sat, " ", light)) == HslText(hue, Text(sat), Text(light))
  {
    assert "," + " " == ", " && "%" + "," == "%,";
  }

  /** A shade whose key, hue and percentages are written as given has that
      key and the value those texts spell. */
  lemma Entry(sh: Shade, key: string, hue: string, sat: string, light: string)
    requires sh.Valid() && Key3(sh.key) == key && NatToDecimal(sh.hue) == hue
    requires PercentText(sh.sat) == sat && PercentText(sh.light) == light
    ensures sh.Key() == key && sh.Value() == HslText(hue, sat, light)
  {
    assert PercentText(sh.sat) == Text(sh.sat.Written());
    assert PercentText(sh.light) == Text(sh.light.Written());
    Spelled(NatToDecimal(sh.hue), sh.sat.Written(), sh.light.Written());
  }

  // ---------------------------------------------------------------------
  // white
  // ---------------------------------------------------------------------

  /** `colors.white`, entry by entry. */
  lemma WhiteLiterals()
    ensures |White| == 1
    ensures White[0].Valid() && White[0].Key() == "050" && White[0].Value() == HslText("0", "0", "100")
  {
    WhiteEntry050();
  }

  lemma WhiteEntry050()
    ensures White[0].Valid() && White[0].Key() == "050" && White[0].Value() == HslText("0", "0", "100")
  {
    Entry(White[0], "050", "0", "0", "100");
  }

  // ---------------------------------------------------------------------
  // coral
  // ---------------------------------------------------------------------

  /** `colors.coral`, entry by entry. */
  lemma CoralLiterals()
    ensures |Coral| == 11
    ensures Coral[0].Valid() && Coral[0].Key() == "050" && Coral[0].Value() == HslText("6", "100", "97")
    ensures Coral[1].Valid() && Coral[1].Key() == "100" && Coral[1].Value() == HslText("6", "100", "93")
    ensures Coral[2].Valid() && Coral[2].Key() == "200" && Coral[2].Value() == HslText("6", "100", "88")
    ensures Coral[3].Valid() && Coral[3].Key() == "300" && Coral[3].Value() == HslText("6", "100", "82")
    ensures Coral[4].Valid() && Coral[4].Key() == "400" && Coral[4].Value() == HslText("6", "100", "75")
    ensures Coral[5].Valid() && Coral[5].Key() == "500" && Coral[5].Value() == HslText("6", "100", "67")
    ensures Coral[6].Valid() && Coral[6].Key() == "600" && Coral[6].Value() == HslText("6", "100", "57")
    ensures Coral[7].Valid() && Coral[7].Key() == "700" && Coral[7].Value() == HslText("6", "100", "47")
    ensures Coral[8].Valid() && Coral[8].Key() == "800" && Coral[8].Value() == HslText("6", "100", "33")
    ensures Coral[9].Valid() && Coral[9].Key() == "900" && Coral[9].Value() == HslText("6", "100", "20")
    ensures Coral[10].Valid() && Coral[10].Key() == "950" && Coral[10].Value() == HslText("6", "100", "13")
  {
    CoralEntry050();
    CoralEntry100();
    CoralEntry200();
    CoralEntry300();
    CoralEntry400();
    CoralEntry500();
    CoralEntry600();
    CoralEntry700();
    CoralEntry800();
    CoralEntry900();
    CoralEntry950();
  }

  lemma CoralEntry050()
    ensures Coral[0].Valid() && Coral[0].Key() == "050" && Coral[0].Value() == HslText("6", "100", "97")
  {
    Entry(Coral[0], "050", "6", "100", "97");
  }

  lemma CoralEntry100()
    ensures Coral[1].Valid() && Coral[1].Key() == "100" && Coral[1].Value() == HslText("6", "100", "93")
  {
    Entry(Coral[1], "100", "6", "100", "93");
  }

  lemma CoralEntry200()
    ensures Coral[2].Valid() && Coral[2].Key() == "200" && Coral[2].Value() == HslText("6", "100", "88")
  {
    Entry(Coral[2], "200", "6", "100", "88");
  }

  lemma CoralEntry300()
    ensures Coral[3].Valid() && Coral[3].Key() == "300" && Coral[3].Value() == HslText("6", "100", "82")
  {
    Entry(Coral[3], "300", "6", "100", "82");
  }

  lemma CoralEntry400()
    ensures Coral[4].Valid() && Coral[4].Key() == "400" && Coral[4].Value() == HslText("6", "100", "75")
  {
    Entry(Coral[4], "400", "6", "100", "75");
  }

  lemma CoralEntry500()
    ensures Coral[5].Valid() && Coral[5].Key() == "500" && Coral[5].Value() == HslText("6", "100", "67")
  {
    Entry(Coral[5], "500", "6", "100", "67");
  }

  lemma CoralEntry600()
    ensures Coral[6].Valid() && Coral[6].Key() == "600" && Coral[6].Value() == HslText("6", "100", "57")
  {
    Entry(Coral[6], "600", "6", "100", "57");
  }

  lemma CoralEntry700()
    ensures Coral[7].Valid() && Coral[7].Key() == "700" && Coral[7].Value() == HslText("6", "100", "47")
  {
    Entry(Coral[7], "700", "6", "100", "47");
  }

  lemma CoralEntry800()
    ensures Coral[8].Valid() && Coral[8].Key() == "800" && Coral[8].Value() == HslText("6", "100", "33")
  {
    Entry(Coral[8], "800", "6", "100", "33");
  }

  lemma CoralEntry900()
    ensures Coral[9].Valid() && Coral[9].Key() == "900" && Coral[9].Value() == HslText("6", "100", "20")
  {
    Entry(Coral[9], "900", "6", "100", "20");
  }

  lemma CoralEntry950()
    ensures Coral[10].Valid() && Coral[10].Key() == "950" && Coral[10].Value() == HslText("6", "100", "13")
  {
    Entry(Coral[10], "950", "6", "100", "13");
  }

  // ---------------------------------------------------------------------
  // black
  // ---------------------------------------------------------------------

  /** `colors.black`, entry by entry. */
  lemma BlackLiterals()
    ensures |Black| == 11
    ensures Black[0].Valid() && Black[0].Key() == "050" && Black[0].Value() == HslText("0", "0", "92")
    ensures Black[1].Valid() && Black[1].Key() == "100" && Black[1].Value() == HslText("0", "0", "85")
    ensures Black[2].Valid() && Black[2].Key() == "200" && Black[2].Value() == HslText("0", "0", "75")
    ensures Black[3].Valid() && Black[3].Key() == "300" && Black[3].Value() == HslText("0", "0", "65")
    ensures Black[4].Valid() && Black[4].Key() == "400" && Black[4].Value() == HslText("0", "0", "55")
    ensures Black[5].Valid() && Black[5].Key() == "500" && Black[5].Value() == HslText("0", "0", "45")
    ensures Black[6].Valid() && Black[6].Key() == "600" && Black[6].Value() == HslText("0", "0", "36")
    ensures Black[7].Valid() && Black[7].Key() == "700" && Black[7].Value() == HslText("0", "0", "27")
    ensures Black[8].Valid() && Black[8].Key() == "800" && Black[8].Value() == HslText("0", "0", "18")
    ensures Black[9].Valid() && Black[9].Key() == "900" && Black[9].Value() == HslText("0", "0", "9")
    ensures Black[10].Valid() && Black[10].Key() == "950" && Black[10].Value() == HslText("0", "0", "3")
  {
    BlackEntry050();
    BlackEntry100();
    BlackEntry200();
    BlackEntry300();
    BlackEntry400();
    BlackEntry500();
    BlackEntry600();
    BlackEntry700();
    BlackEntry800();
    BlackEntry900();
    BlackEntry950();
  }

  lemma BlackEntry050()
    ensures Black[0].Valid() && Black[0].Key() == "050" && Black[0].Value() == HslText("0", "0", "92")
  {
    Entry(Black[0], "050", "0", "0", "92");
  }

  lemma BlackEntry100()
    ensures Black[1].Valid() && Black[1].Key() == "100" && Black[1].Value() == HslText("0", "0", "85")
  {
    Entry(Black[1], "100", "0", "0", "85");
  }

  lemma BlackEntry200()
    ensures Black[2].Valid() && Black[2].Key() == "200" && Black[2].Value() == HslText("0", "0", "75")
  {
    Entry(Black[2], "200", "0", "0", "75");
  }

  lemma BlackEntry300()
    ensures Black[3].Valid() && Black[3].Key() == "300" && Black[3].Value() == HslText("0", "0", "65")
  {
    Entry(Black[3], "300", "0", "0", "65");
  }

  lemma BlackEntry400()
    ensures Black[4].Valid() && Black[4].Key() == "400" && Black[4].Value() == HslText("0", "0", "55")
  {
    Entry(Black[4], "400", "0", "0", "55");
  }

  lemma BlackEntry500()
    ensures Black[5].Valid() && Black[5].Key() == "500" && Black[5].Value() == HslText("0", "0", "45")
  {
    Entry(Black[5], "500", "0", "0", "45");
  }

  lemma BlackEntry600()
    ensures Black[6].Valid() && Black[6].Key() == "600" && Black[6].Value() == HslText("0", "0", "36")
  {
    Entry(Black[6], "600", "0", "0", "36");
  }

  lemma BlackEntry700()
    ensures Black[7].Valid() && Black[7].Key() == "700" && Black[7].Value() == HslText("0", "0", "27")
  {
    Entry(Black[7], "700", "0", "0", "27");
  }

  lemma BlackEntry800()
    ensures Black[8].Valid() && Black[8].Key() == "800" && Black[8].Value() == HslText("0", "0", "18")
  {
    Entry(Black[8], "800", "0", "0", "18");
  }

  lemma BlackEntry900()
    ensures Black[9].Valid() && Black[9].Key() == "900" && Black[9].Value() == HslText("0", "0", "9")
  {
    Entry(Black[9], "900", "0", "0", "9");
  }

  lemma BlackEntry950()
    ensures Black[10].Valid() && Black[10].Key() == "950" && Black[10].Value() == HslText("0", "0", "3")
  {
    Entry(Black[10], "950", "0", "0", "3");
  }

  // ---------------------------------------------------------------------
  // teal
  // ---------------------------------------------------------------------

  /** `colors.teal`, entry by entry. */
  lemma TealLiterals()
    ensures |Teal| == 11
    ensures Teal[0].Valid() && Teal[0].Key() == "050" && Teal[0].Value() == HslText("179", "100", "97")
    ensures Teal[1].Valid() && Teal[1].Key() == "100" && Teal[1].Value() == HslText("179", "95", "93")
    ensures Teal[2].Valid() && Teal[2].Key() == "200" && Teal[2].Value() == HslText("179", "90", "88")
    ensures Teal[3].Valid() && Teal[3].Key() == "300" && Teal[3].Value() == HslText("179", "85", "82")
    ensures Teal[4].Valid() && Teal[4].Key() == "400" && Teal[4].Value() == HslText("179", "80", "75")
    ensures Teal[5].Valid() && Teal[5].Key() == "500" && Teal[5].Value() == HslText("179", "75", "67")
    ensures Teal[6].Valid() && Teal[6].Key() == "600" && Teal[6].Value() == HslText("179", "65", "55")
    ensures Teal[7].Valid() && Teal[7].Key() == "700" && Teal[7].Value() == HslText("179", "55", "43")
    ensures Teal[8].Valid() && Teal[8].Key() == "800" && Teal[8].Value() == HslText("179", "45", "31")
    ensures Teal[9].Valid() && Teal[9].Key() == "900" && Teal[9].Value() == HslText("179", "35", "16")
    ensures Teal[10].Valid() && Teal[10].Key() == "950" && Teal[10].Value() == HslText("179", "25", "10")
  {
    TealEntry050();
    TealEntry100();
    TealEntry200();
    TealEntry300();
    TealEntry400();
    TealEntry500();
    TealEntry600();
    TealEntry700();
    TealEntry800();
    TealEntry900();
    TealEntry950();
  }

  lemma TealEntry050()
    ensures Teal[0].Valid() && Teal[0].Key() == "050" && Teal[0].Value() == HslText("179", "100", "97")
  {
    Entry(Teal[0], "050", "179", "100", "97");
  }

  lemma TealEntry100()
    ensures Teal[1].Valid() && Teal[1].Key() == "100" && Teal[1].Value() == HslText("179", "95", "93")
  {
    Entry(Teal[1], "100", "179", "95", "93");
  }

  lemma TealEntry200()
    ensures Teal[2].Valid() && Teal[2].Key() == "200" && Teal[2].Value() == HslText("179", "90", "88")
  {
    Entry(Teal[2], "200", "179", "90", "88");
  }

  lemma TealEntry300()
    ensures Teal[3].Valid() && Teal[3].Key() == "300" && Teal[3].Value() == HslText("179", "85", "82")
  {
    Entry(Teal[3], "300", "179", "85", "82");
  }

  lemma TealEntry400()
    ensures Teal[4].Valid() && Teal[4].Key() == "400" && Teal[4].Value() == HslText("179", "80", "75")
  {
    Entry(Teal[4], "400", "179", "80", "75");
  }

  lemma TealEntry500()
    ensures Teal[5].Valid() && Teal[5].Key() == "500" && Teal[5].Value() == HslText("179", "75", "67")
  {
    Entry(Teal[5], "500", "179", "75", "67");
  }

  lemma TealEntry600()
    ensures Teal[6].Valid() && Teal[6].Key() == "600" && Teal[6].Value() == HslText("179", "65", "55")
  {
    Entry(Teal[6], "600", "179", "65", "55");
  }

  lemma TealEntry700()
    ensures Teal[7].Valid() && Teal[7].Key() == "700" && Teal[7].Value() == HslText("179", "55", "43")
  {
    Entry(Teal[7], "700", "179", "55", "43");
  }

  lemma TealEntry800()
    ensures Teal[8].Valid() && Teal[8].Key() == "800" && Teal[8].Value() == HslText("179", "45", "31")
  {
    Entry(Teal[8], "800", "179", "45", "31");
  }

  lemma TealEntry900()
    ensures Teal[9].Valid() && Teal[9].Key() == "900" && Teal[9].Value() == HslText("179", "35", "16")
  {
    Entry(Teal[9], "900", "179", "35", "16");
  }

  lemma TealEntry950()
    ensures Teal[10].Valid() && Teal[10].Key() == "950" && Teal[10].Value() == HslText("179", "25", "10")
  {
    Entry(Teal[10], "950", "179", "25", "10");
  }

  // ---------------------------------------------------------------------
  // beige
  // ---------------------------------------------------------------------

  /** `colors.beige`, entry by entry. */
  lemma BeigeLiterals()
    ensures |Beige| == 11
    ensures Beige[0].Valid() && Beige[0].Key() == "050" && Beige[0].Value() == HslText("50", "15", "96")
    ensures Beige[1].Valid() && Beige[1].Key() == "100" && Beige[1].Value() == HslText("50", "15", "91")
    ensures Beige[2].Valid() && Beige[2].Key() == "200" && Beige[2].Value() == HslText("50", "15", "85")
    ensures Beige[3].Valid() && Beige[3].Key() == "300" && Beige[3].Value() == HslText("50", "15", "78")
    ensures Beige[4].Valid() && Beige[4].Key() == "400" && Beige[4].Value() == HslText("50", "15", "70")
    ensures Beige[5].Valid() && Beige[5].Key() == "500" && Beige[5].Value() == HslText("50", "15", "60")
    ensures Beige[6].Valid() && Beige[6].Key() == "600" && Beige[6].Value() == HslText("50", "15", "54")
    ensures Beige[7].Valid() && Beige[7].Key() == "700" && Beige[7].Value() == HslText("50", "15", "48")
    ensures Beige[8].Valid() && Beige[8].Key() == "800" && Beige[8].Value() == HslText("50", "15", "36")
    ensures Beige[9].Valid() && Beige[9].Key() == "900" && Beige[9].Value() == HslText("50", "15", "24")
    ensures Beige[10].Valid() && Beige[10].Key() == "950" && Beige[10].Value() == HslText("50", "15", "12")
  {
    BeigeEntry050();
    BeigeEntry100();
    BeigeEntry200();
    BeigeEntry300();
    BeigeEntry400();
    BeigeEntry500();
    BeigeEntry600();
    BeigeEntry700();
    BeigeEntry800();
    BeigeEntry900();
    BeigeEntry950();
  }

  lemma BeigeEntry050()
    ensures Beige[0].Valid() && Beige[0].Key() == "050" && Beige[0].Value() == HslText("50", "15", "96")
  {
    Entry(Beige[0], "050", "50", "15", "96");
  }

  lemma BeigeEntry100()
    ensures Beige[1].Valid() && Beige[1].Key() == "100" && Beige[1].Value() == HslText("50", "15", "91")
  {
    Entry(Beige[1], "100", "50", "15", "91");
  }

  lemma BeigeEntry200()
    ensures Beige[2].Valid() && Beige[2].Key() == "200" && Beige[2].Value() == HslText("50", "15", "85")
  {
    Entry(Beige[2], "200", "50", "15", "85");
  }

  lemma BeigeEntry300()
    ensures Beige[3].Valid() && Beige[3].Key() == "300" && Beige[3].Value() == HslText("50", "15", "78")
  {
    Entry(Beige[3], "300", "50", "15", "78");
  }

  lemma BeigeEntry400()
    ensures Beige[4].Valid() && Beige[4].Key() == "400" && Beige[4].Value() == HslText("50", "15", "70")
  {
    Entry(Beige[4], "400", "50", "15", "70");
  }

  lemma BeigeEntry500()
    ensures Beige[5].Valid() && Beige[5].Key() == "500" && Beige[5].Value() == HslText("50", "15", "60")
  {
    Entry(Beige[5], "500", "50", "15", "60");
  }

  lemma BeigeEntry600()
    ensures Beige[6].Valid() && Beige[6].Key() == "600" && Beige[6].Value() == HslText("50", "15", "54")
  {
    Entry(Beige[6], "600", "50", "15", "54");
  }

  lemma BeigeEntry700()
    ensures Beige[7].Valid() && Beige[7].Key() == "700" && Beige[7].Value() == HslText("50", "15", "48")
  {
    Entry(Beige[7], "700", "50", "15", "48");
  }

  lemma BeigeEntry800()
    ensures Beige[8].Valid() && Beige[8].Key() == "800" && Beige[8].Value() == HslText("50", "15", "36")
  {
    Entry(Beige[8], "800", "50", "15", "36");
  }

  lemma BeigeEntry900()
    ensures Beige[9].Valid() && Beige[9].Key() == "900" && Beige[9].Value() == HslText("50", "15", "24")
  {
    Entry(Beige[9], "900", "50", "15", "24");
  }

  lemma BeigeEntry950()
    ensures Beige[10].Valid() && Beige[10].Key() == "950" && Beige[10].Value() == HslText("50", "15", "12")
  {
    Entry(Beige[10], "950", "50", "15", "12");
  }

  // ---------------------------------------------------------------------
  // papaya
  // ---------------------------------------------------------------------

  /** `colors.papaya`, entry by entry. */
  lemma PapayaLiterals()
    ensures |Papaya| == 11
    ensures Papaya[0].Valid() && Papaya[0].Key() == "050" && Papaya[0].Value() == HslText("38", "100", "98")
    ensures Papaya[1].Valid() && Papaya[1].Key() == "100" && Papaya[1].Value() == HslText("38", "90", "96")
    ensures Papaya[2].Valid() && Papaya[2].Key() == "200" && Papaya[2].Value() == HslText("38", "80", "93")
    ensures Papaya[3].Valid() && Papaya[3].Key() == "300" && Papaya[3].Value() == HslText("38", "75", "91")
    ensures Papaya[4].Valid() && Papaya[4].Key() == "400" && Papaya[4].Value() == HslText("38", "70", "85")
    ensures Papaya[5].Valid() && Papaya[5].Key() == "500" && Papaya[5].Value() == HslText("38", "65", "80")
    ensures Papaya[6].Valid() && Papaya[6].Key() == "600" && Papaya[6].Value() == HslText("38", "60", "75")
    ensures Papaya[7].Valid() && Papaya[7].Key() == "700" && Papaya[7].Value() == HslText("38", "45", "65")
    ensures Papaya[8].Valid() && Papaya[8].Key() == "800" && Papaya[8].Value() == HslText("38", "40", "52")
    ensures Papaya[9].Valid() && Papaya[9].Key() == "900" && Papaya[9].Value() == HslText("38", "35", "45")
    ensures Papaya[10].Valid() && Papaya[10].Key() == "950" && Papaya[10].Value() == HslText("38", "25", "30")
  {
    PapayaEntry050();
    PapayaEntry100();
    PapayaEntry200();
    PapayaEntry300();
    PapayaEntry400();
    PapayaEntry500();
    PapayaEntry600();
    PapayaEntry700();
    PapayaEntry800();
    PapayaEntry900();
    PapayaEntry950();
  }

  lemma PapayaEntry050()
    ensures Papaya[0].Valid() && Papaya[0].Key() == "050" && Papaya[0].Value() == HslText("38", "100", "98")
  {
    Entry(Papaya[0], "050", "38", "100", "98");
  }

  lemma PapayaEntry100()
    ensures Papaya[1].Valid() && Papaya[1].Key() == "100" && Papaya[1].Value() == HslText("38", "90", "96")
  {
    Entry(Papaya[1], "100", "38", "90", "96");
  }

  lemma PapayaEntry200()
    ensures Papaya[2].Valid() && Papaya[2].Key() == "200" && Papaya[2].Value() == HslText("38", "80", "93")
  {
    Entry(Papaya[2], "200", "38", "80", "93");
  }

  lemma PapayaEntry300()
    ensures Papaya[3].Valid() && Papaya[3].Key() == "300" && Papaya[3].Value() == HslText("38", "75", "91")
  {
    Entry(Papaya[3], "300", "38", "75", "91");
  }

  lemma PapayaEntry400()
    ensures Papaya[4].Valid() && Papaya[4].Key() == "400" && Papaya[4].Value() == HslText("38", "70", "85")
  {
    Entry(Papaya[4], "400", "38", "70", "85");
  }

  lemma PapayaEntry500()
    ensures Papaya[5].Valid() && Papaya[5].Key() == "500" && Papaya[5].Value() == HslText("38", "65", "80")
  {
    Entry(Papaya[5], "500", "38", "65", "80");
  }

  lemma PapayaEntry600()
    ensures Papaya[6].Valid() && Papaya[6].Key() == "600" && Papaya[6].Value() == HslText("38", "60", "75")
  {
    Entry(Papaya[6], "600", "38", "60", "75");
  }

  lemma PapayaEntry700()
    ensures Papaya[7].Valid() && Papaya[7].Key() == "700" && Papaya[7].Value() == HslText("38", "45", "65")
  {
    Entry(Papaya[7], "700", "38", "45", "65");
  }

  lemma PapayaEntry800()
    ensures Papaya[8].Valid() && Papaya[8].Key() == "800" && Papaya[8].Value() == HslText("38", "40", "52")
  {
    Entry(Papaya[8], "800", "38", "40", "52");
  }

  lemma PapayaEntry900()
    ensures Papaya[9].Valid() && Papaya[9].Key() == "900" && Papaya[9].Value() == HslText("38", "35", "45")
  {
    Entry(Papaya[9], "900", "38", "35", "45");
  }

  lemma PapayaEntry950()
    ensures Papaya[10].Valid() && Papaya[10].Key() == "950" && Papaya[10].Value() == HslText("38", "25", "30")
  {
    Entry(Papaya[10], "950", "38", "25", "30");
  }

  // ---------------------------------------------------------------------
  // floral
  // ---------------------------------------------------------------------

  /** `colors.floral`, entry by entry. */
  lemma FloralLiterals()
    ensures |Floral| == 11
    ensures Floral[0].Valid() && Floral[0].Key() == "050" && Floral[0].Value() == HslText("54", "100", "99.7")
    ensures Floral[1].Valid() && Floral[1].Key() == "100" && Floral[1].Value() == HslText("54", "100", "99")
    ensures Floral[2].Valid() && Floral[2].Key() == "200" && Floral[2].Value() == HslText("54", "100", "98.5")
    ensures Floral[3].Valid() && Floral[3].Key() == "300" && Floral[3].Value() == HslText("54", "100", "97")
    ensures Floral[4].Valid() && Floral[4].Key() == "400" && Floral[4].Value() == HslText("54", "100", "95")
    ensures Floral[5].Valid() && Floral[5].Key() == "500" && Floral[5].Value() == HslText("54", "100", "90")
    ensures Floral[6].Valid() && Floral[6].Key() == "600" && Floral[6].Value() == HslText("54", "100", "85")
    ensures Floral[7].Valid() && Floral[7].Key() == "700" && Floral[7].Value() == HslText("54", "100", "75")
    ensures Floral[8].Valid() && Floral[8].Key() == "800" && Floral[8].Value() == HslText("54", "100", "65")
    ensures Floral[9].Valid() && Floral[9].Key() == "900" && Floral[9].Value() == HslText("54", "100", "50")
    ensures Floral[10].Valid() && Floral[10].Key() == "950" && Floral[10].Value() == HslText("54", "100", "35")
  {
    FloralEntry050();
    FloralEntry100();
    FloralEntry200();
    FloralEntry300();
    FloralEntry400();
    FloralEntry500();
    FloralEntry600();
    FloralEntry700();
    FloralEntry800();
    FloralEntry900();
    FloralEntry950();
  }

  lemma FloralEntry050()
    ensures Floral[0].Valid() && Floral[0].Key() == "050" && Floral[0].Value() == HslText("54", "100", "99.7")
  {
    Entry(Floral[0], "050", "54", "100", "99.7");
  }

  lemma FloralEntry100()
    ensures Floral[1].Valid() && Floral[1].Key() == "100" && Floral[1].Value() == HslText("54", "100", "99")
  {
    Entry(Floral[1], "100", "54", "100", "99");
  }

  lemma FloralEntry200()
    ensures Floral[2].Valid() && Floral[2].Key() == "200" && Floral[2].Value() == HslText("54", "100", "98.5")
  {
    Entry(Floral[2], "200", "54", "100", "98.5");
  }

  lemma FloralEntry300()
    ensures Floral[3].Valid() && Floral[3].Key() == "300" && Floral[3].Value() == HslText("54", "100", "97")
  {
    Entry(Floral[3], "300", "54", "100", "97");
  }

  lemma FloralEntry400()
    ensures Floral[4].Valid() && Floral[4].Key() == "400" && Floral[4].Value() == HslText("54", "100", "95")
  {
    Entry(Floral[4], "400", "54", "100", "95");
  }

  lemma FloralEntry500()
    ensures Floral[5].Valid() && Floral[5].Key() == "500" && Floral[5].Value() == HslText("54", "100", "90")
  {
    Entry(Floral[5], "500", "54", "100", "90");
  }

  lemma FloralEntry600()
    ensures Floral[6].Valid() && Floral[6].Key() == "600" && Floral[6].Value() == HslText("54", "100", "85")
  {
    Entry(Floral[6], "600", "54", "100", "85");
  }

  lemma FloralEntry700()
    ensures Floral[7].Valid() && Floral[7].Key() == "700" && Floral[7].Value() == HslText("54", "100", "75")
  {
    Entry(Floral[7], "700", "54", "100", "75");
  }

  lemma FloralEntry800()
    ensures Floral[8].Valid() && Floral[8].Key() == "800" && Floral[8].Value() == HslText("54", "100", "65")
  {
    Entry(Floral[8], "800", "54", "100", "65");
  }

  lemma FloralEntry900()
    ensures Floral[9].Valid() && Floral[9].Key() == "900" && Floral[9].Value() == HslText("54", "100", "50")
  {
    Entry(Floral[9], "900", "54", "100", "50");
  }

  lemma FloralEntry950()
    ensures Floral[10].Valid() && Floral[10].Key() == "950" && Floral[10].Value() == HslText("54", "100", "35")
  {
    Entry(Floral[10], "950", "54", "100", "35");
  }

  // ---------------------------------------------------------------------
  // ivory
  // ---------------------------------------------------------------------

  /** `colors.ivory`, entry by entry. */
  lemma IvoryLiterals()
    ensures |Ivory| == 11
    ensures Ivory[0].Valid() && Ivory[0].Key() == "050" && Ivory[0].Value() == HslText("52", "44", "98")
    ensures Ivory[1].Valid() && Ivory[1].Key() == "100" && Ivory[1].Value() == HslText("52", "44", "96")
    ensures Ivory[2].Valid() && Ivory[2].Key() == "200" && Ivory[2].Value() == HslText("52", "44", "94")
    ensures Ivory[3].Valid() && Ivory[3].Key() == "300" && Ivory[3].Value() == HslText("52", "44", "93")
    ensures Ivory[4].Valid() && Ivory[4].Key() == "400" && Ivory[4].Value() == HslText("52", "44", "88")
    ensures Ivory[5].Valid() && Ivory[5].Key() == "500" && Ivory[5].Value() == HslText("52", "44", "82")
    ensures Ivory[6].Valid() && Ivory[6].Key() == "600" && Ivory[6].Value() == HslText("52", "40", "75")
    ensures Ivory[7].Valid() && Ivory[7].Key() == "700" && Ivory[7].Value() == HslText("52", "35", "65")
    ensures Ivory[8].Valid() && Ivory[8].Key() == "800" && Ivory[8].Value() == HslText("52", "30", "50")
    ensures Ivory[9].Valid() && Ivory[9].Key() == "900" && Ivory[9].Value() == HslText("52", "25", "35")
    ensures Ivory[10].Valid() && Ivory[10].Key() == "950" && Ivory[10].Value() == HslText("52", "20", "25")
  {
    IvoryEntry050();
    IvoryEntry100();
    IvoryEntry200();
    IvoryEntry300();
    IvoryEntry400();
    IvoryEntry500();
    IvoryEntry600();
    IvoryEntry700();
    IvoryEntry800();
    IvoryEntry900();
    IvoryEntry950();
  }

  lemma IvoryEntry050()
    ensures Ivory[0].Valid() && Ivory[0].Key() == "050" && Ivory[0].Value() == HslText("52", "44", "98")
  {
    Entry(Ivory[0], "050", "52", "44", "98");
  }

  lemma IvoryEntry100()
    ensures Ivory[1].Valid() && Ivory[1].Key() == "100" && Ivory[1].Value() == HslText("52", "44", "96")
  {
    Entry(Ivory[1], "100", "52", "44", "96");
  }

  lemma IvoryEntry200()
    ensures Ivory[2].Valid() && Ivory[2].Key() == "200" && Ivory[2].Value() == HslText("52", "44", "94")
  {
    Entry(Ivory[2], "200", "52", "44", "94");
  }

  lemma IvoryEntry300()
    ensures Ivory[3].Valid() && Ivory[3].Key() == "300" && Ivory[3].Value() == HslText("52", "44", "93")
  {
    Entry(Ivory[3], "300", "52", "44", "93");
  }

  lemma IvoryEntry400()
    ensures Ivory[4].Valid() && Ivory[4].Key() == "400" && Ivory[4].Value() == HslText("52", "44", "88")
  {
    Entry(Ivory[4], "400", "52", "44", "88");
  }

  lemma IvoryEntry500()
    ensures Ivory[5].Valid() && Ivory[5].Key() == "500" && Ivory[5].Value() == HslText("52", "44", "82")
  {
    Entry(Ivory[5], "500", "52", "44", "82");
  }

  lemma IvoryEntry600()
    ensures Ivory[6].Valid() && Ivory[6].Key() == "600" && Ivory[6].Value() == HslText("52", "40", "75")
  {
    Entry(Ivory[6], "600", "52", "40", "75");
  }

  lemma IvoryEntry700()
    ensures Ivory[7].Valid() && Ivory[7].Key() == "700" && Ivory[7].Value() == HslText("52", "35", "65")
  {
    Entry(Ivory[7], "700", "52", "35", "65");
  }

  lemma IvoryEntry800()
    ensures Ivory[8].Valid() && Ivory[8].Key() == "800" && Ivory[8].Value() == HslText("52", "30", "50")
  {
    Entry(Ivory[8], "800", "52", "30", "50");
  }

  lemma IvoryEntry900()
    ensures Ivory[9].Valid() && Ivory[9].Key() == "900" && Ivory[9].Value() == HslText("52", "25", "35")
  {
    Entry(Ivory[9], "900", "52", "25", "35");
  }

  lemma IvoryEntry950()
    ensures Ivory[10].Valid() && Ivory[10].Key() == "950" && Ivory[10].Value() == HslText("52", "20", "25")
  {
    Entry(Ivory[10], "950", "52", "20", "25");
  }
}
