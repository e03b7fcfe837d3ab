/** The `@font-face` stylesheet of the fonts package: one block per weight
    and style, in weight order, normal before italic, joined by newlines. */
module FontFaces {
  import opened Strings

  /** `FONT_FAMILIES.GILROY`, the default family. */
  const Gilroy: string := "Gilroy"

  /** The default directory of the font files. */
  const DefaultBasePath: string := "/fonts/Gilroy"

  /** The keys of `FONT_WEIGHTS`, with the CSS weight each maps to. */
  datatype FontWeight =
    | UltraLight | Thin | Light | Regular | Medium | SemiBold | Bold | ExtraBold | Heavy
  {
    function Name(): string {
      match this
      case UltraLight => "UltraLight"
      case Thin => "Thin"
      case Light => "Light"
      case Regular => "Regular"
      case Medium => "Medium"
      case SemiBold => "SemiBold"
      case Bold => "Bold"
      case ExtraBold => "ExtraBold"
      case Heavy => "Heavy"
    }

    function Value(): nat {
      match this
      case UltraLight => 100
      case Thin => 200
      case Light => 300
      case Regular => 400
      case Medium => 500
      case SemiBold => 600
      case Bold => 700
      case ExtraBold => 800
      case Heavy => 900
    }
  }

  /** The weights the generator walks, in this order. */
  const Weights: seq<FontWeight> :=
    [UltraLight, Thin, Light, Regular, Medium, SemiBold, Bold, ExtraBold, Heavy]

  datatype FontStyle = Normal | Italic {
    /** The value of the `font-style` descriptor. */
    function Css(): string {
      if Normal? then "normal" else "italic"
    }

    /** What the file name carries after the weight name. */
    function FileSuffix(): string {
      if Normal? then "" else "Italic"
    }
  }

  /** The descriptors of one `@font-face` block. */
  datatype FontFace = FontFace(family: string, file: string, weight: nat, style: FontStyle)

  /** The font file of a weight and style. The `Gilroy-` file prefix is
      fixed: it does not follow the family. */
  function FontFile(basePath: string, w: FontWeight, style: FontStyle): string {
    basePath + "/Gilroy-" + w.Name() + style.FileSuffix() + ".ttf"
  }

  function Face(family: string, basePath: string, w: FontWeight, style: FontStyle): FontFace {
    FontFace(family, FontFile(basePath, w, style), w.Value(), style)
  }

  /** The faces declared for `ws`: for each weight, its normal face then its
      italic face. */
  function Faces(family: string, basePath: string, ws: seq<FontWeight>): (r: seq<FontFace>)
    ensures |r| == 2 * |ws|
  {
    if ws == [] then []
    else
      [Face(family, basePath, ws[0], Normal), Face(family, basePath, ws[0], Italic)]
      + Faces(family, basePath, ws[1..])
  }

  /** The text of one block, as the template literal writes it: a newline
      and `@font-face {`, the family declared first, `font-display: swap`
      last, and the closing `}`. */
  function Block(f: FontFace): (r: string)
    ensures AppearsAt(r, BlockOpen, 0)
    ensures AppearsAt(r, Descriptor("font-family", "'" + f.family + "'"), |BlockOpen|)
    ensures EndsWith(r, Descriptor("font-display", "swap") + "}")
  {
    var d := Declarations(f);
    var fam, display := Descriptor("font-family", "'" + f.family + "'"), Descriptor("font-display", "swap");
    var rest := d[|fam|..|d| - |display|];
    assert d == fam + rest + display;
    Parts(BlockOpen, fam, rest, display, "}");
    BlockOpen + d + "}"
  }

  const BlockOpen: string := "\n@font-face {\n"

  /** One descriptor line: two spaces of indent, `name: value;`. */
  function Descriptor(name: string, value: string): string {
    "  " + name + ": " + value + ";\n"
  }

  /** The five descriptor lines, `font-family` first and `font-display`
      last. */
  function Declarations(f: FontFace): (r: string)
    ensures AppearsAt(r, Descriptor("font-family", "'" + f.family + "'"), 0)
    ensures EndsWith(r, Descriptor("font-display", "swap"))
  {
    var fam := Descriptor("font-family", "'" + f.family + "'");
    var src := Descriptor("src", "url('" + f.file + "') format('truetype')");
    var weight := Descriptor("font-weight", NatToDecimal(f.weight));
    var style := Descriptor("font-style", f.style.Css());
    var display := Descriptor("font-display", "swap");
    var r := fam + src + weight + style + display;
    assert r == fam + (src + weight + style + display);
    assert r == (fam + src + weight + style) + display;
    r
  }

  function Blocks(faces: seq<FontFace>): seq<string> {
    seq(|faces|, k requires 0 <= k < |faces| => Block(faces[k]))
  }

  /** The combined length of `xs`. */
  function TotalLength(xs: seq<string>): nat {
    if xs == [] then 0 else |xs[0]| + TotalLength(xs[1..])
  }

  /** `Array.prototype.join`: the separator goes between elements only, so
      it is written one time fewer than there are elements. */
  function Join(xs: seq<string>, sep: string): (r: string)
    ensures |xs| == 0 ==> r == ""
    ensures |xs| > 0 ==> |r| == TotalLength(xs) + (|xs| - 1) * |sep|
  {
    if |xs| == 0 then ""
    else if |xs| == 1 then
      assert xs[1..] == [];
      xs[0]
    else
      var rest := Join(xs[1..], sep);
      assert (|xs| - 1) * |sep| == |sep| + (|xs| - 2) * |sep|;
      xs[0] + sep + rest
  }

  /** The stylesheet the generator returns. It opens with the first
      block's newline and `@font-face {` and ends with the last block's
      `font-display: swap` and `}`: no separator trails. */
  function Stylesheet(family: string, basePath: string): (css: string)
    ensures AppearsAt(css, BlockOpen, 0)
    ensures EndsWith(css, Descriptor("font-display", "swap") + "}")
  {
    var faces := Faces(family, basePath, Weights);
    var bs := Blocks(faces);
    var css := Join(bs, "\n");
    JoinFirst(bs, "\n");
    JoinLast(bs, "\n");
    BlockOf(faces, 0);
    BlockOf(faces, 17);
    PrefixOfPrefix(css, bs[0], BlockOpen);
    SuffixOfSuffix(css, bs[17], Descriptor("font-display", "swap") + "}");
    css
  }

  // ---------------------------------------------------------------------
  // The generator
  // ---------------------------------------------------------------------

  /** `generateFontFaces`: pushes a normal and an italic block per weight,
      then joins the blocks with newlines. */
  method GenerateFontFaces(fontFamily: string := Gilroy, basePath: string := DefaultBasePath)
    returns (css: string)
    ensures css == Stylesheet(fontFamily, basePath)
  {
    var fontFaces := PushFaces(fontFamily, basePath, Weights);
    css := Join(fontFaces, "\n");
  }

  /** The `forEach` over the weights: a normal then an italic block each. */
  method PushFaces(fontFamily: string, basePath: string, weights: seq<FontWeight>)
    returns (fontFaces: seq<string>)
    ensures fontFaces == Blocks(Faces(fontFamily, basePath, weights))
  {
    fontFaces := [];
    var i := 0;
    while i < |weights|
      invariant 0 <= i <= |weights|
      invariant fontFaces == Blocks(Faces(fontFamily, basePath, weights[..i]))
    {
      var w := weights[i];
      fontFaces := fontFaces + [Block(Face(fontFamily, basePath, w, Normal))];
      fontFaces := fontFaces + [Block(Face(fontFamily, basePath, w, Italic))];
      BlocksPush(fontFamily, basePath, weights[..i], w);
      TakeOneMore(weights, i);
      i := i + 1;
    }
    assert weights[..i] == weights;
  }

  /** `getGilroyFontFaces`: the generator with the Gilroy family. */
  method GetGilroyFontFaces(basePath: string := DefaultBasePath) returns (css: string)
    ensures css == Stylesheet(Gilroy, basePath)
  {
    css := GenerateFontFaces(Gilroy, basePath);
  }

  // ---------------------------------------------------------------------
  // The faces
  // ---------------------------------------------------------------------

  lemma {:induction false} FacesAppend(family: string, basePath: string, xs: seq<FontWeight>, ys: seq<FontWeight>)
    ensures Faces(family, basePath, xs + ys) == Faces(family, basePath, xs) + Faces(family, basePath, ys)
  {
    if xs != [] {
      assert (xs + ys)[0] == xs[0] && (xs + ys)[1..] == xs[1..] + ys;
      FacesAppend(family, basePath, xs[1..], ys);
      var pair := [Face(family, basePath, xs[0], Normal), Face(family, basePath, xs[0], Italic)];
      var rest, others := Faces(family, basePath, xs[1..]), Faces(family, basePath, ys);
      assert Faces(family, basePath, xs + ys) == pair + (rest + others);
      assert pair + (rest + others) == (pair + rest) + others;
    } else {
      assert xs + ys == ys;
    }
  }

  lemma TakeOneMore<T>(xs: seq<T>, i: nat)
    requires i < |xs|
    ensures xs[..i + 1] == xs[..i] + [xs[i]]
  {
  }

  /** One more weight appends its normal block, then its italic block. */
  lemma BlocksPush(family: string, basePath: string, ws: seq<FontWeight>, w: FontWeight)
    ensures Blocks(Faces(family, basePath, ws + [w]))
            == Blocks(Faces(family, basePath, ws))
               + [Block(Face(family, basePath, w, Normal))] + [Block(Face(family, basePath, w, Italic))]
  {
    var n, t := Face(family, basePath, w, Normal), Face(family, basePath, w, Italic);
    FacesAppend(family, basePath, ws, [w]);
    FacesOne(family, basePath, w);
    BlocksAppend(Faces(family, basePath, ws), [n, t]);
    BlocksTwo(n, t);
    AppendAssoc(Blocks(Faces(family, basePath, ws)), [Block(n)], [Block(t)]);
  }

  lemma AppendAssoc<T>(a: seq<T>, b: seq<T>, c: seq<T>)
    ensures a + (b + c) == a + b + c
  {
  }

  lemma FacesOne(family: string, basePath: string, w: FontWeight)
    ensures Faces(family, basePath, [w]) == [Face(family, basePath, w, Normal), Face(family, basePath, w, Italic)]
  {
    assert [w][1..] == [];
  }

  lemma BlocksTwo(n: FontFace, t: FontFace)
    ensures Blocks([n, t]) == [Block(n)] + [Block(t)]
  {
  }

  lemma BlocksAppend(xs: seq<FontFace>, ys: seq<FontFace>)
    ensures Blocks(xs + ys) == Blocks(xs) + Blocks(ys)
  {
  }

  /** Face `2i` is weight `i` in the normal style and face `2i + 1` the same
      weight in italic. */
  lemma {:induction false} FacesAt(family: string, basePath: string, ws: seq<FontWeight>, i: nat)
    requires i < |ws|
    ensures Faces(family, basePath, ws)[2 * i] == Face(family, basePath, ws[i], Normal)
    ensures Faces(family, basePath, ws)[2 * i + 1] == Face(family, basePath, ws[i], Italic)
  {
    var pair := [Face(family, basePath, ws[0], Normal), Face(family, basePath, ws[0], Italic)];
    var rest := Faces(family, basePath, ws[1..]);
    assert Faces(family, basePath, ws) == pair + rest;
    if i > 0 {
      FacesAt(family, basePath, ws[1..], i - 1);
      assert ws[1..][i - 1] == ws[i];
      PastPair(pair, rest, i);
      assert rest[2 * (i - 1)] == Face(family, basePath, ws[i], Normal);
      assert rest[2 * (i - 1) + 1] == Face(family, basePath, ws[i], Italic);
    } else {
      PastPair(pair, rest, 0);
    }
  }

  /** Indexing past a leading pair. */
  lemma PastPair<T>(pair: seq<T>, rest: seq<T>, i: nat)
    requires |pair| == 2 && 2 * i + 1 < |pair| + |rest|
    ensures i == 0 ==> (pair + rest)[0] == pair[0] && (pair + rest)[1] == pair[1]
    ensures i > 0 ==> (pair + rest)[2 * i] == rest[2 * (i - 1)] && (pair + rest)[2 * i + 1] == rest[2 * (i - 1) + 1]
  {
  }

  /** Every face carries the family, a file under the base path with the
      fixed `Gilroy-` prefix, the weight's value and the style of its
      parity. */
  lemma FaceDescriptors(family: string, basePath: string, ws: seq<FontWeight>, k: nat)
    requires k < |Faces(family, basePath, ws)|
    ensures var f := Faces(family, basePath, ws)[k];
      && f.family == family
      && f.file == basePath + "/Gilroy-" + ws[k / 2].Name() + f.style.FileSuffix() + ".ttf"
      && f.weight == ws[k / 2].Value()
      && f.style == (if k % 2 == 0 then Normal else Italic)
  {
    var i, style := k / 2, if k % 2 == 0 then Normal else Italic;
    FacesAt(family, basePath, ws, i);
    if k % 2 == 0 {
      assert k == 2 * i;
    } else {
      assert k == 2 * i + 1;
    }
    assert Faces(family, basePath, ws)[k] == Face(family, basePath, ws[i], style);
  }

  /** The family is written into the `font-family` descriptor and nowhere
      else: two families give the same faces but for that field. */
  lemma {:induction false} FamilyOnlyNamed(f1: string, f2: string, basePath: string, ws: seq<FontWeight>)
    ensures |Faces(f1, basePath, ws)| == |Faces(f2, basePath, ws)|
    ensures forall k :: 0 <= k < |Faces(f1, basePath, ws)| ==>
      Faces(f1, basePath, ws)[k] == Faces(f2, basePath, ws)[k].(family := f1)
  {
    if ws != [] {
      FamilyOnlyNamed(f1, f2, basePath, ws[1..]);
    }
  }

  /** Block `2i` is weight `i`'s normal block and block `2i + 1` its italic
      block. */
  lemma BlocksAt(family: string, basePath: string, ws: seq<FontWeight>)
    ensures |Blocks(Faces(family, basePath, ws))| == 2 * |ws|
    ensures forall i :: 0 <= i < |ws| ==>
      && Blocks(Faces(family, basePath, ws))[2 * i] == Block(Face(family, basePath, ws[i], Normal))
      && Blocks(Faces(family, basePath, ws))[2 * i + 1] == Block(Face(family, basePath, ws[i], Italic))
  {
    forall i | 0 <= i < |ws|
      ensures Blocks(Faces(family, basePath, ws))[2 * i] == Block(Face(family, basePath, ws[i], Normal))
      ensures Blocks(Faces(family, basePath, ws))[2 * i + 1] == Block(Face(family, basePath, ws[i], Italic))
    {
      BlockPair(family, basePath, ws, i);
    }
  }

  lemma BlockPair(family: string, basePath: string, ws: seq<FontWeight>, i: nat)
    requires i < |ws|
    ensures Blocks(Faces(family, basePath, ws))[2 * i] == Block(Face(family, basePath, ws[i], Normal))
    ensures Blocks(Faces(family, basePath, ws))[2 * i + 1] == Block(Face(family, basePath, ws[i], Italic))
  {
    var fs := Faces(family, basePath, ws);
    FacesAt(family, basePath, ws, i);
    BlockOf(fs, 2 * i);
    BlockOf(fs, 2 * i + 1);
  }

  lemma BlockOf(faces: seq<FontFace>, k: nat)
    requires k < |faces|
    ensures Blocks(faces)[k] == Block(faces[k])
  {
  }

  /** Eighteen blocks, UltraLight first and Heavy last, each weight's normal
      block before its italic block. */
  lemma StylesheetBlocks(family: string, basePath: string)
    ensures |Blocks(Faces(family, basePath, Weights))| == 18
    ensures forall i :: 0 <= i < |Weights| ==>
      && Blocks(Faces(family, basePath, Weights))[2 * i] == Block(Face(family, basePath, Weights[i], Normal))
      && Blocks(Faces(family, basePath, Weights))[2 * i + 1] == Block(Face(family, basePath, Weights[i], Italic))
  {
    BlocksAt(family, basePath, Weights);
  }

  // ---------------------------------------------------------------------
  // Weights
  // ---------------------------------------------------------------------

  /** The number of faces of weight `v`. */
  function WeightCount(faces: seq<FontFace>, v: nat): nat {
    if faces == [] then 0
    else (if faces[0].weight == v then 1 else 0) + WeightCount(faces[1..], v)
  }

  predicate ValuesRise(ws: seq<FontWeight>) {
    forall i, j :: 0 <= i < j < |ws| ==> ws[i].Value() < ws[j].Value()
  }

  /** With rising values each weight value is declared twice, and no other
      value at all. */
  lemma {:induction false} RisingWeightsTwice(family: string, basePath: string, ws: seq<FontWeight>, v: nat)
    requires ValuesRise(ws)
    ensures WeightCount(Faces(family, basePath, ws), v)
      == (if exists i :: 0 <= i < |ws| && ws[i].Value() == v then 2 else 0)
  {
    if ws != [] {
      var fs := Faces(family, basePath, ws);
      assert fs[2..] == Faces(family, basePath, ws[1..]);
      assert fs[1..][1..] == fs[2..];
      RisingWeightsTwice(family, basePath, ws[1..], v);
      if ws[0].Value() == v {
        forall i | 0 <= i < |ws[1..]| ensures ws[1..][i].Value() != v {
          assert ws[1..][i] == ws[i + 1];
        }
      } else if exists i :: 0 <= i < |ws| && ws[i].Value() == v {
        var i :| 0 <= i < |ws| && ws[i].Value() == v;
        assert ws[1..][i - 1] == ws[i];
      }
    }
  }

  lemma WeightValues()
    ensures forall i :: 0 <= i < |Weights| ==> Weights[i].Value() == 100 * (i + 1)
  {
  }

  /** 100, 200, …, 900 each appear in exactly two blocks; nothing else does. */
  lemma StylesheetWeights(family: string, basePath: string, v: nat)
    ensures WeightCount(Faces(family, basePath, Weights), v)
      == (if v % 100 == 0 && 100 <= v <= 900 then 2 else 0)
  {
    WeightValues();
    RisingWeightsTwice(family, basePath, Weights, v);
    if v % 100 == 0 && 100 <= v <= 900 {
      assert Weights[v / 100 - 1].Value() == v;
    }
  }

  // ---------------------------------------------------------------------
  // The text
  // ---------------------------------------------------------------------

  /** `t` occurs in `s` at `i`. */
  predicate AppearsAt(s: string, t: string, i: nat) {
    i + |t| <= |s| && s[i..i + |t|] == t
  }

  /** `s` ends with `t`. */
  predicate EndsWith(s: string, t: string) {
    |t| <= |s| && s[|s| - |t|..] == t
  }

  /** The pieces of `o + a + m + z + c`: `o` opens it, `a` follows, and
      `z + c` ends it. */
  lemma Parts(o: string, a: string, m: string, z: string, c: string)
    ensures var s := o + (a + m + z) + c;
      AppearsAt(s, o, 0) && AppearsAt(s, a, |o|) && EndsWith(s, z + c)
  {
    var s := o + (a + m + z) + c;
    assert s == (o + a) + (m + z + c);
    assert s == (o + a + m) + (z + c);
  }

  /** The separator sits between elements: the last element ends the text. */
  lemma {:induction false} JoinLast(xs: seq<string>, sep: string)
    requires |xs| > 0
    ensures EndsWith(Join(xs, sep), xs[|xs| - 1])
  {
    if |xs| > 1 {
      JoinLast(xs[1..], sep);
      assert xs[1..][|xs| - 2] == xs[|xs| - 1];
      SuffixOfAppend(xs[0] + sep, Join(xs[1..], sep), xs[|xs| - 1]);
    }
  }

  /** The separator sits between elements: the first element starts the text. */
  lemma {:induction false} JoinFirst(xs: seq<string>, sep: string)
    requires |xs| > 0
    ensures AppearsAt(Join(xs, sep), xs[0], 0)
  {
    if |xs| > 1 {
      assert Join(xs, sep) == xs[0] + (sep + Join(xs[1..], sep));
    }
  }

  /** Where element `i` of a join starts: every element before it, each
      followed by one separator. */
  function JoinOffset(xs: seq<string>, sep: string, i: nat): nat
    requires i <= |xs|
  {
    if i == 0 then 0 else |xs[0]| + |sep| + JoinOffset(xs[1..], sep, i - 1)
  }

  /** Element `i` of a join lies at its offset, and a separator follows it
      unless it is the last: consecutive elements are exactly one
      separator apart. */
  lemma {:induction false} JoinAt(xs: seq<string>, sep: string, i: nat)
    requires i < |xs|
    ensures AppearsAt(Join(xs, sep), xs[i], JoinOffset(xs, sep, i))
    ensures i < |xs| - 1 ==> AppearsAt(Join(xs, sep), sep, JoinOffset(xs, sep, i) + |xs[i]|)
  {
    if |xs| == 1 {
    } else if i == 0 {
      JoinHead(xs, sep);
    } else {
      var o := JoinOffset(xs[1..], sep, i - 1);
      JoinAt(xs[1..], sep, i - 1);
      assert xs[1..][i - 1] == xs[i];
      JoinStep(xs, sep, xs[i], o);
      if i < |xs| - 1 {
        JoinStep(xs, sep, sep, o + |xs[i]|);
      }
    }
  }

  /** A join of two or more elements opens with the first and a separator. */
  lemma JoinHead(xs: seq<string>, sep: string)
    requires |xs| > 1
    ensures AppearsAt(Join(xs, sep), xs[0], JoinOffset(xs, sep, 0))
    ensures AppearsAt(Join(xs, sep), sep, JoinOffset(xs, sep, 0) + |xs[0]|)
  {
    var j := Join(xs, sep);
    assert j == xs[0] + sep + Join(xs[1..], sep);
    assert j[..|xs[0]|] == xs[0];
    assert j[|xs[0]|..|xs[0]| + |sep|] == sep;
  }

  /** Text found in the join of all but the first element is found in
      the whole join, past the first element and one separator. */
  lemma JoinStep(xs: seq<string>, sep: string, t: string, o: nat)
    requires |xs| > 1 && AppearsAt(Join(xs[1..], sep), t, o)
    ensures AppearsAt(Join(xs, sep), t, |xs[0]| + |sep| + o)
  {
    assert Join(xs, sep) == (xs[0] + sep) + Join(xs[1..], sep);
    ShiftAppears(xs[0] + sep, Join(xs[1..], sep), t, o);
  }

  /** Text found in `s` is found in `p + s`, `|p|` further on. */
  lemma ShiftAppears(p: string, s: string, t: string, i: nat)
    requires AppearsAt(s, t, i)
    ensures AppearsAt(p + s, t, |p| + i)
  {
    assert (p + s)[|p| + i..|p| + i + |t|] == s[i..i + |t|];
  }

  /** The stylesheet is the blocks of the nine weights joined by newlines. */
  lemma StylesheetJoin(family: string, basePath: string)
    ensures Stylesheet(family, basePath) == Join(Blocks(Faces(family, basePath, Weights)), "\n")
  {
  }

  /** `s` holds the elements of `xs` one after another, each at its
      offset and exactly one `sep` between each two consecutive ones. */
  ghost predicate JoinedBy(s: string, xs: seq<string>, sep: string) {
    forall k :: 0 <= k < |xs| ==>
      && AppearsAt(s, xs[k], JoinOffset(xs, sep, k))
      && (k < |xs| - 1 ==> AppearsAt(s, sep, JoinOffset(xs, sep, k) + |xs[k]|))
  }

  /** A join holds its elements separated by single separators. */
  lemma JoinSeparates(xs: seq<string>, sep: string)
    ensures JoinedBy(Join(xs, sep), xs, sep)
  {
    forall k | 0 <= k < |xs|
      ensures AppearsAt(Join(xs, sep), xs[k], JoinOffset(xs, sep, k))
      ensures k < |xs| - 1 ==> AppearsAt(Join(xs, sep), sep, JoinOffset(xs, sep, k) + |xs[k]|)
    {
      JoinAt(xs, sep, k);
    }
  }

  /** The returned stylesheet holds the eighteen blocks in order with one
      newline between each two; which face each block is, is
      `StylesheetBlocks`. */
  lemma StylesheetText(family: string, basePath: string)
    ensures JoinedBy(Stylesheet(family, basePath), Blocks(Faces(family, basePath, Weights)), "\n")
  {
    StylesheetJoin(family, basePath);
    JoinSeparates(Blocks(Faces(family, basePath, Weights)), "\n");
  }

  lemma PrefixOfPrefix(s: string, p: string, q: string)
    requires AppearsAt(s, p, 0) && AppearsAt(p, q, 0)
    ensures AppearsAt(s, q, 0)
  {
    assert s[0..|q|] == s[0..|p|][0..|q|];
  }

  lemma SuffixOfAppend(p: string, s: string, q: string)
    requires EndsWith(s, q)
    ensures EndsWith(p + s, q)
  {
    assert (p + s)[|p + s| - |q|..] == s[|s| - |q|..];
  }

  lemma SuffixOfSuffix(s: string, p: string, q: string)
    requires EndsWith(s, p) && EndsWith(p, q)
    ensures EndsWith(s, q)
  {
    assert s[|s| - |q|..] == s[|s| - |p|..][|p| - |q|..];
  }
}
