# Colour tokens, `hslToHex` and the Gilroy `@font-face` stylesheet

This project models the three deterministic parts of a small design-system monorepo. It proves what they promise.

- **`hslToHex`** (colour stories of the UI package). The converter runs an unanchored regular-expression match of `hsl(h, s%, l%)` and falls back to `#000000` when nothing matches. It converts with the HSL→RGB algorithm of section 4.2.4 of CSS Color Module Level 3, including the `hue2rgb` helper. It writes each channel as a padded hex byte.
  - The regular expression is a deterministic parser, `HslConvert.MatchAt`. It is proved sound and complete against a declarative reading, "`Render(m)` occurs at `i`". The search is proved to return the first match.
  - The same stories sort shade entries by `parseInt` of their keys. That sort is `ShadeOrder.SortByKey`. `ShadeOrder.ObjectEntries` models the order in which `Object.entries` lists the keys: integer-like keys first, ascending, then the rest.
- **The colour table** (`colors`, `baseColorPalette`, `semantic`). It is a fixture.
  - Each shade is kept as its key and the numbers its `hsl(...)` string is written from. The string is rendered from those numbers, and `PaletteLiterals` proves, entry by entry, that the rendered key and string are the text written in the table.
  - The lemmas prove that the table is well formed, that every value converts and that each family is graded. They also prove that the display order is the table order and that every dotted reference resolves.
- **`generateFontFaces` / `getGilroyFontFaces`** (fonts package). The generator is a method whose loop pushes two blocks per weight. It is proved equal to a pure specification, `FontFaces.Stylesheet`. Count, order, file names, weights and the join are lemmas about that specification.

Modules, one per file:

- `Strings`: digits and decimal rendering.
- `HslConvert`: the converter.
- `HslProperties`: its general properties.
- `HslExamples`: concrete inputs.
- `ShadeOrder`: the shade sort.
- `Palette`: the table.
- `PaletteLiterals`: the table's entries against their written text.
- `PaletteProperties`: per-family facts.
- `PaletteReferences`: `semantic`, `baseColorPalette` and the layer tokens.
- `FontFaces`: the stylesheet.

## Model

| member | source | states |
|---|---|---|
| HslConvert.MatchHsl | packages/ui/src/core/colors.stories.tsx:13 | whatever `match` returns is well formed: a digit-only hue, and saturation and lightness of digits with an optional `.digits` part |
| HslConvert.MatchAtIff | packages/ui/src/core/colors.stories.tsx:13 | the parser accepts `m` at position `i` exactly when the text of `m` (`hsl(` digits `,` spaces number `%,` spaces number `%)`) occurs there |
| HslConvert.MatchHslNone | packages/ui/src/core/colors.stories.tsx:13-14 | `match` fails exactly when no position of the input starts an `hsl(h, s%, l%)` occurrence |
| HslConvert.MatchHslSome | packages/ui/src/core/colors.stories.tsx:13 | the match returned is one at the smallest position where any occurrence starts (unanchored, first match wins) |
| HslConvert.MatchHslRender | packages/ui/src/core/colors.stories.tsx:13 | a well-formed `hsl(...)` text followed by anything is matched and its captures read back exactly |
| HslConvert.MatchHslSkip | packages/ui/src/core/colors.stories.tsx:13 | text before the match that holds no `h` does not change the result |
| HslConvert.MatchHslDrop | packages/ui/src/core/colors.stories.tsx:13 | positions where no match starts can be dropped from the front |
| HslConvert.MatchHslNoH | packages/ui/src/core/colors.stories.tsx:13-14 | an input without `h` never matches |
| HslConvert.MatchHslNoPercent | packages/ui/src/core/colors.stories.tsx:13-14 | an input without `%` never matches |
| HslConvert.MatchAtHueRejects | packages/ui/src/core/colors.stories.tsx:13 | after `hsl(` and a run of digits, any character other than a digit or `,` rejects the attempt (no space before the comma, no fractional hue) |
| HslConvert.HueThenComma | packages/ui/src/core/colors.stories.tsx:13 | an occurrence has only digits between `hsl(` and the first comma |
| HslConvert.PercentIn | packages/ui/src/core/colors.stories.tsx:13 | every occurrence holds a `%` |
| HslConvert.FractionValue | packages/ui/src/core/colors.stories.tsx:16-18 | the `.digits` part of a number is a fraction in [0, 1) |
| HslConvert.NumeralValue | packages/ui/src/core/colors.stories.tsx:16-18 | `parseFloat` of a captured number lies in [n, n + 1) for its whole part n, and is exactly n when there is no fraction |
| HslConvert.ColorOf | packages/ui/src/core/colors.stories.tsx:16-39 | for saturation and lightness up to 100 every channel is in [0, 1]; saturation 0 gives r = g = b = l / 100 |
| HslConvert.Hue2Rgb | packages/ui/src/core/colors.stories.tsx:25-32 | for `p <= q` and `t >= -1`, `hue2rgb` returns a value in [p, q] |
| HslConvert.Mix | packages/ui/src/core/colors.stories.tsx:28-30 | the interpolation `p + (q - p) * f` stays in [p, q] for f in [0, 1] |
| HslConvert.Q | packages/ui/src/core/colors.stories.tsx:34 | for l, s in [0, 1], `q` lies in [l, 1]; saturation 0 gives q = l |
| HslConvert.PQBounds | packages/ui/src/core/colors.stories.tsx:34-35 | for s, l in [0, 1]: 0 <= p <= q <= 1 |
| HslConvert.HslToRgb | packages/ui/src/core/colors.stories.tsx:21-39 | in-range inputs give channels in [0, 1]; saturation 0 gives r = g = b = l |
| HslConvert.Round | packages/ui/src/core/colors.stories.tsx:43 | `Math.round` gives the integer n with x in [n − 0.5, n + 0.5): the nearest integer, halves rounded up |
| HslConvert.Byte | packages/ui/src/core/colors.stories.tsx:43 | `Math.round(c * 255)` is the integer n with c·255 in [n − 0.5, n + 0.5) |
| HslConvert.Radix16 | packages/ui/src/core/colors.stories.tsx:43 | `toString(16)` of a non-negative number is hex digits reading back as that number; a negative one is `-` and the digits of its magnitude |
| HslConvert.HexDigits | packages/ui/src/core/colors.stories.tsx:43 | `toString(16)` gives lowercase hex digits whose value is `n`, no leading zero, one digit exactly below 16, at most two below 256 |
| HslConvert.PadHex | packages/ui/src/core/colors.stories.tsx:44 | for a byte, the padded text is exactly two hex digits whose value is the byte |
| HslConvert.ToHex | packages/ui/src/core/colors.stories.tsx:42-45 | when the rounded byte is in 0..255, `toHex` gives the two hex digits of that byte |
| HslConvert.FormatRgb | packages/ui/src/core/colors.stories.tsx:47 | the template starts with `#` and holds at least two characters per channel |
| HslConvert.HslToHex | packages/ui/src/core/colors.stories.tsx:11-14 | no match returns exactly `#000000` |
| HslProperties.Hue2RgbWrapsOnce | packages/ui/src/core/colors.stories.tsx:26-27 | a `t` in (0, 1] and the same `t` shifted down by one give the same channel, and so do a `t` in [0, 1) and the same `t` shifted up by one |
| HslProperties.Hue2RgbBeyond | packages/ui/src/core/colors.stories.tsx:26-31 | `t` is wrapped only once: above 2 it falls through to `p`, below -1 it leaves [p, q] |
| HslProperties.ByteRange | packages/ui/src/core/colors.stories.tsx:43 | a channel in [0, 1] rounds to a byte 0..255 |
| HslProperties.FormatRgbShape | packages/ui/src/core/colors.stories.tsx:47 | for in-range channels, the result is `#` and three hex pairs, each the byte of its channel |
| HslProperties.HslToHexInGamut | packages/ui/src/core/colors.stories.tsx:16-47 | for a matched input with s, l <= 100, the result is `#` and six hex digits encoding the rounded red, green and blue bytes |
| HslProperties.HslToHexAchromatic | packages/ui/src/core/colors.stories.tsx:22-47 | saturation 0 gives the same hex pair three times, that of the lightness |
| HslProperties.HexDigitsCanonical | packages/ui/src/core/colors.stories.tsx:43 | `toString(16)` is the inverse of hex reading on canonical digit strings |
| HslProperties.PadHexInverse | packages/ui/src/core/colors.stories.tsx:42-45 | every two-digit lowercase hex pair is `toHex`'s padding of its own value (the padding is onto the pairs) |
| HslExamples.White | packages/ui/src/core/colors.stories.tsx:11-47 | `hsl(0, 0%, 100%)` gives `#ffffff` |
| HslExamples.WhiteUnspaced | packages/ui/src/core/colors.stories.tsx:13 | `hsl(0,0%,100%)` gives `#ffffff`: the spaces after commas are optional |
| HslExamples.WhiteInText | packages/ui/src/core/colors.stories.tsx:13 | `color: hsl(0, 0%, 100%);` gives `#ffffff`: the match is unanchored |
| HslExamples.Black | packages/ui/src/core/colors.stories.tsx:13-23 | `hsl(0, 0%, 0%)` is matched, not the fallback, and gives `#000000` |
| HslExamples.FirstOfTwo | packages/ui/src/core/colors.stories.tsx:13 | of two colours in one string the first is converted: `hsl(0, 0%, 100%) hsl(0, 0%, 0%)` gives white's `#ffffff` |
| HslExamples.Coral | packages/ui/src/core/colors.stories.tsx:16-47 | `hsl(6, 100%, 67%)` gives `#ff6857` |
| HslExamples.OutOfRange | packages/ui/src/core/colors.stories.tsx:34-47 | nothing clamps: `hsl(0, 0%, 200%)` gives `#1fe1fe1fe` |
| HslExamples.Empty | packages/ui/src/core/colors.stories.tsx:14 | the empty string gives `#000000` |
| HslExamples.RgbSyntax | packages/ui/src/core/colors.stories.tsx:14 | `rgb(0,0,0)` gives `#000000` |
| HslExamples.MissingPercent | packages/ui/src/core/colors.stories.tsx:13-14 | `hsl(0, 0, 0)` without `%` gives `#000000` |
| HslExamples.SpaceBeforeHue | packages/ui/src/core/colors.stories.tsx:13-14 | `hsl( 0, 0%, 100%)` gives `#000000` |
| HslExamples.SpaceBeforeComma | packages/ui/src/core/colors.stories.tsx:13-14 | `hsl(0 ,0%,100%)` gives `#000000` |
| HslExamples.FractionalHue | packages/ui/src/core/colors.stories.tsx:13-14 | `hsl(0.5, 0%, 100%)` gives `#000000`: the hue takes digits only |
| ShadeOrder.Insert | packages/ui/src/core/colors.stories.tsx:186 | inserting into a key-ascending list keeps it ascending and adds exactly the entry |
| ShadeOrder.SortByKey | packages/ui/src/core/colors.stories.tsx:185-186 | the result is ascending by `parseInt` of the key and a permutation of the entries |
| ShadeOrder.AscendingUnique | packages/ui/src/core/colors.stories.tsx:186 | a strictly ascending list is the only ascending permutation of its entries |
| ShadeOrder.SortRestores | packages/ui/src/core/colors.stories.tsx:185-186 | any permutation of strictly ascending entries sorts back to them |
| ShadeOrder.IndexEntries | packages/ui/src/core/colors.stories.tsx:185 | the entries `Object.entries` lists first all have integer-like keys |
| ShadeOrder.OtherEntries | packages/ui/src/core/colors.stories.tsx:185 | the entries it lists after them have keys that are not integer-like |
| ShadeOrder.EntriesPartition | packages/ui/src/core/colors.stories.tsx:185 | together the two groups are the object's entries |
| ShadeOrder.ObjectEntries | packages/ui/src/core/colors.stories.tsx:185 | `Object.entries` lists every property once: the result is a permutation of the properties |
| ShadeOrder.ObjectEntriesIndicesFirst | packages/ui/src/core/colors.stories.tsx:185 | integer-like keys come first, ascending by numeric key, then the other entries in creation order |
| ShadeOrder.Display | packages/ui/src/core/colors.stories.tsx:185-186 | the displayed shades are ascending by numeric key and a permutation of the family |
| ShadeOrder.DisplayKeepsAscending | packages/ui/src/core/colors.stories.tsx:185-186 | a family written in strictly ascending key order is displayed in exactly that order |
| Palette.Key3 | packages/ui/src/core/colors.ts:3-96 | a shade key is three digits whose value is the key (`'050'` is 50) |
| Palette.Percent.Written | packages/ui/src/core/colors.ts:6-96 | a percentage is written as a well-formed number whose value is its tenths over ten |
| Palette.Shade.Parts | packages/ui/src/core/colors.ts:6-96 | the captures of a shade's string are well formed |
| Palette.ShadeNamed | packages/ui/src/core/colors.ts:2-97 | looking a key up in a family gives a shade with that key, or none when no shade has it |
| Palette.Resolve | packages/ui/src/core/colors.ts:128-143 | a reference resolves only to the value of a shade of a family in the table, written as the family's name, a dot and the shade's key |
| Palette.SplitDot | packages/ui/src/core/colors.ts:128-143 | a dotted reference splits at its first dot, and fails exactly when it has no dot |
| PaletteLiterals.Spelled | packages/ui/src/core/colors.ts:3-96 | a rendered capture is the table's `hsl(h, s%, l%)` spelling |
| PaletteLiterals.Entry | packages/ui/src/core/colors.ts:3-96 | a shade with the given key, hue, saturation and lightness text has that key and that `hsl(...)` string |
| PaletteLiterals.WhiteLiterals | packages/ui/src/core/colors.ts:2-4 | `white` has one entry, and each has exactly the key and the `hsl(...)` string written there |
| PaletteLiterals.CoralLiterals | packages/ui/src/core/colors.ts:5-17 | `coral` has eleven entries, and each has exactly the key and the `hsl(...)` string written there |
| PaletteLiterals.BlackLiterals | packages/ui/src/core/colors.ts:18-30 | `black` has eleven entries, and each has exactly the key and the `hsl(...)` string written there |
| PaletteLiterals.TealLiterals | packages/ui/src/core/colors.ts:31-43 | `teal` has eleven entries, and each has exactly the key and the `hsl(...)` string written there |
| PaletteLiterals.BeigeLiterals | packages/ui/src/core/colors.ts:44-56 | `beige` has eleven entries, and each has exactly the key and the `hsl(...)` string written there |
| PaletteLiterals.PapayaLiterals | packages/ui/src/core/colors.ts:57-71 | `papaya` has eleven entries, and each has exactly the key and the `hsl(...)` string written there |
| PaletteLiterals.FloralLiterals | packages/ui/src/core/colors.ts:72-84 | `floral` has eleven entries, and each has exactly the key and the `hsl(...)` string written there |
| PaletteLiterals.IvoryLiterals | packages/ui/src/core/colors.ts:85-97 | `ivory` has eleven entries, and each has exactly the key and the `hsl(...)` string written there |
| PaletteProperties.ColorsGraded | packages/ui/src/core/colors.ts:2-97 | every family is in gamut (h < 360, s, l <= 100) with one hue, keys strictly rising and lightness strictly falling |
| PaletteProperties.ColorsKeys | packages/ui/src/core/colors.ts:2-97 | `white` has only key 50; every other family has exactly 50, 100, …, 900, 950 (the commented-out papaya lines are not entries) |
| PaletteProperties.StandardKeyText | packages/ui/src/core/colors.ts:6-16 | the keys are written `050`, `100`, …, `950` |
| PaletteProperties.CoralSat | packages/ui/src/core/colors.ts:5-17 | coral keeps one saturation |
| PaletteProperties.BeigeSat | packages/ui/src/core/colors.ts:44-56 | beige keeps one saturation |
| PaletteProperties.FloralSat | packages/ui/src/core/colors.ts:72-84 | floral keeps one saturation |
| PaletteProperties.WhiteGrey | packages/ui/src/core/colors.ts:2-4 | white is achromatic |
| PaletteProperties.BlackGrey | packages/ui/src/core/colors.ts:18-30 | black is achromatic |
| PaletteProperties.KeysAscend | packages/ui/src/core/colors.ts:2-97 | consecutive rising keys rise across the whole family |
| PaletteProperties.LightnessFallsAsKeyRises | packages/ui/src/core/colors.ts:5-97 | in a graded family a larger key has a strictly smaller parsed lightness |
| PaletteProperties.ShadeConverts | packages/ui/src/core/colors.ts:2-97 | an in-gamut shade's string is matched, its numbers read back exactly, and it converts to `#` and three hex pairs |
| PaletteProperties.GreyShade | packages/ui/src/core/colors.ts:2-30 | an in-gamut shade with saturation 0 converts to three equal hex pairs |
| PaletteProperties.ColorsConvert | packages/ui/src/core/colors.ts:2-97 | every value in the table matches the pattern, reads back its own numbers and converts to seven characters: never the fallback |
| PaletteProperties.WhiteAndBlackGrey | packages/ui/src/core/colors.ts:2-30 | every white and black shade converts to three equal hex pairs |
| PaletteProperties.ColorsLightnessFalls | packages/ui/src/core/colors.ts:5-97 | in every family the parsed lightness strictly decreases as the shade key increases |
| PaletteProperties.Key3Parsed | packages/ui/src/core/colors.ts:3-96 | a key parses back to its number, and is integer-like for `Object.entries` exactly when it is at least 100 |
| PaletteProperties.EntriesAscend | packages/ui/src/core/colors.ts:2-97 | a graded family's entries are strictly ascending by numeric key |
| PaletteProperties.FamilyDisplayed | packages/ui/src/core/colors.stories.tsx:185-186 | a graded family is displayed in its table order |
| PaletteProperties.ObjectEntriesMovesFirst | packages/ui/src/core/colors.stories.tsx:185 | `Object.entries` moves the `'050'` entry of an 11-shade family to the end |
| PaletteProperties.ColorsDisplayed | packages/ui/src/core/colors.stories.tsx:185-186 | every family of the table is displayed in its table order, `'050'` first |
| PaletteReferences.SplitDotJoin | packages/ui/src/core/colors.ts:128-143 | `family.shade` splits back into the family and the shade |
| PaletteReferences.ShadeNamedFinds | packages/ui/src/core/colors.ts:2-97 | in a family with rising keys, each shade's key finds that shade |
| PaletteReferences.ResolveShade | packages/ui/src/core/colors.ts:2-97 | `name.key` resolves to the value of the shade with that key |
| PaletteReferences.SemanticResolves | packages/ui/src/core/colors.ts:128-143 | every dotted reference of `semantic`, `objectAccent` … `objectWarnDisabled`, names an existing family and shade |
| PaletteReferences.SemanticRefResolves | packages/ui/src/core/colors.ts:128-143 | each reference resolves to the shade it names |
| PaletteReferences.MissingShade | packages/ui/src/core/colors.ts:5-17 | `coral.999` names nothing |
| PaletteReferences.MissingFamily | packages/ui/src/core/colors.ts:1-98 | `nonexistent.500` names nothing |
| PaletteReferences.MissingDot | packages/ui/src/core/colors.ts:1-98 | every reference without a dot names nothing |
| PaletteReferences.BaseColorResolves | packages/ui/src/core/colors.ts:100-121 | each base colour's name is a family, and its value is that family's shade under its key |
| PaletteReferences.BasePaletteResolves | packages/ui/src/core/colors.ts:100-121 | the base palette is coral 500, black 900, teal 900, papaya 300 and floral 300, each an existing shade |
| PaletteReferences.LayerPrimarySurfaceResolves | packages/ui/src/core/colors.ts:125 | `layerPrimarySurface` is papaya 050 |
| PaletteReferences.LayerBackgroundResolves | packages/ui/src/core/colors.ts:124 | `layerBackground` is the 165° gradient from papaya 500 at 17.06% to papaya 300 at 76.43% |
| PaletteReferences.GradientFirstStop | packages/ui/src/core/colors.ts:124 | given to the converter, a gradient yields the captures of its first `hsl(...)` stop |
| PaletteReferences.LayerBackgroundConverts | packages/ui/src/core/colors.ts:124 | `layerBackground` converts to the colour of papaya 500 |
| FontFaces.GenerateFontFaces | packages/fonts/src/web.ts:9-51 | with the defaults `'Gilroy'` and `'/fonts/Gilroy'`, the result is the stylesheet of the family and base path |
| FontFaces.PushFaces | packages/fonts/src/web.ts:28-48 | the loop leaves the blocks of all faces, a normal and an italic block per weight |
| FontFaces.GetGilroyFontFaces | packages/fonts/src/web.ts:58-60 | the result is the stylesheet of `'Gilroy'` with the given base path, `'/fonts/Gilroy'` by default |
| FontFaces.Faces | packages/fonts/src/web.ts:28-48 | two faces per weight |
| FontFaces.FacesAppend | packages/fonts/src/web.ts:28-48 | the faces of a weight list are the faces of its parts, in order |
| FontFaces.FacesAt | packages/fonts/src/web.ts:28-47 | face `2i` is weight `i` in the normal style and face `2i + 1` the same weight in italic |
| FontFaces.FaceDescriptors | packages/fonts/src/web.ts:30-47 | every face carries the family, the file `basePath/Gilroy-<name>.ttf` or `basePath/Gilroy-<name>Italic.ttf`, the weight's value and its style |
| FontFaces.FamilyOnlyNamed | packages/fonts/src/web.ts:32-43 | changing the family changes only the `font-family` descriptor: the `Gilroy-` file prefix stays |
| FontFaces.BlocksAt | packages/fonts/src/web.ts:28-48 | the blocks follow the weight list, each weight's normal block before its italic block |
| FontFaces.StylesheetBlocks | packages/fonts/src/web.ts:16-48 | eighteen blocks, UltraLight first and Heavy last, normal before italic |
| FontFaces.RisingWeightsTwice | packages/fonts/src/web.ts:28-47 | with rising weight values, each listed value is declared by exactly two faces and no other value by any |
| FontFaces.WeightValues | packages/fonts/src/types.ts:13-23 | `FONT_WEIGHTS` maps the i-th weight to 100·(i + 1) |
| FontFaces.StylesheetWeights | packages/fonts/src/web.ts:16-47 | 100, 200, …, 900 are each the weight of exactly two faces; no other weight is any face's |
| FontFaces.Declarations | packages/fonts/src/web.ts:32-36 | the descriptors begin with `font-family: '<family>';` and end with `font-display: swap;` |
| FontFaces.Block | packages/fonts/src/web.ts:30-47 | a block opens with a newline and then `@font-face {` and a newline, declares `font-family: '<family>'` first and ends with `font-display: swap;` and `}` |
| FontFaces.Join | packages/fonts/src/web.ts:50 | joining nothing gives the empty string; joining n >= 1 strings gives their total length plus n − 1 separators |
| FontFaces.JoinFirst | packages/fonts/src/web.ts:50 | a join begins with its first element |
| FontFaces.JoinLast | packages/fonts/src/web.ts:50 | a join ends with its last element: no separator trails |
| FontFaces.JoinAt | packages/fonts/src/web.ts:50 | element i of a join sits at its offset (the lengths of the elements before it plus one separator each), and unless it is the last, one separator follows it directly |
| FontFaces.JoinStep | packages/fonts/src/web.ts:50 | text found in the join of all but the first element is found in the whole join, shifted by the first element and one separator |
| FontFaces.JoinSeparates | packages/fonts/src/web.ts:50 | every element of a join sits at its offset with exactly one separator between each consecutive pair |
| FontFaces.StylesheetText | packages/fonts/src/web.ts:16-50 | the returned text holds block i of the eighteen at its offset, and one newline between each block and the next |
| FontFaces.Stylesheet | packages/fonts/src/web.ts:16-50 | the stylesheet opens with a newline and then `@font-face {`, and ends with the last block's `font-display: swap;` and `}` |

## Left out

- IEEE-754 arithmetic. `parseFloat`, `/ 360`, `1 / 3` and `Math.round` are modelled over exact reals. Results at a rounding boundary of .5 may differ from the floating-point program.
- `HslConvert.Hue2Rgb`: the bound [p, q] is stated for `t >= -1`. The converter only passes `t >= -1/3`. Below -1, a single wrap leaves `t` negative and the result can fall below `p`, as `HslProperties.Hue2RgbBeyond` shows.
- `HslConvert.HslToHex`: the `#rrggbb` shape is stated only for saturation and lightness up to 100%, in `HslProperties.HslToHexInGamut`. Larger values give longer channels, as `HslExamples.OutOfRange` shows.
- `ShadeOrder.SortByKey`: `Array.prototype.sort` is modelled as a stable insertion sort. Stability is not stated, because shade keys within a family are distinct and the sorted order is then unique (`ShadeOrder.AscendingUnique`).
- `ShadeOrder.SortByKey`: `parseInt` is modelled only on all-digit keys. Every key in the table is all digits.
- `ShadeOrder.ObjectEntries`: `Object.entries` is modelled only for keys given in insertion order. Symbol keys and the engine's own property storage are not modelled.
- Saturation is not constant within teal, papaya and ivory: teal's falls at every step from 100 to 25, papaya's from 100 through 90, 80 and 75 down to 25, and ivory's is 44 for its six lightest shades and then 40, 35, 30, 25 and 20. Only the hue is proved constant for every family. A fixed saturation is proved for coral, beige and floral, and saturation 0 for white and black. Each family's exact values are stated by its `PaletteLiterals` lemma.
- The order in which the stories list the families, and all JSX (`ColorCard`, the story components), are view code.
- `injectFontFaces` is left out because it mutates the DOM.
- The React Native font loader is left out because it is a foreign call.
- `FontFaces.Block`: JavaScript's rendering of a number inside a template is modelled as decimal digits of a natural number. All weights are the integers 100 to 900.

