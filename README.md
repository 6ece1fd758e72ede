# gdx-fbf formatting engine in Dafny

gdx-fbf ("formattable bitmap font") is meant to draw a string with several
libGDX bitmap fonts, chosen by inline tags. Its engine is `formatText`: with
the default delimiters and a font bound to the tag `b`, it turns
`plain <b>bold</b> plain` into the segments ("plain ", base font),
("bold", the `b` font), (" plain", base font). This project models that
engine, the configuration that feeds it, and proves properties of both.

- **`StringFontPair`** (`string_font_pair.dfy`). The immutable (string, font)
  record. It is both the tag-to-font binding and the output segment. It is a
  datatype, and the font type is an opaque type parameter `F`.
- **`escapeRegex`** (`regex_escape.dfy`, method `EscapeRegex`). A
  character-by-character loop that puts a backslash before each of the
  fifteen metacharacters `. \ ? * + & : { } [ ] ( ) ^ $`. The loop is proved
  against the function `Escaped`. The round trip is proved through
  `Unescape`.
- **The constructor** (`formattable_bitmap_font.dfy`, class
  `FormattableBitmapFont`). It escapes the three delimiters and fills the
  tag-to-font map. In the same loop (`BuildRegistry`) it builds the group of
  alternatives for the pre-check pattern `tagsRegex`. The fields are `const`:
  they are assigned once in the constructor and never again. The
  constructor taking only a base font and pairs is `WithDefaults`.
- **`formatText`** (method `FormatText`). It splits the input on the left
  bracket. Each fragment becomes one (text, font) segment:
  - no right bracket: the base font;
  - a tag starting with the close marker: the base font;
  - a known tag: its font;
  - any other tag: the base font, and one warning is logged.

  The loop is proved against the functions `Segments` and `Diagnostics`.
  The per-fragment rules, the suffix and concatenation facts and the
  warning count are proved about those functions.
- **`java.lang.String`** (`java_text.dfy`). The parts of it the engine uses:
  - `indexOf`;
  - `split` with limit 0, modelled as a literal split followed by dropping
    the trailing empty strings.

  Both are pure functions with lemmas: split-then-join, join-then-split,
  concatenation, and no fragment containing the delimiter.

The code is modelled as written, including these behaviours:

- **Escaped delimiters are used as literal text.** The fields hold the
  escaped delimiters, and `formatText` uses them as plain text in `indexOf`,
  `substring` and `startsWith`. A right bracket `]` is therefore searched
  for as the two characters `\]`
  (`EscapedRightBracketIsSearchedLiterally`). Only `split` reads its
  argument as a pattern. For the left bracket that pattern matches the
  original, unescaped text (`LeftBracketText`).
- **Escaping stops at U+FFFF.** The character iterator's end marker
  `CharacterIterator.DONE` is the character U+FFFF. The escaping loop
  therefore stops at the first U+FFFF in its input and drops the rest
  (`UpToDone`, `EscapingStopsAtDone`).
- **The last binding of a duplicate tag wins.** Delimiters are not
  checked to be non-empty or distinct.
- **`"\1"` in the pattern is the character U+0001**, not a
  back-reference. Tag names go into the pattern unescaped. `draw` calls
  `formatText` only when the whole input matches the pre-check pattern,
  and that pattern asks for the left bracket, the close marker, U+0001 and
  the right bracket in a row (`TagsPattern`, `DefaultPatternForBold`).
  Ordinary tagged text such as `plain <b>bold</b> plain` holds no U+0001,
  so `draw` renders it whole in the base font, tags included.
- **The first fragment is not special.** If it holds a right bracket, the
  text before it is read as a tag.

The comment in `formatText` expects only the first fragment to lack a right
bracket, and only when the text does not begin with a tag. The code does
not rely on that: any fragment without a right bracket is drawn whole in
the base font, and the first fragment is read as tagged when it holds one.

## Model

| member | source | states |
|---|---|---|
| StringFontPairs.GettersReturnFields | core/src/me/veegie/gdxfbf/StringFontPair.java:22-36 | `getString` returns exactly the string the pair was built with, and `getFont` exactly the font |
| StringFontPairs.StringFontPair.GetString | core/src/me/veegie/gdxfbf/StringFontPair.java:28-31 | `getString` returns the stored string |
| StringFontPairs.StringFontPair.GetFont | core/src/me/veegie/gdxfbf/StringFontPair.java:33-36 | `getFont` returns the stored font |
| StringFontPairs.PairDeterminedByGetters | core/src/me/veegie/gdxfbf/StringFontPair.java:10-37 | as a value (the model's reading of the immutable pair), a pair is nothing but its two fields: two pairs are equal iff both getters agree |
| RegexEscape.EscapeChar | core/src/me/veegie/gdxfbf/FormattableBitmapFont.java:223-272 | one character becomes two, a backslash then itself, when it is one of the fifteen metacharacters; otherwise it is copied alone |
| RegexEscape.EscapeRegex | core/src/me/veegie/gdxfbf/FormattableBitmapFont.java:215-277 | the loop's output is the escaped form of the input up to the first U+FFFF; for input without U+FFFF the output is one character longer per metacharacter, and deleting the inserted backslashes gives back the input |
| RegexEscape.UpToDone | core/src/me/veegie/gdxfbf/FormattableBitmapFont.java:218-275 | what the loop sees is the longest prefix free of U+FFFF; it is the whole input when the input holds no U+FFFF |
| RegexEscape.UpToDoneAt | core/src/me/veegie/gdxfbf/FormattableBitmapFont.java:219-275 | a prefix free of U+FFFF that ends at the input's end or at a U+FFFF is exactly the part the loop sees |
| RegexEscape.EscapingStopsAtDone | core/src/me/veegie/gdxfbf/FormattableBitmapFont.java:221 | the text after an embedded U+FFFF is dropped: `a` U+FFFF `b` escapes to `a` |
| RegexEscape.EscapedConcat | core/src/me/veegie/gdxfbf/FormattableBitmapFont.java:221-275 | escaping works character by character in input order: escaping a concatenation concatenates the escaped parts |
| RegexEscape.EscapedLength | core/src/me/veegie/gdxfbf/FormattableBitmapFont.java:223-272 | the escaped length is the input length plus the number of metacharacters |
| RegexEscape.UnescapeEscaped | core/src/me/veegie/gdxfbf/FormattableBitmapFont.java:223-272 | deleting each inserted backslash gives back the input (round trip) |
| RegexEscape.MetaCountZero | core/src/me/veegie/gdxfbf/FormattableBitmapFont.java:223-272 | the metacharacter count is zero iff no character is a metacharacter |
| RegexEscape.EscapedUnchanged | core/src/me/veegie/gdxfbf/FormattableBitmapFont.java:270-272 | escaping leaves a string unchanged iff it holds no metacharacter |
| RegexEscape.EscapedMembers | core/src/me/veegie/gdxfbf/FormattableBitmapFont.java:223-272 | escaping adds no character except the backslash and removes none: any other character is in the output iff it is in the input |
| RegexEscape.DefaultDelimitersUnchanged | core/src/me/veegie/gdxfbf/FormattableBitmapFont.java:29-37 | the defaults `<`, `>` and `/` come out of escaping unchanged |
| RegexEscape.EscapedSquareBracket | core/src/me/veegie/gdxfbf/FormattableBitmapFont.java:255-257 | `]` is escaped to the two characters `\]` |
| RegexEscape.Unescape | core/src/me/veegie/gdxfbf/FormattableBitmapFont.java:168 | the literal text a pattern of plain characters and backslash escapes matches is no longer than the pattern, and is non-empty when the pattern is |
| JavaText.IndexFrom | core/src/me/veegie/gdxfbf/FormattableBitmapFont.java:172 | the search from position i returns the first occurrence at or after i, or -1 when there is none from i on |
| JavaText.IndexOf | core/src/me/veegie/gdxfbf/FormattableBitmapFont.java:172 | `indexOf` is -1 iff the text does not occur; otherwise the text occurs at the result and at no earlier index |
| JavaText.SplitLiteral | core/src/me/veegie/gdxfbf/FormattableBitmapFont.java:168 | cutting at every non-overlapping occurrence, left to right, yields at least one piece |
| JavaText.StripTrailingEmpty | core/src/me/veegie/gdxfbf/FormattableBitmapFont.java:168 | limit-0 trimming keeps a prefix of the pieces, drops only empty pieces, and leaves no empty piece last |
| JavaText.JavaSplit | core/src/me/veegie/gdxfbf/FormattableBitmapFont.java:168 | `split` of an input without a match is the input alone; otherwise the fragments are a prefix of the literal split |
| JavaText.JoinSnoc | core/src/me/veegie/gdxfbf/FormattableBitmapFont.java:127-131 | appending a piece to a joined list adds a separator and that piece, except for the first piece |
| JavaText.SplitUnfold | core/src/me/veegie/gdxfbf/FormattableBitmapFont.java:168 | at the first occurrence of the delimiter, the split is the piece before it followed by the split of the rest, and the input is that piece, the delimiter and the rest |
| JavaText.SplitThenJoin | core/src/me/veegie/gdxfbf/FormattableBitmapFont.java:168 | joining the pieces of a split with the delimiter gives back the input |
| JavaText.JoinThenSplit | core/src/me/veegie/gdxfbf/FormattableBitmapFont.java:127-131 | splitting a join on a one-character separator that no piece contains gives back the pieces |
| JavaText.SplitPiecesAvoidDelimiter | core/src/me/veegie/gdxfbf/FormattableBitmapFont.java:168 | no piece of a literal split contains the delimiter |
| JavaText.SplitPiecesInherit | core/src/me/veegie/gdxfbf/FormattableBitmapFont.java:168 | a text the input does not contain is in no piece of its split |
| JavaText.ConcatStripTrailingEmpty | core/src/me/veegie/gdxfbf/FormattableBitmapFont.java:168 | dropping trailing empty pieces does not change their concatenation |
| JavaText.DeletedSkips | core/src/me/veegie/gdxfbf/FormattableBitmapFont.java:168 | deleting the delimiter leaves a leading stretch where it does not start as it is |
| JavaText.ConcatSplitIsDeleted | core/src/me/veegie/gdxfbf/FormattableBitmapFont.java:168 | the literal split's pieces, laid end to end, are the input with every delimiter deleted (independent scanner `Deleted`) |
| JavaText.JavaSplitAvoidsDelimiter | core/src/me/veegie/gdxfbf/FormattableBitmapFont.java:168 | no fragment returned by `split` contains the delimiter |
| JavaText.JavaSplitConcat | core/src/me/veegie/gdxfbf/FormattableBitmapFont.java:168 | `split`'s fragments laid end to end are the input with every delimiter deleted; a match at index 0 gives a leading empty fragment |
| JavaText.JavaSplitInherits | core/src/me/veegie/gdxfbf/FormattableBitmapFont.java:168 | a text the input does not contain is in no fragment returned by `split` |
| FormattableFont.RegistryStep | core/src/me/veegie/gdxfbf/FormattableBitmapFont.java:123-132 | one loop step puts the pair into the map and appends its tag to the bar-joined tags |
| FormattableFont.FontMapKeys | core/src/me/veegie/gdxfbf/FormattableBitmapFont.java:116-132 | the map's key set is exactly the set of tags of the pairs |
| FormattableFont.FontMapLastWins | core/src/me/veegie/gdxfbf/FormattableBitmapFont.java:126 | a tag is bound to the font of the last pair carrying it |
| FormattableFont.AlternationListsTags | core/src/me/veegie/gdxfbf/FormattableBitmapFont.java:121-133 | the group is `(`, then the tags joined by vertical bars, then `)`; when no tag holds a vertical bar, the alternatives are exactly the tags in list order |
| FormattableFont.TagsPattern | core/src/me/veegie/gdxfbf/FormattableBitmapFont.java:135-136 | the pattern starts and ends with `.*`; right after the first `.*` come the left bracket, the group of tags and the right bracket; right before the last `.*` come the left bracket, the close marker, U+0001 and the right bracket |
| FormattableFont.DefaultPatternForBold | core/src/me/veegie/gdxfbf/FormattableBitmapFont.java:135-136 | with the defaults and one tag `b` the pattern is `.*<(b)>.*</`, then U+0001, then `>.*` |
| FormattableFont.WarningMessage | core/src/me/veegie/gdxfbf/FormattableBitmapFont.java:197-198 | the warning starts with the library's prefix and names the offending tag right after it |
| FormattableFont.FormattableBitmapFont.constructor | core/src/me/veegie/gdxfbf/FormattableBitmapFont.java:109-137 | the fields hold the escaped delimiters, the base font, the map built from the pairs and the pre-check pattern; the left bracket splits literally iff it is non-empty and has no vertical bar, and then it matches the caller's left bracket; the ghost field `leftBracketSource` keeps the caller's left bracket as passed |
| FormattableFont.FormattableBitmapFont.WithDefaults | core/src/me/veegie/gdxfbf/FormattableBitmapFont.java:77-81 | the default constructor stores `<`, `>` and `/` unchanged; its left bracket splits on `<` |
| FormattableFont.FormattableBitmapFont.BuildRegistry | core/src/me/veegie/gdxfbf/FormattableBitmapFont.java:116-133 | the loop leaves the map of the pairs, whose keys are exactly their tags, and the group `(` + tags joined by vertical bars + `)` |
| FormattableFont.FormattableBitmapFont.LeftBracketText | core/src/me/veegie/gdxfbf/FormattableBitmapFont.java:168 | when the stored left bracket is the escaping of the caller's (cut at U+FFFF), the text it matches literally is exactly the caller's text, non-empty and no longer than the stored field |
| FormattableFont.FormattableBitmapFont.TagOf | core/src/me/veegie/gdxfbf/FormattableBitmapFont.java:172-182 | a fragment has a tag iff it holds the (escaped) right bracket; the tag is the prefix before the first occurrence |
| FormattableFont.FormattableBitmapFont.TextOf | core/src/me/veegie/gdxfbf/FormattableBitmapFont.java:172-183 | without a right bracket the text is the whole fragment; otherwise the fragment is tag, right bracket, text |
| FormattableFont.FormattableBitmapFont.FontFor | core/src/me/veegie/gdxfbf/FormattableBitmapFont.java:185-200 | the font a tag selects is the base font or a font of the map |
| FormattableFont.FormattableBitmapFont.SegmentOfFacts | core/src/me/veegie/gdxfbf/FormattableBitmapFont.java:172-202 | a segment's text is a suffix of its fragment, its font is the base font or a map font, and a fragment without a right bracket comes out unchanged in the base font |
| FormattableFont.FormattableBitmapFont.SegmentsOfAt | core/src/me/veegie/gdxfbf/FormattableBitmapFont.java:170-205 | one segment per fragment, in fragment order |
| FormattableFont.FormattableBitmapFont.Fragments | core/src/me/veegie/gdxfbf/FormattableBitmapFont.java:168 | an input without the left bracket is one fragment, itself; otherwise the fragments are a prefix of the literal split on the left bracket (trailing empty pieces dropped) |
| FormattableFont.FormattableBitmapFont.SegmentOf | core/src/me/veegie/gdxfbf/FormattableBitmapFont.java:172-202 | a fragment without a tag comes out unchanged in the base font; for a tagged fragment the segment text is what follows the tag and its right bracket, and the font is the one the tag resolves to |
| FormattableFont.FormattableBitmapFont.DiagnosticsOf | core/src/me/veegie/gdxfbf/FormattableBitmapFont.java:192-198 | a fragment logs at most one warning, one exactly when its tag is unknown, and that warning names the tag |
| FormattableFont.FormattableBitmapFont.FormatText | core/src/me/veegie/gdxfbf/FormattableBitmapFont.java:166-206 | the loop returns the segments of the split fragments and logs exactly the warnings of the fragments, in order |
| FormattableFont.FormattableBitmapFont.FragmentStep | core/src/me/veegie/gdxfbf/FormattableBitmapFont.java:170-204 | handling one more fragment appends its segment and its warnings |
| FormattableFont.FormattableBitmapFont.SegmentsFacts | core/src/me/veegie/gdxfbf/FormattableBitmapFont.java:168-205 | `formatText` emits exactly one segment per split fragment, in order, each in the base font or a map font |
| FormattableFont.FormattableBitmapFont.FontResolution | core/src/me/veegie/gdxfbf/FormattableBitmapFont.java:173-202 | no tag or a closing tag gives the base font and no warning; a known tag gives its font and no warning; any other tag, the empty one included, gives the base font and exactly one warning naming it |
| FormattableFont.FormattableBitmapFont.WarningCount | core/src/me/veegie/gdxfbf/FormattableBitmapFont.java:185-200 | a fragment logs one warning when its tag is unknown and none otherwise |
| FormattableFont.FormattableBitmapFont.IndicesSnoc | core/src/me/veegie/gdxfbf/FormattableBitmapFont.java:170-204 | one more fragment adds its position to the unknown-tag positions iff its tag is unknown |
| FormattableFont.FormattableBitmapFont.DiagnosticsCount | core/src/me/veegie/gdxfbf/FormattableBitmapFont.java:170-204 | the log holds exactly one warning per fragment with an unknown tag |
| FormattableFont.FormattableBitmapFont.SegmentTextsAvoidLeftBracket | core/src/me/veegie/gdxfbf/FormattableBitmapFont.java:168-183 | one segment per fragment, and no segment text contains the left bracket |
| FormattableFont.FormattableBitmapFont.SegmentTextAvoids | core/src/me/veegie/gdxfbf/FormattableBitmapFont.java:182-183 | a text missing from a fragment is missing from its segment text |
| FormattableFont.FormattableBitmapFont.NoLeftBracketOneSegment | core/src/me/veegie/gdxfbf/FormattableBitmapFont.java:168-178 | input without the left bracket is one fragment and one segment; without a right bracket either, that segment is (input, base font) and nothing is logged |
| FormattableFont.FormattableBitmapFont.UntaggedTextConcat | core/src/me/veegie/gdxfbf/FormattableBitmapFont.java:168-178 | input with no right bracket gives each fragment unchanged in the base font, logs nothing, and its segment texts laid end to end are the input with every left bracket deleted |
| FormattableFont.FormattableBitmapFont.UntaggedFragments | core/src/me/veegie/gdxfbf/FormattableBitmapFont.java:172-178 | fragments without a right bracket become base-font segments of themselves, with no warning |
| FormattableFont.FormattableBitmapFont.UntaggedSegments | core/src/me/veegie/gdxfbf/FormattableBitmapFont.java:172-178 | fragments without a right bracket become, one by one, base-font segments of themselves, and their segment texts are the fragments |
| FormattableFont.FormattableBitmapFont.UntaggedSegment | core/src/me/veegie/gdxfbf/FormattableBitmapFont.java:172-178 | a single fragment without a right bracket is its own segment, in the base font |
| FormattableFont.FormattableBitmapFont.NoUnknownTags | core/src/me/veegie/gdxfbf/FormattableBitmapFont.java:172-198 | fragments without a right bracket log no warning |
| FormattableFont.FormattableBitmapFont.MarkupOf | core/src/me/veegie/gdxfbf/FormattableBitmapFont.java:182-183 | the part formatText drops is a prefix of the fragment, ends with the right bracket, is empty when there is none, and the rest is the segment text |
| FormattableFont.FormattableBitmapFont.SegmentTextsUnmarked | core/src/me/veegie/gdxfbf/FormattableBitmapFont.java:170-204 | the segment texts of fragments are, one by one, the fragments without their prefix up to and including the first right bracket |
| FormattableFont.FormattableBitmapFont.FormattedTextConcat | core/src/me/veegie/gdxfbf/FormattableBitmapFont.java:166-206 | for a whole input, the texts of `formatText`'s segments are its fragments with the markup stripped, one by one and laid end to end |
| FormattableFont.FormattableBitmapFont.ConcatSegmentTexts | core/src/me/veegie/gdxfbf/FormattableBitmapFont.java:166-206 | the segment texts laid end to end equal the fragments laid end to end, each without its prefix up to and including the first right bracket |
| FormattableFont.FormattableBitmapFont.ThreeFragments | core/src/me/veegie/gdxfbf/FormattableBitmapFont.java:170-204 | three fragments give their three segments and their warnings, in order |
| FormattableFont.FormattableBitmapFont.BoldExample | core/src/me/veegie/gdxfbf/FormattableBitmapFont.java:166-206 | with the defaults and `b` bound, `<b>hi</b>` gives ("", base), ("hi", bold), ("", base) and no warning |
| FormattableFont.FormattableBitmapFont.BoldFragments | core/src/me/veegie/gdxfbf/FormattableBitmapFont.java:172-202 | the fragments `""`, `b>hi` and `/b>` give ("", base), ("hi", bold) and ("", base), with no warning |
| FormattableFont.FormattableBitmapFont.EscapedRightBracketIsSearchedLiterally | core/src/me/veegie/gdxfbf/FormattableBitmapFont.java:112-114 | with `]` as the right bracket the field holds `\]`, so `b]hi` is not read as a tag |
| FormattableFont.SplitExample | core/src/me/veegie/gdxfbf/FormattableBitmapFont.java:168 | `"<b>hi</b>".split("<")` is `["", "b>hi", "/b>"]`, with the leading empty fragment |
| FormattableFont.IndexOfExamples | core/src/me/veegie/gdxfbf/FormattableBitmapFont.java:168 | the first `<` in `<b>hi</b>` is at 0 and in `b>hi</b>` at 4; there is none in `/b>` |
| FormattableFont.RightBracketExamples | core/src/me/veegie/gdxfbf/FormattableBitmapFont.java:172 | the first `>` is at 1 in `b>hi` and at 2 in `/b>`; there is none in `""` |

## Left out

- `draw`: libGDX rendering with `SpriteBatch`, `GlyphLayout` and float
  cursor arithmetic. It is not part of this model.
- Matching `tagsRegex` against the input in `draw`. That is the
  java.util.regex engine. Only the construction of the pattern string is
  modelled.
- The regular-expression reading of `split`'s argument. `FormatText`
  requires `SplitsLiterally()`: the stored left bracket must be non-empty
  and hold no `|`. `|` is the one metacharacter `escapeRegex` does not
  escape. Under that condition the pattern matches exactly
  `LeftBracketText()`. An empty left bracket or one holding `|` is not
  modelled.
- `Gdx.app.log` is a foreign logging call. The model returns the logged
  messages as `log`, in order. The "WARNING" log tag is not modelled.
- Null fonts, null tags and a null input string are not modelled.
  `fonts.get(tag) == null` becomes "the tag is not a key of the map".
- Java strings are UTF-16 code units and Dafny `char` is a Unicode scalar
  value. Surrogate pairs are not modelled.
- `TagFontPair` and `BitmapFontFormat` are not part of this model. The
  engine uses neither.
- Duplicate-tag rejection and delimiter validation. The code does neither.
- `HashMap` capacity and iteration order. The map is a Dafny `map`.
- StringFontPairs.PairDeterminedByGetters: states equality of pairs as
  values. The Java class does not override `equals`, so two pairs built
  from the same string and font are distinct objects there; object
  identity is not modelled, and the engine never compares pairs.
- FormattableFont.FormattableBitmapFont.TagOf: states "no earlier
  occurrence of the right bracket in the fragment". It does not state "the
  tag holds no right bracket", which fails when the right bracket is empty.
- FormattableFont.FormattableBitmapFont.NoLeftBracketOneSegment: a
  one-segment input comes out as (input, base font) only when it also has
  no right bracket. Otherwise the text before the first right bracket is
  read as a tag.
