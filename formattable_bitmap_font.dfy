/**
 * `FormattableBitmapFont`: a base font plus fonts selected by inline tags
 * (by default `<b>bold</b>`). Configuration escapes the three delimiters,
 * builds the tag-to-font map and the pattern string that `draw` uses as a
 * pre-check; `formatText` cuts a string into (text, font) segments.
 *
 * The font type is an opaque type parameter `F`.
 */
module FormattableFont {
  import opened Options
  import opened StringFontPairs
  import opened JavaText
  import opened RegexEscape

  const TagLeftBracketDefault: string := "<"
  const TagRightBracketDefault: string := ">"
  const TagCloseDefault: string := "/"

  /** The character the source writes as the octal escape `"\1"`: U+0001, not a group reference. */
  const StartOfHeading: char := '\U{1}'

  /** The tag names of the pairs, in list order. */
  function Tags<F>(pairs: seq<StringFontPair<F>>): seq<string>
  {
    seq(|pairs|, i requires 0 <= i < |pairs| => pairs[i].str)
  }

  /** The texts of the segments, in order. */
  function Texts<F>(segments: seq<StringFontPair<F>>): seq<string>
  {
    seq(|segments|, i requires 0 <= i < |segments| => segments[i].str)
  }

  lemma TextsSnoc<F>(segments: seq<StringFontPair<F>>, segment: StringFontPair<F>)
    ensures Texts(segments + [segment]) == Texts(segments) + [segment.str]
  {
  }

  /** Each string paired with the same font. */
  function InFont<F>(strs: seq<string>, font: F): seq<StringFontPair<F>>
  {
    seq(|strs|, i requires 0 <= i < |strs| => StringFontPair(strs[i], font))
  }

  /** Pairing each string with one font and reading the strings back gives the strings. */
  lemma InFontTexts<F>(strs: seq<string>, font: F)
    ensures Texts(InFont(strs, font)) == strs
  {
  }

  /** The tag-to-font map after putting the pairs into an empty map one by one, in list order. */
  function FontMap<F>(pairs: seq<StringFontPair<F>>): map<string, F>
  {
    if pairs == [] then map[]
    else FontMap(pairs[..|pairs| - 1])[pairs[|pairs| - 1].str := pairs[|pairs| - 1].font]
  }

  /** One more pair puts one more entry into the map and one more tag into the group. */
  lemma RegistryStep<F>(pairs: seq<StringFontPair<F>>, i: nat)
    requires i < |pairs|
    ensures FontMap(pairs[..i + 1]) == FontMap(pairs[..i])[pairs[i].str := pairs[i].font]
    ensures JoinWith(Tags(pairs[..i + 1]), "|") ==
      if i == 0 then pairs[i].str else JoinWith(Tags(pairs[..i]), "|") + "|" + pairs[i].str
  {
    assert pairs[..i + 1][..i] == pairs[..i];
    assert Tags(pairs[..i + 1]) == Tags(pairs[..i]) + [pairs[i].str];
    JoinSnoc(Tags(pairs[..i]), pairs[i].str, "|");
  }

  /** The map's keys are exactly the tags of the pairs. */
  lemma {:induction false} FontMapKeys<F>(pairs: seq<StringFontPair<F>>)
    ensures FontMap(pairs).Keys == set i | 0 <= i < |pairs| :: pairs[i].str
    decreases |pairs|
  {
    if pairs != [] {
      var init := pairs[..|pairs| - 1];
      FontMapKeys(init);
      assert forall i :: 0 <= i < |init| ==> init[i] == pairs[i];
      var keys := set i | 0 <= i < |pairs| :: pairs[i].str;
      var initKeys := set i | 0 <= i < |init| :: init[i].str;
      assert keys == initKeys + {pairs[|pairs| - 1].str} by {
        forall t | t in keys ensures t in initKeys + {pairs[|pairs| - 1].str} {
          var i :| 0 <= i < |pairs| && pairs[i].str == t;
          if i < |init| { assert init[i].str == t; }
        }
      }
    }
  }

  /** A tag is bound to the font of the last pair that carries it: later bindings win. */
  lemma {:induction false} FontMapLastWins<F>(pairs: seq<StringFontPair<F>>, j: nat)
    requires j < |pairs|
    requires forall k :: j < k < |pairs| ==> pairs[k].str != pairs[j].str
    ensures pairs[j].str in FontMap(pairs) && FontMap(pairs)[pairs[j].str] == pairs[j].font
    decreases |pairs|
  {
    if j < |pairs| - 1 {
      var init := pairs[..|pairs| - 1];
      assert init[j] == pairs[j];
      FontMapLastWins(init, j);
    }
  }

  /** The group of alternatives in the pre-check pattern: the tags joined by `|`, in parentheses. */
  function Alternation<F>(pairs: seq<StringFontPair<F>>): string
  {
    "(" + JoinWith(Tags(pairs), "|") + ")"
  }

  /**
   * The pre-check pattern: any text, an opening tag naming one of the tags,
   * any text, then a closing tag whose name is the character U+0001.
   */
  function TagsPattern<F>(left: string, right: string, close: string, pairs: seq<StringFontPair<F>>): (pattern: string)
    ensures |pattern| >= 9 && pattern[..2] == ".*" && pattern[|pattern| - 2..] == ".*"
    ensures OccursAt(pattern, left + Alternation(pairs) + right, 2)
    ensures OccursAt(pattern, left + close + [StartOfHeading] + right, |pattern| - 2 - |left + close + [StartOfHeading] + right|)
  {
    ".*" + left + Alternation(pairs) + right + ".*" + left + close + [StartOfHeading] + right + ".*"
  }

  /** When no tag holds `|`, the alternatives in the group are exactly the tags, in list order. */
  lemma AlternationListsTags<F>(pairs: seq<StringFontPair<F>>)
    requires |pairs| >= 1
    requires forall i :: 0 <= i < |pairs| ==> '|' !in pairs[i].str
    ensures var a := Alternation(pairs);
      |a| >= 2 && a[0] == '(' && a[|a| - 1] == ')' && SplitLiteral(a[1..|a| - 1], "|") == Tags(pairs)
  {
    var a := Alternation(pairs);
    assert a[1..|a| - 1] == JoinWith(Tags(pairs), "|");
    JoinThenSplit(Tags(pairs), '|');
  }

  /** With the default delimiters and one tag `b`, the pattern is `.*<(b)>.*</` U+0001 `>.*`. */
  lemma DefaultPatternForBold<F>(bold: F)
    ensures TagsPattern("<", ">", "/", [StringFontPair("b", bold)]) == ".*<(b)>.*</" + [StartOfHeading] + ">.*"
  {
    assert Tags([StringFontPair("b", bold)]) == ["b"];
  }

  const WarningPrefix: string := "gdx-fbf: Invalid or undefined font tag \""

  /** The warning logged for a tag that names no font. */
  function WarningMessage(tag: string): (message: string)
    ensures OccursAt(message, tag, |WarningPrefix|)
    ensures message[..|WarningPrefix|] == WarningPrefix
  {
    WarningPrefix + tag + "\" in input string."
  }

  class FormattableBitmapFont<F> {
    /** The font for untagged text, closing tags and unknown tags. */
    const baseFont: F
    /** The three delimiters, each as escapeRegex returned it. */
    const tagLeftBracket: string
    const tagRightBracket: string
    const tagClose: string
    /** Tag name to font. */
    const fonts: map<string, F>
    /** The pre-check pattern `draw` matches input against. */
    const tagsRegex: string
    /** The left bracket as the caller passed it, before escaping. */
    ghost const leftBracketSource: string

    /** The list-taking constructor: escape the delimiters, fill the map, build the pattern. */
    constructor (tagLeftBracket: string, tagRightBracket: string, tagClose: string,
                 baseFont: F, tagFontPairs: seq<StringFontPair<F>>)
      ensures leftBracketSource == tagLeftBracket
      ensures this.tagLeftBracket == Escaped(UpToDone(tagLeftBracket))
      ensures this.tagRightBracket == Escaped(UpToDone(tagRightBracket))
      ensures this.tagClose == Escaped(UpToDone(tagClose))
      ensures this.baseFont == baseFont
      ensures fonts == FontMap(tagFontPairs)
      ensures tagsRegex == TagsPattern(this.tagLeftBracket, this.tagRightBracket, this.tagClose, tagFontPairs)
      ensures SplitsLiterally() <==> UpToDone(tagLeftBracket) != [] && '|' !in UpToDone(tagLeftBracket)
      ensures SplitsLiterally() ==> LeftBracketText() == UpToDone(tagLeftBracket)
    {
      var left := EscapeRegex(tagLeftBracket);
      var right := EscapeRegex(tagRightBracket);
      var close := EscapeRegex(tagClose);
      var registry, alternation := BuildRegistry(tagFontPairs);
      this.tagLeftBracket := left;
      leftBracketSource := tagLeftBracket;
      this.tagRightBracket := right;
      this.tagClose := close;
      this.baseFont := baseFont;
      fonts := registry;
      tagsRegex := ".*" + left + alternation + right + ".*" + left + close + [StartOfHeading] + right + ".*";
      EscapedMembers(UpToDone(tagLeftBracket), '|');
      UnescapeEscaped(UpToDone(tagLeftBracket));
    }

    /** The constructor taking only a base font and pairs: delimiters `<`, `>` and `/`. */
    static method WithDefaults(baseFont: F, tagFontPairs: seq<StringFontPair<F>>)
      returns (font: FormattableBitmapFont<F>)
      ensures font.tagLeftBracket == "<" && font.tagRightBracket == ">" && font.tagClose == "/"
      ensures font.baseFont == baseFont && font.fonts == FontMap(tagFontPairs)
      ensures font.tagsRegex == TagsPattern("<", ">", "/", tagFontPairs)
      ensures font.SplitsLiterally() && font.LeftBracketText() == "<"
    {
      DefaultDelimitersUnchanged();
      font := new FormattableBitmapFont(TagLeftBracketDefault, TagRightBracketDefault, TagCloseDefault,
                                        baseFont, tagFontPairs);
    }

    /** The constructor's loop: put each pair into the map and append its tag to the group. */
    static method BuildRegistry(tagFontPairs: seq<StringFontPair<F>>)
      returns (registry: map<string, F>, alternation: string)
      ensures registry == FontMap(tagFontPairs)
      ensures registry.Keys == set i | 0 <= i < |tagFontPairs| :: tagFontPairs[i].str
      ensures alternation == Alternation(tagFontPairs)
    {
      registry := map[];
      var sb := "(";
      ghost var joined := "";
      for i := 0 to |tagFontPairs|
        invariant registry == FontMap(tagFontPairs[..i])
        invariant joined == JoinWith(Tags(tagFontPairs[..i]), "|")
        invariant 0 < i < |tagFontPairs| ==> sb == "(" + joined + "|"
        invariant !(0 < i < |tagFontPairs|) ==> sb == "(" + joined
      {
        var pair := tagFontPairs[i];
        RegistryStep(tagFontPairs, i);
        registry := registry[pair.GetString() := pair.GetFont()];
        sb := sb + pair.GetString();
        if i == 0 {
          joined := pair.str;
        } else {
          joined := joined + "|" + pair.str;
        }
        assert sb == "(" + joined;
        if i + 1 < |tagFontPairs| {
          sb := sb + "|";
        }
      }
      sb := sb + ")";
      alternation := sb;
      assert tagFontPairs[..|tagFontPairs|] == tagFontPairs;
      FontMapKeys(tagFontPairs);
    }

    /**
     * `split` treats the stored left bracket as a pattern. It matches one
     * literal text when the field is the escaped form of the caller's text
     * and that text is non-empty and holds no `|`, the one pattern
     * metacharacter escapeRegex leaves alone.
     */
    ghost predicate SplitsLiterally() {
      var source := UpToDone(leftBracketSource);
      tagLeftBracket == Escaped(source) && source != [] && '|' !in source
    }

    /** The text the stored left-bracket pattern matches: the caller's left bracket. */
    function LeftBracketText(): (text: string)
      requires SplitsLiterally()
      ensures text == UpToDone(leftBracketSource)
      ensures text != [] && |text| <= |tagLeftBracket|
    {
      UnescapeEscaped(UpToDone(leftBracketSource));
      Unescape(tagLeftBracket)
    }

    /**
     * `str.split(tagLeftBracket)`. Input without the left bracket is one
     * fragment, itself; otherwise the fragments are the literal split on the
     * left bracket, up to the trailing empty pieces Java drops.
     */
    function Fragments(str: string): (fragments: seq<string>)
      requires SplitsLiterally()
      ensures !Occurs(str, LeftBracketText()) ==> fragments == [str]
      ensures Occurs(str, LeftBracketText()) ==> fragments <= SplitLiteral(str, LeftBracketText())
    {
      JavaSplit(str, LeftBracketText())
    }

    /** The tag token of a fragment: what precedes its first (escaped) right bracket, if it has one. */
    function TagOf(s: string): (tag: Option<string>)
      ensures tag == None <==> !Occurs(s, tagRightBracket)
      ensures tag.Some? ==> |tag.value| <= |s| && s[..|tag.value|] == tag.value
      ensures tag.Some? ==> OccursAt(s, tagRightBracket, |tag.value|)
      ensures tag.Some? ==> forall j :: 0 <= j < |tag.value| ==> !OccursAt(s, tagRightBracket, j)
    {
      var k := IndexOf(s, tagRightBracket);
      if k == -1 then None else Some(s[..k])
    }

    /** The text of a fragment's segment: everything after the tag token and its right bracket. */
    function TextOf(s: string): (text: string)
      ensures TagOf(s) == None ==> text == s
      ensures TagOf(s).Some? ==> s == TagOf(s).value + tagRightBracket + text
    {
      var k := IndexOf(s, tagRightBracket);
      if k == -1 then s
      else
        assert s == s[..k] + s[k..k + |tagRightBracket|] + s[k + |tagRightBracket|..];
        s[k + |tagRightBracket|..]
    }

    /** `font` is the font of some tag in the map. */
    ghost predicate IsBoundFont(font: F) {
      exists tag :: tag in fonts && fonts[tag] == font
    }

    /** A tag that does not start with the close marker and names no font. */
    predicate IsUnknown(tag: string) {
      !(tagClose <= tag) && tag !in fonts
    }

    /** The font a tag token selects. */
    function FontFor(tag: string): (font: F)
      ensures font == baseFont || IsBoundFont(font)
    {
      if tagClose <= tag then baseFont
      else if tag in fonts then fonts[tag]
      else baseFont
    }

    /** The segment formatText emits for one fragment. */
    function SegmentOf(s: string): (segment: StringFontPair<F>)
      ensures |segment.str| <= |s|
      ensures TagOf(s) == None ==> segment == StringFontPair(s, baseFont)
      ensures TagOf(s).Some? ==> segment.font == FontFor(TagOf(s).value)
      ensures TagOf(s).Some? ==> segment.str == s[|TagOf(s).value| + |tagRightBracket|..]
    {
      match TagOf(s)
      case None => StringFontPair(TextOf(s), baseFont)
      case Some(tag) => StringFontPair(TextOf(s), FontFor(tag))
    }

    /**
     * A segment's text is a suffix of its fragment, its font is the base font
     * or a font of the map, and a fragment without a right bracket comes out
     * unchanged in the base font.
     */
    lemma SegmentOfFacts(s: string)
      ensures var segment := SegmentOf(s);
        |segment.str| <= |s| && s[|s| - |segment.str|..] == segment.str
      ensures SegmentOf(s).font == baseFont || IsBoundFont(SegmentOf(s).font)
      ensures !Occurs(s, tagRightBracket) ==> SegmentOf(s) == StringFontPair(s, baseFont)
    {
      var text := TextOf(s);
      if TagOf(s).Some? {
        assert s == (TagOf(s).value + tagRightBracket) + text;
      }
    }

    /** The warnings formatText logs for one fragment. */
    function DiagnosticsOf(s: string): (warnings: seq<string>)
      ensures |warnings| <= 1
      ensures warnings != [] <==> HasUnknownTag(s)
      ensures warnings != [] ==> warnings[0] == WarningMessage(TagOf(s).value)
    {
      match TagOf(s)
      case Some(tag) => if IsUnknown(tag) then [WarningMessage(tag)] else []
      case None => []
    }

    /** The warnings logged for a list of fragments, in fragment order. */
    function Diagnostics(fragments: seq<string>): seq<string>
    {
      if fragments == [] then []
      else Diagnostics(fragments[..|fragments| - 1]) + DiagnosticsOf(fragments[|fragments| - 1])
    }

    /** The segments for a list of fragments: one per fragment, in fragment order. */
    function SegmentsOf(fragments: seq<string>): seq<StringFontPair<F>>
    {
      if fragments == [] then []
      else SegmentsOf(fragments[..|fragments| - 1]) + [SegmentOf(fragments[|fragments| - 1])]
    }

    /** The segments formatText returns for `str`. */
    function Segments(str: string): seq<StringFontPair<F>>
      requires SplitsLiterally()
    {
      SegmentsOf(Fragments(str))
    }

    /** Segment `i` is the segment of fragment `i`. */
    lemma {:induction false} SegmentsOfAt(fragments: seq<string>)
      ensures |SegmentsOf(fragments)| == |fragments|
      ensures forall i :: 0 <= i < |fragments| ==> SegmentsOf(fragments)[i] == SegmentOf(fragments[i])
      decreases |fragments|
    {
      if fragments != [] {
        var n := |fragments| - 1;
        var init := fragments[..n];
        assert fragments == init + [fragments[n]];
        SegmentsOfAt(init);
        var segments := SegmentsOf(init) + [SegmentOf(fragments[n])];
        assert SegmentsOf(fragments) == segments;
        forall i | 0 <= i < |fragments| ensures segments[i] == SegmentOf(fragments[i]) {
          if i < n {
            assert segments[i] == SegmentsOf(init)[i];
            assert init[i] == fragments[i];
          }
        }
      }
    }

    /** `formatText(str)`, with the warnings it logs returned as `log`. */
    method FormatText(str: string) returns (segments: seq<StringFontPair<F>>, log: seq<string>)
      requires SplitsLiterally()
      ensures segments == Segments(str)
      ensures log == Diagnostics(Fragments(str))
    {
      var fragments := JavaSplit(str, Unescape(tagLeftBracket));
      segments := [];
      log := [];
      for i := 0 to |fragments|
        invariant segments == SegmentsOf(fragments[..i])
        invariant log == Diagnostics(fragments[..i])
      {
        var s := fragments[i];
        ghost var logged := log;
        var segment: StringFontPair<F>;
        var rBracketIndex := IndexOf(s, tagRightBracket);
        if rBracketIndex == -1 {
          segment := StringFontPair(s, baseFont);
          assert TagOf(s) == None;
        } else {
          var tag := s[..rBracketIndex];
          var text := s[rBracketIndex + |tagRightBracket|..];
          assert TagOf(s) == Some(tag) && TextOf(s) == text;
          var font: F;
          if tagClose <= tag {
            font := baseFont;
          } else if tag in fonts {
            font := fonts[tag];
          } else {
            log := log + [WarningMessage(tag)];
            font := baseFont;
          }
          segment := StringFontPair(text, font);
        }
        assert segment == SegmentOf(s) && log == logged + DiagnosticsOf(s);
        segments := segments + [segment];
        FragmentStep(fragments, i);
      }
      assert fragments[..|fragments|] == fragments;
    }

    /** One more fragment adds its segment and its warnings at the end. */
    lemma FragmentStep(fragments: seq<string>, i: nat)
      requires i < |fragments|
      ensures SegmentsOf(fragments[..i + 1]) == SegmentsOf(fragments[..i]) + [SegmentOf(fragments[i])]
      ensures Diagnostics(fragments[..i + 1]) == Diagnostics(fragments[..i]) + DiagnosticsOf(fragments[i])
    {
      assert fragments[..i + 1][..i] == fragments[..i];
    }

    /**
     * formatText returns one segment per fragment of the split, in order,
     * each in the base font or a font of the map.
     */
    lemma SegmentsFacts(str: string)
      requires SplitsLiterally()
      ensures |Segments(str)| == |Fragments(str)|
      ensures forall i :: 0 <= i < |Segments(str)| ==> Segments(str)[i] == SegmentOf(Fragments(str)[i])
      ensures forall i :: 0 <= i < |Segments(str)| ==>
        Segments(str)[i].font == baseFont || IsBoundFont(Segments(str)[i].font)
    {
      var fragments := Fragments(str);
      SegmentsOfAt(fragments);
      forall i | 0 <= i < |fragments| ensures SegmentOf(fragments[i]).font == baseFont || IsBoundFont(SegmentOf(fragments[i]).font) {
        SegmentOfFacts(fragments[i]);
      }
    }

    /**
     * How a fragment's font is chosen: no tag or a closing tag gives the base
     * font with no warning; a known tag gives its font with no warning; any
     * other tag gives the base font and exactly one warning naming it.
     */
    lemma FontResolution(s: string)
      ensures TagOf(s) == None ==> SegmentOf(s).font == baseFont && DiagnosticsOf(s) == []
      ensures TagOf(s).Some? && tagClose <= TagOf(s).value ==>
        SegmentOf(s).font == baseFont && DiagnosticsOf(s) == []
      ensures TagOf(s).Some? && !(tagClose <= TagOf(s).value) && TagOf(s).value in fonts ==>
        SegmentOf(s).font == fonts[TagOf(s).value] && DiagnosticsOf(s) == []
      ensures TagOf(s).Some? && IsUnknown(TagOf(s).value) ==>
        SegmentOf(s).font == baseFont && DiagnosticsOf(s) == [WarningMessage(TagOf(s).value)]
    {
    }

    /** A fragment yields a warning exactly when it carries an unknown tag. */
    predicate HasUnknownTag(s: string) {
      TagOf(s).Some? && IsUnknown(TagOf(s).value)
    }

    /** The positions of the fragments that carry an unknown tag. */
    function UnknownTagIndices(fragments: seq<string>): set<nat>
    {
      set i: nat | i < |fragments| && HasUnknownTag(fragments[i])
    }

    /** The log holds one warning per fragment with an unknown tag. */
    lemma {:induction false} DiagnosticsCount(fragments: seq<string>)
      ensures |Diagnostics(fragments)| == |UnknownTagIndices(fragments)|
      decreases |fragments|
    {
      if fragments != [] {
        var n := |fragments| - 1;
        var init, last := fragments[..n], fragments[n];
        assert fragments == init + [last];
        assert Diagnostics(fragments) == Diagnostics(init) + DiagnosticsOf(last);
        DiagnosticsCount(init);
        WarningCount(last);
        IndicesSnoc(init, last);
      } else {
        assert UnknownTagIndices(fragments) == {};
      }
    }

    /** A fragment yields one warning when its tag is unknown and none otherwise. */
    lemma WarningCount(s: string)
      ensures |DiagnosticsOf(s)| == if HasUnknownTag(s) then 1 else 0
    {
    }

    /** Adding a fragment adds its position to the unknown-tag positions exactly when its tag is unknown. */
    lemma IndicesSnoc(init: seq<string>, last: string)
      ensures UnknownTagIndices(init + [last]) ==
        UnknownTagIndices(init) + (if HasUnknownTag(last) then {|init|} else {})
      ensures |init| !in UnknownTagIndices(init)
    {
      var fragments := init + [last];
      var all := UnknownTagIndices(fragments);
      var before := UnknownTagIndices(init);
      forall i: nat | i < |init| ensures (i in all <==> i in before) {
        assert fragments[i] == init[i];
      }
      assert fragments[|init|] == last;
    }

    /** There is one segment per fragment, and no segment text contains the left bracket. */
    lemma SegmentTextsAvoidLeftBracket(str: string)
      requires SplitsLiterally()
      ensures |Segments(str)| == |Fragments(str)|
      ensures forall i :: 0 <= i < |Segments(str)| ==>
        !Occurs(Segments(str)[i].str, LeftBracketText())
    {
      var fragments := Fragments(str);
      JavaSplitAvoidsDelimiter(str, LeftBracketText());
      SegmentsOfAt(fragments);
      forall i | 0 <= i < |fragments|
        ensures !Occurs(SegmentOf(fragments[i]).str, LeftBracketText())
      {
        SegmentTextAvoids(fragments[i], LeftBracketText());
      }
    }

    /** A text a fragment does not contain is not in its segment text either. */
    lemma SegmentTextAvoids(f: string, t: string)
      requires !Occurs(f, t)
      ensures !Occurs(SegmentOf(f).str, t)
    {
      var start := |MarkupOf(f)|;
      SliceAvoids(f, start, |f|, t);
      assert f[start..|f|] == SegmentOf(f).str;
    }

    /**
     * Input without the left bracket is one fragment; if it has no right
     * bracket either, it comes back as one base-font segment and no warning.
     */
    lemma NoLeftBracketOneSegment(str: string)
      requires SplitsLiterally()
      requires !Occurs(str, LeftBracketText())
      ensures Fragments(str) == [str]
      ensures Segments(str) == [SegmentOf(str)]
      ensures !Occurs(str, tagRightBracket) ==>
        Segments(str) == [StringFontPair(str, baseFont)] && Diagnostics(Fragments(str)) == []
    {
      assert [str][..0] == [];
      SegmentOfFacts(str);
      assert Diagnostics([str]) == Diagnostics([]) + DiagnosticsOf(str);
      assert SegmentsOf([str]) == SegmentsOf([]) + [SegmentOf(str)];
    }

    /**
     * When the input holds no right bracket, every segment is a whole
     * fragment in the base font, nothing is logged, and the segment texts
     * laid end to end are the input with every left bracket deleted.
     */
    lemma UntaggedTextConcat(str: string)
      requires SplitsLiterally()
      requires !Occurs(str, tagRightBracket)
      ensures Segments(str) == InFont(Fragments(str), baseFont)
      ensures Diagnostics(Fragments(str)) == []
      ensures Concat(Texts(Segments(str))) == Deleted(str, LeftBracketText())
    {
      var text := LeftBracketText();
      var fragments := Fragments(str);
      assert Segments(str) == SegmentsOf(fragments);
      assert forall i :: 0 <= i < |fragments| ==> !Occurs(fragments[i], tagRightBracket) by {
        assert fragments == JavaSplit(str, text);
        JavaSplitInherits(str, text, tagRightBracket);
      }
      UntaggedFragments(fragments);
      assert Concat(fragments) == Deleted(str, text) by {
        JavaSplitConcat(str, text);
      }
    }

    /** Fragments without a right bracket become base-font segments of themselves, with no warning. */
    lemma UntaggedFragments(fragments: seq<string>)
      requires forall i :: 0 <= i < |fragments| ==> !Occurs(fragments[i], tagRightBracket)
      ensures SegmentsOf(fragments) == InFont(fragments, baseFont)
      ensures Texts(SegmentsOf(fragments)) == fragments
      ensures Diagnostics(fragments) == []
    {
      UntaggedSegments(fragments);
      NoUnknownTags(fragments);
    }

    /** Fragments without a right bracket become base-font segments of themselves. */
    lemma UntaggedSegments(fragments: seq<string>)
      requires forall i :: 0 <= i < |fragments| ==> !Occurs(fragments[i], tagRightBracket)
      ensures SegmentsOf(fragments) == InFont(fragments, baseFont)
      ensures Texts(SegmentsOf(fragments)) == fragments
    {
      var segments := SegmentsOf(fragments);
      var expected := InFont(fragments, baseFont);
      assert segments == expected by {
        SegmentsOfAt(fragments);
        forall i | 0 <= i < |fragments| ensures segments[i] == expected[i] {
          UntaggedSegment(fragments[i]);
        }
      }
      InFontTexts(fragments, baseFont);
    }

    /** A fragment without a right bracket is its own segment, in the base font. */
    lemma UntaggedSegment(s: string)
      requires !Occurs(s, tagRightBracket)
      ensures SegmentOf(s) == StringFontPair(s, baseFont)
    {
      assert TagOf(s) == None;
    }

    /** Fragments without a right bracket log nothing. */
    lemma NoUnknownTags(fragments: seq<string>)
      requires forall i :: 0 <= i < |fragments| ==> !Occurs(fragments[i], tagRightBracket)
      ensures Diagnostics(fragments) == []
    {
      DiagnosticsCount(fragments);
      assert UnknownTagIndices(fragments) == {};
    }

    /** The markup formatText drops from a fragment: its tag token and the right bracket after it. */
    function MarkupOf(s: string): (markup: string)
      ensures |markup| <= |s| && s[..|markup|] == markup && s[|markup|..] == SegmentOf(s).str
      ensures !Occurs(s, tagRightBracket) ==> markup == []
      ensures Occurs(s, tagRightBracket) ==> OccursAt(markup, tagRightBracket, |markup| - |tagRightBracket|)
    {
      match TagOf(s)
      case None => []
      case Some(tag) =>
        assert s == tag + tagRightBracket + TextOf(s);
        tag + tagRightBracket
    }

    /** Each fragment with its markup cut off. */
    function Unmarked(fragments: seq<string>): seq<string>
    {
      seq(|fragments|, i requires 0 <= i < |fragments| => fragments[i][|MarkupOf(fragments[i])|..])
    }

    /** Each segment text is its fragment with the markup cut off. */
    lemma SegmentTextsUnmarked(fragments: seq<string>)
      ensures Texts(SegmentsOf(fragments)) == Unmarked(fragments)
    {
      SegmentsOfAt(fragments);
    }

    /**
     * The segment texts laid end to end are the fragments laid end to end,
     * each with its markup (tag token and right bracket) cut off.
     */
    lemma ConcatSegmentTexts(fragments: seq<string>)
      ensures Concat(Texts(SegmentsOf(fragments))) == Concat(Unmarked(fragments))
    {
      SegmentTextsUnmarked(fragments);
    }

    /**
     * For an input string: the texts formatText returns are the split
     * fragments with their markup cut off, in order, and laid end to end
     * they are those stripped fragments laid end to end.
     */
    lemma FormattedTextConcat(str: string)
      requires SplitsLiterally()
      ensures Texts(Segments(str)) == Unmarked(Fragments(str))
      ensures Concat(Texts(Segments(str))) == Concat(Unmarked(Fragments(str)))
    {
      SegmentTextsUnmarked(Fragments(str));
    }

    /**
     * With the default delimiters, `<b>hi</b>` gives an empty base-font
     * segment, `hi` in the font bound to `b`, and an empty base-font segment.
     */
    lemma BoldExample(bold: F)
      requires leftBracketSource == "<"
      requires tagLeftBracket == "<" && tagRightBracket == ">" && tagClose == "/"
      requires fonts == map["b" := bold]
      ensures SplitsLiterally()
      ensures Segments("<b>hi</b>") ==
        [StringFontPair("", baseFont), StringFontPair("hi", bold), StringFontPair("", baseFont)]
      ensures Diagnostics(Fragments("<b>hi</b>")) == []
    {
      assert LeftBracketText() == "<";
      SplitExample();
      BoldSegments(bold);
      BoldDiagnostics(bold);
    }

    lemma BoldSegments(bold: F)
      requires tagRightBracket == ">" && tagClose == "/"
      requires fonts == map["b" := bold]
      ensures SegmentsOf(["", "b>hi", "/b>"]) ==
        [StringFontPair("", baseFont), StringFontPair("hi", bold), StringFontPair("", baseFont)]
    {
      ThreeFragments("", "b>hi", "/b>");
      BoldFragments(bold);
    }

    lemma BoldDiagnostics(bold: F)
      requires tagRightBracket == ">" && tagClose == "/"
      requires fonts == map["b" := bold]
      ensures Diagnostics(["", "b>hi", "/b>"]) == []
    {
      ThreeFragments("", "b>hi", "/b>");
      BoldFragments(bold);
    }

    /** Three fragments give their three segments and their warnings, in order. */
    lemma ThreeFragments(a: string, b: string, c: string)
      ensures SegmentsOf([a, b, c]) == [SegmentOf(a), SegmentOf(b), SegmentOf(c)]
      ensures Diagnostics([a, b, c]) == DiagnosticsOf(a) + DiagnosticsOf(b) + DiagnosticsOf(c)
    {
      var fragments := [a, b, c];
      assert fragments[..2] == [a, b] && [a, b][..1] == [a] && [a][..0] == [];
      var none: seq<string> := [];
      assert Diagnostics(none) == [] && none + DiagnosticsOf(a) == DiagnosticsOf(a);
      assert Diagnostics([a]) == Diagnostics(none) + DiagnosticsOf(a);
      assert SegmentsOf([a]) == [SegmentOf(a)];
      assert SegmentsOf([a, b]) == [SegmentOf(a), SegmentOf(b)];
      assert Diagnostics([a, b]) == DiagnosticsOf(a) + DiagnosticsOf(b);
    }

    /** The segment and the warnings for each fragment of `<b>hi</b>`. */
    lemma BoldFragments(bold: F)
      requires tagRightBracket == ">" && tagClose == "/"
      requires fonts == map["b" := bold]
      ensures SegmentOf("") == StringFontPair("", baseFont) && DiagnosticsOf("") == []
      ensures SegmentOf("b>hi") == StringFontPair("hi", bold) && DiagnosticsOf("b>hi") == []
      ensures SegmentOf("/b>") == StringFontPair("", baseFont) && DiagnosticsOf("/b>") == []
    {
      RightBracketExamples();
      assert "b>hi"[..1] == "b" && "b>hi"[2..] == "hi";
      assert "/b>"[..2] == "/b" && "/b>"[3..] == "" && "/" <= "/b";
    }

    /** With `]` as the right bracket the field holds `\]`, so `b]hi` is not read as a tag. */
    lemma EscapedRightBracketIsSearchedLiterally()
      requires tagRightBracket == Escaped("]")
      ensures SegmentOf("b]hi") == StringFontPair("b]hi", baseFont)
    {
      EscapedSquareBracket();
    }
  }

  lemma IndexOfExamples()
    ensures IndexOf("<b>hi</b>", "<") == 0
    ensures IndexOf("b>hi</b>", "<") == 4
    ensures IndexOf("/b>", "<") == -1
  {
    assert OccursAt("<b>hi</b>", "<", 0);
    var r1 := "b>hi</b>";
    assert OccursAt(r1, "<", 4);
    forall k | 0 <= k < 4 ensures !OccursAt(r1, "<", k) {
      assert r1[k..k + 1][0] == r1[k];
    }
    var r2 := "/b>";
    assert !Occurs(r2, "<") by {
      forall k | 0 <= k <= 3 ensures !OccursAt(r2, "<", k) {
        if k < 3 { assert r2[k..k + 1][0] == r2[k]; }
      }
    }
  }

  lemma RightBracketExamples()
    ensures IndexOf("", ">") == -1
    ensures IndexOf("b>hi", ">") == 1
    ensures IndexOf("/b>", ">") == 2
  {
    var a := "b>hi";
    assert OccursAt(a, ">", 1);
    assert a[0..1][0] == a[0];
    var b := "/b>";
    assert OccursAt(b, ">", 2);
    assert b[0..1][0] == b[0] && b[1..2][0] == b[1];
  }

  /** `"<b>hi</b>".split("<")` is `["", "b>hi", "/b>"]`. */
  lemma SplitExample()
    ensures JavaSplit("<b>hi</b>", "<") == ["", "b>hi", "/b>"]
  {
    var s := "<b>hi</b>";
    IndexOfExamples();
    assert s[..0] == "" && s[1..] == "b>hi</b>";
    var r1 := "b>hi</b>";
    assert r1[..4] == "b>hi" && r1[5..] == "/b>";
    assert SplitLiteral("/b>", "<") == ["/b>"];
    assert SplitLiteral(r1, "<") == ["b>hi", "/b>"];
    assert SplitLiteral(s, "<") == ["", "b>hi", "/b>"];
  }
}
