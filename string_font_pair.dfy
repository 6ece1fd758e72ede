/**
 * `StringFontPair`: an immutable (string, font) record. It binds a tag name
 * to a font when configuring a formattable font, and pairs a piece of text
 * with the font to draw it in when formatting. The font type is opaque.
 */
module StringFontPairs {

  datatype StringFontPair<F> = StringFontPair(str: string, font: F) {

    /** `getString()` */
    function GetString(): (s: string)
      ensures s == str
    {
      str
    }

    /** `getFont()` */
    function GetFont(): (f: F)
      ensures f == font
    {
      font
    }
  }

  /** The getters give back exactly what the pair was built from. */
  lemma GettersReturnFields<F>(s: string, f: F)
    ensures StringFontPair(s, f).GetString() == s
    ensures StringFontPair(s, f).GetFont() == f
  {
  }

  /** Two pairs are equal exactly when their getters agree. */
  lemma PairDeterminedByGetters<F>(p: StringFontPair<F>, q: StringFontPair<F>)
    ensures p == q <==> p.GetString() == q.GetString() && p.GetFont() == q.GetFont()
  {
  }
}
