/**
 * `FormattableBitmapFont.escapeRegex`: puts a backslash in front of every
 * character that the library treats as a regular-expression metacharacter and
 * copies every other character, in input order.
 */
module RegexEscape {

  /** The fifteen characters escapeRegex escapes: . \ ? * + & : { } [ ] ( ) ^ $ */
  const MetaChars: string := ".\\?*+&:{}[]()^$"

  predicate IsMetaChar(c: char) {
    c in MetaChars
  }

  /**
   * `CharacterIterator.DONE`, the value the character iterator reports past
   * the end. It is also an ordinary character, U+FFFF.
   */
  const Done: char := '\U{FFFF}'

  /** The part of `s` before its first `Done` character: what the escaping loop gets to see. */
  function UpToDone(s: string): (seen: string)
    ensures seen <= s && Done !in seen
    ensures |seen| < |s| ==> s[|seen|] == Done
    ensures Done !in s ==> seen == s
  {
    if s == [] || s[0] == Done then [] else [s[0]] + UpToDone(s[1..])
  }

  /** A prefix free of `Done` that ends the string or stops at a `Done` is what the loop sees. */
  lemma {:induction false} UpToDoneAt(s: string, i: nat)
    requires i <= |s|
    requires Done !in s[..i]
    requires i == |s| || s[i] == Done
    ensures UpToDone(s) == s[..i]
    decreases i
  {
    if i > 0 {
      assert s[..i] == [s[0]] + s[1..][..i - 1];
      UpToDoneAt(s[1..], i - 1);
    }
  }

  /** The escaping loop stops at the first U+FFFF and drops everything from there on. */
  lemma EscapingStopsAtDone()
    ensures Escaped(UpToDone("a" + [Done] + "b")) == "a"
  {
    assert UpToDone("a" + [Done] + "b") == "a";
  }

  /** What one input character becomes in the output. */
  function EscapeChar(c: char): (r: string)
    ensures |r| == if IsMetaChar(c) then 2 else 1
    ensures r[|r| - 1] == c
    ensures |r| == 2 ==> r[0] == '\\'
  {
    if IsMetaChar(c) then ['\\', c] else [c]
  }

  /** The escaped form of a whole string: each character escaped in turn. */
  function Escaped(s: string): string
  {
    if s == [] then [] else EscapeChar(s[0]) + Escaped(s[1..])
  }

  /** Number of metacharacters in `s`. */
  function MetaCount(s: string): nat
  {
    if s == [] then 0 else (if IsMetaChar(s[0]) then 1 else 0) + MetaCount(s[1..])
  }

  /**
   * Deletes each escaping backslash: a backslash followed by a character
   * stands for that character. This is also the literal text matched by a
   * pattern made only of plain characters and such escapes.
   */
  function Unescape(p: string): (s: string)
    ensures |s| <= |p|
    ensures p != [] ==> s != []
    decreases |p|
  {
    if p == [] then []
    else if p[0] == '\\' && |p| >= 2 then [p[1]] + Unescape(p[2..])
    else [p[0]] + Unescape(p[1..])
  }

  /** Escaping distributes over concatenation: each character is escaped where it stands. */
  lemma {:induction false} EscapedConcat(a: string, b: string)
    ensures Escaped(a + b) == Escaped(a) + Escaped(b)
    decreases |a|
  {
    if a != [] {
      assert (a + b)[0] == a[0];
      assert (a + b)[1..] == a[1..] + b;
      EscapedConcat(a[1..], b);
    } else {
      assert a + b == b;
    }
  }

  /** The output is one character longer than the input per metacharacter. */
  lemma {:induction false} EscapedLength(s: string)
    ensures |Escaped(s)| == |s| + MetaCount(s)
    decreases |s|
  {
    if s != [] {
      EscapedLength(s[1..]);
    }
  }

  /** Deleting the inserted backslashes gives back the input. */
  lemma {:induction false} UnescapeEscaped(s: string)
    ensures Unescape(Escaped(s)) == s
    decreases |s|
  {
    if s != [] {
      var e := EscapeChar(s[0]);
      var rest := Escaped(s[1..]);
      UnescapeEscaped(s[1..]);
      if IsMetaChar(s[0]) {
        assert (e + rest)[2..] == rest;
      } else {
        assert s[0] != '\\';
        assert (e + rest)[1..] == rest;
      }
    }
  }

  /** No metacharacter occurs in `s` exactly when it has none to count. */
  lemma {:induction false} MetaCountZero(s: string)
    ensures MetaCount(s) == 0 <==> forall i :: 0 <= i < |s| ==> !IsMetaChar(s[i])
    decreases |s|
  {
    if s != [] {
      MetaCountZero(s[1..]);
      assert forall i :: 1 <= i < |s| ==> s[i] == s[1..][i - 1];
    }
  }

  /** Escaping leaves `s` unchanged exactly when `s` holds no metacharacter. */
  lemma {:induction false} EscapedUnchanged(s: string)
    ensures Escaped(s) == s <==> forall i :: 0 <= i < |s| ==> !IsMetaChar(s[i])
    decreases |s|
  {
    EscapedLength(s);
    MetaCountZero(s);
    if s != [] && MetaCount(s) == 0 {
      EscapedUnchanged(s[1..]);
      assert !IsMetaChar(s[0]);
      assert MetaCount(s[1..]) == 0;
    }
  }

  /** Escaping adds no character other than the backslash and removes none. */
  lemma {:induction false} EscapedMembers(s: string, c: char)
    requires c != '\\'
    ensures c in Escaped(s) <==> c in s
    decreases |s|
  {
    if s != [] {
      EscapedMembers(s[1..], c);
      assert s == [s[0]] + s[1..];
      assert c in EscapeChar(s[0]) <==> c == s[0];
    }
  }

  /** The default delimiters `<`, `>` and `/` come out of escaping unchanged. */
  lemma DefaultDelimitersUnchanged()
    ensures Escaped("<") == "<" && Escaped(">") == ">" && Escaped("/") == "/"
  {
    EscapedUnchanged("<");
    EscapedUnchanged(">");
    EscapedUnchanged("/");
  }

  /** A right bracket `]` is escaped to the two characters `\]`. */
  lemma EscapedSquareBracket()
    ensures Escaped("]") == "\\]"
  {
  }

  /**
   * `escapeRegex(str)`: one pass over the characters, appending each one's
   * escaped form, until the iterator reports `Done`.
   */
  method EscapeRegex(str: string) returns (res: string)
    ensures res == Escaped(UpToDone(str))
    ensures Done !in str ==> |res| == |str| + MetaCount(str)
    ensures Done !in str ==> Unescape(res) == str
  {
    res := [];
    var i := 0;
    while i < |str| && str[i] != Done
      invariant 0 <= i <= |str|
      invariant Done !in str[..i]
      invariant res == Escaped(str[..i])
    {
      var chr := str[i];
      if IsMetaChar(chr) {
        res := res + ['\\', chr];
      } else {
        res := res + [chr];
      }
      EscapedConcat(str[..i], [chr]);
      assert str[..i + 1] == str[..i] + [chr];
      i := i + 1;
    }
    UpToDoneAt(str, i);
    EscapedLength(str);
    UnescapeEscaped(str);
  }
}
