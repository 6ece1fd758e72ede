/**
 * The parts of java.lang.String that the formatting engine relies on, as
 * pure functions over `string`: `indexOf`, and `split` with limit 0 applied to
 * a pattern that matches one literal text. Java's regular-expression engine
 * itself is not modelled; callers pass the literal text the pattern matches.
 */
module JavaText {

  /** `t` occurs in `s` starting at index `k`. */
  predicate OccursAt(s: string, t: string, k: int) {
    0 <= k && k + |t| <= |s| && s[k..k + |t|] == t
  }

  /** `t` occurs somewhere in `s`. */
  predicate Occurs(s: string, t: string) {
    exists k :: 0 <= k <= |s| && OccursAt(s, t, k)
  }

  /** An occurrence inside a slice is an occurrence in the whole string. */
  lemma OccursInSlice(s: string, i: nat, j: nat, t: string, k: int)
    requires i <= j <= |s|
    requires OccursAt(s[i..j], t, k)
    ensures OccursAt(s, t, i + k)
  {
    forall m | 0 <= m < |t| ensures s[i + k + m] == t[m] {
      assert s[i..j][k..k + |t|][m] == t[m];
    }
  }

  /** Where a text without `t` is cut, neither part contains `t`. */
  lemma SliceAvoids(s: string, i: nat, j: nat, t: string)
    requires i <= j <= |s|
    requires !Occurs(s, t)
    ensures !Occurs(s[i..j], t)
  {
    if Occurs(s[i..j], t) {
      var k :| OccursAt(s[i..j], t, k);
      OccursInSlice(s, i, j, t, k);
    }
  }

  /** First index at or after `i` where `t` occurs in `s`, or -1. */
  function IndexFrom(s: string, t: string, i: nat): (r: int)
    requires i <= |s|
    ensures r == -1 || (i <= r && OccursAt(s, t, r))
    ensures forall k :: i <= k && (r == -1 || k < r) ==> !OccursAt(s, t, k)
    decreases |s| - i
  {
    if i + |t| > |s| then -1
    else if s[i..i + |t|] == t then i
    else IndexFrom(s, t, i + 1)
  }

  /** `s.indexOf(t)`: the index of the first occurrence of `t` in `s`, or -1. */
  function IndexOf(s: string, t: string): (r: int)
    ensures -1 <= r <= |s|
    ensures r == -1 <==> !Occurs(s, t)
    ensures r != -1 ==> OccursAt(s, t, r) && forall k :: 0 <= k < r ==> !OccursAt(s, t, k)
  {
    IndexFrom(s, t, 0)
  }

  /** The pieces of `s` between the occurrences of `d`, found left to right without overlap. */
  function SplitLiteral(s: string, d: string): (pieces: seq<string>)
    requires d != []
    ensures |pieces| >= 1
    decreases |s|
  {
    var k := IndexOf(s, d);
    if k == -1 then [s] else [s[..k]] + SplitLiteral(s[k + |d|..], d)
  }

  /** The pieces joined back together, with `d` between neighbours. */
  function JoinWith(pieces: seq<string>, d: string): string
  {
    if |pieces| == 0 then []
    else if |pieces| == 1 then pieces[0]
    else pieces[0] + d + JoinWith(pieces[1..], d)
  }

  /** The pieces laid end to end. */
  function Concat(pieces: seq<string>): string
  {
    if pieces == [] then [] else pieces[0] + Concat(pieces[1..])
  }

  /** Drops the empty strings at the end of `pieces`, as `split` with limit 0 does. */
  function StripTrailingEmpty(pieces: seq<string>): (kept: seq<string>)
    ensures kept <= pieces
    ensures forall i :: |kept| <= i < |pieces| ==> pieces[i] == []
    ensures kept == [] || kept[|kept| - 1] != []
    decreases |pieces|
  {
    if pieces == [] then []
    else if pieces[|pieces| - 1] == [] then StripTrailingEmpty(pieces[..|pieces| - 1])
    else pieces
  }

  /**
   * `s.split(p)` where the pattern `p` matches exactly the non-empty text `d`:
   * the input itself when `d` does not occur, otherwise the pieces between
   * the occurrences with the trailing empty ones removed.
   */
  function JavaSplit(s: string, d: string): (fragments: seq<string>)
    requires d != []
    ensures !Occurs(s, d) ==> fragments == [s]
    ensures Occurs(s, d) ==> fragments <= SplitLiteral(s, d)
  {
    if IndexOf(s, d) == -1 then [s] else StripTrailingEmpty(SplitLiteral(s, d))
  }

  /**
   * `s` with every occurrence of `d` deleted, scanning left to right one
   * character at a time; an independent reference for what splitting drops.
   */
  function Deleted(s: string, d: string): string
    requires d != []
    decreases |s|
  {
    if |s| < |d| then s
    else if s[..|d|] == d then Deleted(s[|d|..], d)
    else [s[0]] + Deleted(s[1..], d)
  }

  lemma JoinCons(p: string, tail: seq<string>, d: string)
    requires tail != []
    ensures JoinWith([p] + tail, d) == p + d + JoinWith(tail, d)
  {
    assert ([p] + tail)[1..] == tail;
  }

  /** Joining one more piece on the right adds a delimiter and that piece. */
  lemma {:induction false} JoinSnoc(pieces: seq<string>, p: string, d: string)
    ensures JoinWith(pieces + [p], d) == if pieces == [] then p else JoinWith(pieces, d) + d + p
    decreases |pieces|
  {
    if |pieces| == 1 {
      assert (pieces + [p])[1..] == [p];
    } else if |pieces| > 1 {
      assert (pieces + [p])[1..] == pieces[1..] + [p];
      JoinSnoc(pieces[1..], p, d);
    } else {
      assert pieces + [p] == [p];
    }
  }

  /** Joining the pieces of a split gives back the input. */
  lemma {:induction false} SplitThenJoin(s: string, d: string)
    requires d != []
    ensures JoinWith(SplitLiteral(s, d), d) == s
    decreases |s|
  {
    var k := IndexOf(s, d);
    if k != -1 {
      var rest := s[k + |d|..];
      var tail := SplitLiteral(rest, d);
      SplitUnfold(s, d, k);
      SplitThenJoin(rest, d);
      JoinCons(s[..k], tail, d);
    }
  }

  /** At the first occurrence `k` of `d`, the split is the piece before it followed by the split of the rest. */
  lemma SplitUnfold(s: string, d: string, k: int)
    requires d != [] && k == IndexOf(s, d) && k != -1
    ensures SplitLiteral(s, d) == [s[..k]] + SplitLiteral(s[k + |d|..], d)
    ensures s == s[..k] + d + s[k + |d|..]
  {
    assert OccursAt(s, d, k);
    CutAround(s, k, k + |d|);
  }

  /** A string is the part before `i`, the part from `i` to `j` and the part after `j`. */
  lemma CutAround(s: string, i: nat, j: nat)
    requires i <= j <= |s|
    ensures s == s[..i] + s[i..j] + s[j..]
  {
    assert forall m :: 0 <= m < |s| ==> s[m] == (s[..i] + s[i..j] + s[j..])[m];
  }

  /** A character that `p` does not hold does not occur in it as a one-character text. */
  lemma AbsentChar(p: string, c: char)
    requires c !in p
    ensures !Occurs(p, [c])
  {
    forall k | 0 <= k <= |p| ensures !OccursAt(p, [c], k) {
      if k + 1 <= |p| {
        assert p[k..k + 1][0] == p[k];
      }
    }
  }

  /**
   * Splitting a join on a one-character delimiter that no piece contains
   * gives back the pieces.
   */
  lemma {:induction false} JoinThenSplit(pieces: seq<string>, c: char)
    requires |pieces| >= 1
    requires forall i :: 0 <= i < |pieces| ==> c !in pieces[i]
    ensures SplitLiteral(JoinWith(pieces, [c]), [c]) == pieces
    decreases |pieces|
  {
    var p := pieces[0];
    if |pieces| == 1 {
      AbsentChar(p, c);
    } else {
      var rest := JoinWith(pieces[1..], [c]);
      var s := p + [c] + rest;
      assert OccursAt(s, [c], |p|);
      var k := IndexOf(s, [c]);
      forall j | 0 <= j < |p| ensures !OccursAt(s, [c], j) {
        assert s[j..j + 1][0] == s[j] == p[j];
      }
      assert k == |p|;
      assert s[..k] == p;
      assert s[k + 1..] == rest;
      JoinThenSplit(pieces[1..], c);
    }
  }

  /** No piece of a split contains the delimiter. */
  lemma {:induction false} SplitPiecesAvoidDelimiter(s: string, d: string)
    requires d != []
    ensures forall i :: 0 <= i < |SplitLiteral(s, d)| ==> !Occurs(SplitLiteral(s, d)[i], d)
    decreases |s|
  {
    var k := IndexOf(s, d);
    if k != -1 {
      SplitPiecesAvoidDelimiter(s[k + |d|..], d);
      if Occurs(s[..k], d) {
        var j :| OccursAt(s[..k], d, j);
        OccursInSlice(s, 0, k, d, j);
      }
    }
  }

  /** A text that `s` does not contain occurs in no piece of its split. */
  lemma {:induction false} SplitPiecesInherit(s: string, d: string, t: string)
    requires d != []
    requires !Occurs(s, t)
    ensures forall i :: 0 <= i < |SplitLiteral(s, d)| ==> !Occurs(SplitLiteral(s, d)[i], t)
    decreases |s|
  {
    var k := IndexOf(s, d);
    if k != -1 {
      SliceAvoids(s, 0, k, t);
      SliceAvoids(s, k + |d|, |s|, t);
      assert s[k + |d|..|s|] == s[k + |d|..];
      SplitPiecesInherit(s[k + |d|..], d, t);
    }
  }

  lemma {:induction false} ConcatAppend(pieces: seq<string>, p: string)
    ensures Concat(pieces + [p]) == Concat(pieces) + p
  {
    if pieces != [] {
      assert (pieces + [p])[1..] == pieces[1..] + [p];
      ConcatAppend(pieces[1..], p);
    }
  }

  /** Removing trailing empty pieces does not change the concatenation. */
  lemma {:induction false} ConcatStripTrailingEmpty(pieces: seq<string>)
    ensures Concat(StripTrailingEmpty(pieces)) == Concat(pieces)
    decreases |pieces|
  {
    if pieces != [] && pieces[|pieces| - 1] == [] {
      var init := pieces[..|pieces| - 1];
      ConcatStripTrailingEmpty(init);
      assert pieces == init + [[]];
      ConcatAppend(init, []);
    }
  }

  /** Deleting `d` from a stretch where it does not start leaves that stretch as is. */
  lemma {:induction false} DeletedSkips(s: string, d: string, k: nat)
    requires d != [] && k <= |s|
    requires forall j :: 0 <= j < k ==> !OccursAt(s, d, j)
    ensures Deleted(s, d) == s[..k] + Deleted(s[k..], d)
    decreases k
  {
    if k > 0 {
      if |s| < |d| {
        assert Deleted(s[k..], d) == s[k..];
        assert s == s[..k] + s[k..];
      } else {
        assert !OccursAt(s, d, 0);
        forall j | 0 <= j < k - 1 ensures !OccursAt(s[1..], d, j) {
          if OccursAt(s[1..], d, j) {
            assert s[1..|s|] == s[1..];
            OccursInSlice(s, 1, |s|, d, j);
          }
        }
        DeletedSkips(s[1..], d, k - 1);
        assert s[1..][k - 1..] == s[k..];
        assert s[..k] == [s[0]] + s[1..][..k - 1];
      }
    }
  }

  /** Laying the split pieces end to end is the input with every delimiter deleted. */
  lemma {:induction false} ConcatSplitIsDeleted(s: string, d: string)
    requires d != []
    ensures Concat(SplitLiteral(s, d)) == Deleted(s, d)
    decreases |s|
  {
    var k := IndexOf(s, d);
    if k == -1 {
      DeletedSkips(s, d, |s|);
      assert s[|s|..] == [];
    } else {
      var rest := s[k + |d|..];
      DeletedSkips(s, d, k);
      assert s[k..][..|d|] == d;
      assert s[k..][|d|..] == rest;
      ConcatSplitIsDeleted(rest, d);
      assert SplitLiteral(s, d) == [s[..k]] + SplitLiteral(rest, d);
    }
  }

  /** No fragment returned by `split` contains the delimiter. */
  lemma JavaSplitAvoidsDelimiter(s: string, d: string)
    requires d != []
    ensures forall i :: 0 <= i < |JavaSplit(s, d)| ==> !Occurs(JavaSplit(s, d)[i], d)
  {
    SplitPiecesAvoidDelimiter(s, d);
  }

  /**
   * The fragments `split` returns concatenate to the input with every
   * delimiter deleted, and a match at index 0 yields a leading empty
   * fragment unless nothing else is left.
   */
  lemma JavaSplitConcat(s: string, d: string)
    requires d != []
    ensures Concat(JavaSplit(s, d)) == Deleted(s, d)
    ensures IndexOf(s, d) == 0 && JavaSplit(s, d) != [] ==> JavaSplit(s, d)[0] == []
  {
    ConcatSplitIsDeleted(s, d);
    if IndexOf(s, d) != -1 {
      ConcatStripTrailingEmpty(SplitLiteral(s, d));
    }
  }

  /** A text that `s` does not contain occurs in none of its `split` fragments. */
  lemma JavaSplitInherits(s: string, d: string, t: string)
    requires d != []
    requires !Occurs(s, t)
    ensures forall i :: 0 <= i < |JavaSplit(s, d)| ==> !Occurs(JavaSplit(s, d)[i], t)
  {
    SplitPiecesInherit(s, d, t);
  }
}
