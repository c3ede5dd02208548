/**
 * The JavaScript `String.prototype` methods the viewer relies on: `toLowerCase`
 * (restricted to ASCII), `includes`, `localeCompare` (as code-point lexicographic
 * order), `trim` and `split` on a one-character separator, with `Join` as the
 * inverse of `split`.
 */
module JsString {

  /** `toLowerCase` on one character, restricted to the ASCII letters. */
  function LowerChar(c: char): (r: char)
    ensures !('A' <= r <= 'Z')
    ensures 'A' <= c <= 'Z' ==> r as int == c as int + 32
    ensures !('A' <= c <= 'Z') ==> r == c
  {
    if 'A' <= c <= 'Z' then (c as int + 32) as char else c
  }

  function ToLower(s: string): (r: string)
    ensures |r| == |s|
    ensures forall i :: 0 <= i < |s| ==> r[i] == LowerChar(s[i])
  {
    seq(|s|, i requires 0 <= i < |s| => LowerChar(s[i]))
  }

  /** Lower-casing twice is lower-casing once. */
  lemma ToLowerIdempotent(s: string)
    ensures ToLower(ToLower(s)) == ToLower(s)
  {
    assert forall i :: 0 <= i < |s| ==> LowerChar(LowerChar(s[i])) == LowerChar(s[i]);
  }

  /** `t` occurs in `s` starting at offset `i`. */
  predicate OccursAt(s: string, t: string, i: int)
  {
    0 <= i <= |s| - |t| && s[i..i + |t|] == t
  }

  /** `s.includes(t)`: `t` occurs in `s` at some offset (the empty string occurs everywhere). */
  function Includes(s: string, t: string): (r: bool)
    ensures r <==> exists i :: OccursAt(s, t, i)
    decreases |s|
  {
    if |t| <= |s| && s[..|t|] == t then
      assert OccursAt(s, t, 0);
      true
    else if |s| <= |t| then
      false
    else
      IncludesStep(s, t);
      Includes(s[1..], t)
  }

  /** When `t` is not a prefix of the longer `s`, it occurs in `s` exactly when it occurs in `s[1..]`. */
  lemma IncludesStep(s: string, t: string)
    requires |t| < |s| && s[..|t|] != t
    ensures (exists i :: OccursAt(s, t, i)) <==> (exists j :: OccursAt(s[1..], t, j))
  {
    if i :| OccursAt(s, t, i) {
      SliceOfTail(s, i, |t|);
      assert OccursAt(s[1..], t, i - 1);
    }
    if j :| OccursAt(s[1..], t, j) {
      SliceOfTail(s, j + 1, |t|);
      assert OccursAt(s, t, j + 1);
    }
  }

  lemma SliceOfTail(s: string, i: int, n: int)
    requires 1 <= i && 0 <= n && i + n <= |s|
    ensures s[1..][i - 1..i - 1 + n] == s[i..i + n]
  {
    var a := s[1..][i - 1..i - 1 + n];
    assert forall k :: 0 <= k < n ==> a[k] == s[i..i + n][k];
  }

  lemma EmptyIncludedEverywhere(s: string)
    ensures Includes(s, "")
  {
    assert OccursAt(s, "", 0);
  }

  /**
   * `a.localeCompare(b)`, modelled as lexicographic comparison of code points:
   * negative when `a` sorts first, zero exactly when the strings are equal.
   */
  function LocaleCompare(a: string, b: string): (r: int)
    ensures -1 <= r <= 1
    ensures r == 0 <==> a == b
    decreases |a|
  {
    if a == [] then (if b == [] then 0 else -1)
    else if b == [] then 1
    else if a[0] < b[0] then -1
    else if b[0] < a[0] then 1
    else
      var r := LocaleCompare(a[1..], b[1..]);
      assert a == [a[0]] + a[1..] && b == [b[0]] + b[1..];
      r
  }

  lemma {:induction false} LocaleCompareAntisymmetric(a: string, b: string)
    ensures LocaleCompare(a, b) == -LocaleCompare(b, a)
    decreases |a|
  {
    if a != [] && b != [] && a[0] == b[0] {
      LocaleCompareAntisymmetric(a[1..], b[1..]);
    }
  }

  lemma {:induction false} LocaleCompareTransitive(a: string, b: string, c: string)
    requires LocaleCompare(a, b) <= 0 && LocaleCompare(b, c) <= 0
    ensures LocaleCompare(a, c) <= 0
    decreases |a|
  {
    if a != [] && b != [] && c != [] && a[0] == b[0] && b[0] == c[0] {
      LocaleCompareTransitive(a[1..], b[1..], c[1..]);
    }
  }

  /** The characters `trim` removes: ECMAScript WhiteSpace and LineTerminator. */
  predicate IsWhiteSpace(c: char): (r: bool)
    ensures c == ' ' || c == '\t' || c == '\n' || c == '\r' ==> r
    ensures r ==> c != ',' && c != '-'
    ensures 'a' <= c <= 'z' || 'A' <= c <= 'Z' || '0' <= c <= '9' ==> !r
  {
    || c == '\t' || c == '\n' || c == '\U{B}' || c == '\U{C}' || c == '\r' || c == ' '
    || c == '\U{A0}' || c == '\U{1680}' || ('\U{2000}' <= c <= '\U{200A}')
    || c == '\U{2028}' || c == '\U{2029}' || c == '\U{202F}' || c == '\U{205F}'
    || c == '\U{3000}' || c == '\U{FEFF}'
  }

  /** The index of the first character at or after `from` that is not white space (`|s|` if none). */
  function SkipWhiteSpace(s: string, from: nat): (i: nat)
    requires from <= |s|
    ensures from <= i <= |s|
    ensures forall k :: from <= k < i ==> IsWhiteSpace(s[k])
    ensures i == |s| || !IsWhiteSpace(s[i])
    decreases |s| - from
  {
    if from < |s| && IsWhiteSpace(s[from]) then SkipWhiteSpace(s, from + 1) else from
  }

  /** The end of `s[lo..hi]` once the white space at its end is dropped. */
  function BackOverWhiteSpace(s: string, lo: nat, hi: nat): (j: nat)
    requires lo <= hi <= |s|
    ensures lo <= j <= hi
    ensures forall k :: j <= k < hi ==> IsWhiteSpace(s[k])
    ensures j == lo || !IsWhiteSpace(s[j - 1])
    decreases hi - lo
  {
    if lo < hi && IsWhiteSpace(s[hi - 1]) then BackOverWhiteSpace(s, lo, hi - 1) else hi
  }

  /**
   * `s.trim()`: the part of `s` left after removing white space at both ends.
   * It is a run of consecutive characters of `s` with only white space before
   * and after it, starts and ends with a character that is not white space,
   * and is empty exactly when `s` is all white space.
   */
  function Trim(s: string): (r: string)
    ensures exists i :: && OccursAt(s, r, i)
                        && (forall k :: 0 <= k < i ==> IsWhiteSpace(s[k]))
                        && (forall k :: i + |r| <= k < |s| ==> IsWhiteSpace(s[k]))
    ensures r == [] || (!IsWhiteSpace(r[0]) && !IsWhiteSpace(r[|r| - 1]))
    ensures r == [] <==> forall k :: 0 <= k < |s| ==> IsWhiteSpace(s[k])
  {
    var i := SkipWhiteSpace(s, 0);
    var j := BackOverWhiteSpace(s, i, |s|);
    assert OccursAt(s, s[i..j], i);
    assert i < j ==> s[i..j][0] == s[i] && s[i..j][j - i - 1] == s[j - 1];
    s[i..j]
  }

  /**
   * The contract of `Trim` pins its result down: any run of `s` with only
   * white space around it, whose ends are not white space, is `Trim(s)`.
   */
  lemma TrimCharacterised(s: string, t: string, i: int)
    requires OccursAt(s, t, i)
    requires forall k :: 0 <= k < i ==> IsWhiteSpace(s[k])
    requires forall k :: i + |t| <= k < |s| ==> IsWhiteSpace(s[k])
    requires t == [] || (!IsWhiteSpace(t[0]) && !IsWhiteSpace(t[|t| - 1]))
    ensures t == Trim(s)
  {
    var r := Trim(s);
    var j :| && OccursAt(s, r, j)
             && (forall k :: 0 <= k < j ==> IsWhiteSpace(s[k]))
             && (forall k :: j + |r| <= k < |s| ==> IsWhiteSpace(s[k]));
    if t == [] {
      forall k | 0 <= k < |s| ensures IsWhiteSpace(s[k]) {
      }
    } else {
      assert s[i] == t[0] && s[i + |t| - 1] == t[|t| - 1];
      assert r != [];
      assert s[j] == r[0] && s[j + |r| - 1] == r[|r| - 1];
      assert i == j;
      assert |r| == |t|;
    }
  }

  lemma TrimIdempotent(s: string)
    ensures Trim(Trim(s)) == Trim(s)
  {
    var r := Trim(s);
    if r != [] {
      assert SkipWhiteSpace(r, 0) == 0;
      assert BackOverWhiteSpace(r, 0, |r|) == |r|;
    }
  }

  /** `pieces.join(sep)`. */
  function Join(pieces: seq<string>, sep: char): string
    decreases |pieces|
  {
    if |pieces| == 0 then ""
    else if |pieces| == 1 then pieces[0]
    else pieces[0] + [sep] + Join(pieces[1..], sep)
  }

  /**
   * `s.split(sep)` for a one-character separator: one more piece than there are
   * separators in `s`, and no piece holds the separator.
   */
  function Split(s: string, sep: char): (r: seq<string>)
    ensures |r| == multiset(s)[sep] + 1
    ensures forall i :: 0 <= i < |r| ==> sep !in r[i]
    decreases |s|
  {
    if s == [] then [[]]
    else
      var rest := Split(s[1..], sep);
      assert s == [s[0]] + s[1..];
      if s[0] == sep then [[]] + rest else [[s[0]] + rest[0]] + rest[1..]
  }

  /** Joining the pieces of a split with the separator gives the text back. */
  lemma {:induction false} JoinSplit(s: string, sep: char)
    ensures Join(Split(s, sep), sep) == s
    decreases |s|
  {
    if s != [] {
      var rest := Split(s[1..], sep);
      JoinSplit(s[1..], sep);
      assert s == [s[0]] + s[1..];
      if s[0] == sep {
        JoinEmptyFirst(rest, sep);
      } else {
        JoinPrependChar(s[0], rest, sep);
      }
    }
  }

  lemma JoinEmptyFirst(pieces: seq<string>, sep: char)
    requires |pieces| >= 1
    ensures Join([[]] + pieces, sep) == [sep] + Join(pieces, sep)
  {
    assert ([[]] + pieces)[1..] == pieces;
  }

  lemma JoinPrependChar(c: char, pieces: seq<string>, sep: char)
    requires |pieces| >= 1
    ensures Join([[c] + pieces[0]] + pieces[1..], sep) == [c] + Join(pieces, sep)
  {
    var q := [[c] + pieces[0]] + pieces[1..];
    assert q[0] == [c] + pieces[0];
    if |pieces| > 1 {
      assert q[1..] == pieces[1..];
    }
  }

  lemma SplitSeparatorHead(rest: string, sep: char)
    ensures Split([sep] + rest, sep) == [[]] + Split(rest, sep)
  {
    assert ([sep] + rest)[1..] == rest;
  }

  lemma SplitCharHead(c: char, rest: string, sep: char)
    requires c != sep
    ensures var t := Split(rest, sep); Split([c] + rest, sep) == [[c] + t[0]] + t[1..]
  {
    assert ([c] + rest)[1..] == rest;
  }

  lemma {:induction false} SplitWithoutSeparator(s: string, sep: char)
    requires sep !in s
    ensures Split(s, sep) == [s]
    decreases |s|
  {
    if s != [] {
      SplitWithoutSeparator(s[1..], sep);
      assert s == [s[0]] + s[1..];
    }
  }

  /** The other round trip: splitting a join of separator-free pieces gives the pieces back. */
  lemma {:induction false} SplitJoin(pieces: seq<string>, sep: char)
    requires |pieces| >= 1
    requires forall i :: 0 <= i < |pieces| ==> sep !in pieces[i]
    ensures Split(Join(pieces, sep), sep) == pieces
    decreases |pieces|, |pieces[0]|, 1
  {
    if |pieces| == 1 {
      SplitWithoutSeparator(pieces[0], sep);
    } else if pieces[0] == [] {
      SplitJoinEmptyHead(pieces, sep);
    } else {
      SplitJoinCharHead(pieces, sep);
    }
  }

  lemma {:induction false} SplitJoinEmptyHead(pieces: seq<string>, sep: char)
    requires |pieces| >= 2 && pieces[0] == []
    requires forall i :: 0 <= i < |pieces| ==> sep !in pieces[i]
    ensures Split(Join(pieces, sep), sep) == pieces
    decreases |pieces|, 0, 0
  {
    var rest := pieces[1..];
    assert pieces == [[]] + rest;
    assert forall i :: 0 <= i < |rest| ==> sep !in rest[i] by {
      forall i | 0 <= i < |rest| ensures sep !in rest[i] { assert rest[i] == pieces[i + 1]; }
    }
    var joined := Join(rest, sep);
    calc {
      Split(Join(pieces, sep), sep);
    == { JoinEmptyFirst(rest, sep); }
      Split([sep] + joined, sep);
    == { SplitSeparatorHead(joined, sep); }
      [[]] + Split(joined, sep);
    == { SplitJoin(rest, sep); }
      [[]] + rest;
    }
  }

  lemma {:induction false} SplitJoinCharHead(pieces: seq<string>, sep: char)
    requires |pieces| >= 2 && pieces[0] != []
    requires forall i :: 0 <= i < |pieces| ==> sep !in pieces[i]
    ensures Split(Join(pieces, sep), sep) == pieces
    decreases |pieces|, |pieces[0]|, 0
  {
    var p := pieces[0];
    var shorter := [p[1..]] + pieces[1..];
    assert shorter[0] == p[1..] && shorter[1..] == pieces[1..];
    assert pieces == [[p[0]] + shorter[0]] + shorter[1..] by {
      assert p == [p[0]] + p[1..];
    }
    assert forall i :: 0 <= i < |shorter| ==> sep !in shorter[i] by {
      forall i | 0 <= i < |shorter| ensures sep !in shorter[i] {
        if i > 0 { assert shorter[i] == pieces[i]; }
      }
    }
    var joined := Join(shorter, sep);
    calc {
      Split(Join(pieces, sep), sep);
    == { JoinPrependChar(p[0], shorter, sep); }
      Split([p[0]] + joined, sep);
    == { SplitCharHead(p[0], joined, sep); }
      [[p[0]] + Split(joined, sep)[0]] + Split(joined, sep)[1..];
    == { SplitJoin(shorter, sep); }
      [[p[0]] + shorter[0]] + shorter[1..];
    }
  }

  /**
   * The first piece of `s.split(sep)` is the text before the first separator:
   * a prefix of `s` that is either all of `s` or is followed by the separator.
   */
  lemma {:induction false} SplitFirstPiece(s: string, sep: char)
    ensures var p := Split(s, sep)[0];
      && |p| <= |s| && p == s[..|p|]
      && sep !in p
      && (|p| == |s| || s[|p|] == sep)
    decreases |s|
  {
    if s != [] && s[0] != sep {
      SplitFirstPiece(s[1..], sep);
    }
  }
}
