/**
  The handful of JavaScript string operations the conversion layer relies on,
  stated with the semantics the ECMAScript standard gives them:
  `trim`, `startsWith`, `endsWith`, a substring test, `split('\n')`, `join`
  and `slice` with negative indices.
 */
module JsText {

  /** The characters `String.prototype.trim` removes: the WhiteSpace and
      LineTerminator productions of ECMA-262 (section 12.2 and 12.3). */
  predicate IsSpace(c: char) {
    || c == ' ' || c == '\t' || c == '\n' || c == '\r'
    || c == '\U{000B}' || c == '\U{000C}' || c == '\U{00A0}' || c == '\U{FEFF}'
    || c == '\U{1680}' || ('\U{2000}' <= c <= '\U{200A}')
    || c == '\U{2028}' || c == '\U{2029}' || c == '\U{202F}' || c == '\U{205F}' || c == '\U{3000}'
  }

  predicate AllSpace(s: string) {
    forall i :: 0 <= i < |s| ==> IsSpace(s[i])
  }

  /** No whitespace at either end: what `trim` leaves behind. */
  predicate IsTrimmed(s: string) {
    s == [] || (!IsSpace(s[0]) && !IsSpace(s[|s| - 1]))
  }

  /** The first index at or after `i` that does not hold whitespace. */
  function SkipSpaces(s: string, i: nat): (j: nat)
    requires i <= |s|
    decreases |s| - i
    ensures i <= j <= |s|
    ensures forall k :: i <= k < j ==> IsSpace(s[k])
    ensures j < |s| ==> !IsSpace(s[j])
  {
    if i < |s| && IsSpace(s[i]) then SkipSpaces(s, i + 1) else i
  }

  /** The least index from which everything up to `j` is whitespace, not
      going below `lo`. */
  function SkipSpacesBack(s: string, lo: nat, j: nat): (k: nat)
    requires lo <= j <= |s|
    decreases j
    ensures lo <= k <= j
    ensures forall m :: k <= m < j ==> IsSpace(s[m])
    ensures k > lo ==> !IsSpace(s[k - 1])
  {
    if j > lo && IsSpace(s[j - 1]) then SkipSpacesBack(s, lo, j - 1) else j
  }

  /** `s.trim()`: the infix of `s` left after dropping the whitespace at
      both ends; only whitespace is dropped, and nothing is left exactly when
      `s` is all whitespace. */
  function Trim(s: string): (r: string)
    ensures IsTrimmed(r)
    ensures SkipSpaces(s, 0) + |r| <= |s|
    ensures r == s[SkipSpaces(s, 0)..SkipSpaces(s, 0) + |r|]
    ensures forall k :: SkipSpaces(s, 0) + |r| <= k < |s| ==> IsSpace(s[k])
    ensures r == [] <==> AllSpace(s)
  {
    var a := SkipSpaces(s, 0);
    var b := SkipSpacesBack(s, a, |s|);
    assert a == b ==> AllSpace(s);
    s[a..b]
  }

  /** Trimming a string that has no whitespace at its ends changes nothing;
      in particular `trim` is idempotent. */
  lemma TrimOfTrimmed(s: string)
    requires IsTrimmed(s)
    ensures Trim(s) == s
  {
    if s != [] {
      assert SkipSpaces(s, 0) == 0;
      assert SkipSpacesBack(s, 0, |s|) == |s|;
    }
  }

  lemma TrimIdempotent(s: string)
    ensures Trim(Trim(s)) == Trim(s)
  {
    TrimOfTrimmed(Trim(s));
  }

  /** `s.startsWith(p)` */
  predicate StartsWith(s: string, p: string) {
    |p| <= |s| && s[..|p|] == p
  }

  /** `s.endsWith(p)` */
  predicate EndsWith(s: string, p: string) {
    |p| <= |s| && s[|s| - |p|..] == p
  }

  /** `p` occurs in `s` at index `i`. */
  predicate OccursAt(s: string, p: string, i: int) {
    0 <= i && i + |p| <= |s| && s[i..i + |p|] == p
  }

  /** `s.includes(p)`, equivalently a regular-expression test for the literal `p`. */
  predicate Contains(s: string, p: string) {
    exists i :: 0 <= i <= |s| && OccursAt(s, p, i)
  }

  /** An occurrence in a suffix is an occurrence in the whole string. */
  lemma ContainsInSuffix(pre: string, s: string, p: string)
    requires Contains(s, p)
    ensures Contains(pre + s, p)
  {
    var i :| 0 <= i <= |s| && OccursAt(s, p, i);
    assert (pre + s)[|pre| + i..|pre| + i + |p|] == s[i..i + |p|];
    assert OccursAt(pre + s, p, |pre| + i);
  }

  /** An occurrence in a prefix is an occurrence in the whole string. */
  lemma ContainsInPrefix(s: string, post: string, p: string)
    requires Contains(s, p)
    ensures Contains(s + post, p)
  {
    var i :| 0 <= i <= |s| && OccursAt(s, p, i);
    assert (s + post)[i..i + |p|] == s[i..i + |p|];
    assert OccursAt(s + post, p, i);
  }

  /** `s.slice(start, end)`: negative indices count from the end, both are
      clamped to the string, and an empty range gives "". */
  function Slice(s: string, start: int, end: int): (r: string)
    ensures |r| <= |s|
    ensures 0 <= start <= end <= |s| ==> r == s[start..end]
    ensures 0 <= start <= |s| + end && end < 0 ==> r == s[start..|s| + end]
    ensures 0 <= end <= start ==> r == []
    ensures end < 0 && |s| + end <= start ==> r == []
  {
    var b := SliceIndex(s, start);
    var e := SliceIndex(s, end);
    if b < e then s[b..e] else []
  }

  function SliceIndex(s: string, k: int): (i: nat)
    ensures i <= |s|
  {
    if k < 0 then (if |s| + k < 0 then 0 else |s| + k)
    else if k > |s| then |s| else k
  }

  /** The clamping of `slice`: a negative index counts back from the end and
      stops at 0, and an index past the end stops at the end. */
  lemma SliceClamps(s: string, start: int, end: int)
    ensures -|s| <= start < 0 ==> Slice(s, start, end) == Slice(s, |s| + start, end)
    ensures start < -|s| ==> Slice(s, start, end) == Slice(s, 0, end)
    ensures start > |s| ==> Slice(s, start, end) == []
    ensures -|s| <= end < 0 ==> Slice(s, start, end) == Slice(s, start, |s| + end)
    ensures end < -|s| ==> Slice(s, start, end) == []
    ensures end > |s| ==> Slice(s, start, end) == Slice(s, start, |s|)
  {
  }

  /** `slice(2, -2)` drops two characters at each end, and leaves nothing of
      a string shorter than four. */
  lemma SliceTwoFromEachEnd(s: string)
    ensures |s| >= 4 ==> Slice(s, 2, -2) == s[2..|s| - 2]
    ensures |s| < 4 ==> Slice(s, 2, -2) == []
  {
  }

  /** `s.split('\n')`: the pieces between newline characters. */
  function SplitLines(s: string): (r: seq<string>)
    ensures |r| >= 1
    ensures forall i :: 0 <= i < |r| ==> '\n' !in r[i]
  {
    if s == [] then [""]
    else
      var rest := SplitLines(s[1..]);
      if s[0] == '\n' then [""] + rest
      else [[s[0]] + rest[0]] + rest[1..]
  }

  /** `parts.join('\n')` */
  function JoinLines(parts: seq<string>): string {
    if parts == [] then ""
    else if |parts| == 1 then parts[0]
    else parts[0] + "\n" + JoinLines(parts[1..])
  }

  function CountChar(s: string, c: char): nat {
    if s == [] then 0 else (if s[0] == c then 1 else 0) + CountChar(s[1..], c)
  }

  /** Splitting on newlines and joining back with newlines gives the string
      back, and there is one more piece than there are newlines. */
  lemma {:induction false} SplitLinesJoin(s: string)
    ensures JoinLines(SplitLines(s)) == s
    ensures |SplitLines(s)| == CountChar(s, '\n') + 1
  {
    if s != [] {
      SplitLinesJoin(s[1..]);
      var rest := SplitLines(s[1..]);
      if s[0] == '\n' {
        assert s == "\n" + s[1..];
      } else {
        if |rest| == 1 {
          assert JoinLines(rest) == rest[0];
        } else {
          assert JoinLines(rest) == rest[0] + "\n" + JoinLines(rest[1..]);
        }
        assert s == [s[0]] + s[1..];
      }
    }
  }

  /** A string with no newline is a single line. */
  lemma {:induction false} SplitLinesNoNewline(s: string)
    requires '\n' !in s
    ensures SplitLines(s) == [s]
  {
    if s != [] {
      SplitLinesNoNewline(s[1..]);
      assert s == [s[0]] + s[1..];
    }
  }

  /** One step of `split`: the first character either ends the first piece
      or joins it. */
  lemma SplitLinesCons(c: char, t: string)
    ensures SplitLines([c] + t) ==
      if c == '\n' then [""] + SplitLines(t) else [[c] + SplitLines(t)[0]] + SplitLines(t)[1..]
  {
    assert ([c] + t)[1..] == t;
  }

  /** Splitting at a newline splits each side separately: the pieces of
      `a + "\n" + b` are the pieces of `a` followed by the pieces of `b`. */
  lemma {:induction false} SplitLinesAround(a: string, b: string)
    ensures SplitLines(a + "\n" + b) == SplitLines(a) + SplitLines(b)
  {
    if a == [] {
      assert a + "\n" + b == ['\n'] + b;
      SplitLinesCons('\n', b);
    } else {
      var t := a[1..];
      assert a == [a[0]] + t;
      SplitLinesAround(t, b);
      AroundStep(a[0], t, b);
    }
  }

  /** The inductive step of `SplitLinesAround`: one more character in front. */
  lemma AroundStep(c: char, t: string, b: string)
    requires SplitLines(t + "\n" + b) == SplitLines(t) + SplitLines(b)
    ensures SplitLines([c] + t + "\n" + b) == SplitLines([c] + t) + SplitLines(b)
  {
    var x := t + "\n" + b;
    assert [c] + t + "\n" + b == [c] + x;
    SplitLinesCons(c, x);
    SplitLinesCons(c, t);
    PiecesStep(c, SplitLines(t), SplitLines(b));
  }

  /** Putting a character in front of the first of two runs of pieces. */
  lemma PiecesStep(c: char, rt: seq<string>, rb: seq<string>)
    requires |rt| >= 1
    ensures [[c] + (rt + rb)[0]] + (rt + rb)[1..] == ([[c] + rt[0]] + rt[1..]) + rb
    ensures [""] + (rt + rb) == ([""] + rt) + rb
  {
    assert (rt + rb)[0] == rt[0] && (rt + rb)[1..] == rt[1..] + rb;
  }

  /** The first piece is a prefix of the string. */
  lemma {:induction false} FirstPieceIsPrefix(s: string)
    ensures |SplitLines(s)[0]| <= |s| && SplitLines(s)[0] == s[..|SplitLines(s)[0]|]
  {
    if s != [] {
      FirstPieceIsPrefix(s[1..]);
    }
  }

  /** Every piece of a split is free of a pattern the whole string is free of,
      provided the pattern has no newline: each piece is an infix. */
  lemma {:induction false} SplitLinesKeepsAbsence(s: string, p: string)
    requires |p| == 2 && '\n' !in p && !Contains(s, p)
    ensures forall i :: 0 <= i < |SplitLines(s)| ==> !Contains(SplitLines(s)[i], p)
  {
    if s != [] {
      var t := s[1..];
      assert !Contains(t, p) by {
        if Contains(t, p) {
          assert s == [s[0]] + t;
          ContainsInSuffix([s[0]], t, p);
        }
      }
      SplitLinesKeepsAbsence(t, p);
      var rest := SplitLines(t);
      FirstPieceIsPrefix(t);
      if s[0] != '\n' {
        var piece := [s[0]] + rest[0];
        forall j | 0 <= j <= |piece| ensures !OccursAt(piece, p, j) {
          if j == 0 && |piece| >= 2 {
            assert piece[..2] == [s[0], rest[0][0]];
            assert rest[0][0] == t[0] == s[1];
            assert s[..2] == [s[0], s[1]];
            assert !OccursAt(s, p, 0);
          } else if j >= 1 && j + 2 <= |piece| {
            assert piece[j..j + 2] == rest[0][j - 1..j + 1];
            assert !OccursAt(rest[0], p, j - 1);
          }
        }
        assert SplitLines(s) == [piece] + rest[1..];
      }
    }
  }
}
