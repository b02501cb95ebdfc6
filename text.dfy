/** String primitives of JavaScript and SQLite that the clipboard code relies on:
    white space as `\s` and `String.prototype.trim` see it, ASCII case folding,
    `String.prototype.split` on separator characters and `Array.prototype.join`. */
module Text {

  /** ECMAScript WhiteSpace and LineTerminator code points: the set `\S`
      excludes and `trim()` strips. */
  predicate IsSpace(c: char) {
    c == '\t' || c == '\n' || c == '\U{000B}' || c == '\U{000C}' || c == '\r' || c == ' '
    || c == '\U{00A0}' || c == '\U{1680}' || ('\U{2000}' <= c <= '\U{200A}')
    || c == '\U{2028}' || c == '\U{2029}' || c == '\U{202F}' || c == '\U{205F}'
    || c == '\U{3000}' || c == '\U{FEFF}'
  }

  /** The characters a regular-expression `.` does not match. */
  predicate IsLineTerminator(c: char) {
    c == '\n' || c == '\r' || c == '\U{2028}' || c == '\U{2029}'
  }

  predicate NoSpace(s: string) {
    forall k :: 0 <= k < |s| ==> !IsSpace(s[k])
  }

  /** `trimStart()`: drops the leading white space and nothing else. */
  function TrimStart(s: string): (r: string)
    ensures |r| <= |s| && r == s[|s| - |r|..]
    ensures forall k :: 0 <= k < |s| - |r| ==> IsSpace(s[k])
    ensures r == [] || !IsSpace(r[0])
  {
    if s != [] && IsSpace(s[0]) then TrimStart(s[1..]) else s
  }

  /** `trimEnd()`: drops the trailing white space and nothing else. */
  function TrimEnd(s: string): (r: string)
    ensures |r| <= |s| && r == s[..|r|]
    ensures forall k :: |r| <= k < |s| ==> IsSpace(s[k])
    ensures r == [] || !IsSpace(r[|r| - 1])
  {
    if s != [] && IsSpace(s[|s| - 1]) then TrimEnd(s[..|s| - 1]) else s
  }

  /** `trim()`: a contiguous piece of `s` with white space only around it. */
  function Trim(s: string): (r: string)
    ensures |r| <= |s|
    ensures r == [] || (!IsSpace(r[0]) && !IsSpace(r[|r| - 1]))
    ensures NoSpace(s) ==> r == s
  {
    TrimEnd(TrimStart(s))
  }

  /** ASCII-only lower-casing, the folding SQLite's LIKE and a case-insensitive
      regular expression apply to the letters involved here. */
  function Lower(c: char): char {
    if 'A' <= c <= 'Z' then (c as int + 32) as char else c
  }

  predicate EqualsIgnoreCase(a: string, b: string) {
    |a| == |b| && forall k :: 0 <= k < |a| ==> Lower(a[k]) == Lower(b[k])
  }

  /** `s` occurs in `text` at position `i`, ignoring ASCII case. */
  predicate OccursAt(text: string, s: string, i: nat) {
    i + |s| <= |text| && EqualsIgnoreCase(text[i..i + |s|], s)
  }

  predicate ContainsIgnoreCase(text: string, s: string) {
    exists i: nat | i <= |text| :: OccursAt(text, s, i)
  }

  predicate NoneIn(s: string, seps: set<char>) {
    forall k :: 0 <= k < |s| ==> s[k] !in seps
  }

  /** `s.split(/[seps]/)`: the pieces between separator characters, always at
      least one. */
  function Split(s: string, seps: set<char>): (parts: seq<string>)
    ensures |parts| >= 1
  {
    if s == [] then [[]]
    else
      var rest := Split(s[1..], seps);
      if s[0] in seps then [[]] + rest else [[s[0]] + rest[0]] + rest[1..]
  }

  /** `parts.join(sep)`, also what `toString()` does to an array of strings
      with `sep == ','`. */
  function Join(parts: seq<string>, sep: char): string {
    if |parts| == 0 then []
    else if |parts| == 1 then parts[0]
    else parts[0] + [sep] + Join(parts[1..], sep)
  }

  /** The joined string starts with the first part, followed by the
      separator when more parts follow. */
  lemma JoinFirst(parts: seq<string>, sep: char)
    requires parts != []
    ensures var j := Join(parts, sep);
      && |parts[0]| <= |j| && j[..|parts[0]|] == parts[0]
      && (|parts| == 1 ==> j == parts[0])
      && (|parts| > 1 ==> |parts[0]| < |j| && j[|parts[0]|] == sep)
  {
    if |parts| > 1 {
      var j := Join(parts, sep);
      assert j == parts[0] + ([sep] + Join(parts[1..], sep));
    }
  }

  function Last<T>(s: seq<T>): T
    requires |s| > 0
  {
    s[|s| - 1]
  }

  /** `split(...)[0]` is the longest prefix free of separators. */
  lemma {:induction false} SplitFirst(s: string, seps: set<char>)
    ensures var f := Split(s, seps)[0];
      |f| <= |s| && f == s[..|f|] && NoneIn(f, seps) && (|f| == |s| || s[|f|] in seps)
  {
    if s != [] && s[0] !in seps {
      SplitFirst(s[1..], seps);
      var g := Split(s[1..], seps)[0];
      assert Split(s, seps)[0] == [s[0]] + g;
      assert s == [s[0]] + s[1..];
    }
  }

  /** `l` is the longest suffix of `s` free of separators. */
  predicate IsLastPiece(l: string, s: string, seps: set<char>) {
    |l| <= |s| && l == s[|s| - |l|..] && NoneIn(l, seps) && (|l| == |s| || s[|s| - |l| - 1] in seps)
  }

  /** `split(...).pop()` is the longest suffix free of separators. */
  lemma {:induction false} SplitLast(s: string, seps: set<char>)
    ensures IsLastPiece(Last(Split(s, seps)), s, seps)
  {
    if s == [] {
      assert Split(s, seps) == [[]];
    } else {
      SplitLast(s[1..], seps);
      if s[0] !in seps && |Split(s[1..], seps)| == 1 {
        SplitLastWhole(s, seps);
      } else {
        SplitLastTail(s, seps);
      }
    }
  }

  /** The case where `s` has no separator: its last piece is itself. */
  lemma SplitLastWhole(s: string, seps: set<char>)
    requires s != [] && s[0] !in seps && |Split(s[1..], seps)| == 1
    ensures IsLastPiece(Last(Split(s, seps)), s, seps)
  {
    var t := s[1..];
    SplitSingle(t, seps);
    assert s == [s[0]] + t;
    assert Split(s, seps) == [s];
    assert forall k :: 1 <= k < |s| ==> s[k] == t[k - 1];
    assert NoneIn(s, seps);
  }

  /** The case where the last piece of `s[1..]` stays the last piece of `s`. */
  lemma SplitLastTail(s: string, seps: set<char>)
    requires s != [] && (s[0] in seps || |Split(s[1..], seps)| > 1)
    requires IsLastPiece(Last(Split(s[1..], seps)), s[1..], seps)
    ensures IsLastPiece(Last(Split(s, seps)), s, seps)
  {
    var t := s[1..];
    var l := Last(Split(t, seps));
    assert Last(Split(s, seps)) == l;
    if |l| == |t| && s[0] !in seps {
      assert l == t;
      SplitFree(t, seps);
      assert false;
    }
    PrependKeepsLast(s[0], t, l, seps);
    assert s == [s[0]] + t;
  }

  /** A character put in front keeps the last piece, unless that piece was
      the whole string and the character is not a separator. */
  lemma PrependKeepsLast(c: char, t: string, l: string, seps: set<char>)
    requires IsLastPiece(l, t, seps) && (|l| < |t| || c in seps)
    ensures IsLastPiece(l, [c] + t, seps)
  {
    var s := [c] + t;
    assert s[|s| - |l|..] == t[|t| - |l|..];
    if |l| < |t| {
      assert s[|s| - |l| - 1] == t[|t| - |l| - 1];
    }
  }

  /** A string that splits into one piece holds no separator. */
  lemma {:induction false} SplitSingle(s: string, seps: set<char>)
    requires |Split(s, seps)| == 1
    ensures NoneIn(s, seps) && Split(s, seps) == [s]
  {
    if s != [] {
      var rest := Split(s[1..], seps);
      assert s[0] !in seps;
      SplitSingle(s[1..], seps);
      assert Split(s, seps) == [[s[0]] + s[1..]];
      assert [s[0]] + s[1..] == s;
    }
  }

  /** A string free of separators is its own single piece. */
  lemma {:induction false} SplitFree(s: string, seps: set<char>)
    requires NoneIn(s, seps)
    ensures Split(s, seps) == [s]
  {
    if s != [] {
      SplitFree(s[1..], seps);
      assert Split(s, seps) == [[s[0]] + s[1..]];
      assert [s[0]] + s[1..] == s;
    }
  }
}
