/** `highlightText` of `src/utils/highlight.tsx`: the text split around the
    case-insensitive occurrences of the search string, each occurrence
    marked. The search string is taken literally (no regular-expression
    metacharacters) and case is folded for ASCII letters. */
module Highlight {
  import opened Wrappers
  import opened Text

  /** The leftmost position at or after `from` where `s` occurs in `text`. */
  function IndexFrom(text: string, s: string, from: nat): (r: Option<nat>)
    requires from <= |text|
    ensures r.Some? ==> from <= r.value && r.value + |s| <= |text| && OccursAt(text, s, r.value)
    ensures r.Some? ==> forall j :: from <= j < r.value ==> !OccursAt(text, s, j)
    ensures r.None? ==> forall j :: from <= j <= |text| ==> !OccursAt(text, s, j)
    decreases |text| - from
  {
    if OccursAt(text, s, from) then Some(from)
    else if from == |text| then None
    else IndexFrom(text, s, from + 1)
  }

  /** `text.split(/(s)/gi)` for a literal non-empty `s`: the text between
      occurrences, with each occurrence kept between them. */
  function SplitKeeping(text: string, s: string): seq<string>
    requires s != []
    decreases |text|, 1
  {
    var r := IndexFrom(text, s, 0);
    if r.None? then [text] else SplitAround(text, s, r.value)
  }

  /** The gap before an occurrence at `i`, the occurrence, and the pieces of
      what follows it. */
  function SplitAround(text: string, s: string, i: nat): seq<string>
    requires s != [] && i + |s| <= |text|
    decreases |text|, 0
  {
    [text[..i], text[i..i + |s|]] + SplitKeeping(text[i + |s|..], s)
  }

  /** The parts put back together. */
  function Concat(parts: seq<string>): string {
    if parts == [] then [] else parts[0] + Concat(parts[1..])
  }

  /** `s` occurs nowhere inside `t`. */
  predicate Free(t: string, s: string) {
    forall j: nat :: j <= |t| ==> !OccursAt(t, s, j)
  }

  datatype Part = Plain(text: string) | Marked(text: string)

  /** What `highlightText` returns: the text itself, or the mapped parts. */
  datatype Highlighted = Unchanged(text: string) | Parts(parts: seq<Part>)

  function Mark(part: string, search: string): Part {
    if EqualsIgnoreCase(part, search) then Marked(part) else Plain(part)
  }

  function HighlightText(text: string, search: string): Highlighted {
    if search == [] then Unchanged(text)
    else
      var pieces := SplitKeeping(text, search);
      Parts(seq(|pieces|, i requires 0 <= i < |pieces| => Mark(pieces[i], search)))
  }

  lemma {:induction false} ConcatCons(a: string, b: string, rest: seq<string>)
    ensures Concat([a, b] + rest) == a + b + Concat(rest)
  {
    assert ([a, b] + rest)[1..] == [b] + rest;
    assert ([b] + rest)[1..] == rest;
  }

  /** An occurrence inside a piece of `text` is an occurrence in `text`. */
  lemma {:induction false} OccursInSlice(text: string, s: string, lo: nat, hi: nat, j: nat)
    requires lo <= hi <= |text| && OccursAt(text[lo..hi], s, j)
    ensures OccursAt(text, s, lo + j) && lo + j + |s| <= hi
  {
    var piece := text[lo..hi];
    forall k | 0 <= k < |s| ensures Lower(text[lo + j..lo + j + |s|][k]) == Lower(s[k]) {
      assert text[lo + j..lo + j + |s|][k] == piece[j..j + |s|][k];
    }
  }

  /** The gap before the leftmost occurrence holds no occurrence. */
  lemma {:induction false} GapBeforeFirst(text: string, s: string, i: nat)
    requires s != [] && IndexFrom(text, s, 0) == Some(i)
    ensures Free(text[..i], s)
  {
    forall j: nat | j <= |text[..i]| ensures !OccursAt(text[..i], s, j) {
      if OccursAt(text[..i], s, j) {
        OccursInSlice(text, s, 0, i, j);
      }
    }
  }

  /** The pieces of a text with an occurrence: the gap before the leftmost
      one, that occurrence and the pieces of what follows. */
  lemma SplitKeepingStep(text: string, s: string)
    requires s != [] && IndexFrom(text, s, 0).Some?
    ensures var i := IndexFrom(text, s, 0).value;
      i + |s| <= |text| && SplitKeeping(text, s) == SplitAround(text, s, i)
  {
  }

  lemma SplitAroundStep(text: string, s: string, i: nat)
    requires s != [] && i + |s| <= |text|
    ensures SplitAround(text, s, i) == [text[..i], text[i..i + |s|]] + SplitKeeping(text[i + |s|..], s)
  {
  }

  /** Splitting keeps every character: the pieces concatenate to the text. */
  lemma {:induction false} SplitKeepingConcat(text: string, s: string)
    requires s != []
    ensures Concat(SplitKeeping(text, s)) == text
    decreases |text|
  {
    var r := IndexFrom(text, s, 0);
    if r.None? {
      assert SplitKeeping(text, s) == [text];
      assert Concat([text]) == text + Concat([]);
    } else {
      var i := r.value;
      SplitKeepingStep(text, s);
      SplitAroundStep(text, s, i);
      var rest := text[i + |s|..];
      SplitKeepingConcat(rest, s);
      ConcatAround(text, i, |s|, SplitKeeping(rest, s));
    }
  }

  /** A gap and an occurrence put in front of pieces that spell the rest of
      a text spell the whole text. */
  lemma ConcatAround(text: string, i: nat, n: nat, tail: seq<string>)
    requires i + n <= |text| && Concat(tail) == text[i + n..]
    ensures Concat([text[..i], text[i..i + n]] + tail) == text
  {
    ConcatCons(text[..i], text[i..i + n], tail);
    assert text == text[..i] + text[i..i + n] + text[i + n..];
  }

  /** The pieces alternate: there is an odd number of them; the odd-numbered
      ones are occurrences and the even-numbered ones contain none. */
  ghost predicate Alternates(ps: seq<string>, s: string) {
    && |ps| % 2 == 1
    && (forall i :: 0 <= i < |ps| && i % 2 == 1 ==> EqualsIgnoreCase(ps[i], s))
    && (forall i :: 0 <= i < |ps| && i % 2 == 0 ==> Free(ps[i], s))
  }

  lemma {:induction false} SplitKeepingShape(text: string, s: string)
    requires s != []
    ensures Alternates(SplitKeeping(text, s), s)
    decreases |text|
  {
    var r := IndexFrom(text, s, 0);
    if r.None? {
      assert SplitKeeping(text, s) == [text];
    } else {
      var i := r.value;
      SplitKeepingStep(text, s);
      SplitAroundStep(text, s, i);
      GapBeforeFirst(text, s, i);
      SplitKeepingShape(text[i + |s|..], s);
      assert OccursAt(text, s, i);
      ShapeAround(text[..i], text[i..i + |s|], SplitKeeping(text[i + |s|..], s), s);
    }
  }

  /** A gap free of occurrences and an occurrence put in front of
      alternating pieces keep them alternating. */
  lemma ShapeAround(gap: string, hit: string, tail: seq<string>, s: string)
    requires Free(gap, s) && EqualsIgnoreCase(hit, s) && Alternates(tail, s)
    ensures Alternates([gap, hit] + tail, s)
  {
    var ps := [gap, hit] + tail;
    forall k | 2 <= k < |ps| ensures ps[k] == tail[k - 2] {
    }
  }

  /** An empty search string leaves the text unchanged; any other one splits
      it into parts whose texts concatenate back to it. */
  lemma {:induction false} HighlightKeepsText(text: string, search: string)
    ensures search == [] ==> HighlightText(text, search) == Unchanged(text)
    ensures search != [] ==> HighlightText(text, search).Parts?
    ensures search != [] ==> (var ps := HighlightText(text, search).parts;
      |ps| % 2 == 1 && Concat(seq(|ps|, i requires 0 <= i < |ps| => ps[i].text)) == text)
  {
    if search != [] {
      SplitKeepingShape(text, search);
      SplitKeepingConcat(text, search);
      var pieces := SplitKeeping(text, search);
      var ps := HighlightText(text, search).parts;
      assert seq(|ps|, i requires 0 <= i < |ps| => ps[i].text) == pieces;
    }
  }

  /** A part is highlighted exactly when it equals the search string ignoring
      case, which happens exactly at the odd positions: gap, match, gap, ... */
  lemma {:induction false} MarkedExactlyAtOddPositions(text: string, search: string)
    requires search != []
    ensures var ps := HighlightText(text, search).parts;
      forall i :: 0 <= i < |ps| ==>
        (ps[i].Marked? <==> EqualsIgnoreCase(ps[i].text, search)) && (ps[i].Marked? <==> i % 2 == 1)
  {
    SplitKeepingShape(text, search);
    var pieces := SplitKeeping(text, search);
    forall i | 0 <= i < |pieces| && i % 2 == 0 ensures !EqualsIgnoreCase(pieces[i], search) {
      assert !OccursAt(pieces[i], search, 0);
      assert |pieces[i]| == |search| ==> pieces[i][0..|search|] == pieces[i];
    }
  }

  /** No gap contains the search string: the occurrences are found leftmost
      first and none is missed. */
  lemma {:induction false} GapsHoldNoOccurrence(text: string, search: string)
    requires search != []
    ensures var ps := HighlightText(text, search).parts;
      forall i :: 0 <= i < |ps| && ps[i].Plain? ==> Free(ps[i].text, search)
  {
    SplitKeepingShape(text, search);
    MarkedExactlyAtOddPositions(text, search);
  }
}
