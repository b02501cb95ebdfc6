/** `ORDER BY` and `LIMIT ... OFFSET ...` as SQLite evaluates them: key
    comparison, an ordering of the result rows and the page cut from it. */
module Ordering {
  import opened Seqs

  /** A column value as SQLite compares it for sorting: NULL first, then
      INTEGER values, then TEXT values; integers numerically, text by the
      BINARY collation (which for UTF-8 text is code-point order). */
  datatype Key = Null | Num(n: int) | Str(s: string)

  datatype Direction = Asc | Desc

  /** Lexicographic order on code points; a proper prefix sorts first. */
  predicate StrLe(a: string, b: string)
    decreases |a|
  {
    a == [] || (b != [] && (a[0] < b[0] || (a[0] == b[0] && StrLe(a[1..], b[1..]))))
  }

  lemma {:induction false} StrLeTotal(a: string, b: string)
    ensures StrLe(a, b) || StrLe(b, a)
    decreases |a|
  {
    if a != [] && b != [] && a[0] == b[0] {
      StrLeTotal(a[1..], b[1..]);
    }
  }

  lemma {:induction false} StrLeTrans(a: string, b: string, c: string)
    requires StrLe(a, b) && StrLe(b, c)
    ensures StrLe(a, c)
    decreases |a|
  {
    if a != [] && a[0] == b[0] && b[0] == c[0] {
      StrLeTrans(a[1..], b[1..], c[1..]);
    }
  }

  predicate KeyLe(a: Key, b: Key) {
    match (a, b)
    case (Null, _) => true
    case (_, Null) => false
    case (Num(x), Num(y)) => x <= y
    case (Num(_), Str(_)) => true
    case (Str(_), Num(_)) => false
    case (Str(x), Str(y)) => StrLe(x, y)
  }

  /** `a` may be listed before `b` under `ORDER BY ... dir`. */
  predicate Before(dir: Direction, a: Key, b: Key) {
    if dir == Asc then KeyLe(a, b) else KeyLe(b, a)
  }

  lemma BeforeTotal(dir: Direction, a: Key, b: Key)
    ensures Before(dir, a, b) || Before(dir, b, a)
  {
    if a.Str? && b.Str? {
      StrLeTotal(a.s, b.s);
    }
  }

  lemma BeforeTrans(dir: Direction, a: Key, b: Key, c: Key)
    requires Before(dir, a, b) && Before(dir, b, c)
    ensures Before(dir, a, c)
  {
    if a.Str? && b.Str? && c.Str? {
      if dir == Asc {
        StrLeTrans(a.s, b.s, c.s);
      } else {
        StrLeTrans(c.s, b.s, a.s);
      }
    }
  }

  ghost predicate SortedBy<T>(xs: seq<T>, key: T -> Key, dir: Direction) {
    forall i, j :: 0 <= i < j < |xs| ==> Before(dir, key(xs[i]), key(xs[j]))
  }

  /** Places `x` before the first element it may precede. */
  function Insert<T(==)>(x: T, xs: seq<T>, key: T -> Key, dir: Direction): (r: seq<T>)
    ensures multiset(r) == multiset(xs) + multiset{x}
  {
    if xs == [] then [x]
    else if Before(dir, key(x), key(xs[0])) then [x] + xs
    else
      assert xs == [xs[0]] + xs[1..];
      [xs[0]] + Insert(x, xs[1..], key, dir)
  }

  lemma {:induction false} InsertSorted<T>(x: T, xs: seq<T>, key: T -> Key, dir: Direction)
    requires SortedBy(xs, key, dir)
    ensures SortedBy(Insert(x, xs, key, dir), key, dir)
  {
    if xs != [] {
      if Before(dir, key(x), key(xs[0])) {
        forall j | 0 < j < |xs| ensures Before(dir, key(x), key(xs[j])) {
          BeforeTrans(dir, key(x), key(xs[0]), key(xs[j]));
        }
      } else {
        BeforeTotal(dir, key(x), key(xs[0]));
        var tail := Insert(x, xs[1..], key, dir);
        InsertSorted(x, xs[1..], key, dir);
        forall j | 0 <= j < |tail| ensures Before(dir, key(xs[0]), key(tail[j])) {
          assert tail[j] in multiset(tail);
          assert tail[j] == x || tail[j] in xs[1..];
        }
      }
    }
  }

  /** The result order of `ORDER BY key dir`: sorted, and a rearrangement of
      its input. Rows with equal keys keep their input order (a choice SQL
      leaves open). */
  function SortBy<T(==)>(xs: seq<T>, key: T -> Key, dir: Direction): (r: seq<T>)
    ensures multiset(r) == multiset(xs)
    ensures SortedBy(r, key, dir)
  {
    if xs == [] then []
    else
      var rest := SortBy(xs[1..], key, dir);
      InsertSorted(xs[0], rest, key, dir);
      assert xs == [xs[0]] + xs[1..];
      Insert(xs[0], rest, key, dir)
  }

  /** `LIMIT limit OFFSET offset`: a negative offset counts as zero and a
      negative limit means no upper bound. */
  function Page<T>(xs: seq<T>, offset: int, limit: int): seq<T> {
    var start := PageStart(xs, offset);
    var end := if limit < 0 || limit > |xs| - start then |xs| else start + limit;
    xs[start..end]
  }

  /** Where the page begins: `offset`, kept within the rows. */
  function PageStart<T>(xs: seq<T>, offset: int): (start: nat)
    ensures start <= |xs|
    ensures 0 <= offset <= |xs| ==> start == offset
  {
    if offset < 0 then 0 else if offset > |xs| then |xs| else offset
  }

  /** Any page is a run of consecutive rows, no longer than a non-negative
      `limit`. */
  lemma PageElements<T>(xs: seq<T>, offset: int, limit: int)
    ensures PageStart(xs, offset) + |Page(xs, offset, limit)| <= |xs|
    ensures limit >= 0 ==> |Page(xs, offset, limit)| <= limit
    ensures forall k :: 0 <= k < |Page(xs, offset, limit)| ==>
      Page(xs, offset, limit)[k] == xs[PageStart(xs, offset) + k]
  {
  }

  /** A page is the contiguous run of at most `limit` rows starting at row
      `offset`. */
  lemma PageIsRun<T>(xs: seq<T>, offset: nat, limit: nat)
    ensures |Page(xs, offset, limit)| == if offset >= |xs| then 0
                                          else if limit < |xs| - offset then limit
                                          else |xs| - offset
    ensures forall k :: 0 <= k < |Page(xs, offset, limit)| ==> Page(xs, offset, limit)[k] == xs[offset + k]
  {
  }

  /** The pages at offset `0` and at offset `limit` are adjacent: together
      they are the first `2 * limit` rows. */
  lemma PagesAdjacent<T>(xs: seq<T>, limit: nat)
    ensures Page(xs, 0, limit) + Page(xs, limit, limit) == Page(xs, 0, 2 * limit)
  {
  }

  /** With duplicate-free rows, the pages at offset `0` and `limit` share no row. */
  lemma PagesDisjoint<T>(xs: seq<T>, limit: nat)
    requires Distinct(xs)
    ensures forall x :: x in Page(xs, 0, limit) ==> x !in Page(xs, limit, limit)
  {
    var a, b := Page(xs, 0, limit), Page(xs, limit, limit);
    PagesAdjacent(xs, limit);
    DistinctSlice(xs, 0, |a| + |b|);
    assert a + b == xs[0..|a| + |b|];
    assert Distinct(a + b);
  }
}
