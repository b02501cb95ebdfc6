/** The front-end store access of `src/utils/db.ts`: `saveClipboardToDB`, a
    plain insert into the shared `clipboard` table, and `getHistory`, which
    filters the rows, groups them by (content, window title, window
    executable, type) with `COUNT(*)` and `MAX(date)`, orders the groups and
    cuts one page. The clock is an argument. */
module GroupedHistory {
  import opened Wrappers
  import opened Text
  import opened Seqs
  import opened Ordering
  import opened HistoryStore

  /** `saveClipboardToDB`: one `INSERT` of the five given columns, the image
      left NULL; the insert trigger indexes the new row. */
  method SaveClipboardToDB(store: Store, content: string, windowTitle: string, windowExe: string,
                           kind: string, now: string)
    requires store.Valid()
    modifies store
    ensures store.Valid()
    ensures store.rows == old(store.rows) + [Row(NextId(old(store.rows)), content, now, windowTitle, windowExe, kind, None)]
  {
    var _ := store.Insert(content, now, windowTitle, windowExe, kind, None);
  }

  // ---------------------------------------------------------------- LIKE

  /** SQLite's `LIKE` without `ESCAPE`: `%` matches any run of characters,
      `_` any single character, and other characters match ignoring ASCII
      case. */
  predicate Like(p: string, s: string)
    decreases |p| + |s|
  {
    if p == [] then s == []
    else if p[0] == '%' then Like(p[1..], s) || (s != [] && Like(p, s[1..]))
    else if s == [] then false
    else if p[0] == '_' then Like(p[1..], s[1..])
    else Lower(p[0]) == Lower(s[0]) && Like(p[1..], s[1..])
  }

  predicate NoWildcard(x: string) {
    forall k :: 0 <= k < |x| ==> x[k] != '%' && x[k] != '_'
  }

  /** A pattern that starts with literal text matches exactly the strings
      that start with that text, ignoring case, and whose rest matches the
      remainder of the pattern. */
  lemma {:induction false} LikeLiteralPrefix(x: string, q: string, s: string)
    requires NoWildcard(x)
    ensures Like(x + q, s) <==> OccursAt(s, x, 0) && Like(q, s[|x|..])
    decreases |x|
  {
    if x != [] {
      assert (x + q)[0] == x[0];
      assert (x + q)[1..] == x[1..] + q;
      if s != [] {
        LikeLiteralPrefix(x[1..], q, s[1..]);
        if |x| <= |s| {
          assert s[1..][..|x| - 1] == s[1..|x|];
          assert s[1..][|x| - 1..] == s[|x|..];
          assert OccursAt(s, x, 0) <==> Lower(x[0]) == Lower(s[0]) && OccursAt(s[1..], x[1..], 0) by {
            if OccursAt(s[1..], x[1..], 0) && Lower(x[0]) == Lower(s[0]) {
              forall k | 0 <= k < |x| ensures Lower(s[..|x|][k]) == Lower(x[k]) {
                if k > 0 {
                  assert s[..|x|][k] == s[1..][..|x| - 1][k - 1];
                }
              }
            }
            if OccursAt(s, x, 0) {
              forall k | 0 <= k < |x| - 1 ensures Lower(s[1..][..|x| - 1][k]) == Lower(x[1..][k]) {
                assert s[1..][..|x| - 1][k] == s[..|x|][k + 1];
              }
            }
          }
        }
      }
    } else {
      assert x + q == q;
    }
  }

  /** A lone `%` matches everything. */
  lemma {:induction false} LikeAnything(s: string)
    ensures Like("%", s)
  {
    if s != [] {
      LikeAnything(s[1..]);
    }
  }

  /** A leading `%` lets the rest of the pattern match any suffix. */
  lemma {:induction false} LikeLeadingPercent(q: string, s: string)
    ensures Like(['%'] + q, s) <==> exists i :: 0 <= i <= |s| && Like(q, s[i..])
  {
    assert (['%'] + q)[1..] == q;
    assert s[0..] == s;
    if s != [] {
      assert Like(['%'] + q, s) == (Like(q, s) || Like(['%'] + q, s[1..]));
      LikeLeadingPercent(q, s[1..]);
      if exists i :: 0 <= i <= |s[1..]| && Like(q, s[1..][i..]) {
        var i :| 0 <= i <= |s[1..]| && Like(q, s[1..][i..]);
        assert s[1..][i..] == s[i + 1..];
      }
      if exists i :: 0 <= i <= |s| && Like(q, s[i..]) {
        var i :| 0 <= i <= |s| && Like(q, s[i..]);
        if i > 0 {
          assert s[1..][i - 1..] == s[i..];
        }
      }
    } else {
      if exists i :: 0 <= i <= |s| && Like(q, s[i..]) {
        var i :| 0 <= i <= |s| && Like(q, s[i..]);
        assert s[i..] == s;
      }
    }
  }

  /** `content LIKE '%x%'` for a filter text free of wildcards is substring
      containment ignoring ASCII case. */
  lemma LikeIsContainment(x: string, s: string)
    requires NoWildcard(x)
    ensures Like("%" + x + "%", s) <==> ContainsIgnoreCase(s, x)
  {
    assert "%" + x + "%" == ['%'] + (x + "%");
    LikeLeadingPercent(x + "%", s);
    forall i | 0 <= i <= |s|
      ensures Like(x + "%", s[i..]) <==> OccursAt(s, x, i)
    {
      LikeLiteralPrefix(x, "%", s[i..]);
      if i + |x| <= |s| {
        LikeAnything(s[i..][|x|..]);
        assert s[i..][..|x|] == s[i..i + |x|];
      }
    }
    if ContainsIgnoreCase(s, x) {
      var i: nat :| i <= |s| && OccursAt(s, x, i);
      assert Like(x + "%", s[i..]);
    }
  }

  // ---------------------------------------------------------------- filter

  /** A filter value takes part only when it is a non-empty string. */
  predicate Given(v: Option<string>) {
    v.Some? && v.value != ""
  }

  /** The `WHERE` clause built from `filter`: equality on type, window title
      and window executable, `LIKE '%x%'` on the content, all ANDed. */
  predicate Keeps(f: FilterOptions, r: Row) {
    && (Given(f.kind) ==> r.kind == f.kind.value)
    && (Given(f.windowTitle) ==> r.windowTitle == f.windowTitle.value)
    && (Given(f.windowExe) ==> r.windowExe == f.windowExe.value)
    && (Given(f.content) ==> Like("%" + f.content.value + "%", r.content))
  }

  function Kept(rows: seq<Row>, f: FilterOptions): seq<Row> {
    Filter(rows, (r: Row) => Keeps(f, r))
  }

  /** Filter values that are missing or empty add no condition. */
  lemma UnsetFilterKeepsAll(rows: seq<Row>, f: FilterOptions)
    requires !Given(f.kind) && !Given(f.windowTitle) && !Given(f.windowExe) && !Given(f.content)
    ensures Kept(rows, f) == rows
  {
    FilterAll(rows, (r: Row) => Keeps(f, r));
  }

  /** A row is kept exactly when it meets every given condition. */
  lemma KeptExactly(rows: seq<Row>, f: FilterOptions, r: Row)
    ensures r in Kept(rows, f) <==> (r in rows
      && (Given(f.kind) ==> r.kind == f.kind.value)
      && (Given(f.windowTitle) ==> r.windowTitle == f.windowTitle.value)
      && (Given(f.windowExe) ==> r.windowExe == f.windowExe.value)
      && (Given(f.content) ==> Like("%" + f.content.value + "%", r.content)))
  {
    FilterIn(rows, (r: Row) => Keeps(f, r), r);
  }

  // ---------------------------------------------------------------- GROUP BY

  datatype GroupKey = GroupKey(content: string, windowTitle: string, windowExe: string, kind: string)

  /** One result row of `getHistory` (`ClipboardHistory`). */
  datatype Entry = Entry(content: string, date: string, windowTitle: string, windowExe: string,
                         kind: string, count: int)

  function KeyOf(r: Row): GroupKey {
    GroupKey(r.content, r.windowTitle, r.windowExe, r.kind)
  }

  function EntryKey(e: Entry): GroupKey {
    GroupKey(e.content, e.windowTitle, e.windowExe, e.kind)
  }

  /** `COUNT(*)` over the rows of group `k`. */
  function CountOf(rows: seq<Row>, k: GroupKey): nat {
    if rows == [] then 0
    else CountOf(rows[..|rows| - 1], k) + if KeyOf(rows[|rows| - 1]) == k then 1 else 0
  }

  function MaxStr(a: string, b: string): string {
    if StrLe(a, b) then b else a
  }

  function IndexOfKey(es: seq<Entry>, k: GroupKey): (r: Option<nat>)
    ensures r.Some? ==> r.value < |es| && EntryKey(es[r.value]) == k
    ensures r.None? ==> forall i :: 0 <= i < |es| ==> EntryKey(es[i]) != k
  {
    if es == [] then None
    else if EntryKey(es[0]) == k then Some(0)
    else match IndexOfKey(es[1..], k)
      case Some(i) => assert es[i + 1] == es[1..][i]; Some(i + 1)
      case None => assert forall i :: 1 <= i < |es| ==> es[i] == es[1..][i - 1]; None
  }

  /** Folds one row into the groups: its group's count grows by one and its
      date becomes the larger of the two; a new group starts with count 1. */
  function Accumulate(es: seq<Entry>, r: Row): seq<Entry> {
    match IndexOfKey(es, KeyOf(r))
    case Some(i) => es[i := es[i].(count := es[i].count + 1, date := MaxStr(es[i].date, r.date))]
    case None => es + [Entry(r.content, r.date, r.windowTitle, r.windowExe, r.kind, 1)]
  }

  /** `GROUP BY content, window_title, window_exe, type`, groups listed in
      order of first appearance. */
  function Grouped(rows: seq<Row>): seq<Entry> {
    if rows == [] then [] else Accumulate(Grouped(rows[..|rows| - 1]), rows[|rows| - 1])
  }

  predicate KeysDistinct(es: seq<Entry>) {
    forall i, j :: 0 <= i < j < |es| ==> EntryKey(es[i]) != EntryKey(es[j])
  }

  /** Folding a row into groups that already have its group. */
  lemma AccumulateFound(es: seq<Entry>, r: Row, i: nat)
    requires IndexOfKey(es, KeyOf(r)) == Some(i)
    ensures |Accumulate(es, r)| == |es|
    ensures forall m :: 0 <= m < |es| ==> EntryKey(Accumulate(es, r)[m]) == EntryKey(es[m])
    ensures forall m :: 0 <= m < |es| && m != i ==> Accumulate(es, r)[m] == es[m]
    ensures Accumulate(es, r)[i] == es[i].(count := es[i].count + 1, date := MaxStr(es[i].date, r.date))
  {
  }

  /** Folding a row into groups that lack its group. */
  lemma AccumulateNew(es: seq<Entry>, r: Row)
    requires IndexOfKey(es, KeyOf(r)).None?
    ensures Accumulate(es, r) == es + [Entry(r.content, r.date, r.windowTitle, r.windowExe, r.kind, 1)]
  {
  }

  lemma GroupedUnfold(rows: seq<Row>)
    requires rows != []
    ensures Grouped(rows) == Accumulate(Grouped(rows[..|rows| - 1]), rows[|rows| - 1])
    ensures forall j :: 0 <= j < |rows| - 1 ==> rows[..|rows| - 1][j] == rows[j]
  {
  }

  /** No two entries share a group. */
  lemma {:induction false} GroupedKeysDistinct(rows: seq<Row>)
    ensures KeysDistinct(Grouped(rows))
    decreases |rows|
  {
    if rows != [] {
      var init, r := rows[..|rows| - 1], rows[|rows| - 1];
      var es := Grouped(init);
      GroupedKeysDistinct(init);
      GroupedUnfold(rows);
      var es' := Grouped(rows);
      match IndexOfKey(es, KeyOf(r))
      case Some(i) =>
        AccumulateFound(es, r, i);
      case None =>
        AccumulateNew(es, r);
        forall a, b | 0 <= a < b < |es'| ensures EntryKey(es'[a]) != EntryKey(es'[b]) {
          if b == |es| {
            assert EntryKey(es'[b]) == KeyOf(r) && es'[a] == es[a];
          } else {
            assert es'[a] == es[a] && es'[b] == es[b];
          }
        }
    }
  }

  /** Every entry is the group of some row. */
  lemma {:induction false} GroupedFromRows(rows: seq<Row>)
    ensures forall i :: 0 <= i < |Grouped(rows)| ==>
      exists j :: 0 <= j < |rows| && KeyOf(rows[j]) == EntryKey(Grouped(rows)[i])
    decreases |rows|
  {
    if rows != [] {
      var init, r := rows[..|rows| - 1], rows[|rows| - 1];
      var es := Grouped(init);
      GroupedFromRows(init);
      GroupedUnfold(rows);
      var es' := Grouped(rows);
      forall m | 0 <= m < |es'| ensures exists j :: 0 <= j < |rows| && KeyOf(rows[j]) == EntryKey(es'[m]) {
        match IndexOfKey(es, KeyOf(r))
        case Some(i) =>
          AccumulateFound(es, r, i);
          var j :| 0 <= j < |init| && KeyOf(init[j]) == EntryKey(es[m]);
          assert KeyOf(rows[j]) == EntryKey(es'[m]);
        case None =>
          AccumulateNew(es, r);
          if m == |es| {
            assert KeyOf(rows[|rows| - 1]) == EntryKey(es'[m]);
          } else {
            var j :| 0 <= j < |init| && KeyOf(init[j]) == EntryKey(es[m]);
            assert KeyOf(rows[j]) == EntryKey(es'[m]);
          }
      }
      assert forall m :: 0 <= m < |es'| ==> exists j :: 0 <= j < |rows| && KeyOf(rows[j]) == EntryKey(es'[m]);
    } else {
      assert Grouped(rows) == [];
    }
  }

  /** Every row's group has an entry. */
  lemma {:induction false} GroupedCoversRows(rows: seq<Row>)
    ensures forall j :: 0 <= j < |rows| ==>
      exists i :: 0 <= i < |Grouped(rows)| && EntryKey(Grouped(rows)[i]) == KeyOf(rows[j])
    decreases |rows|
  {
    if rows != [] {
      var init, r := rows[..|rows| - 1], rows[|rows| - 1];
      var es := Grouped(init);
      GroupedCoversRows(init);
      GroupedUnfold(rows);
      var es' := Grouped(rows);
      forall j | 0 <= j < |rows| ensures exists i :: 0 <= i < |es'| && EntryKey(es'[i]) == KeyOf(rows[j]) {
        match IndexOfKey(es, KeyOf(r))
        case Some(i) =>
          AccumulateFound(es, r, i);
          if j == |init| {
            assert EntryKey(es'[i]) == KeyOf(rows[j]);
          } else {
            var i' :| 0 <= i' < |es| && EntryKey(es[i']) == KeyOf(init[j]);
            assert EntryKey(es'[i']) == KeyOf(rows[j]);
          }
        case None =>
          AccumulateNew(es, r);
          if j == |init| {
            assert EntryKey(es'[|es|]) == KeyOf(rows[j]);
          } else {
            var i' :| 0 <= i' < |es| && EntryKey(es[i']) == KeyOf(init[j]);
            assert EntryKey(es'[i']) == KeyOf(rows[j]);
          }
      }
    }
  }

  /** Each entry's count is the number of rows in its group. */
  lemma {:induction false} GroupedCounts(rows: seq<Row>)
    ensures forall i :: 0 <= i < |Grouped(rows)| ==> Grouped(rows)[i].count == CountOf(rows, EntryKey(Grouped(rows)[i]))
    decreases |rows|
  {
    if rows != [] {
      var init, r := rows[..|rows| - 1], rows[|rows| - 1];
      var es := Grouped(init);
      GroupedCounts(init);
      GroupedKeysDistinct(init);
      GroupedUnfold(rows);
      var es' := Grouped(rows);
      match IndexOfKey(es, KeyOf(r))
      case Some(i) =>
        AccumulateFound(es, r, i);
        forall m | 0 <= m < |es'| ensures es'[m].count == CountOf(rows, EntryKey(es'[m])) {
          if m != i {
            assert EntryKey(es[m]) != EntryKey(es[i]);
          }
        }
      case None =>
        AccumulateNew(es, r);
        NewGroupAbsent(init, r);
        CountAbsent(init, KeyOf(r));
        forall m | 0 <= m < |es'| ensures es'[m].count == CountOf(rows, EntryKey(es'[m])) {
          if m < |es| {
            assert es'[m] == es[m];
          }
        }
    }
  }

  /** A group with no row counts zero. */
  lemma {:induction false} CountAbsent(rows: seq<Row>, k: GroupKey)
    requires forall j :: 0 <= j < |rows| ==> KeyOf(rows[j]) != k
    ensures CountOf(rows, k) == 0
    decreases |rows|
  {
    if rows != [] {
      CountAbsent(rows[..|rows| - 1], k);
    }
  }

  lemma MaxStrBounds(a: string, b: string)
    ensures StrLe(a, MaxStr(a, b)) && StrLe(b, MaxStr(a, b))
    ensures MaxStr(a, b) == a || MaxStr(a, b) == b
  {
    StrLeTotal(a, b);
    StrLeRefl(a);
    StrLeRefl(b);
  }

  lemma {:induction false} StrLeRefl(a: string)
    ensures StrLe(a, a)
    decreases |a|
  {
    if a != [] {
      StrLeRefl(a[1..]);
    }
  }

  /** Rows whose group has no entry yet. */
  lemma NewGroupAbsent(rows: seq<Row>, r: Row)
    requires IndexOfKey(Grouped(rows), KeyOf(r)).None?
    ensures forall j :: 0 <= j < |rows| ==> KeyOf(rows[j]) != KeyOf(r)
  {
    GroupedCoversRows(rows);
  }

  /** Each entry's date is the date of one of the rows of its group. */
  lemma {:induction false} GroupedDatesAttained(rows: seq<Row>)
    ensures forall i :: 0 <= i < |Grouped(rows)| ==>
      exists j :: 0 <= j < |rows| && KeyOf(rows[j]) == EntryKey(Grouped(rows)[i]) && rows[j].date == Grouped(rows)[i].date
    decreases |rows|
  {
    if rows != [] {
      var init, r := rows[..|rows| - 1], rows[|rows| - 1];
      var es := Grouped(init);
      GroupedDatesAttained(init);
      GroupedUnfold(rows);
      var es' := Grouped(rows);
      forall m | 0 <= m < |es'|
        ensures exists j :: 0 <= j < |rows| && KeyOf(rows[j]) == EntryKey(es'[m]) && rows[j].date == es'[m].date
      {
        match IndexOfKey(es, KeyOf(r))
        case Some(i) =>
          AccumulateFound(es, r, i);
          MaxStrBounds(es[i].date, r.date);
          if m == i && es'[i].date == r.date {
            assert KeyOf(rows[|rows| - 1]) == EntryKey(es'[i]);
          } else {
            var j :| 0 <= j < |init| && KeyOf(init[j]) == EntryKey(es[m]) && init[j].date == es[m].date;
            assert KeyOf(rows[j]) == EntryKey(es'[m]) && rows[j].date == es'[m].date;
          }
        case None =>
          AccumulateNew(es, r);
          if m == |es| {
            assert KeyOf(rows[|rows| - 1]) == EntryKey(es'[m]);
          } else {
            var j :| 0 <= j < |init| && KeyOf(init[j]) == EntryKey(es[m]) && init[j].date == es[m].date;
            assert KeyOf(rows[j]) == EntryKey(es'[m]) && rows[j].date == es'[m].date;
          }
      }
      assert forall m :: 0 <= m < |es'| ==>
        exists j :: 0 <= j < |rows| && KeyOf(rows[j]) == EntryKey(es'[m]) && rows[j].date == es'[m].date;
    } else {
      assert Grouped(rows) == [];
    }
  }

  /** No row of a group is dated later than its entry. */
  lemma {:induction false} GroupedDatesMax(rows: seq<Row>)
    ensures forall i, j :: 0 <= i < |Grouped(rows)| && 0 <= j < |rows| && KeyOf(rows[j]) == EntryKey(Grouped(rows)[i]) ==>
      StrLe(rows[j].date, Grouped(rows)[i].date)
    decreases |rows|
  {
    if rows != [] {
      var init, r := rows[..|rows| - 1], rows[|rows| - 1];
      var es := Grouped(init);
      GroupedDatesMax(init);
      GroupedKeysDistinct(init);
      GroupedUnfold(rows);
      var es' := Grouped(rows);
      StrLeRefl(r.date);
      forall m, j | 0 <= m < |es'| && 0 <= j < |rows| && KeyOf(rows[j]) == EntryKey(es'[m])
        ensures StrLe(rows[j].date, es'[m].date)
      {
        match IndexOfKey(es, KeyOf(r))
        case Some(i) =>
          AccumulateFound(es, r, i);
          MaxStrBounds(es[i].date, r.date);
          if m == i {
            if j < |init| {
              StrLeTrans(rows[j].date, es[i].date, es'[i].date);
            }
          } else {
            assert EntryKey(es[m]) != EntryKey(es[i]);
            assert j < |init|;
          }
        case None =>
          AccumulateNew(es, r);
          if m == |es| {
            NewGroupAbsent(init, r);
            assert j == |init|;
          } else {
            assert es'[m] == es[m];
            assert j < |init|;
          }
      }
      assert forall m, j :: 0 <= m < |es'| && 0 <= j < |rows| && KeyOf(rows[j]) == EntryKey(es'[m]) ==>
        StrLe(rows[j].date, es'[m].date);
    } else {
      assert Grouped(rows) == [];
    }
  }

  /** The sum of the counts of a list of entries. */
  function Total(es: seq<Entry>): int {
    if es == [] then 0 else Total(es[..|es| - 1]) + es[|es| - 1].count
  }

  lemma {:induction false} TotalAppend(a: seq<Entry>, b: seq<Entry>)
    ensures Total(a + b) == Total(a) + Total(b)
    decreases |b|
  {
    if b == [] {
      assert a + b == a;
    } else {
      TotalAppend(a, b[..|b| - 1]);
      assert (a + b)[..|a + b| - 1] == a + b[..|b| - 1];
    }
  }

  lemma TotalUpdate(es: seq<Entry>, i: nat, e: Entry)
    requires i < |es|
    ensures Total(es[i := e]) == Total(es) - es[i].count + e.count
  {
    assert es == es[..i] + [es[i]] + es[i + 1..];
    assert es[i := e] == es[..i] + [e] + es[i + 1..];
    TotalAppend(es[..i] + [es[i]], es[i + 1..]);
    TotalAppend(es[..i], [es[i]]);
    TotalAppend(es[..i] + [e], es[i + 1..]);
    TotalAppend(es[..i], [e]);
    assert Total([es[i]]) == es[i].count by { assert [es[i]][..0] == []; }
    assert Total([e]) == e.count by { assert [e][..0] == []; }
  }

  /** The counts add up to the number of rows grouped. */
  lemma {:induction false} GroupedTotal(rows: seq<Row>)
    ensures Total(Grouped(rows)) == |rows|
    decreases |rows|
  {
    if rows != [] {
      var init := rows[..|rows| - 1];
      GroupedTotal(init);
      AccumulateTotal(Grouped(init), rows[|rows| - 1]);
    }
  }

  /** Folding one row in adds one to the total. */
  lemma AccumulateTotal(es: seq<Entry>, r: Row)
    ensures Total(Accumulate(es, r)) == Total(es) + 1
  {
    match IndexOfKey(es, KeyOf(r))
    case Some(i) =>
      TotalUpdate(es, i, es[i].(count := es[i].count + 1, date := MaxStr(es[i].date, r.date)));
    case None =>
      var e := Entry(r.content, r.date, r.windowTitle, r.windowExe, r.kind, 1);
      TotalAppend(es, [e]);
      assert Total([e]) == 1 by { assert [e][..0] == []; }
  }

  /** Rearranging entries keeps their total. */
  lemma {:induction false} TotalPermutation(xs: seq<Entry>, ys: seq<Entry>)
    requires multiset(xs) == multiset(ys)
    ensures Total(xs) == Total(ys)
    decreases |xs|
  {
    if xs == [] {
      assert ys == [] by { assert |ys| == |multiset(ys)|; }
    } else {
      var x := xs[|xs| - 1];
      assert x in multiset(ys);
      var j :| 0 <= j < |ys| && ys[j] == x;
      RemovedPermutation(xs, ys, j);
      TotalPermutation(xs[..|xs| - 1], ys[..j] + ys[j + 1..]);
      TotalPermutationStep(xs, ys, j);
    }
  }

  /** Taking the last entry of `xs` and the same entry of `ys` leaves two
      rearrangements of each other. */
  lemma RemovedPermutation(xs: seq<Entry>, ys: seq<Entry>, j: nat)
    requires multiset(xs) == multiset(ys) && xs != [] && j < |ys| && ys[j] == xs[|xs| - 1]
    ensures multiset(xs[..|xs| - 1]) == multiset(ys[..j] + ys[j + 1..])
  {
    RemoveOneMultiset(ys, j);
    RemoveOneMultiset(xs, |xs| - 1);
    assert xs[..|xs| - 1] + xs[|xs|..] == xs[..|xs| - 1];
  }

  lemma TotalPermutationStep(xs: seq<Entry>, ys: seq<Entry>, j: nat)
    requires xs != [] && j < |ys| && ys[j] == xs[|xs| - 1]
    requires Total(xs[..|xs| - 1]) == Total(ys[..j] + ys[j + 1..])
    ensures Total(xs) == Total(ys)
  {
    TotalRemove(ys, j);
  }

  lemma RemoveOneMultiset<T>(xs: seq<T>, j: nat)
    requires j < |xs|
    ensures multiset(xs[..j] + xs[j + 1..]) == multiset(xs) - multiset{xs[j]}
  {
    assert xs == xs[..j] + [xs[j]] + xs[j + 1..];
  }

  /** The total without the entry at `j` is the total less its count. */
  lemma TotalRemove(ys: seq<Entry>, j: nat)
    requires j < |ys|
    ensures Total(ys) == Total(ys[..j] + ys[j + 1..]) + ys[j].count
  {
    var x := ys[j];
    assert ys == ys[..j] + [x] + ys[j + 1..];
    TotalAppend(ys[..j] + [x], ys[j + 1..]);
    TotalAppend(ys[..j], [x]);
    TotalAppend(ys[..j], ys[j + 1..]);
    assert Total([x]) == x.count by { assert [x][..0] == []; }
  }

  // ---------------------------------------------------------------- ORDER BY, LIMIT

  /** The sortable result columns; `date` and `count` name the aggregates. */
  datatype GroupColumn = ContentOrder | DateOrder | WindowTitleOrder | WindowExeOrder | TypeOrder | CountOrder

  datatype GroupSort = GroupSort(column: GroupColumn, order: Direction)

  /** The sort key of a column, as a function of the group. */
  function GroupKeyOf(column: GroupColumn): Entry -> Key {
    (e: Entry) => GroupColumnKey(column, e)
  }

  function GroupColumnKey(column: GroupColumn, e: Entry): Key {
    match column
    case ContentOrder => Str(e.content)
    case DateOrder => Str(e.date)
    case WindowTitleOrder => Str(e.windowTitle)
    case WindowExeOrder => Str(e.windowExe)
    case TypeOrder => Str(e.kind)
    case CountOrder => Num(e.count)
  }

  /** The options object `getHistory` destructures; `None` is a property
      left undefined. */
  datatype HistoryQuery = HistoryQuery(offset: Option<int>, limit: Option<int>,
                                       filter: Option<FilterOptions>, sort: Option<GroupSort>)

  const NoFilter := FilterOptions(None, None, None, None)

  /** The groups in result order, before the page is cut: `ORDER BY MAX(date)
      DESC` unless a sort is given. */
  function OrderedGroups(rows: seq<Row>, q: HistoryQuery): seq<Entry> {
    var s := q.sort.GetOr(GroupSort(DateOrder, Desc));
    SortBy(Grouped(Kept(rows, q.filter.GetOr(NoFilter))), GroupKeyOf(s.column), s.order)
  }

  /** `getHistory`: offset 0 and limit 20 unless given. */
  function GetHistory(rows: seq<Row>, q: HistoryQuery): seq<Entry> {
    Page(OrderedGroups(rows, q), q.offset.GetOr(0), q.limit.GetOr(20))
  }

  /** The ordered groups are the groups, rearranged. */
  lemma OrderedGroupsMembers(rows: seq<Row>, q: HistoryQuery, e: Entry)
    ensures e in OrderedGroups(rows, q) <==> e in Grouped(Kept(rows, q.filter.GetOr(NoFilter)))
  {
    assert e in OrderedGroups(rows, q) <==> e in multiset(OrderedGroups(rows, q));
  }

  /** The ordered result holds no two entries of the same group. */
  lemma OrderedGroupsDistinct(rows: seq<Row>, q: HistoryQuery)
    ensures KeysDistinct(OrderedGroups(rows, q))
  {
    var g := Grouped(Kept(rows, q.filter.GetOr(NoFilter)));
    GroupedKeysDistinct(Kept(rows, q.filter.GetOr(NoFilter)));
    KeysDistinctPermutation(g, OrderedGroups(rows, q));
  }

  /** A rearrangement of entries with distinct keys has distinct keys. */
  lemma KeysDistinctPermutation(g: seq<Entry>, o: seq<Entry>)
    requires KeysDistinct(g) && multiset(g) == multiset(o)
    ensures KeysDistinct(o)
  {
    assert Distinct(g);
    DistinctPermutation(g, o);
    forall i, j | 0 <= i < j < |o| ensures EntryKey(o[i]) != EntryKey(o[j]) {
      assert o[i] in multiset(g) && o[j] in multiset(g);
      var a :| 0 <= a < |g| && g[a] == o[i];
      var b :| 0 <= b < |g| && g[b] == o[j];
      assert a != b;
    }
  }

  /** Filtering comes before grouping: the group of every kept row has an
      entry in the ordered result. */
  lemma OrderedGroupsCover(rows: seq<Row>, q: HistoryQuery)
    ensures forall r :: r in Kept(rows, q.filter.GetOr(NoFilter)) ==>
      exists e :: e in OrderedGroups(rows, q) && EntryKey(e) == KeyOf(r)
  {
    var kept := Kept(rows, q.filter.GetOr(NoFilter));
    var g := Grouped(kept);
    GroupedCoversRows(kept);
    forall r | r in kept ensures exists e :: e in OrderedGroups(rows, q) && EntryKey(e) == KeyOf(r) {
      var j :| 0 <= j < |kept| && kept[j] == r;
      var i :| 0 <= i < |g| && EntryKey(g[i]) == KeyOf(kept[j]);
      OrderedGroupsMembers(rows, q, g[i]);
    }
  }

  /** Every entry of the ordered result is the group of a kept row. */
  lemma OrderedGroupsFromKept(rows: seq<Row>, q: HistoryQuery)
    ensures forall e :: e in OrderedGroups(rows, q) ==>
      exists r :: r in Kept(rows, q.filter.GetOr(NoFilter)) && KeyOf(r) == EntryKey(e)
  {
    var kept := Kept(rows, q.filter.GetOr(NoFilter));
    var g := Grouped(kept);
    GroupedFromRows(kept);
    forall e | e in OrderedGroups(rows, q) ensures exists r :: r in kept && KeyOf(r) == EntryKey(e) {
      OrderedGroupsMembers(rows, q, e);
      var i :| 0 <= i < |g| && g[i] == e;
      var j :| 0 <= j < |kept| && KeyOf(kept[j]) == EntryKey(g[i]);
      assert kept[j] in kept;
    }
  }

  /** Each result's count is the size of its group among the kept rows (so
      at least one), and its date is the latest of that group. */
  lemma OrderedGroupsAggregates(rows: seq<Row>, q: HistoryQuery)
    ensures var kept := Kept(rows, q.filter.GetOr(NoFilter));
      var o := OrderedGroups(rows, q);
      && (forall e :: e in o ==> e.count == CountOf(kept, EntryKey(e)) && e.count >= 1)
      && (forall e :: e in o ==> exists r :: r in kept && KeyOf(r) == EntryKey(e) && r.date == e.date)
      && (forall e, r :: e in o && r in kept && KeyOf(r) == EntryKey(e) ==> StrLe(r.date, e.date))
  {
    var kept := Kept(rows, q.filter.GetOr(NoFilter));
    var g := Grouped(kept);
    var o := OrderedGroups(rows, q);
    GroupedCounts(kept);
    GroupedDatesAttained(kept);
    GroupedDatesMax(kept);
    forall e | e in o
      ensures e.count == CountOf(kept, EntryKey(e)) && e.count >= 1
      ensures exists r :: r in kept && KeyOf(r) == EntryKey(e) && r.date == e.date
    {
      OrderedGroupsMembers(rows, q, e);
      var i :| 0 <= i < |g| && g[i] == e;
      var j :| 0 <= j < |kept| && KeyOf(kept[j]) == EntryKey(e) && kept[j].date == e.date;
      CountPresent(kept, j);
    }
    forall e, r | e in o && r in kept && KeyOf(r) == EntryKey(e) ensures StrLe(r.date, e.date) {
      OrderedGroupsMembers(rows, q, e);
      var i :| 0 <= i < |g| && g[i] == e;
      var j :| 0 <= j < |kept| && kept[j] == r;
    }
  }

  /** The counts over the whole ordered result add up to the number of kept
      rows. */
  lemma OrderedGroupsTotal(rows: seq<Row>, q: HistoryQuery)
    ensures Total(OrderedGroups(rows, q)) == |Kept(rows, q.filter.GetOr(NoFilter))|
  {
    var kept := Kept(rows, q.filter.GetOr(NoFilter));
    GroupedTotal(kept);
    TotalPermutation(Grouped(kept), OrderedGroups(rows, q));
  }

  /** A group with a row counts at least one. */
  lemma {:induction false} CountPresent(rows: seq<Row>, j: nat)
    requires j < |rows|
    ensures CountOf(rows, KeyOf(rows[j])) >= 1
    decreases |rows|
  {
    if j < |rows| - 1 {
      CountPresent(rows[..|rows| - 1], j);
    }
  }

  /** Without a sort option the groups come latest date first. */
  lemma DefaultOrderIsLatestFirst(rows: seq<Row>, q: HistoryQuery)
    requires q.sort.None?
    ensures var o := OrderedGroups(rows, q);
      forall i, j :: 0 <= i < j < |o| ==> StrLe(o[j].date, o[i].date)
  {
    LatestFirst(OrderedGroups(rows, q));
  }

  lemma LatestFirst(o: seq<Entry>)
    requires SortedBy(o, GroupKeyOf(DateOrder), Desc)
    ensures forall i, j :: 0 <= i < j < |o| ==> StrLe(o[j].date, o[i].date)
  {
    forall i, j | 0 <= i < j < |o| ensures StrLe(o[j].date, o[i].date) {
      assert Before(Desc, GroupKeyOf(DateOrder)(o[i]), GroupKeyOf(DateOrder)(o[j]));
    }
  }

  /** The pages at offset `0` and offset `limit` are adjacent and share no
      entry. */
  lemma ConsecutivePages(rows: seq<Row>, q: HistoryQuery, limit: nat)
    ensures var first := GetHistory(rows, q.(offset := Some(0), limit := Some(limit)));
      var second := GetHistory(rows, q.(offset := Some(limit), limit := Some(limit)));
      && first + second == Page(OrderedGroups(rows, q), 0, 2 * limit)
      && forall e :: e in first ==> e !in second
  {
    var o := OrderedGroups(rows, q);
    OrderedGroupsDistinct(rows, q);
    assert Distinct(o);
    PagesAdjacent(o, limit);
    PagesDisjoint(o, limit);
  }
}
