/** The history store of `src-tauri/src/api/db.rs`: the `clipboard` table with
    its `clipboard_fts` full-text index kept in step by three triggers, the
    commands that insert, amend and delete rows, and `get_history`, which
    keeps the newest row of each distinct content before it filters, orders
    and pages. Text extraction from images and the FTS5 `MATCH` operator are
    parameters; the clock is an argument. */
module HistoryStore {
  import opened Wrappers
  import opened Seqs
  import opened Ordering

  /** One row of the `clipboard` table; `image` is `None` for SQL NULL. */
  datatype Row = Row(id: int, content: string, date: string, windowTitle: string,
                     windowExe: string, kind: string, image: Option<string>)

  /** The columns of one `clipboard_fts` row; the index is keyed by rowid. */
  datatype FtsEntry = FtsEntry(content: string, windowTitle: string, windowExe: string)

  function Indexed(r: Row): FtsEntry {
    FtsEntry(r.content, r.windowTitle, r.windowExe)
  }

  /** Rows are kept in rowid order, and rowids are unique. */
  ghost predicate IdsAscending(rows: seq<Row>) {
    forall i, j :: 0 <= i < j < |rows| ==> rows[i].id < rows[j].id
  }

  /** The ids present in the table. */
  ghost function Ids(rows: seq<Row>): set<int> {
    set r | r in rows :: r.id
  }

  /** What the triggers `clipboard_ai`, `clipboard_ad` and `clipboard_au`
      maintain: the index holds exactly the indexed columns of every row. */
  ghost predicate Mirrors(rows: seq<Row>, fts: map<int, FtsEntry>) {
    && fts.Keys == Ids(rows)
    && (forall r :: r in rows ==> r.id in fts && fts[r.id] == Indexed(r))
  }

  /** The rowid SQLite gives the next row of a table whose largest rowid is
      the last row's. */
  function NextId(rows: seq<Row>): int {
    if rows == [] then 1 else rows[|rows| - 1].id + 1
  }

  /** The position of the row with this id, if any. */
  function Find(rows: seq<Row>, id: int): (r: Option<nat>)
    ensures r.Some? ==> r.value < |rows| && rows[r.value].id == id
    ensures r.None? ==> forall i :: 0 <= i < |rows| ==> rows[i].id != id
  {
    if rows == [] then None
    else if rows[0].id == id then Some(0)
    else match Find(rows[1..], id)
      case Some(i) => assert rows[i + 1] == rows[1..][i]; Some(i + 1)
      case None => assert forall i :: 1 <= i < |rows| ==> rows[i] == rows[1..][i - 1]; None
  }

  /** The table after `UPDATE clipboard SET content = text WHERE id = id`. */
  function WithContent(rows: seq<Row>, id: int, text: string): (r: seq<Row>)
    ensures |r| == |rows|
  {
    seq(|rows|, i requires 0 <= i < |rows| =>
      if rows[i].id == id then rows[i].(content := text) else rows[i])
  }

  /** The table after `DELETE FROM clipboard WHERE id = id`. */
  function Without(rows: seq<Row>, id: int): seq<Row> {
    Filter(rows, (r: Row) => r.id != id)
  }

  /** Setting the content touches only the rows with that id, and only their
      content. */
  lemma UpdateTouchesOnlyContent(rows: seq<Row>, id: int, text: string)
    ensures forall i :: 0 <= i < |rows| && rows[i].id != id ==> WithContent(rows, id, text)[i] == rows[i]
    ensures forall i :: 0 <= i < |rows| && rows[i].id == id ==>
      WithContent(rows, id, text)[i].content == text
      && WithContent(rows, id, text)[i].(content := rows[i].content) == rows[i]
  {
  }

  /** Amending the row just appended leaves the earlier rows alone. */
  lemma WithContentOfLast(rows: seq<Row>, r: Row, text: string)
    requires forall i :: 0 <= i < |rows| ==> rows[i].id < r.id
    ensures WithContent(rows + [r], r.id, text) == rows + [r.(content := text)]
  {
    var a, b := WithContent(rows + [r], r.id, text), rows + [r.(content := text)];
    forall k | 0 <= k < |a| ensures a[k] == b[k] {
      if k < |rows| {
        assert (rows + [r])[k] == rows[k];
      }
    }
  }

  /** In an ascending table, setting the content of the row at `i` is the
      update by its id, and keeps the ids ascending. */
  lemma UpdateAt(rows: seq<Row>, i: nat, text: string)
    requires IdsAscending(rows) && i < |rows|
    ensures var rows' := rows[i := rows[i].(content := text)];
      rows' == WithContent(rows, rows[i].id, text) && IdsAscending(rows')
  {
    var rows' := rows[i := rows[i].(content := text)];
    var w := WithContent(rows, rows[i].id, text);
    forall k | 0 <= k < |rows| ensures rows'[k] == w[k] {
      if k != i {
        assert rows[k].id != rows[i].id;
      }
    }
    forall a, b | 0 <= a < b < |rows'| ensures rows'[a].id < rows'[b].id {
      assert rows'[a].id == rows[a].id && rows'[b].id == rows[b].id;
    }
  }

  /** Updating a missing id changes nothing. */
  lemma UpdateMissingIsNoOp(rows: seq<Row>, id: int, text: string)
    requires Find(rows, id).None?
    ensures WithContent(rows, id, text) == rows
  {
  }

  /** Setting the same content twice is the same as setting it once. */
  lemma UpdateIdempotent(rows: seq<Row>, id: int, text: string)
    ensures WithContent(WithContent(rows, id, text), id, text) == WithContent(rows, id, text)
  {
  }

  /** Deleting removes exactly the rows with that id. */
  lemma DeleteRemovesOnlyThatId(rows: seq<Row>, id: int, r: Row)
    ensures r in Without(rows, id) <==> r in rows && r.id != id
  {
    FilterIn(rows, (r: Row) => r.id != id, r);
  }

  lemma AscendingAppend(rows: seq<Row>, r: Row)
    requires IdsAscending(rows) && r.id == NextId(rows)
    ensures IdsAscending(rows + [r])
    ensures forall i :: 0 <= i < |rows| ==> rows[i].id < r.id
  {
    if rows != [] {
      assert forall i :: 0 <= i < |rows| - 1 ==> rows[i].id < rows[|rows| - 1].id;
    }
  }

  /** The `clipboard_ai` trigger keeps the index a mirror. */
  lemma MirrorsAppend(rows: seq<Row>, fts: map<int, FtsEntry>, r: Row)
    requires Mirrors(rows, fts) && forall i :: 0 <= i < |rows| ==> rows[i].id < r.id
    ensures Mirrors(rows + [r], fts[r.id := Indexed(r)])
  {
    var rows' := rows + [r];
    assert forall x :: x in rows' <==> x in rows || x == r;
    assert Ids(rows') == Ids(rows) + {r.id};
    assert r.id !in Ids(rows);
  }

  /** The `clipboard_au` trigger keeps the index a mirror. */
  lemma MirrorsUpdate(rows: seq<Row>, fts: map<int, FtsEntry>, i: nat, text: string)
    requires IdsAscending(rows) && Mirrors(rows, fts) && i < |rows|
    ensures var updated := rows[i].(content := text);
      Mirrors(rows[i := updated], (fts - {rows[i].id})[rows[i].id := Indexed(updated)])
  {
    var updated := rows[i].(content := text);
    var rows' := rows[i := updated];
    var fts' := (fts - {rows[i].id})[rows[i].id := Indexed(updated)];
    forall x | x in rows' ensures x.id in fts' && fts'[x.id] == Indexed(x) {
      var j :| 0 <= j < |rows'| && rows'[j] == x;
      if j != i {
        assert rows[j].id != rows[i].id;
      }
    }
    ReplaceKeepsIds(rows, i, updated);
  }

  /** Replacing a row by one with the same id keeps the set of ids. */
  lemma ReplaceKeepsIds(rows: seq<Row>, i: nat, r: Row)
    requires i < |rows| && r.id == rows[i].id
    ensures Ids(rows[i := r]) == Ids(rows)
  {
    var rows' := rows[i := r];
    forall id | id in Ids(rows) ensures id in Ids(rows') {
      var j :| 0 <= j < |rows| && rows[j].id == id;
      assert rows'[j].id == id;
    }
    forall id | id in Ids(rows') ensures id in Ids(rows) {
      var j :| 0 <= j < |rows'| && rows'[j].id == id;
      assert rows[j].id == id;
    }
  }

  /** In an ascending table no other row shares the id at `i`. */
  lemma AscendingUnique(rows: seq<Row>, i: nat)
    requires IdsAscending(rows) && i < |rows|
    ensures forall j :: 0 <= j < |rows| && j != i ==> rows[j].id != rows[i].id
  {
  }

  lemma AscendingRemove(rows: seq<Row>, i: nat)
    requires IdsAscending(rows) && i < |rows|
    ensures IdsAscending(rows[..i] + rows[i + 1..])
  {
    var rows' := rows[..i] + rows[i + 1..];
    forall a, b | 0 <= a < b < |rows'| ensures rows'[a].id < rows'[b].id {
      var a0 := if a < i then a else a + 1;
      var b0 := if b < i then b else b + 1;
      assert rows'[a] == rows[a0] && rows'[b] == rows[b0];
    }
  }

  /** Every row but the one at `i` survives its removal. */
  lemma RemoveKeepsOthers(rows: seq<Row>, i: nat, x: Row)
    requires i < |rows|
    ensures x in rows[..i] + rows[i + 1..] ==> x in rows
    ensures x in rows && x.id != rows[i].id ==> x in rows[..i] + rows[i + 1..]
  {
    var rows' := rows[..i] + rows[i + 1..];
    if x in rows && x.id != rows[i].id {
      var j :| 0 <= j < |rows| && rows[j] == x;
      if j < i {
        assert rows'[j] == x;
      } else {
        assert rows'[j - 1] == x;
      }
    }
  }

  /** The `clipboard_ad` trigger keeps the index a mirror. */
  lemma MirrorsRemove(rows: seq<Row>, fts: map<int, FtsEntry>, i: nat)
    requires Mirrors(rows, fts) && i < |rows|
    requires forall j :: 0 <= j < |rows| && j != i ==> rows[j].id != rows[i].id
    ensures Mirrors(rows[..i] + rows[i + 1..], fts - {rows[i].id})
  {
    var rows' := rows[..i] + rows[i + 1..];
    var id := rows[i].id;
    forall x | x in rows' ensures x.id != id {
      RemoveKeepsOthers(rows, i, x);
      var j :| 0 <= j < |rows'| && rows'[j] == x;
      if j < i {
        assert rows'[j] == rows[j];
      } else {
        assert rows'[j] == rows[j + 1];
      }
    }
    forall k | k in Ids(rows') ensures k in Ids(rows) - {id} {
      var x :| x in rows' && x.id == k;
      RemoveKeepsOthers(rows, i, x);
    }
    forall k | k in Ids(rows) - {id} ensures k in Ids(rows') {
      var x :| x in rows && x.id == k;
      RemoveKeepsOthers(rows, i, x);
    }
    forall x | x in rows' ensures x in rows {
      RemoveKeepsOthers(rows, i, x);
    }
  }

  /** Removing position `i` of an ascending table is the filter on its id. */
  lemma RemoveAtIsWithout(rows: seq<Row>, i: nat)
    requires i < |rows|
    requires forall j :: 0 <= j < |rows| && j != i ==> rows[j].id != rows[i].id
    ensures Without(rows, rows[i].id) == rows[..i] + rows[i + 1..]
  {
    var id := rows[i].id;
    FilterDropOne(rows, i, (r: Row) => r.id != id);
  }

  /** The `clipboard` table and its FTS index, as one SQLite file holds them. */
  class Store {
    var rows: seq<Row>
    var fts: map<int, FtsEntry>

    ghost predicate Valid()
      reads this
    {
      IdsAscending(rows) && Mirrors(rows, fts)
    }

    /** `initialize_database` on a new file: both tables empty. */
    constructor ()
      ensures Valid() && rows == [] && fts == map[]
    {
      rows := [];
      fts := map[];
    }

    /** `INSERT INTO clipboard (...) VALUES (...)` followed by the
        `clipboard_ai` trigger; answers `last_insert_rowid()`. */
    method Insert(content: string, date: string, windowTitle: string, windowExe: string,
                  kind: string, image: Option<string>) returns (id: int)
      requires Valid()
      modifies this
      ensures Valid()
      ensures id == NextId(old(rows))
      ensures rows == old(rows) + [Row(id, content, date, windowTitle, windowExe, kind, image)]
      ensures forall i :: 0 <= i < |old(rows)| ==> old(rows)[i].id < id
    {
      id := NextId(rows);
      var row := Row(id, content, date, windowTitle, windowExe, kind, image);
      AscendingAppend(rows, row);
      MirrorsAppend(rows, fts, row);
      rows := rows + [row];
      fts := fts[id := Indexed(row)];
    }

    /** `update_clipboard_in_db`: `UPDATE clipboard SET content = ? WHERE id = ?`
        followed by the `clipboard_au` trigger (drop the old index entry, add
        the new one). */
    method UpdateContent(id: int, extractedText: string)
      requires Valid()
      modifies this
      ensures Valid()
      ensures rows == WithContent(old(rows), id, extractedText)
    {
      var found := Find(rows, id);
      if found.Some? {
        var i := found.value;
        var updated := rows[i].(content := extractedText);
        MirrorsUpdate(rows, fts, i, extractedText);
        UpdateAt(rows, i, extractedText);
        rows := rows[i := updated];
        fts := (fts - {id})[id := Indexed(updated)];
      } else {
        UpdateMissingIsNoOp(rows, id, extractedText);
      }
    }

    /** `delete_clipboard_from_db`: `DELETE FROM clipboard WHERE id = ?`
        followed by the `clipboard_ad` trigger. */
    method Delete(id: int)
      requires Valid()
      modifies this
      ensures Valid()
      ensures rows == Without(old(rows), id)
    {
      var found := Find(rows, id);
      if found.Some? {
        var i := found.value;
        AscendingUnique(rows, i);
        RemoveAtIsWithout(rows, i);
        AscendingRemove(rows, i);
        MirrorsRemove(rows, fts, i);
        rows := rows[..i] + rows[i + 1..];
        fts := fts - {id};
      } else {
        FilterAll(rows, (r: Row) => r.id != id);
      }
    }

    /** `save_clipboard_to_db`: inserts one row stamped `now` (an absent
        image stored as ""), and for an image row replaces its content with
        the text `extract` finds in the image. A failed extraction is
        returned as the error, and the inserted row stays. */
    method SaveClipboard(content: string, windowTitle: string, windowExe: string, kind: string,
                         image: Option<string>, now: string,
                         extract: string -> Result<string, string>)
      returns (r: Result<int, string>)
      requires Valid()
      modifies this
      ensures Valid()
      ensures var id := NextId(old(rows));
        var row := Row(id, content, now, windowTitle, windowExe, kind, Some(image.GetOr("")));
        if kind != "image" then r == Success(id) && rows == old(rows) + [row]
        else match extract(image.GetOr(""))
          case Success(text) => r == Success(id) && rows == old(rows) + [row.(content := text)]
          case Failure(e) => r == Failure(e) && rows == old(rows) + [row]
    {
      var id := Insert(content, now, windowTitle, windowExe, kind, Some(image.GetOr("")));
      if kind == "image" {
        var base64 := image.GetOr("");
        var text := extract(base64);
        if text.Failure? {
          return Failure(text.error);
        }
        WithContentOfLast(old(rows), Row(id, content, now, windowTitle, windowExe, kind, Some(base64)), text.value);
        UpdateContent(id, text.value);
      }
      r := Success(id);
    }
  }

  // ---------------------------------------------------------------- get_history

  datatype FilterOptions = FilterOptions(kind: Option<string>, windowTitle: Option<string>,
                                         windowExe: Option<string>, content: Option<string>)

  datatype Column = IdColumn | ContentColumn | DateColumn | WindowTitleColumn
                  | WindowExeColumn | TypeColumn | ImageColumn

  datatype SortOptions = SortOptions(column: Column, order: Direction)

  /** The FTS5 `MATCH` operator, which this model does not interpret:
      `phrase(column, x)` for `column MATCH '"x"'` and `prefixPhrase(column,
      x)` for `column MATCH '"x"*'`. */
  datatype Matcher = Matcher(phrase: (string, string) -> bool, prefixPhrase: (string, string) -> bool)

  /** One element of the `get_history` answer. */
  datatype HistoryEntry = HistoryEntry(content: string, date: string, windowTitle: string,
                                       windowExe: string, kind: string, count: int, image: string)

  /** `MAX(id)` over the rows sharing `r`'s content is `r`'s id. */
  ghost predicate IsLatest(rows: seq<Row>, r: Row) {
    forall j :: 0 <= j < |rows| && rows[j].content == r.content ==> rows[j].id <= r.id
  }

  /** `FROM clipboard c INNER JOIN LatestEntries le ON c.id = le.latest_id`. */
  function LatestEntries(rows: seq<Row>): seq<Row> {
    Filter(rows, (r: Row) => forall j :: 0 <= j < |rows| && rows[j].content == r.content ==> rows[j].id <= r.id)
  }

  /** The FTS join and the `WHERE` conditions built from `filter`: no filter
      adds nothing; a filter joins with `clipboard_fts` and ANDs one
      condition per field present, the content field only when non-empty. */
  predicate Passes(filter: Option<FilterOptions>, fts: map<int, FtsEntry>, m: Matcher, r: Row) {
    match filter
    case None => true
    case Some(f) =>
      && r.id in fts
      && (f.kind.Some? ==> r.kind == f.kind.value)
      && (f.windowTitle.Some? ==> m.phrase(fts[r.id].windowTitle, f.windowTitle.value))
      && (f.windowExe.Some? ==> m.phrase(fts[r.id].windowExe, f.windowExe.value))
      && (f.content.Some? && f.content.value != "" ==> m.prefixPhrase(fts[r.id].content, f.content.value))
  }

  /** The rows the query selects, before ordering. */
  function Selected(rows: seq<Row>, fts: map<int, FtsEntry>, filter: Option<FilterOptions>, m: Matcher): seq<Row> {
    Filter(LatestEntries(rows), (r: Row) => Passes(filter, fts, m, r))
  }

  function ColumnKey(column: Column, r: Row): Key {
    match column
    case IdColumn => Num(r.id)
    case ContentColumn => Str(r.content)
    case DateColumn => Str(r.date)
    case WindowTitleColumn => Str(r.windowTitle)
    case WindowExeColumn => Str(r.windowExe)
    case TypeColumn => Str(r.kind)
    case ImageColumn => if r.image.Some? then Str(r.image.value) else Null
  }

  /** The sort key of a column, as a function of the row. */
  function SortKey(column: Column): Row -> Key {
    (r: Row) => ColumnKey(column, r)
  }

  /** `ORDER BY c.<column> <order>`, by default `ORDER BY c.date DESC`. */
  function Ordered(rows: seq<Row>, fts: map<int, FtsEntry>, filter: Option<FilterOptions>,
                   sort: Option<SortOptions>, m: Matcher): seq<Row> {
    var s := sort.GetOr(SortOptions(DateColumn, Desc));
    SortBy(Selected(rows, fts, filter, m), SortKey(s.column), s.order)
  }

  function ToEntry(r: Row): HistoryEntry
    requires r.image.Some?
  {
    HistoryEntry(r.content, r.date, r.windowTitle, r.windowExe, r.kind, 1, r.image.value)
  }

  /** The message rusqlite gives when the NULL `image` column of a row is read
      into a `String`. */
  const NullImageError: string := "Invalid column type Null at index: 6, name: image"

  /** `e` is read from the newest row of its content, one that passes the
      filter. */
  ghost predicate FromLatestRow(rows: seq<Row>, fts: map<int, FtsEntry>, filter: Option<FilterOptions>,
                                m: Matcher, e: HistoryEntry) {
    exists r :: r in rows && IsLatest(rows, r) && Passes(filter, fts, m, r) && r.image.Some? && ToEntry(r) == e
  }

  /** Reading the rows of a page into entries: fails if one of them has a
      NULL image. */
  function Entries(page: seq<Row>): Result<seq<HistoryEntry>, string> {
    if exists k :: 0 <= k < |page| && page[k].image.None? then Failure(NullImageError)
    else Success(seq(|page|, k requires 0 <= k < |page| => ToEntry(page[k])))
  }

  /** `get_history`: offset 0 and limit 20 by default; fails if a row of the
      page has a NULL image. */
  function GetHistory(rows: seq<Row>, fts: map<int, FtsEntry>, offset: Option<int>, limit: Option<int>,
                      filter: Option<FilterOptions>, sort: Option<SortOptions>, m: Matcher)
    : Result<seq<HistoryEntry>, string>
  {
    Entries(Page(Ordered(rows, fts, filter, sort, m), offset.GetOr(0), limit.GetOr(20)))
  }

  // ---------------------------------------------------------------- properties

  lemma SameIdSameRow(rows: seq<Row>, a: Row, b: Row)
    requires IdsAscending(rows) && a in rows && b in rows && a.id == b.id
    ensures a == b
  {
  }

  /** Every content present in the table has a newest row. */
  lemma LatestExists(rows: seq<Row>, r: Row)
    requires IdsAscending(rows) && r in rows
    ensures exists l :: l in rows && l.content == r.content && IsLatest(rows, l)
  {
    var i :| 0 <= i < |rows| && rows[i] == r;
    var j, k := i, i + 1;
    while k < |rows|
      invariant i <= j < k <= |rows|
      invariant rows[j].content == r.content
      invariant forall m :: j < m < k ==> rows[m].content != r.content
    {
      if rows[k].content == r.content {
        j := k;
      }
      k := k + 1;
    }
    assert IsLatest(rows, rows[j]);
  }

  lemma LatestEntriesIn(rows: seq<Row>, r: Row)
    ensures r in LatestEntries(rows) <==> r in rows && IsLatest(rows, r)
  {
    FilterIn(rows, (r: Row) => forall j :: 0 <= j < |rows| && rows[j].content == r.content ==> rows[j].id <= r.id, r);
  }

  lemma FilterAscending(rows: seq<Row>, p: Row -> bool)
    requires IdsAscending(rows)
    ensures IdsAscending(Filter(rows, p))
  {
    if rows != [] {
      FilterAscending(rows[1..], p);
      forall r | r in Filter(rows[1..], p) ensures rows[0].id < r.id {
        FilterIn(rows[1..], p, r);
      }
    }
  }

  /** The common table expression keeps exactly one row per distinct content:
      the one with the largest id. */
  lemma OneRowPerContent(rows: seq<Row>)
    requires IdsAscending(rows)
    ensures var latest := LatestEntries(rows);
      && (forall i, j :: 0 <= i < j < |latest| ==> latest[i].content != latest[j].content)
      && (forall r :: r in rows ==> exists l :: l in latest && l.content == r.content)
      && (forall l, r :: l in latest && r in rows && r.content == l.content ==> r.id <= l.id)
  {
    var latest := LatestEntries(rows);
    FilterAscending(rows, (r: Row) => forall j :: 0 <= j < |rows| && rows[j].content == r.content ==> rows[j].id <= r.id);
    forall i, j | 0 <= i < j < |latest| ensures latest[i].content != latest[j].content {
      LatestEntriesIn(rows, latest[i]);
      LatestEntriesIn(rows, latest[j]);
    }
    forall r | r in rows ensures exists l :: l in latest && l.content == r.content {
      LatestExists(rows, r);
      var l :| l in rows && l.content == r.content && IsLatest(rows, l);
      LatestEntriesIn(rows, l);
    }
    forall l, r | l in latest && r in rows && r.content == l.content ensures r.id <= l.id {
      LatestEntriesIn(rows, l);
    }
  }

  /** A row is selected exactly when it is the newest of its content and
      passes the filter. */
  lemma SelectedExactly(rows: seq<Row>, fts: map<int, FtsEntry>, filter: Option<FilterOptions>, m: Matcher, r: Row)
    ensures r in Selected(rows, fts, filter, m) <==> r in rows && IsLatest(rows, r) && Passes(filter, fts, m, r)
  {
    FilterIn(LatestEntries(rows), (r: Row) => Passes(filter, fts, m, r), r);
    LatestEntriesIn(rows, r);
  }

  /** The filter is applied after the newest row is chosen: when the newest
      row of a content fails the filter, that content is missing from the
      answer even if an older row would pass. */
  lemma FilteredAfterLatest(rows: seq<Row>, fts: map<int, FtsEntry>, filter: Option<FilterOptions>,
                            m: Matcher, newest: Row)
    requires IdsAscending(rows) && newest in rows && IsLatest(rows, newest)
    requires !Passes(filter, fts, m, newest)
    ensures forall r :: r in Selected(rows, fts, filter, m) ==> r.content != newest.content
  {
    forall r | r in Selected(rows, fts, filter, m) ensures r.content != newest.content {
      SelectedExactly(rows, fts, filter, m, r);
      if r.content == newest.content {
        SameIdSameRow(rows, r, newest);
      }
    }
  }

  /** While the index mirrors the table, an empty filter (no field set, or
      only an empty content) selects the same rows as no filter: the FTS join
      loses no row. */
  lemma EmptyFilterSelectsAll(rows: seq<Row>, fts: map<int, FtsEntry>, m: Matcher, content: Option<string>)
    requires Mirrors(rows, fts)
    requires content.None? || content == Some("")
    ensures Selected(rows, fts, Some(FilterOptions(None, None, None, content)), m)
         == Selected(rows, fts, None, m)
  {
    var latest := LatestEntries(rows);
    forall k | 0 <= k < |latest|
      ensures Passes(Some(FilterOptions(None, None, None, content)), fts, m, latest[k])
    {
      LatestEntriesIn(rows, latest[k]);
    }
    FilterAll(latest, (r: Row) => Passes(Some(FilterOptions(None, None, None, content)), fts, m, r));
    FilterAll(latest, (r: Row) => Passes(None, fts, m, r));
  }

  /** While the index mirrors the table, `MATCH` sees each row's own columns. */
  lemma MatchSeesRowColumns(rows: seq<Row>, fts: map<int, FtsEntry>, r: Row)
    requires Mirrors(rows, fts) && r in rows
    ensures r.id in fts && fts[r.id] == Indexed(r)
  {
  }

  /** Two selected rows with the same content are the same row. */
  lemma SelectedContentsUnique(rows: seq<Row>, fts: map<int, FtsEntry>, filter: Option<FilterOptions>,
                               m: Matcher, a: Row, b: Row)
    requires IdsAscending(rows)
    requires a in Selected(rows, fts, filter, m) && b in Selected(rows, fts, filter, m)
    requires a.content == b.content
    ensures a == b
  {
    SelectedExactly(rows, fts, filter, m, a);
    SelectedExactly(rows, fts, filter, m, b);
    SameIdSameRow(rows, a, b);
  }

  /** The ordered rows are each the newest of their content and pass the
      filter. */
  lemma OrderedMembers(rows: seq<Row>, fts: map<int, FtsEntry>, filter: Option<FilterOptions>,
                       sort: Option<SortOptions>, m: Matcher, r: Row)
    requires r in Ordered(rows, fts, filter, sort, m)
    ensures r in rows && IsLatest(rows, r) && Passes(filter, fts, m, r)
  {
    assert r in multiset(Ordered(rows, fts, filter, sort, m));
    SelectedExactly(rows, fts, filter, m, r);
  }

  /** No two ordered rows share a content. */
  lemma OrderedContentsDistinct(rows: seq<Row>, fts: map<int, FtsEntry>, filter: Option<FilterOptions>,
                                sort: Option<SortOptions>, m: Matcher)
    requires IdsAscending(rows)
    ensures var o := Ordered(rows, fts, filter, sort, m);
      forall i, j :: 0 <= i < j < |o| ==> o[i].content != o[j].content
  {
    var selected := Selected(rows, fts, filter, m);
    DistinctSelected(rows, fts, filter, m);
    forall a, b | a in selected && b in selected && a.content == b.content ensures a == b {
      SelectedContentsUnique(rows, fts, filter, m, a, b);
    }
    DistinctContents(selected, Ordered(rows, fts, filter, sort, m));
  }

  /** Without a sort option the rows come newest date first. */
  lemma OrderedByDefault(rows: seq<Row>, fts: map<int, FtsEntry>, filter: Option<FilterOptions>, m: Matcher)
    ensures var o := Ordered(rows, fts, filter, None, m);
      forall i, j :: 0 <= i < j < |o| ==> StrLe(o[j].date, o[i].date)
  {
    DateDescending(Ordered(rows, fts, filter, None, m));
  }

  lemma DateDescending(o: seq<Row>)
    requires SortedBy(o, SortKey(DateColumn), Desc)
    ensures forall i, j :: 0 <= i < j < |o| ==> StrLe(o[j].date, o[i].date)
  {
    forall i, j | 0 <= i < j < |o| ensures StrLe(o[j].date, o[i].date) {
      assert Before(Desc, SortKey(DateColumn)(o[i]), SortKey(DateColumn)(o[j]));
    }
  }

  /** A rearrangement of distinct rows, no two of them different with the
      same content, has no two positions with the same content. */
  lemma DistinctContents(xs: seq<Row>, ys: seq<Row>)
    requires multiset(xs) == multiset(ys) && Distinct(xs)
    requires forall a, b :: a in xs && b in xs && a.content == b.content ==> a == b
    ensures forall i, j :: 0 <= i < j < |ys| ==> ys[i].content != ys[j].content
  {
    DistinctPermutation(xs, ys);
    forall i, j | 0 <= i < j < |ys| ensures ys[i].content != ys[j].content {
      assert ys[i] in multiset(ys) && ys[j] in multiset(ys);
    }
  }

  /** A successful answer is the page of ordered rows, entry by entry. */
  lemma HistoryPage(rows: seq<Row>, fts: map<int, FtsEntry>, offset: Option<int>, limit: Option<int>,
                    filter: Option<FilterOptions>, sort: Option<SortOptions>, m: Matcher)
    requires GetHistory(rows, fts, offset, limit, filter, sort, m).Success?
    ensures var page := Page(Ordered(rows, fts, filter, sort, m), offset.GetOr(0), limit.GetOr(20));
      var es := GetHistory(rows, fts, offset, limit, filter, sort, m).value;
      |es| == |page| && forall k :: 0 <= k < |es| ==> page[k].image.Some? && es[k] == ToEntry(page[k])
  {
    EntriesExact(Page(Ordered(rows, fts, filter, sort, m), offset.GetOr(0), limit.GetOr(20)));
  }

  /** Entries read from rows: one per row, each that row's fields. */
  lemma EntriesExact(page: seq<Row>)
    requires Entries(page).Success?
    ensures var es := Entries(page).value;
      |es| == |page| && forall k :: 0 <= k < |es| ==> page[k].image.Some? && es[k] == ToEntry(page[k])
  {
  }

  /** Entry `k` read from a page of `o` is the row `k` places after the
      page's start. */
  lemma EntryOfPage(o: seq<Row>, offset: int, limit: int, k: nat)
    requires Entries(Page(o, offset, limit)).Success?
    requires k < |Entries(Page(o, offset, limit)).value|
    ensures var start := PageStart(o, offset);
      && start + k < |o| && o[start + k].image.Some?
      && Entries(Page(o, offset, limit)).value[k] == ToEntry(o[start + k])
  {
    EntriesExact(Page(o, offset, limit));
    PageElements(o, offset, limit);
  }


  /** A successful answer holds at most `limit` entries (20 by default), each
      with count 1, each the newest row of its content passing the filter,
      with pairwise different contents, and without a sort they come newest
      date first. */
  lemma HistoryAnswer(rows: seq<Row>, fts: map<int, FtsEntry>, offset: Option<int>, limit: Option<int>,
                      filter: Option<FilterOptions>, sort: Option<SortOptions>, m: Matcher)
    requires IdsAscending(rows)
    requires GetHistory(rows, fts, offset, limit, filter, sort, m).Success?
    ensures var es := GetHistory(rows, fts, offset, limit, filter, sort, m).value;
      && (limit.GetOr(20) >= 0 ==> |es| <= limit.GetOr(20))
      && (forall k :: 0 <= k < |es| ==> es[k].count == 1)
      && (forall k :: 0 <= k < |es| ==> FromLatestRow(rows, fts, filter, m, es[k]))
      && (forall i, j :: 0 <= i < j < |es| ==> es[i].content != es[j].content)
      && (sort.None? ==> forall i, j :: 0 <= i < j < |es| ==> StrLe(es[j].date, es[i].date))
  {
    AnswerSize(rows, fts, offset, limit, filter, sort, m);
    AnswerRowsLatest(rows, fts, offset, limit, filter, sort, m);
    AnswerContentsDistinct(rows, fts, offset, limit, filter, sort, m);
    if sort.None? {
      AnswerNewestFirst(rows, fts, offset, limit, filter, m);
    }
  }

  lemma AnswerSize(rows: seq<Row>, fts: map<int, FtsEntry>, offset: Option<int>, limit: Option<int>,
                   filter: Option<FilterOptions>, sort: Option<SortOptions>, m: Matcher)
    requires GetHistory(rows, fts, offset, limit, filter, sort, m).Success?
    ensures var es := GetHistory(rows, fts, offset, limit, filter, sort, m).value;
      && (limit.GetOr(20) >= 0 ==> |es| <= limit.GetOr(20))
      && (forall k :: 0 <= k < |es| ==> es[k].count == 1)
  {
    var page := Page(Ordered(rows, fts, filter, sort, m), offset.GetOr(0), limit.GetOr(20));
    EntriesExact(page);
    PageElements(Ordered(rows, fts, filter, sort, m), offset.GetOr(0), limit.GetOr(20));
  }

  lemma AnswerRowsLatest(rows: seq<Row>, fts: map<int, FtsEntry>, offset: Option<int>, limit: Option<int>,
                         filter: Option<FilterOptions>, sort: Option<SortOptions>, m: Matcher)
    requires GetHistory(rows, fts, offset, limit, filter, sort, m).Success?
    ensures var es := GetHistory(rows, fts, offset, limit, filter, sort, m).value;
      forall k :: 0 <= k < |es| ==> FromLatestRow(rows, fts, filter, m, es[k])
  {
    var o := Ordered(rows, fts, filter, sort, m);
    var start := PageStart(o, offset.GetOr(0));
    var es := GetHistory(rows, fts, offset, limit, filter, sort, m).value;
    forall k | 0 <= k < |es|
      ensures FromLatestRow(rows, fts, filter, m, es[k])
    {
      EntryOfPage(o, offset.GetOr(0), limit.GetOr(20), k);
      var r := o[start + k];
      OrderedMembers(rows, fts, filter, sort, m, r);
      assert r in rows && IsLatest(rows, r) && Passes(filter, fts, m, r) && r.image.Some? && ToEntry(r) == es[k];
    }
  }

  lemma AnswerContentsDistinct(rows: seq<Row>, fts: map<int, FtsEntry>, offset: Option<int>, limit: Option<int>,
                               filter: Option<FilterOptions>, sort: Option<SortOptions>, m: Matcher)
    requires IdsAscending(rows)
    requires GetHistory(rows, fts, offset, limit, filter, sort, m).Success?
    ensures var es := GetHistory(rows, fts, offset, limit, filter, sort, m).value;
      forall i, j :: 0 <= i < j < |es| ==> es[i].content != es[j].content
  {
    var o := Ordered(rows, fts, filter, sort, m);
    var start := PageStart(o, offset.GetOr(0));
    var es := GetHistory(rows, fts, offset, limit, filter, sort, m).value;
    OrderedContentsDistinct(rows, fts, filter, sort, m);
    forall i, j | 0 <= i < j < |es| ensures es[i].content != es[j].content {
      EntryOfPage(o, offset.GetOr(0), limit.GetOr(20), i);
      EntryOfPage(o, offset.GetOr(0), limit.GetOr(20), j);
      assert o[start + i].content != o[start + j].content;
    }
  }

  lemma AnswerNewestFirst(rows: seq<Row>, fts: map<int, FtsEntry>, offset: Option<int>, limit: Option<int>,
                          filter: Option<FilterOptions>, m: Matcher)
    requires GetHistory(rows, fts, offset, limit, filter, None, m).Success?
    ensures var es := GetHistory(rows, fts, offset, limit, filter, None, m).value;
      forall i, j :: 0 <= i < j < |es| ==> StrLe(es[j].date, es[i].date)
  {
    var o := Ordered(rows, fts, filter, None, m);
    var start := PageStart(o, offset.GetOr(0));
    var es := GetHistory(rows, fts, offset, limit, filter, None, m).value;
    OrderedByDefault(rows, fts, filter, m);
    forall i, j | 0 <= i < j < |es| ensures StrLe(es[j].date, es[i].date) {
      EntryOfPage(o, offset.GetOr(0), limit.GetOr(20), i);
      EntryOfPage(o, offset.GetOr(0), limit.GetOr(20), j);
      assert StrLe(o[start + j].date, o[start + i].date);
    }
  }

  /** The selected rows are pairwise different. */
  lemma DistinctSelected(rows: seq<Row>, fts: map<int, FtsEntry>, filter: Option<FilterOptions>, m: Matcher)
    requires IdsAscending(rows)
    ensures Distinct(Selected(rows, fts, filter, m))
  {
    FilterAscending(rows, (r: Row) => forall j :: 0 <= j < |rows| && rows[j].content == r.content ==> rows[j].id <= r.id);
    FilterAscending(LatestEntries(rows), (r: Row) => Passes(filter, fts, m, r));
  }
}
