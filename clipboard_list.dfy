/** The rows of the history list as `src/components/clipbpard-list.tsx`
    lays them out: placeholders while loading, the empty state, or the
    entries in order with a relative-date header wherever the date label
    changes. */
module ClipboardList {
  import opened Wrappers
  import opened Seqs
  import opened ClipboardItem

  datatype ListRow =
    | Skeleton
    | EmptyState(searchQuery: string)
    | DateHeader(text: string)
    | ItemRow(index: nat, item: ClipboardHistory, isActive: bool)

  /** Placeholders shown before the first page arrives. */
  const InitialSkeletons: nat := 10
  /** Placeholders appended while a further page loads. */
  const MoreSkeletons: nat := 5

  function Skeletons(n: nat): (r: seq<ListRow>)
    ensures |r| == n && forall k :: 0 <= k < n ==> r[k].Skeleton?
  {
    seq(n, _ => Skeleton)
  }

  /** The rows of entry `i`: a header with its relative date when that
      differs from the previous entry's (or it is the first), then the entry;
      `relative` stands for `getRelativeTime(new Date(...))` at render time. */
  function ItemBlock(items: seq<ClipboardHistory>, i: nat, activeIndex: int, relative: string -> string): seq<ListRow>
    requires i < |items|
  {
    var current := relative(items[i].date);
    var header := if i == 0 || current != relative(items[i - 1].date) then [DateHeader(current)] else [];
    header + [ItemRow(i, items[i], i == activeIndex)]
  }

  /** The rows of the first `n` entries. */
  function ItemRows(items: seq<ClipboardHistory>, n: nat, activeIndex: int, relative: string -> string): seq<ListRow>
    requires n <= |items|
  {
    if n == 0 then [] else ItemRows(items, n - 1, activeIndex, relative) + ItemBlock(items, n - 1, activeIndex, relative)
  }

  /** Everything the list renders. */
  function Rows(items: seq<ClipboardHistory>, activeIndex: int, isInitialLoading: bool, isLoadingMore: bool,
                searchQuery: string, relative: string -> string): seq<ListRow>
  {
    if isInitialLoading then Skeletons(InitialSkeletons)
    else if items == [] then [EmptyState(searchQuery)]
    else ItemRows(items, |items|, activeIndex, relative) + (if isLoadingMore then Skeletons(MoreSkeletons) else [])
  }

  predicate IsItem(r: ListRow) {
    r.ItemRow?
  }

  /** The entry rows, in order. */
  function EntryRows(rows: seq<ListRow>): seq<ListRow> {
    Filter(rows, IsItem)
  }

  /** The label of the last header in `rows`, if any: the date an entry
      appended now would be shown under. */
  function CurrentLabel(rows: seq<ListRow>): Option<string> {
    if rows == [] then None
    else if rows[|rows| - 1].DateHeader? then Some(rows[|rows| - 1].text)
    else CurrentLabel(rows[..|rows| - 1])
  }

  /** Every entry sits under the header of its own relative date. */
  ghost predicate UnderOwnDate(rows: seq<ListRow>, relative: string -> string) {
    forall p :: 0 <= p < |rows| && rows[p].ItemRow? ==> CurrentLabel(rows[..p]) == Some(relative(rows[p].item.date))
  }

  /** A header appears only where the date label changes, and is followed by
      an entry. */
  ghost predicate HeadersOnChange(rows: seq<ListRow>) {
    forall p :: 0 <= p < |rows| && rows[p].DateHeader? ==>
      p + 1 < |rows| && rows[p + 1].ItemRow? && CurrentLabel(rows[..p]) != Some(rows[p].text)
  }

  /** While the first page loads, the list is exactly ten placeholders. */
  lemma InitialLoadingRows(items: seq<ClipboardHistory>, activeIndex: int, isLoadingMore: bool,
                           searchQuery: string, relative: string -> string)
    ensures var rows := Rows(items, activeIndex, true, isLoadingMore, searchQuery, relative);
      |rows| == 10 && forall k :: 0 <= k < |rows| ==> rows[k] == Skeleton
  {
  }

  /** Once loaded, an empty history shows the empty state for the query and
      nothing else. */
  lemma EmptyHistoryRows(activeIndex: int, isLoadingMore: bool, searchQuery: string, relative: string -> string)
    ensures Rows([], activeIndex, false, isLoadingMore, searchQuery, relative) == [EmptyState(searchQuery)]
  {
  }

  /** The entry rows are the entries in order, each with its position and
      marked active exactly at `activeIndex`. */
  lemma {:induction false} EntryRowsOfItems(items: seq<ClipboardHistory>, n: nat, activeIndex: int, relative: string -> string)
    requires n <= |items|
    ensures EntryRows(ItemRows(items, n, activeIndex, relative))
      == seq(n, k requires 0 <= k < n => ItemRow(k, items[k], k == activeIndex))
  {
    if n > 0 {
      var prev := ItemRows(items, n - 1, activeIndex, relative);
      var block := ItemBlock(items, n - 1, activeIndex, relative);
      EntryRowsOfItems(items, n - 1, activeIndex, relative);
      FilterAppend(prev, block, IsItem);
      BlockEntries(items, n - 1, activeIndex, relative);
      SnocEntries(items, n, activeIndex);
    }
  }

  /** The block of entry `i` holds one entry row, the entry's own. */
  lemma BlockEntries(items: seq<ClipboardHistory>, i: nat, activeIndex: int, relative: string -> string)
    requires i < |items|
    ensures EntryRows(ItemBlock(items, i, activeIndex, relative)) == [ItemRow(i, items[i], i == activeIndex)]
  {
    var block := ItemBlock(items, i, activeIndex, relative);
    var entry := ItemRow(i, items[i], i == activeIndex);
    assert Filter([entry], IsItem) == [entry] + Filter([], IsItem);
    if |block| == 2 {
      assert block == [block[0]] + [entry];
      FilterAppend([block[0]], [entry], IsItem);
      assert Filter([block[0]], IsItem) == [] + Filter([], IsItem);
    }
  }

  lemma SnocEntries(items: seq<ClipboardHistory>, n: nat, activeIndex: int)
    requires 0 < n <= |items|
    ensures seq(n, k requires 0 <= k < n => ItemRow(k, items[k], k == activeIndex))
      == seq(n - 1, k requires 0 <= k < n - 1 => ItemRow(k, items[k], k == activeIndex))
         + [ItemRow(n - 1, items[n - 1], n - 1 == activeIndex)]
  {
  }

  /** The last row of a non-empty prefix is its last entry, under that entry's
      relative date. */
  lemma {:induction false} ItemRowsEnd(items: seq<ClipboardHistory>, n: nat, activeIndex: int, relative: string -> string)
    requires 0 < n <= |items|
    ensures var rows := ItemRows(items, n, activeIndex, relative);
      rows != [] && rows[|rows| - 1].ItemRow? && CurrentLabel(rows) == Some(relative(items[n - 1].date))
    decreases n
  {
    var rows := ItemRows(items, n, activeIndex, relative);
    var prev := ItemRows(items, n - 1, activeIndex, relative);
    var block := ItemBlock(items, n - 1, activeIndex, relative);
    assert rows == prev + block;
    assert rows[..|rows| - 1] == prev + block[..|block| - 1];
    if |block| == 1 {
      ItemRowsEnd(items, n - 1, activeIndex, relative);
      assert rows[..|rows| - 1] == prev;
    } else {
      assert rows[..|rows| - 1][|rows| - 2] == block[0];
    }
  }

  /** The rows of a non-empty prefix end with its last entry. */
  lemma ItemRowsLast(items: seq<ClipboardHistory>, n: nat, activeIndex: int, relative: string -> string)
    requires 0 < n <= |items|
    ensures var rows := ItemRows(items, n, activeIndex, relative);
      rows != [] && rows[|rows| - 1] == ItemRow(n - 1, items[n - 1], n - 1 == activeIndex)
  {
    var block := ItemBlock(items, n - 1, activeIndex, relative);
    assert ItemRows(items, n, activeIndex, relative) == ItemRows(items, n - 1, activeIndex, relative) + block;
  }

  predicate HeadersAndEntries(rows: seq<ListRow>) {
    forall k :: 0 <= k < |rows| ==> rows[k].DateHeader? || rows[k].ItemRow?
  }

  /** The entries' part of the list holds date headers and entry rows only. */
  lemma {:induction false} ItemRowsKinds(items: seq<ClipboardHistory>, n: nat, activeIndex: int, relative: string -> string)
    requires n <= |items|
    ensures HeadersAndEntries(ItemRows(items, n, activeIndex, relative))
    decreases n
  {
    if n > 0 {
      var prev := ItemRows(items, n - 1, activeIndex, relative);
      var block := ItemBlock(items, n - 1, activeIndex, relative);
      ItemRowsKinds(items, n - 1, activeIndex, relative);
      assert HeadersAndEntries(prev);
      var rows := ItemRows(items, n, activeIndex, relative);
      assert rows == prev + block;
      forall k | 0 <= k < |rows| ensures rows[k].DateHeader? || rows[k].ItemRow? {
        if k < |prev| {
          assert rows[k] == prev[k];
          assert prev[k].DateHeader? || prev[k].ItemRow?;
        } else {
          var current := relative(items[n - 1].date);
          var entry := ItemRow(n - 1, items[n - 1], n - 1 == activeIndex);
          assert block == [entry] || block == [DateHeader(current), entry];
          assert rows[k] == block[k - |prev|];
          assert block[k - |prev|].DateHeader? || block[k - |prev|].ItemRow?;
        }
      }
    }
  }

  /** Appending an entry under the current header keeps both layout rules. */
  lemma AppendEntry(prev: seq<ListRow>, e: ListRow, relative: string -> string)
    requires e.ItemRow? && CurrentLabel(prev) == Some(relative(e.item.date))
    requires UnderOwnDate(prev, relative) && HeadersOnChange(prev)
    ensures UnderOwnDate(prev + [e], relative) && HeadersOnChange(prev + [e])
  {
    var rows := prev + [e];
    forall p | 0 <= p < |prev| ensures rows[..p] == prev[..p] && rows[p] == prev[p] {
    }
    assert rows[..|prev|] == prev;
  }

  /** Appending a header with a new date label and an entry of that date
      keeps both layout rules. */
  lemma AppendHeaderEntry(prev: seq<ListRow>, h: ListRow, e: ListRow, relative: string -> string)
    requires e.ItemRow? && h == DateHeader(relative(e.item.date)) && CurrentLabel(prev) != Some(h.text)
    requires UnderOwnDate(prev, relative) && HeadersOnChange(prev)
    ensures UnderOwnDate(prev + [h, e], relative) && HeadersOnChange(prev + [h, e])
  {
    var rows := prev + [h, e];
    forall p | 0 <= p < |prev| ensures rows[..p] == prev[..p] && rows[p] == prev[p] {
    }
    assert rows[..|prev|] == prev;
    assert rows[..|prev| + 1] == prev + [h];
  }

  /** Every entry row in the first `n` entries' rows is under its own date
      and every header marks a change of date. */
  lemma {:induction false} ItemRowsDates(items: seq<ClipboardHistory>, n: nat, activeIndex: int, relative: string -> string)
    requires n <= |items|
    ensures UnderOwnDate(ItemRows(items, n, activeIndex, relative), relative)
    ensures HeadersOnChange(ItemRows(items, n, activeIndex, relative))
    decreases n
  {
    if n > 0 {
      ItemRowsDates(items, n - 1, activeIndex, relative);
      if n == 1 || relative(items[n - 1].date) != relative(items[n - 2].date) {
        NewDateStep(items, n, activeIndex, relative);
      } else {
        SameDateStep(items, n, activeIndex, relative);
      }
    }
  }

  /** Entry `n - 1` opens a new date: a header and the entry are appended. */
  lemma NewDateStep(items: seq<ClipboardHistory>, n: nat, activeIndex: int, relative: string -> string)
    requires 0 < n <= |items| && (n == 1 || relative(items[n - 1].date) != relative(items[n - 2].date))
    requires UnderOwnDate(ItemRows(items, n - 1, activeIndex, relative), relative)
    requires HeadersOnChange(ItemRows(items, n - 1, activeIndex, relative))
    ensures UnderOwnDate(ItemRows(items, n, activeIndex, relative), relative)
    ensures HeadersOnChange(ItemRows(items, n, activeIndex, relative))
  {
    var prev := ItemRows(items, n - 1, activeIndex, relative);
    var current := relative(items[n - 1].date);
    var e := ItemRow(n - 1, items[n - 1], n - 1 == activeIndex);
    if n > 1 {
      ItemRowsEnd(items, n - 1, activeIndex, relative);
    }
    assert ItemRows(items, n, activeIndex, relative) == prev + [DateHeader(current), e];
    AppendHeaderEntry(prev, DateHeader(current), e, relative);
  }

  /** Entry `n - 1` shares the previous entry's date: only the entry is
      appended. */
  lemma SameDateStep(items: seq<ClipboardHistory>, n: nat, activeIndex: int, relative: string -> string)
    requires 1 < n <= |items| && relative(items[n - 1].date) == relative(items[n - 2].date)
    requires UnderOwnDate(ItemRows(items, n - 1, activeIndex, relative), relative)
    requires HeadersOnChange(ItemRows(items, n - 1, activeIndex, relative))
    ensures UnderOwnDate(ItemRows(items, n, activeIndex, relative), relative)
    ensures HeadersOnChange(ItemRows(items, n, activeIndex, relative))
  {
    var prev := ItemRows(items, n - 1, activeIndex, relative);
    var e := ItemRow(n - 1, items[n - 1], n - 1 == activeIndex);
    ItemRowsEnd(items, n - 1, activeIndex, relative);
    assert ItemRows(items, n, activeIndex, relative) == prev + [e];
    AppendEntry(prev, e, relative);
  }

  /** The loaded list shows every entry once, in order, with its position,
      and exactly the entry at `activeIndex` marked active; each entry is
      under a header with its own relative date, headers appear only where
      that date changes, and five placeholders close the list exactly while
      more entries load. */
  lemma LoadedRows(items: seq<ClipboardHistory>, activeIndex: int, isLoadingMore: bool,
                   searchQuery: string, relative: string -> string)
    requires items != []
    ensures var rows := Rows(items, activeIndex, false, isLoadingMore, searchQuery, relative);
      var entries := ItemRows(items, |items|, activeIndex, relative);
      && rows[..|entries|] == entries
      && EntryRows(rows) == seq(|items|, k requires 0 <= k < |items| => ItemRow(k, items[k], k == activeIndex))
      && UnderOwnDate(entries, relative)
      && HeadersOnChange(entries)
      && entries[0] == DateHeader(relative(items[0].date))
      && |rows| == |entries| + (if isLoadingMore then 5 else 0)
      && (forall k :: 0 <= k < |entries| ==> entries[k].DateHeader? || entries[k].ItemRow?)
      && entries[|entries| - 1] == ItemRow(|items| - 1, items[|items| - 1], |items| - 1 == activeIndex)
      && forall k :: |entries| <= k < |rows| ==> rows[k] == Skeleton
  {
    EntriesLayout(items, activeIndex, relative);
    RowsAroundEntries(items, activeIndex, isLoadingMore, searchQuery, relative);
  }

  /** The layout facts about the entries' part of the list. */
  lemma EntriesLayout(items: seq<ClipboardHistory>, activeIndex: int, relative: string -> string)
    requires items != []
    ensures var entries := ItemRows(items, |items|, activeIndex, relative);
      && EntryRows(entries) == seq(|items|, k requires 0 <= k < |items| => ItemRow(k, items[k], k == activeIndex))
      && UnderOwnDate(entries, relative)
      && HeadersOnChange(entries)
      && entries[0] == DateHeader(relative(items[0].date))
      && HeadersAndEntries(entries)
      && entries[|entries| - 1] == ItemRow(|items| - 1, items[|items| - 1], |items| - 1 == activeIndex)
  {
    EntryRowsOfItems(items, |items|, activeIndex, relative);
    ItemRowsDates(items, |items|, activeIndex, relative);
    FirstRows(items, |items|, activeIndex, relative);
    ItemRowsKinds(items, |items|, activeIndex, relative);
    ItemRowsLast(items, |items|, activeIndex, relative);
  }

  /** A loaded non-empty list is its entries' part, then the placeholders,
      which hold no entry row. */
  lemma RowsAroundEntries(items: seq<ClipboardHistory>, activeIndex: int, isLoadingMore: bool,
                          searchQuery: string, relative: string -> string)
    requires items != []
    ensures var rows := Rows(items, activeIndex, false, isLoadingMore, searchQuery, relative);
      var entries := ItemRows(items, |items|, activeIndex, relative);
      && rows[..|entries|] == entries
      && EntryRows(rows) == EntryRows(entries)
      && |rows| == |entries| + (if isLoadingMore then 5 else 0)
      && forall k :: |entries| <= k < |rows| ==> rows[k] == Skeleton
  {
    var rows := Rows(items, activeIndex, false, isLoadingMore, searchQuery, relative);
    var entries := ItemRows(items, |items|, activeIndex, relative);
    var tail := Skeletons(if isLoadingMore then MoreSkeletons else 0);
    assert rows == entries + tail;
    FilterAppend(entries, tail, IsItem);
    SkeletonsHoldNoEntry(if isLoadingMore then MoreSkeletons else 0);
  }

  /** Placeholders are not entry rows. */
  lemma SkeletonsHoldNoEntry(n: nat)
    ensures EntryRows(Skeletons(n)) == []
  {
    var tail := Skeletons(n);
    if Filter(tail, IsItem) != [] {
      assert Filter(tail, IsItem)[0].ItemRow?;
      FilterIn(tail, IsItem, Filter(tail, IsItem)[0]);
    }
  }

  /** The rows open with the header of the first entry's date. */
  lemma {:induction false} FirstRows(items: seq<ClipboardHistory>, n: nat, activeIndex: int, relative: string -> string)
    requires 0 < n <= |items|
    ensures ItemRows(items, n, activeIndex, relative)[0] == DateHeader(relative(items[0].date))
    decreases n
  {
    if n > 1 {
      FirstRows(items, n - 1, activeIndex, relative);
      ItemRowsEnd(items, n - 1, activeIndex, relative);
    } else {
      assert ItemRows(items, 0, activeIndex, relative) == [];
    }
  }

  /** At most one row is active, and one is exactly when `activeIndex`
      points into the entries. */
  lemma ActiveRow(items: seq<ClipboardHistory>, activeIndex: int, isLoadingMore: bool,
                  searchQuery: string, relative: string -> string)
    requires items != []
    ensures var es := EntryRows(Rows(items, activeIndex, false, isLoadingMore, searchQuery, relative));
      && (forall j, k :: 0 <= j < k < |es| ==> !(es[j].isActive && es[k].isActive))
      && ((exists k :: 0 <= k < |es| && es[k].isActive) <==> 0 <= activeIndex < |items|)
  {
    LoadedRows(items, activeIndex, isLoadingMore, searchQuery, relative);
    var es := EntryRows(Rows(items, activeIndex, false, isLoadingMore, searchQuery, relative));
    if 0 <= activeIndex < |items| {
      assert es[activeIndex].isActive;
    }
  }
}
