/** The history list state of `src/App.tsx`: the active index moved by the
    arrow keys, the page offset bumped near the end of the list, and the
    history held as buckets of entries under a relative-date label, into
    which each fetched page is merged. A fetch is recorded as the arguments
    `updateHistory` receives; the page it brings back is an argument of
    `UpdateHistory`. The relative-date label is a function of the entry's
    date supplied by the caller (it depends on the clock). */
module Navigation {
  import opened Wrappers
  import opened Seqs
  import opened GroupedHistory

  /** The step `handleKeyDown` takes between the entries of the list. */
  const PageSize: int := 20

  /** Entries whose date maps to the same label, in the order they arrived. */
  datatype Bucket = Bucket(key: string, items: seq<Entry>)

  /** The arguments of one `updateHistory(offset, limit)` call. */
  datatype Fetch = Fetch(offset: int, limit: int)

  predicate UniqueKeys(bs: seq<Bucket>) {
    forall i, j :: 0 <= i < j < |bs| ==> bs[i].key != bs[j].key
  }

  predicate HasKey(bs: seq<Bucket>, k: string) {
    exists i :: 0 <= i < |bs| && bs[i].key == k
  }

  /** `record[k] || []`. */
  function ItemsOf(bs: seq<Bucket>, k: string): seq<Entry> {
    if bs == [] then [] else if bs[0].key == k then bs[0].items else ItemsOf(bs[1..], k)
  }

  /** `Object.values(record).flat()`: every bucket's entries, bucket by bucket. */
  function Flat(bs: seq<Bucket>): seq<Entry> {
    if bs == [] then [] else bs[0].items + Flat(bs[1..])
  }

  /** The `reduce` that sums the bucket lengths. */
  function TotalLength(bs: seq<Bucket>): nat {
    if bs == [] then 0 else |bs[0].items| + TotalLength(bs[1..])
  }

  lemma {:induction false} FlatLength(bs: seq<Bucket>)
    ensures |Flat(bs)| == TotalLength(bs)
  {
    if bs != [] {
      FlatLength(bs[1..]);
    }
  }

  // ---------------------------------------------------------------- keys

  predicate IsArrow(key: string) {
    key == "ArrowDown" || key == "ArrowUp"
  }

  /** The active index after `key` in a list of `n` entries. */
  function NextIndex(key: string, i: int, n: int): int {
    if key == "ArrowDown" && n > 0 then (if i + 1 < n - 1 then i + 1 else n - 1)
    else if key == "ArrowUp" && n > 0 then (if i - 1 > 0 then i - 1 else 0)
    else i
  }

  /** ArrowDown moves to `min(i + 1, n - 1)` and ArrowUp to `max(i - 1, 0)`:
      each is the nearer of the one-step move and the end of the list. */
  lemma ArrowsClamp(i: int, n: int)
    requires n > 0
    ensures var d := NextIndex("ArrowDown", i, n);
      d <= i + 1 && d <= n - 1 && (d == i + 1 || d == n - 1)
    ensures var u := NextIndex("ArrowUp", i, n);
      u >= i - 1 && u >= 0 && (u == i - 1 || u == 0)
  {
  }

  /** An index inside the list stays inside it. */
  lemma IndexStaysInRange(key: string, i: int, n: int)
    requires 0 <= i < n
    ensures 0 <= NextIndex(key, i, n) < n
  {
  }

  /** Other keys, and any key on an empty list, leave the index alone. */
  lemma IndexUnchanged(key: string, i: int, n: int)
    requires !IsArrow(key) || n == 0
    ensures NextIndex(key, i, n) == i
  {
  }

  /** Whether a key press ends by fetching the next page. */
  predicate NearEnd(key: string, newIndex: int, n: int) {
    IsArrow(key) && newIndex >= n - 5
  }

  /** Whether a scroll position is within five pixels of the bottom. */
  predicate NearBottom(scrollTop: real, scrollHeight: real, clientHeight: real) {
    scrollTop + clientHeight >= scrollHeight - 5.0
  }

  // ---------------------------------------------------------------- buckets

  /** `acc[k] = acc[k] || []; acc[k].push(...xs)` on a record whose keys keep
      their insertion order: a present key keeps its place and gains `xs`,
      a new key goes last. */
  function Upsert(bs: seq<Bucket>, k: string, xs: seq<Entry>): seq<Bucket> {
    if bs == [] then [Bucket(k, xs)]
    else if bs[0].key == k then [bs[0].(items := bs[0].items + xs)] + bs[1..]
    else [bs[0]] + Upsert(bs[1..], k, xs)
  }

  lemma {:induction false} UpsertItems(bs: seq<Bucket>, k: string, xs: seq<Entry>, k': string)
    ensures ItemsOf(Upsert(bs, k, xs), k') == ItemsOf(bs, k') + (if k' == k then xs else [])
  {
    if bs != [] && bs[0].key != k {
      UpsertItems(bs[1..], k, xs, k');
      assert Upsert(bs, k, xs)[1..] == Upsert(bs[1..], k, xs);
    } else if bs != [] {
      assert Upsert(bs, k, xs)[1..] == bs[1..];
    }
  }

  lemma HasKeyCons(bs: seq<Bucket>, k: string)
    requires bs != []
    ensures HasKey(bs, k) <==> bs[0].key == k || HasKey(bs[1..], k)
  {
    if HasKey(bs[1..], k) {
      var i :| 0 <= i < |bs[1..]| && bs[1..][i].key == k;
      assert bs[i + 1].key == k;
    }
    if HasKey(bs, k) {
      var i :| 0 <= i < |bs| && bs[i].key == k;
      if i > 0 {
        assert bs[1..][i - 1].key == k;
      }
    }
  }

  /** With distinct labels, the first label does not recur. */
  lemma UniqueHead(bs: seq<Bucket>)
    requires UniqueKeys(bs) && bs != []
    ensures UniqueKeys(bs[1..]) && !HasKey(bs[1..], bs[0].key)
  {
    assert forall i :: 0 <= i < |bs| - 1 ==> bs[1..][i].key == bs[i + 1].key;
  }

  lemma {:induction false} UpsertKeys(bs: seq<Bucket>, k: string, xs: seq<Entry>, k': string)
    ensures HasKey(Upsert(bs, k, xs), k') <==> HasKey(bs, k') || k' == k
  {
    var r := Upsert(bs, k, xs);
    if bs == [] {
      assert r[0].key == k;
    } else if bs[0].key == k {
      assert forall i :: 0 <= i < |r| ==> r[i].key == bs[i].key;
    } else {
      UpsertKeys(bs[1..], k, xs, k');
      assert r[0] == bs[0] && r[1..] == Upsert(bs[1..], k, xs);
      HasKeyCons(r, k');
      HasKeyCons(bs, k');
    }
  }

  lemma {:induction false} UpsertUnique(bs: seq<Bucket>, k: string, xs: seq<Entry>)
    requires UniqueKeys(bs)
    ensures UniqueKeys(Upsert(bs, k, xs))
  {
    var r := Upsert(bs, k, xs);
    if bs == [] {
    } else if bs[0].key == k {
      assert forall i :: 0 <= i < |r| ==> r[i].key == bs[i].key;
    } else {
      UniqueHead(bs);
      UpsertUnique(bs[1..], k, xs);
      forall j | 0 < j < |r| ensures r[0].key != r[j].key {
        var rest := Upsert(bs[1..], k, xs);
        assert r[j] == rest[j - 1];
        assert HasKey(rest, r[j].key);
        UpsertKeys(bs[1..], k, xs, r[j].key);
      }
      forall i, j | 0 < i < j < |r| ensures r[i].key != r[j].key {
        assert r[i] == Upsert(bs[1..], k, xs)[i - 1] && r[j] == Upsert(bs[1..], k, xs)[j - 1];
      }
    }
  }

  lemma {:induction false} UpsertTotal(bs: seq<Bucket>, k: string, xs: seq<Entry>)
    ensures TotalLength(Upsert(bs, k, xs)) == TotalLength(bs) + |xs|
  {
    var r := Upsert(bs, k, xs);
    if bs != [] && bs[0].key != k {
      UpsertTotal(bs[1..], k, xs);
      assert r[1..] == Upsert(bs[1..], k, xs);
    } else if bs != [] {
      assert r[1..] == bs[1..];
    } else {
      assert r[1..] == [];
    }
  }

  /** The `reduce` of `updateHistory`: the page's entries bucketed by the
      label of their date, in page order. */
  function Bucketed(page: seq<Entry>, dateLabel: string -> string): seq<Bucket> {
    if page == [] then []
    else Upsert(Bucketed(page[..|page| - 1], dateLabel), dateLabel(page[|page| - 1].date), [page[|page| - 1]])
  }

  /** The page's entries under label `k`, in page order. */
  function WithLabel(page: seq<Entry>, dateLabel: string -> string, k: string): seq<Entry> {
    Filter(page, (e: Entry) => dateLabel(e.date) == k)
  }

  /** Bucketing keeps every entry of the page exactly once: each label gets
      exactly the page's entries with that label, in page order, and the
      labels are distinct. */
  lemma {:induction false} BucketedContents(page: seq<Entry>, dateLabel: string -> string)
    ensures UniqueKeys(Bucketed(page, dateLabel))
    ensures forall k :: ItemsOf(Bucketed(page, dateLabel), k) == WithLabel(page, dateLabel, k)
    ensures TotalLength(Bucketed(page, dateLabel)) == |page|
  {
    if page != [] {
      var init, x := page[..|page| - 1], page[|page| - 1];
      var bs := Bucketed(init, dateLabel);
      BucketedContents(init, dateLabel);
      UpsertUnique(bs, dateLabel(x.date), [x]);
      UpsertTotal(bs, dateLabel(x.date), [x]);
      assert page == init + [x];
      forall k: string ensures ItemsOf(Bucketed(page, dateLabel), k) == WithLabel(page, dateLabel, k) {
        UpsertItems(bs, dateLabel(x.date), [x], k);
        FilterAppend(init, [x], (e: Entry) => dateLabel(e.date) == k);
      }
    }
  }

  /** The result of the spread `{...prev, ...incoming}` where every key of
      `incoming` maps to `prev[key] ++ incoming[key]`. */
  function Merge(prev: seq<Bucket>, incoming: seq<Bucket>): seq<Bucket>
    decreases |incoming|
  {
    if incoming == [] then prev
    else Merge(Upsert(prev, incoming[0].key, incoming[0].items), incoming[1..])
  }

  lemma {:induction false} ItemsOfAbsent(bs: seq<Bucket>, k: string)
    requires !HasKey(bs, k)
    ensures ItemsOf(bs, k) == []
  {
    if bs != [] {
      HasKeyCons(bs, k);
      ItemsOfAbsent(bs[1..], k);
    }
  }

  /** Merging appends each incoming label's entries after the ones already
      held under it, leaves labels absent from the page as they were, keeps
      labels distinct and grows the total by the page's size. */
  lemma {:induction false} MergeContents(prev: seq<Bucket>, incoming: seq<Bucket>)
    requires UniqueKeys(prev) && UniqueKeys(incoming)
    ensures UniqueKeys(Merge(prev, incoming))
    ensures forall k :: ItemsOf(Merge(prev, incoming), k) == ItemsOf(prev, k) + ItemsOf(incoming, k)
    ensures TotalLength(Merge(prev, incoming)) == TotalLength(prev) + TotalLength(incoming)
    decreases |incoming|
  {
    if incoming != [] {
      var b := incoming[0];
      var mid := Upsert(prev, b.key, b.items);
      UpsertUnique(prev, b.key, b.items);
      UpsertTotal(prev, b.key, b.items);
      UniqueHead(incoming);
      MergeContents(mid, incoming[1..]);
      forall k: string ensures ItemsOf(Merge(prev, incoming), k) == ItemsOf(prev, k) + ItemsOf(incoming, k) {
        MergeItemsStep(prev, incoming, k);
      }
    }
  }

  /** One step of the merge, for one label. */
  lemma MergeItemsStep(prev: seq<Bucket>, incoming: seq<Bucket>, k: string)
    requires incoming != [] && UniqueKeys(incoming)
    requires var mid := Upsert(prev, incoming[0].key, incoming[0].items);
      ItemsOf(Merge(mid, incoming[1..]), k) == ItemsOf(mid, k) + ItemsOf(incoming[1..], k)
    ensures ItemsOf(Merge(prev, incoming), k) == ItemsOf(prev, k) + ItemsOf(incoming, k)
  {
    var b := incoming[0];
    UpsertItems(prev, b.key, b.items, k);
    if k == b.key {
      UniqueHead(incoming);
      ItemsOfAbsent(incoming[1..], k);
      assert ItemsOf(incoming[1..], k) == [];
    }
  }

  /** The list state the arrow keys, the scroll handler and each fetched
      page update: the `activeIndex`, `offset` and `clipboardHistory`
      signals. */
  class HistoryView {
    var activeIndex: int
    var offset: int
    var history: seq<Bucket>

    ghost predicate Valid()
      reads this
    {
      UniqueKeys(history)
    }

    /** The signals' initial values. */
    constructor ()
      ensures Valid() && activeIndex == 0 && offset == 0 && history == []
    {
      activeIndex := 0;
      offset := 0;
      history := [];
    }

    /** The number of entries held, as `handleKeyDown` computes it. */
    function Length(): nat
      reads this
    {
      TotalLength(history)
    }

    /** `handleKeyDown`: moves the index on an arrow key; when the new index
        is within five of the end, advances the offset by one page and
        requests that page. */
    method HandleKeyDown(key: string) returns (fetch: Option<Fetch>)
      modifies this
      ensures history == old(history)
      ensures activeIndex == NextIndex(key, old(activeIndex), Length())
      ensures NearEnd(key, activeIndex, Length()) ==>
        offset == old(offset) + PageSize && fetch == Some(Fetch(offset, PageSize))
      ensures !NearEnd(key, activeIndex, Length()) ==> offset == old(offset) && fetch == None
    {
      var totalLength: int := Length();
      if key == "ArrowDown" && totalLength > 0 {
        activeIndex := if activeIndex + 1 < totalLength - 1 then activeIndex + 1 else totalLength - 1;
      } else if key == "ArrowUp" && totalLength > 0 {
        activeIndex := if activeIndex - 1 > 0 then activeIndex - 1 else 0;
      }
      fetch := None;
      if key == "ArrowDown" || key == "ArrowUp" {
        var total: int := Length();
        if activeIndex >= total - 5 {
          offset := offset + PageSize;
          fetch := Some(Fetch(offset, PageSize));
        }
      }
    }

    /** `handleScroll`: near the bottom of a mounted scroll area, advances
        the offset by one page and requests that page. */
    method HandleScroll(mounted: bool, scrollTop: real, scrollHeight: real, clientHeight: real)
      returns (fetch: Option<Fetch>)
      modifies this
      ensures history == old(history) && activeIndex == old(activeIndex)
      ensures mounted && NearBottom(scrollTop, scrollHeight, clientHeight) ==>
        offset == old(offset) + PageSize && fetch == Some(Fetch(offset, PageSize))
      ensures !(mounted && NearBottom(scrollTop, scrollHeight, clientHeight)) ==>
        offset == old(offset) && fetch == None
    {
      fetch := None;
      if mounted {
        if scrollTop + clientHeight >= scrollHeight - 5.0 {
          offset := offset + PageSize;
          fetch := Some(Fetch(offset, PageSize));
        }
      }
    }

    /** The `reduce` of `updateHistory` as the loop it is: each entry of the
        page pushed onto the bucket of its label. */
    static method BucketPage(page: seq<Entry>, dateLabel: string -> string) returns (acc: seq<Bucket>)
      ensures acc == Bucketed(page, dateLabel)
    {
      acc := [];
      var i := 0;
      while i < |page|
        invariant 0 <= i <= |page|
        invariant acc == Bucketed(page[..i], dateLabel)
      {
        var item := page[i];
        assert page[..i + 1][..i] == page[..i];
        acc := Upsert(acc, dateLabel(item.date), [item]);
        i := i + 1;
      }
      assert page[..|page|] == page;
    }

    /** `updateHistory` once its page has arrived: bucket it and merge it
        into the history. */
    method UpdateHistory(page: seq<Entry>, dateLabel: string -> string)
      requires Valid()
      modifies this
      ensures Valid()
      ensures history == Merge(old(history), Bucketed(page, dateLabel))
      ensures activeIndex == old(activeIndex) && offset == old(offset)
      ensures Length() == old(Length()) + |page|
    {
      var incoming := BucketPage(page, dateLabel);
      BucketedContents(page, dateLabel);
      MergeContents(history, incoming);
      history := Merge(history, incoming);
    }
  }

  /** After a page is merged, an index that was inside the list still is. */
  lemma MergeKeepsIndexValid(prev: seq<Bucket>, page: seq<Entry>, dateLabel: string -> string, i: int)
    requires UniqueKeys(prev) && 0 <= i < TotalLength(prev)
    ensures 0 <= i < TotalLength(Merge(prev, Bucketed(page, dateLabel)))
  {
    BucketedContents(page, dateLabel);
    MergeContents(prev, Bucketed(page, dateLabel));
  }

  // ---------------------------------------------------------------- fetching

  /** What `getHistory` receives from `updateHistory(offset, limit)` as
      written: the two numbers are passed positionally to a function that
      destructures one options object, so the number in its place has no
      `offset`, `limit`, `filter` or `sort` property and every default
      applies. */
  function QueryAsWritten(f: Fetch): HistoryQuery {
    HistoryQuery(None, None, None, None)
  }

  /** The call evidently intended: `getHistory({ offset, limit })`. */
  function Query(f: Fetch): HistoryQuery {
    HistoryQuery(Some(f.offset), Some(f.limit), None, None)
  }

  /** `p` is the run of at most `limit` entries of `o` starting at rank
      `offset`, and no entry of `o` ranked after the run is later than one on
      it, nor one ranked before it earlier. */
  predicate IsPageOf(p: seq<Entry>, o: seq<Entry>, offset: nat, limit: nat) {
    && |p| == (if offset >= |o| then 0 else if limit < |o| - offset then limit else |o| - offset)
    && (forall k :: 0 <= k < |p| ==> p[k] == o[offset + k])
    && (forall k, j :: 0 <= k < |p| && offset + |p| <= j < |o| ==> Ordering.StrLe(o[j].date, p[k].date))
    && (forall k, j :: 0 <= k < |p| && 0 <= j < offset ==> Ordering.StrLe(p[k].date, o[j].date))
  }

  /** With the intended call, a fetch at a non-negative offset and limit
      answers a page of the groups in their default newest-first order. */
  lemma IntendedFetchPage(rows: seq<HistoryStore.Row>, f: Fetch)
    requires f.offset >= 0 && f.limit >= 0
    ensures IsPageOf(GetHistory(rows, Query(f)), OrderedGroups(rows, Query(f)), f.offset, f.limit)
  {
    var o := OrderedGroups(rows, Query(f));
    IntendedIsPage(rows, f);
    DefaultOrderIsLatestFirst(rows, Query(f));
    PageOfLatestFirst(o, f.offset, f.limit);
  }

  lemma IntendedIsPage(rows: seq<HistoryStore.Row>, f: Fetch)
    ensures GetHistory(rows, Query(f)) == Ordering.Page(OrderedGroups(rows, Query(f)), f.offset, f.limit)
  {
  }

  /** A page cut from a newest-first list is a run of it, dated between what
      precedes and what follows it. */
  lemma PageOfLatestFirst(o: seq<Entry>, offset: nat, limit: nat)
    requires forall i, j :: 0 <= i < j < |o| ==> Ordering.StrLe(o[j].date, o[i].date)
    ensures IsPageOf(Ordering.Page(o, offset, limit), o, offset, limit)
  {
    var p := Ordering.Page(o, offset, limit);
    Ordering.PageIsRun(o, offset, limit);
    forall k, j | 0 <= k < |p| && offset + |p| <= j < |o| ensures Ordering.StrLe(o[j].date, p[k].date) {
      assert p[k] == o[offset + k];
    }
    forall k, j | 0 <= k < |p| && 0 <= j < offset ensures Ordering.StrLe(p[k].date, o[j].date) {
      assert p[k] == o[offset + k];
    }
  }

  /** As written, any fetch answers what the intended call answers for the
      first page: the offset and limit given are lost. */
  lemma AsWrittenIsFirstFetch(rows: seq<HistoryStore.Row>, f: Fetch)
    ensures GetHistory(rows, QueryAsWritten(f)) == GetHistory(rows, Query(Fetch(0, PageSize)))
  {
  }

  /** As written, every fetch, whatever its offset, brings back the first
      twenty groups. */
  lemma AsWrittenAlwaysFirstPage(rows: seq<HistoryStore.Row>, f: Fetch)
    ensures GetHistory(rows, QueryAsWritten(f)) == GetHistory(rows, QueryAsWritten(Fetch(0, PageSize)))
    ensures GetHistory(rows, QueryAsWritten(f)) == Ordering.Page(OrderedGroups(rows, QueryAsWritten(f)), 0, PageSize)
  {
  }

  /** As written, loading more after the first page merges the first page
      again: every label then holds each of its entries twice. With a single
      stored row the list shows two copies of one entry. */
  lemma AsWrittenLoadMoreDuplicates(rows: seq<HistoryStore.Row>, dateLabel: string -> string)
    ensures var first := GetHistory(rows, QueryAsWritten(Fetch(0, PageSize)));
      var more := GetHistory(rows, QueryAsWritten(Fetch(PageSize, PageSize)));
      forall k :: ItemsOf(Merge(Bucketed(first, dateLabel), Bucketed(more, dateLabel)), k)
               == WithLabel(first, dateLabel, k) + WithLabel(first, dateLabel, k)
  {
    var first := GetHistory(rows, QueryAsWritten(Fetch(0, PageSize)));
    BucketedContents(first, dateLabel);
    MergeContents(Bucketed(first, dateLabel), Bucketed(first, dateLabel));
  }

  /** With the intended call, the first page and the one `handleKeyDown`
      then requests are adjacent and share no entry. */
  lemma IntendedPagesAdjacent(rows: seq<HistoryStore.Row>)
    ensures var first := GetHistory(rows, Query(Fetch(0, PageSize)));
      var more := GetHistory(rows, Query(Fetch(PageSize, PageSize)));
      && first + more == Ordering.Page(OrderedGroups(rows, Query(Fetch(0, PageSize))), 0, 2 * PageSize)
      && forall e :: e in first ==> e !in more
  {
    ConsecutivePages(rows, Query(Fetch(0, PageSize)), PageSize as nat);
  }
}
