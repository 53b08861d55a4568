/**
 Listing audits with a filter the database cannot apply: pages are scanned in batches, at most
 so many rows a call, and the client follows cursors.
 */
module Pagination {
  import opened Wrappers

  const MAX_LIMIT := 200
  const MAX_SCAN := 2_000

  datatype Row = Row(startedAt: int, id: string)

  /** Where to go on; the empty cursor starts at the newest row. */
  datatype Cursor = Cursor(beforeStartedAt: int, beforeID: string)

  datatype StoragePage = StoragePage(rows: seq<Row>, hasMore: bool)

  datatype Page = Page(items: seq<Row>, next: Option<Cursor>)

  type Order = (string, string) -> bool

  ghost predicate StrictOrder(less: Order) {
    && (forall a, b :: less(a, b) ==> !less(b, a))
    && (forall a, b, c :: less(a, b) && less(b, c) ==> less(a, c))
  }

  function CursorFor(row: Row): Cursor {
    Cursor(row.startedAt, row.id)
  }

  /** The keyset condition: strictly older, or as old with a smaller id. */
  predicate Before(less: Order, row: Row, cursor: Cursor) {
    || cursor.beforeID == ""
    || row.startedAt < cursor.beforeStartedAt
    || (row.startedAt == cursor.beforeStartedAt && less(row.id, cursor.beforeID))
  }

  /** The stored list: named rows, newest first, those of one time by falling id. */
  ghost predicate Listed(less: Order, rows: seq<Row>) {
    && (forall i :: 0 <= i < |rows| ==> rows[i].id != "" && rows[i].startedAt != 0)
    && (forall i, j :: 0 <= i < j < |rows| ==>
          || rows[i].startedAt > rows[j].startedAt
          || (rows[i].startedAt == rows[j].startedAt && less(rows[j].id, rows[i].id)))
  }

  /** The rows a cursor leaves. */
  function After(less: Order, rows: seq<Row>, cursor: Cursor): seq<Row> {
    if rows == [] then []
    else (if Before(less, rows[0], cursor) then [rows[0]] else []) + After(less, rows[1..], cursor)
  }

  /** The database: one row more than asked for tells whether there are more. */
  method ListAudits(less: Order, rows: seq<Row>, cursor: Cursor, limit: nat) returns (page: Option<StoragePage>)
    ensures page.Some? <==> 1 <= limit <= 200 && (cursor.beforeStartedAt == 0 <==> cursor.beforeID == "")
    ensures page.Some? ==>
      var after := After(less, rows, cursor);
      && page.value.hasMore == (limit < |after|)
      && page.value.rows == after[..if limit < |after| then limit else |after|]
  {
    if limit < 1 || limit > MAX_LIMIT || (cursor.beforeStartedAt == 0) != (cursor.beforeID == "") {
      return None;
    }
    var after := After(less, rows, cursor);
    if limit < |after| {
      return Some(StoragePage(after[..limit], true));
    }
    assert after[..|after|] == after;
    return Some(StoragePage(after, false));
  }

  // ----- Cursors cut the list in two -----

  lemma {:induction false} AfterAll(less: Order, rows: seq<Row>, cursor: Cursor)
    requires forall i :: 0 <= i < |rows| ==> Before(less, rows[i], cursor)
    ensures After(less, rows, cursor) == rows
  {
    if rows != [] {
      AfterAll(less, rows[1..], cursor);
      assert rows == [rows[0]] + rows[1..];
    }
  }

  lemma AllBefore(less: Order, rows: seq<Row>, cursor: Cursor)
    requires StrictOrder(less) && Listed(less, rows) && (rows == [] || Before(less, rows[0], cursor))
    ensures forall i :: 0 <= i < |rows| ==> Before(less, rows[i], cursor)
  {
  }

  /** What a cursor leaves of a list is an end of it. */
  lemma {:induction false} AfterIsSuffix(less: Order, rows: seq<Row>, cursor: Cursor) returns (k: nat)
    requires StrictOrder(less) && Listed(less, rows)
    ensures k <= |rows| && After(less, rows, cursor) == rows[k..]
    ensures forall i :: 0 <= i < k ==> !Before(less, rows[i], cursor)
  {
    hide StrictOrder;
    if rows == [] || Before(less, rows[0], cursor) {
      k := 0;
      AllBefore(less, rows, cursor);
      AfterAll(less, rows, cursor);
      assert rows[0..] == rows;
    } else {
      assert Listed(less, rows[1..]);
      k := AfterIsSuffix(less, rows[1..], cursor);
      assert rows[1..][k..] == rows[k + 1..];
      assert forall i :: 1 <= i < k + 1 ==> rows[i] == rows[1..][i - 1];
      k := k + 1;
    }
  }

  /** The cursor for a row leaves exactly the rows that follow it. */
  lemma AfterRow(less: Order, rows: seq<Row>, n: nat)
    requires StrictOrder(less) && Listed(less, rows) && n < |rows|
    ensures After(less, rows, CursorFor(rows[n])) == rows[n + 1..]
  {
    var k := AfterIsSuffix(less, rows, CursorFor(rows[n]));
    assert !Before(less, rows[n], CursorFor(rows[n]));
    if k < n + 1 {
      assert After(less, rows, CursorFor(rows[n]))[n - k] == rows[n];
      OnlyBefore(less, rows, CursorFor(rows[n]), n - k);
    }
    assert k >= n + 1;
    assert n + 1 < |rows| ==> Before(less, rows[n + 1], CursorFor(rows[n]));
  }

  lemma {:induction false} OnlyBefore(less: Order, rows: seq<Row>, cursor: Cursor, i: nat)
    requires i < |After(less, rows, cursor)|
    ensures Before(less, After(less, rows, cursor)[i], cursor)
  {
    if Before(less, rows[0], cursor) {
      if i > 0 {
        OnlyBefore(less, rows[1..], cursor, i - 1);
      }
    } else {
      OnlyBefore(less, rows[1..], cursor, i);
    }
  }

  lemma ListedRow(less: Order, rows: seq<Row>, n: nat)
    requires Listed(less, rows) && n < |rows|
    ensures rows[n].id != "" && rows[n].startedAt != 0
  {
  }

  /** Going on from a row of what a cursor left. */
  lemma AfterWithin(less: Order, rows: seq<Row>, cursor: Cursor, n: nat)
    requires StrictOrder(less) && Listed(less, rows) && n < |After(less, rows, cursor)|
    ensures var after := After(less, rows, cursor);
            After(less, rows, CursorFor(after[n])) == after[n + 1..] && after[n].id != "" && after[n].startedAt != 0
  {
    hide After;
    hide Listed;
    hide StrictOrder;
    var k := AfterIsSuffix(less, rows, cursor);
    AfterRow(less, rows, k + n);
    ListedRow(less, rows, k + n);
    assert rows[k..][n] == rows[k + n] && rows[k..][n + 1..] == rows[k + n + 1..];
  }

  // ----- The header filter -----

  /** Whether a row's header matches, or that its evidence could not be read. */
  type Reader = Row -> Option<bool>

  ghost function Matching(read: Reader, rows: seq<Row>): seq<Row> {
    if rows == [] then []
    else
      var last := rows[|rows| - 1];
      Matching(read, rows[..|rows| - 1]) + (if read(last) == Some(true) then [last] else [])
  }

  lemma MatchingNext(read: Reader, rows: seq<Row>, n: nat)
    requires n < |rows|
    ensures Matching(read, rows[..n + 1]) ==
      Matching(read, rows[..n]) + (if read(rows[n]) == Some(true) then [rows[n]] else [])
  {
    assert rows[..n + 1][..n] == rows[..n];
  }

  lemma {:induction false} MatchingConcat(read: Reader, a: seq<Row>, b: seq<Row>)
    ensures Matching(read, a + b) == Matching(read, a) + Matching(read, b)
    decreases b
  {
    if b == [] {
      assert a + b == a;
    } else {
      var n := |b| - 1;
      MatchingConcat(read, a, b[..n]);
      assert (a + b)[..|a + b| - 1] == a + b[..n];
    }
  }

  /** The first n rows could be read, and left room on the page before each of them. */
  ghost predicate ReadFirst(read: Reader, after: seq<Row>, limit: nat, n: nat) {
    && n <= |after| && n <= 2_000
    && forall i :: 0 <= i < n ==> read(after[i]).Some? && |Matching(read, after[..i])| < limit
  }

  /** A page over the first n of the rows a cursor left: it stops early only when it is full or
      has scanned enough, and then says where. */
  ghost predicate PageOver(read: Reader, after: seq<Row>, limit: nat, page: Page, n: nat) {
    && n <= |after| && |page.items| <= limit && ReadFirst(read, after, limit, n)
    && page.items == Matching(read, after[..n])
    && (page.next.None? <==> n == |after|)
    && (page.next.Some? ==>
          n > 0 && page.next.value == CursorFor(after[n - 1]) && (|page.items| == limit || n == 2_000))
  }

  /** The first row that cannot be read comes before the page is full. */
  ghost predicate StuckAt(read: Reader, after: seq<Row>, limit: nat, n: nat) {
    && ReadFirst(read, after, limit, n) && n < |after| && n < 2_000
    && read(after[n]).None? && |Matching(read, after[..n])| < limit
  }

  /** A scan is stuck or makes a page, not both. */
  lemma StuckMakesNoPage(read: Reader, after: seq<Row>, limit: nat, page: Page)
    requires exists n: nat :: PageOver(read, after, limit, page, n)
    ensures forall k: nat :: !StuckAt(read, after, limit, k)
  {
    hide Matching;
  }

  /** Rows scanned so far: all counted, none full, and the cursor stands at the last of them. */
  ghost predicate Scanned(less: Order, rows: seq<Row>, read: Reader, after: seq<Row>, limit: nat, items: seq<Row>,
                          cursor: Cursor, n: nat) {
    && n <= |after| && n <= MAX_SCAN && |items| < limit
    && items == Matching(read, after[..n]) && ReadFirst(read, after, limit, n)
    && After(less, rows, cursor) == after[n..]
    && (n > 0 ==> cursor == CursorFor(after[n - 1]))
    && (cursor.beforeStartedAt == 0 <==> cursor.beforeID == "")
  }

  method ListWithHeaderFilters(less: Order, rows: seq<Row>, read: Reader, start: Cursor, limit: nat)
    returns (r: Option<Page>)
    requires StrictOrder(less) && Listed(less, rows) && 1 <= limit <= MAX_LIMIT
    ensures r.Some? ==> exists n: nat :: PageOver(read, After(less, rows, start), limit, r.value, n)
    ensures r.None? <==>
      || (start.beforeStartedAt == 0) != (start.beforeID == "")
      || exists n: nat :: StuckAt(read, After(less, rows, start), limit, n)
  {
    hide Listed;
    hide StrictOrder;
    hide After;
    hide StuckAt;
    hide ReadFirst;
    ghost var after := After(less, rows, start);
    var items, cursor, scanned := [], start, 0;
    if start.beforeStartedAt == 0 <==> start.beforeID == "" {
      NothingScanned(less, rows, read, limit, start);
    }
    while scanned < MAX_SCAN
      invariant (start.beforeStartedAt == 0 <==> start.beforeID == "") ==>
        Scanned(less, rows, read, after, limit, items, cursor, scanned)
      invariant scanned == 0 ==> cursor == start
      invariant scanned > 0 ==> (start.beforeStartedAt == 0 <==> start.beforeID == "") && scanned < |after|
      decreases MAX_SCAN - scanned
    {
      var batchLimit := if MAX_LIMIT < MAX_SCAN - scanned then MAX_LIMIT else MAX_SCAN - scanned;
      var batch := ListAudits(less, rows, cursor, batchLimit);
      if batch == None {
        return None;
      }
      assert start.beforeStartedAt == 0 <==> start.beforeID == "";
      if |batch.value.rows| == 0 {
        assert after[..|after|] == after;
        assert PageOver(read, after, limit, Page(items, None), |after|);
        StuckMakesNoPage(read, after, limit, Page(items, None));
        return Some(Page(items, None));
      }
      var done;
      r, done, items, cursor := ScanBatch(less, rows, read, after, limit, items, cursor, scanned, batch.value);
      if done {
        if r.Some? {
          StuckMakesNoPage(read, after, limit, r.value);
        }
        assert r.None? ==> exists k: nat :: StuckAt(read, After(less, rows, start), limit, k);
        return;
      }
      scanned := scanned + |batch.value.rows|;
      if !batch.value.hasMore {
        assert PageOver(read, after, limit, Page(items, None), |after|);
        StuckMakesNoPage(read, after, limit, Page(items, None));
        return Some(Page(items, None));
      }
    }
    assert PageOver(read, after, limit, Page(items, Some(cursor)), scanned);
    StuckMakesNoPage(read, after, limit, Page(items, Some(cursor)));
    return Some(Page(items, Some(cursor)));
  }

  lemma NothingScanned(less: Order, rows: seq<Row>, read: Reader, limit: nat, start: Cursor)
    requires limit > 0 && (start.beforeStartedAt == 0 <==> start.beforeID == "")
    ensures Scanned(less, rows, read, After(less, rows, start), limit, [], start, 0)
  {
    var after := After(less, rows, start);
    assert after[..0] == [] && after[0..] == after;
  }

  /** Scan one batch; done when the page is full or a row cannot be read. */
  method ScanBatch(less: Order, rows: seq<Row>, read: Reader, ghost after: seq<Row>, limit: nat, items: seq<Row>,
                   cursor: Cursor, ghost n: nat, batch: StoragePage)
    returns (r: Option<Page>, done: bool, found: seq<Row>, next: Cursor)
    requires StrictOrder(less) && Listed(less, rows)
    requires Scanned(less, rows, read, after, limit, items, cursor, n)
    requires n + |batch.rows| <= |after| && n + |batch.rows| <= MAX_SCAN
    requires batch.rows == after[n..n + |batch.rows|] && (batch.hasMore <==> n + |batch.rows| < |after|)
    requires exists start :: after == After(less, rows, start)
    ensures !done ==> Scanned(less, rows, read, after, limit, found, next, n + |batch.rows|)
    ensures done && r.Some? ==> exists k: nat :: PageOver(read, after, limit, r.value, k)
    ensures done && r.None? ==> exists k: nat :: StuckAt(read, after, limit, k)
  {
    hide Listed;
    hide StrictOrder;
    hide After;
    hide Matching;
    r, done, found, next := None, false, items, cursor;
    ghost var start :| after == After(less, rows, start);
    for i := 0 to |batch.rows|
      invariant Scanned(less, rows, read, after, limit, found, next, n + i)
    {
      var row := batch.rows[i];
      assert row == after[n + i];
      var matches := read(row);
      if matches == None {
        assert StuckAt(read, after, limit, n + i);
        return None, true, found, next;
      }
      AfterWithin(less, rows, start, n + i);
      MatchingNext(read, after, n + i);
      if matches.value {
        found := found + [row];
        if |found| == limit {
          var more := i < |batch.rows| - 1 || batch.hasMore;
          r, done := Some(Page(found, if more then Some(CursorFor(row)) else None)), true;
          assert PageOver(read, after, limit, r.value, n + i + 1);
          return;
        }
      }
      next := CursorFor(row);
    }
  }

  /** Following cursors until there is none yields every matching row once, in order. */
  method FollowAll(less: Order, rows: seq<Row>, read: Reader, limit: nat) returns (r: Option<seq<Row>>)
    requires StrictOrder(less) && Listed(less, rows) && 1 <= limit <= MAX_LIMIT
    ensures r.Some? ==> r.value == Matching(read, rows)
    ensures r.None? <==> exists row :: row in rows && read(row).None?
  {
    hide After;
    hide Matching;
    hide ReadFirst;
    hide Listed;
    hide StrictOrder;
    var all := [];
    var cursor := Cursor(0, "");
    AfterAll(less, rows, cursor);
    ghost var seen := 0;
    MatchingNothing(read, rows);
    while true
      invariant 0 <= seen <= |rows| && After(less, rows, cursor) == rows[seen..]
      invariant all == Matching(read, rows[..seen])
      invariant forall i :: 0 <= i < seen ==> read(rows[i]).Some?
      invariant cursor.beforeStartedAt == 0 <==> cursor.beforeID == ""
      decreases |rows| - seen
    {
      var page := ListWithHeaderFilters(less, rows, read, cursor, limit);
      if page == None {
        ghost var k: nat :| StuckAt(read, rows[seen..], limit, k);
        assert read(rows[seen + k]).None?;
        return None;
      }
      ghost var after := rows[seen..];
      ghost var n: nat :| PageOver(read, after, limit, page.value, n);
      PageRead(read, rows, seen, limit, page.value, n);
      MatchingConcat(read, rows[..seen], after[..n]);
      assert rows[..seen] + after[..n] == rows[..seen + n];
      all := all + page.value.items;
      if page.value.next == None {
        assert rows[..seen + n] == rows;
        return Some(all);
      }
      AfterRow(less, rows, seen + n - 1);
      ListedRow(less, rows, seen + n - 1);
      cursor := page.value.next.value;
      seen := seen + n;
    }
  }

  lemma PageRead(read: Reader, rows: seq<Row>, seen: nat, limit: nat, page: Page, n: nat)
    requires seen <= |rows| && PageOver(read, rows[seen..], limit, page, n)
    ensures n <= |rows| - seen && forall i :: seen <= i < seen + n ==> read(rows[i]).Some?
  {
    forall i | seen <= i < seen + n ensures read(rows[i]).Some? {
      assert rows[seen..][i - seen] == rows[i];
    }
  }

  lemma MatchingNothing(read: Reader, rows: seq<Row>)
    ensures Matching(read, rows[..0]) == []
  {
  }
}
