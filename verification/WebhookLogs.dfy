/** Keyset pagination of the webhook log. */
module WebhookLogs {
  import opened Wrappers
  import opened Cursor

  datatype Log = Log(id: Uuid, tenant: Uuid, provider: string, eventType: string, processed: bool,
                     attempts: int, receivedAt: int)

  datatype Filter = Filter(tenant: Uuid, provider: Option<string>, processed: Option<bool>,
                           dateFrom: Option<int>, dateTo: Option<int>)

  datatype Page = Page(items: seq<Log>, next: Option<string>)

  datatype PageError = InvalidCursor

  type Key = (int, Uuid)

  function KeyOf(row: Log): Key {
    (row.receivedAt, row.id)
  }

  predicate Above(a: Key, b: Key) {
    a.0 > b.0 || (a.0 == b.0 && a.1 > b.1)
  }

  predicate BelowKey(bound: Option<Key>, key: Key) {
    bound.Some? ==> Above(bound.value, key)
  }

  predicate Below(bound: Option<Key>, row: Log) {
    BelowKey(bound, KeyOf(row))
  }

  predicate Matches(f: Filter, row: Log) {
    && row.tenant == f.tenant
    && (f.provider.Some? && f.provider.value != "" ==> row.provider == f.provider.value)
    && (f.processed.Some? ==> row.processed == f.processed.value)
    && (f.dateFrom.Some? ==> row.receivedAt >= f.dateFrom.value)
    && (f.dateTo.Some? ==> row.receivedAt <= f.dateTo.value)
  }

  /******* The query *******/

  function Where(rows: seq<Log>, keep: Log -> bool): seq<Log> {
    if rows == [] then [] else (if keep(rows[0]) then [rows[0]] else []) + Where(rows[1..], keep)
  }

  function Insert(row: Log, sorted: seq<Log>): seq<Log> {
    if sorted == [] || Above(KeyOf(row), KeyOf(sorted[0])) then [row] + sorted
    else [sorted[0]] + Insert(row, sorted[1..])
  }

  /** ORDER BY received_at DESC, id DESC. */
  function OrderDesc(rows: seq<Log>): seq<Log> {
    if rows == [] then [] else Insert(rows[0], OrderDesc(rows[1..]))
  }

  function Wanted(f: Filter, bound: Option<Key>): Log -> bool {
    (row: Log) => Matches(f, row) && Below(bound, row)
  }

  /** All rows the request may still deliver, newest first. */
  function Remaining(table: seq<Log>, f: Filter, bound: Option<Key>): seq<Log> {
    OrderDesc(Where(table, Wanted(f, bound)))
  }

  function Cut(remaining: seq<Log>, limit: nat): seq<Log> {
    if |remaining| > limit then remaining[..limit] else remaining
  }

  function PageOf(codec: FloatText, remaining: seq<Log>, limit: nat): Page {
    var items := Cut(remaining, limit);
    Page(items, if |remaining| > limit && items != [] then
                  Some(Encode(codec, items[|items| - 1].receivedAt, items[|items| - 1].id))
                else None)
  }

  /** The bound a request's cursor stands for; the empty cursor is no cursor. */
  function BoundOf(codec: FloatText, cursor: string): Result<Option<Key>, PageError> {
    if cursor == "" then Success(None)
    else
      var key := Decode(codec, cursor);
      if key.Some? then Success(Some(key.value)) else Failure(InvalidCursor)
  }

  function ListPage(codec: FloatText, table: seq<Log>, f: Filter, cursor: string, limit: nat): Result<Page, PageError> {
    match BoundOf(codec, cursor)
    case Success(bound) => Success(PageOf(codec, Remaining(table, f, bound), limit))
    case Failure(error) => Failure(error)
  }

  lemma {:induction false} WhereTwice(table: seq<Log>, keep: Log -> bool, more: Log -> bool, both: Log -> bool)
    requires forall row :: both(row) <==> keep(row) && more(row)
    ensures Where(Where(table, keep), more) == Where(table, both)
  {
    if table != [] {
      WhereTwice(table[1..], keep, more, both);
      var rest := Where(table[1..], keep);
      assert ([table[0]] + rest)[1..] == rest && [] + rest == rest;
    }
  }

  lemma {:induction false} WhereSame(table: seq<Log>, keep: Log -> bool, same: Log -> bool)
    requires forall row :: keep(row) <==> same(row)
    ensures Where(table, keep) == Where(table, same)
  {
    if table != [] { WhereSame(table[1..], keep, same); }
  }

  /** The conditions of the query, one more at each stage. */
  function Stage(f: Filter, n: nat): Log -> bool {
    (row: Log) =>
      && row.tenant == f.tenant
      && (n >= 1 && f.provider.Some? && f.provider.value != "" ==> row.provider == f.provider.value)
      && (n >= 2 && f.processed.Some? ==> row.processed == f.processed.value)
      && (n >= 3 && f.dateFrom.Some? ==> row.receivedAt >= f.dateFrom.value)
      && (n >= 4 && f.dateTo.Some? ==> row.receivedAt <= f.dateTo.value)
  }

  /** Narrows the query condition by condition. */
  method FilterLogs(table: seq<Log>, f: Filter) returns (query: seq<Log>)
    ensures query == Where(table, Stage(f, 4))
  {
    query := Where(table, (row: Log) => row.tenant == f.tenant);
    WhereSame(table, (row: Log) => row.tenant == f.tenant, Stage(f, 0));
    if f.provider.Some? && f.provider.value != "" {
      var provider := f.provider.value;
      WhereTwice(table, Stage(f, 0), (row: Log) => row.provider == provider, Stage(f, 1));
      query := Where(query, (row: Log) => row.provider == provider);
    } else {
      WhereSame(table, Stage(f, 0), Stage(f, 1));
    }
    if f.processed.Some? {
      var processed := f.processed.value;
      WhereTwice(table, Stage(f, 1), (row: Log) => row.processed == processed, Stage(f, 2));
      query := Where(query, (row: Log) => row.processed == processed);
    } else {
      WhereSame(table, Stage(f, 1), Stage(f, 2));
    }
    query := FilterDates(table, f, query);
  }

  method FilterDates(ghost table: seq<Log>, f: Filter, filtered: seq<Log>) returns (query: seq<Log>)
    requires filtered == Where(table, Stage(f, 2))
    ensures query == Where(table, Stage(f, 4))
  {
    query := filtered;
    if f.dateFrom.Some? {
      var dateFrom := f.dateFrom.value;
      WhereTwice(table, Stage(f, 2), (row: Log) => row.receivedAt >= dateFrom, Stage(f, 3));
      query := Where(query, (row: Log) => row.receivedAt >= dateFrom);
    } else {
      WhereSame(table, Stage(f, 2), Stage(f, 3));
    }
    if f.dateTo.Some? {
      var dateTo := f.dateTo.value;
      WhereTwice(table, Stage(f, 3), (row: Log) => row.receivedAt <= dateTo, Stage(f, 4));
      query := Where(query, (row: Log) => row.receivedAt <= dateTo);
    } else {
      WhereSame(table, Stage(f, 3), Stage(f, 4));
    }
  }

  /** Filters, applies the cursor, orders, cuts one row past the page, and derives the next cursor
      from the last row kept. */
  method ListWebhookLogs(codec: FloatText, table: seq<Log>, f: Filter, cursor: string, limit: nat)
    returns (result: Result<Page, PageError>)
    ensures result == ListPage(codec, table, f, cursor, limit)
  {
    var query := FilterLogs(table, f);
    ghost var bound: Option<Key> := None;
    if cursor != "" {
      var key := Decode(codec, cursor);
      if key == None {
        return Failure(InvalidCursor);
      }
      var after := key.value;
      bound := Some(after);
      WhereTwice(table, Stage(f, 4), (row: Log) => Above(after, KeyOf(row)), Wanted(f, bound));
      query := Where(query, (row: Log) => Above(after, KeyOf(row)));
    } else {
      WhereSame(table, Stage(f, 4), Wanted(f, bound));
    }
    var page := CutPage(codec, OrderDesc(query), limit);
    result := Success(page);
  }

  method CutPage(codec: FloatText, ordered: seq<Log>, limit: nat) returns (page: Page)
    ensures page == PageOf(codec, ordered, limit)
  {
    var rows := if |ordered| > limit + 1 then ordered[..limit + 1] else ordered;
    var hasMore := |rows| > limit;
    var items := if |rows| > limit then rows[..limit] else rows;
    var next: Option<string> := None;
    if hasMore && items != [] {
      var last := items[|items| - 1];
      next := Some(Encode(codec, last.receivedAt, last.id));
    }
    page := Page(items, next);
  }

  /******* The order *******/

  /** The row comes after another one: it is older, or as old with a smaller id. */
  predicate Older(row: Log, than: Log) {
    row.receivedAt < than.receivedAt || (row.receivedAt == than.receivedAt && row.id < than.id)
  }

  ghost predicate Descending(rows: seq<Log>) {
    forall i, j :: 0 <= i < j < |rows| ==> Older(rows[j], rows[i])
  }

  ghost predicate DistinctKeys(rows: seq<Log>) {
    forall i, j :: 0 <= i < j < |rows| ==> KeyOf(rows[i]) != KeyOf(rows[j])
  }

  /** A table the cursor can address: unique ids, instants from the epoch to 2^33 seconds. */
  ghost predicate Addressable(table: seq<Log>) {
    && (forall i, j :: 0 <= i < j < |table| ==> table[i].id != table[j].id)
    && (forall row :: row in table ==> 0 <= row.receivedAt < 8_589_934_592 * MICROS && row.id < Pow16(32))
  }

  lemma {:induction false} WhereKeeps(rows: seq<Log>, keep: Log -> bool)
    ensures forall row :: row in Where(rows, keep) <==> row in rows && keep(row)
    ensures DistinctKeys(rows) ==> DistinctKeys(Where(rows, keep))
  {
    if rows != [] {
      WhereKeeps(rows[1..], keep);
      assert forall row :: row in rows <==> row == rows[0] || row in rows[1..];
      if DistinctKeys(rows) {
        var rest := Where(rows[1..], keep);
        assert DistinctKeys(rows[1..]);
        forall i | 0 <= i < |rest| ensures KeyOf(rest[i]) != KeyOf(rows[0]) {
          assert rest[i] in rows[1..];
        }
      }
    }
  }

  lemma {:induction false} InsertKeeps(row: Log, sorted: seq<Log>)
    requires Descending(sorted)
    requires forall x :: x in sorted ==> KeyOf(x) != KeyOf(row)
    ensures Descending(Insert(row, sorted))
    ensures forall x :: x in Insert(row, sorted) <==> x == row || x in sorted
  {
    if sorted != [] && !Above(KeyOf(row), KeyOf(sorted[0])) {
      assert forall x :: x in sorted <==> x == sorted[0] || x in sorted[1..];
      InsertKeeps(row, sorted[1..]);
      var rest := Insert(row, sorted[1..]);
      forall i | 0 <= i < |rest| ensures Above(KeyOf(sorted[0]), KeyOf(rest[i])) {
        assert rest[i] == row || rest[i] in sorted[1..];
      }
    }
  }

  lemma {:induction false} OrderDescSorts(rows: seq<Log>)
    requires DistinctKeys(rows)
    ensures Descending(OrderDesc(rows))
    ensures forall row :: row in OrderDesc(rows) <==> row in rows
  {
    if rows != [] {
      OrderDescSorts(rows[1..]);
      InsertKeeps(rows[0], OrderDesc(rows[1..]));
      assert forall row :: row in rows <==> row == rows[0] || row in rows[1..];
    }
  }

  lemma RemainingIs(table: seq<Log>, f: Filter, bound: Option<Key>)
    requires Addressable(table)
    ensures Descending(Remaining(table, f, bound))
    ensures forall row :: row in Remaining(table, f, bound) <==> row in table && Matches(f, row) && Below(bound, row)
  {
    WhereKeeps(table, Wanted(f, bound));
    OrderDescSorts(Where(table, Wanted(f, bound)));
  }

  /******* What a page says, column by column *******/

  /** The row is one the request asks for. */
  ghost predicate Asked(codec: FloatText, f: Filter, cursor: string, row: Log) {
    && row.tenant == f.tenant
    && (f.provider != None && f.provider != Some("") ==> f.provider == Some(row.provider))
    && (f.processed != None ==> f.processed == Some(row.processed))
    && (f.dateFrom.Some? ==> f.dateFrom.value <= row.receivedAt)
    && (f.dateTo.Some? ==> row.receivedAt <= f.dateTo.value)
    && (cursor != "" && Decode(codec, cursor).Some? ==>
          var (time, id) := Decode(codec, cursor).value;
          row.receivedAt < time || (row.receivedAt == time && row.id < id))
  }

  lemma AskedIsRemaining(codec: FloatText, table: seq<Log>, f: Filter, cursor: string, bound: Option<Key>)
    requires Addressable(table) && BoundOf(codec, cursor) == Success(bound)
    ensures forall row :: row in Remaining(table, f, bound) <==> row in table && Asked(codec, f, cursor, row)
    ensures Descending(Remaining(table, f, bound))
  {
    RemainingIs(table, f, bound);
  }

  /** A page holds rows the request asks for, from the newest down; it leaves one out only when it is full, and only
      rows older than all it holds; and it has a cursor exactly if it leaves something out, to its last row. */
  lemma PageIsExact(codec: FloatText, table: seq<Log>, f: Filter, cursor: string, limit: nat)
    requires Addressable(table)
    ensures match ListPage(codec, table, f, cursor, limit)
            case Failure(error) => error == InvalidCursor && cursor != "" && Decode(codec, cursor) == None
            case Success(Page(items, next)) =>
              && (cursor != "" ==> Decode(codec, cursor).Some?)
              && |items| <= limit
              && Descending(items)
              && (forall row <- items :: row in table && Asked(codec, f, cursor, row))
              && (forall row <- table :: Asked(codec, f, cursor, row) && row !in items ==>
                    |items| == limit && forall item <- items :: Older(row, item))
              && (next.Some? <==> items != [] && exists row <- table :: Asked(codec, f, cursor, row) && row !in items)
              && (next.Some? ==> var last := items[|items| - 1];
                                 next.value == codec.show(Timestamp(last.receivedAt)) + ":" + UuidText(last.id))
  {
    var bound := BoundOf(codec, cursor);
    if bound.Success? {
      var all := Remaining(table, f, bound.value);
      AskedIsRemaining(codec, table, f, cursor, bound.value);
      PageOfIsExact(codec, all, limit);
    }
  }

  lemma PageOfIsExact(codec: FloatText, all: seq<Log>, limit: nat)
    requires Descending(all)
    ensures var Page(items, next) := PageOf(codec, all, limit);
            && |items| <= limit && Descending(items)
            && (forall row <- items :: row in all)
            && (forall row <- all :: row !in items ==> |items| == limit && forall item <- items :: Older(row, item))
            && (next.Some? <==> items != [] && exists row <- all :: row !in items)
            && (next.Some? ==> var last := items[|items| - 1];
                               next.value == codec.show(Timestamp(last.receivedAt)) + ":" + UuidText(last.id))
  {
    CutIsExact(all, limit);
  }

  lemma CutIsExact(all: seq<Log>, limit: nat)
    requires Descending(all)
    ensures var items := Cut(all, limit);
            && |items| <= limit && items <= all
            && (forall row <- all :: row !in items ==> |items| == limit && forall item <- items :: Older(row, item))
            && (|all| > limit ==> all[limit] in all && all[limit] !in items)
  {
    var items := Cut(all, limit);
    assert items == all[..|items|];
    forall row <- all | row !in items ensures |items| == limit && forall item <- items :: Older(row, item) {
      var k :| 0 <= k < |all| && all[k] == row;
      assert row == all[k] && k >= |items|;
    }
    if |all| > limit {
      assert forall item <- items :: Older(all[limit], item);
    }
  }

  /** Two strictly descending sequences with the same rows are equal. */
  lemma {:induction false} DescendingUnique(a: seq<Log>, b: seq<Log>)
    requires Descending(a) && Descending(b)
    requires forall row :: row in a <==> row in b
    ensures a == b
  {
    assert a != [] ==> a[0] in a;
    assert b != [] ==> b[0] in b;
    if a != [] {
      assert a[0] in b;
      assert b[0] in a;
      assert a[0] == b[0];
      forall row ensures row in a[1..] <==> row in b[1..] {
        assert row in a <==> row == a[0] || row in a[1..];
        assert row in b <==> row == b[0] || row in b[1..];
      }
      DescendingUnique(a[1..], b[1..]);
    }
  }

  /******* Pages cut by keys *******/

  function Concat(cuts: seq<seq<Log>>): seq<Log> {
    if cuts == [] then [] else cuts[0] + Concat(cuts[1..])
  }

  /** Page after page, each cut below the last row of the one before, while the table may change between
      the requests; `finished` tells whether the last page left nothing. */
  predicate IsKeyWalk(tables: seq<seq<Log>>, f: Filter, limit: nat, bound: Option<Key>,
                      cuts: seq<seq<Log>>, finished: bool)
    decreases |cuts|
  {
    && |tables| == |cuts| > 0
    && var remaining := Remaining(tables[0], f, bound);
       && cuts[0] == Cut(remaining, limit)
       && (|cuts| == 1 ==> (finished <==> |remaining| <= limit))
       && (|cuts| > 1 ==>
             && |remaining| > limit >= 1
             && IsKeyWalk(tables[1..], f, limit, Some(KeyOf(remaining[limit - 1])), cuts[1..], finished))
  }

  /** A log that is in the table: some row has its key, and the filter lets it pass. */
  ghost predicate Present(table: seq<Log>, f: Filter, key: Key) {
    exists row :: row in table && KeyOf(row) == key && Matches(f, row)
  }

  /** A log that is there at every request, however its other columns change in between. */
  ghost predicate Throughout(tables: seq<seq<Log>>, f: Filter, key: Key) {
    forall k :: 0 <= k < |tables| ==> Present(tables[k], f, key)
  }

  ghost predicate AllBelow(bound: Option<Key>, rows: seq<Log>) {
    forall row :: row in rows ==> Below(bound, row)
  }

  lemma CutDescends(table: seq<Log>, f: Filter, bound: Option<Key>, limit: nat)
    requires Addressable(table)
    ensures Descending(Cut(Remaining(table, f, bound), limit))
    ensures AllBelow(bound, Cut(Remaining(table, f, bound), limit))
  {
    RemainingIs(table, f, bound);
    var all := Remaining(table, f, bound);
    assert forall row :: row in Cut(all, limit) ==> row in all;
  }

  /** What a page leaves out lies below its last row. */
  lemma CutLeaves(table: seq<Log>, f: Filter, bound: Option<Key>, limit: nat, row: Log)
    requires Addressable(table) && limit >= 1
    requires row in table && Matches(f, row) && Below(bound, row)
    ensures var all := Remaining(table, f, bound);
            row in Cut(all, limit) || (|all| > limit && Below(Some(KeyOf(all[limit - 1])), row))
  {
    RemainingIs(table, f, bound);
    var all := Remaining(table, f, bound);
    var i :| 0 <= i < |all| && all[i] == row;
    if i < |Cut(all, limit)| {
      assert Cut(all, limit)[i] == row;
    }
  }

  lemma ChainPages(items: seq<Log>, rest: seq<Log>, bound: Option<Key>)
    requires items != [] && Descending(items) && Descending(rest)
    requires AllBelow(bound, items) && AllBelow(Some(KeyOf(items[|items| - 1])), rest)
    ensures Descending(items + rest) && AllBelow(bound, items + rest)
  {
    var both := items + rest;
    assert items[|items| - 1] in items;
    forall i, j | 0 <= i < j < |both| ensures Above(KeyOf(both[i]), KeyOf(both[j])) {
      if i < |items| <= j {
        assert rest[j - |items|] in rest;
      }
    }
  }

  /** Whatever happens to the table between the requests, the rows delivered strictly descend. */
  lemma {:induction false} KeyWalkDescends(tables: seq<seq<Log>>, f: Filter, limit: nat, bound: Option<Key>,
                                           cuts: seq<seq<Log>>, finished: bool)
    requires forall k :: 0 <= k < |tables| ==> Addressable(tables[k])
    requires IsKeyWalk(tables, f, limit, bound, cuts, finished)
    ensures Descending(Concat(cuts)) && AllBelow(bound, Concat(cuts))
    decreases |cuts|
  {
    CutDescends(tables[0], f, bound, limit);
    if |cuts| > 1 {
      var last := cuts[0][limit - 1];
      KeyWalkDescends(tables[1..], f, limit, Some(KeyOf(last)), cuts[1..], finished);
      ChainPages(cuts[0], Concat(cuts[1..]), bound);
    } else {
      assert Concat(cuts[1..]) == [];
      assert Concat(cuts) == cuts[0];
    }
  }

  /** A finished walk has delivered every log that was there throughout. */
  lemma {:induction false} KeyWalkMissesNothing(tables: seq<seq<Log>>, f: Filter, limit: nat, bound: Option<Key>,
                                                cuts: seq<seq<Log>>, key: Key)
    requires limit >= 1
    requires forall k :: 0 <= k < |tables| ==> Addressable(tables[k])
    requires IsKeyWalk(tables, f, limit, bound, cuts, true)
    requires Throughout(tables, f, key) && BelowKey(bound, key)
    ensures exists row :: row in Concat(cuts) && KeyOf(row) == key
    decreases |cuts|
  {
    assert Present(tables[0], f, key);
    var row :| row in tables[0] && KeyOf(row) == key && Matches(f, row);
    CutLeaves(tables[0], f, bound, limit, row);
    if row in cuts[0] {
      assert row in Concat(cuts);
    } else {
      var all := Remaining(tables[0], f, bound);
      KeyWalkMissesNothing(tables[1..], f, limit, Some(KeyOf(all[limit - 1])), cuts[1..], key);
      var later :| later in Concat(cuts[1..]) && KeyOf(later) == key;
      assert later in Concat(cuts);
    }
  }

  /** Every row delivered is a row of the table its page was cut from, and the filter lets it pass. */
  lemma {:induction false} KeyWalkDeliversRows(tables: seq<seq<Log>>, f: Filter, limit: nat, bound: Option<Key>,
                                               cuts: seq<seq<Log>>, finished: bool, row: Log)
    requires forall k :: 0 <= k < |tables| ==> Addressable(tables[k])
    requires IsKeyWalk(tables, f, limit, bound, cuts, finished) && row in Concat(cuts)
    ensures exists k :: 0 <= k < |tables| && row in tables[k] && row in cuts[k] && Matches(f, row)
    decreases |cuts|
  {
    var all := Remaining(tables[0], f, bound);
    RemainingIs(tables[0], f, bound);
    if row in cuts[0] {
      assert row in all;
    } else {
      KeyWalkDeliversRows(tables[1..], f, limit, Some(KeyOf(all[limit - 1])), cuts[1..], finished, row);
      var k :| 0 <= k < |tables[1..]| && row in tables[1..][k] && row in cuts[1..][k] && Matches(f, row);
      assert row in tables[k + 1] && row in cuts[k + 1];
    }
  }

  /** In a descending sequence, what follows position `n` is what lies below the row there. */
  lemma DescendingTail(all: seq<Log>, n: nat, row: Log)
    requires Descending(all) && n < |all|
    ensures row in all[n + 1..] <==> row in all && Above(KeyOf(all[n]), KeyOf(row))
  {
    if row in all[n + 1..] {
      var i :| 0 <= i < |all[n + 1..]| && all[n + 1..][i] == row;
      assert all[n + 1 + i] == row;
    }
    if row in all && Above(KeyOf(all[n]), KeyOf(row)) {
      var i :| 0 <= i < |all| && all[i] == row;
      assert i > n;
      assert all[n + 1..][i - n - 1] == row;
    }
  }

  /** What is left after a page is what the query finds below the page's last row. */
  lemma RemainingSplits(table: seq<Log>, f: Filter, bound: Option<Key>, limit: nat)
    requires Addressable(table) && 1 <= limit < |Remaining(table, f, bound)|
    ensures var all := Remaining(table, f, bound);
            Remaining(table, f, Some(KeyOf(all[limit - 1]))) == all[limit..]
  {
    var all := Remaining(table, f, bound);
    var last := all[limit - 1];
    RemainingIs(table, f, bound);
    RemainingIs(table, f, Some(KeyOf(last)));
    assert last in all;
    forall row ensures row in all[limit..] <==> row in Remaining(table, f, Some(KeyOf(last))) {
      DescendingTail(all, limit - 1, row);
    }
    DescendingUnique(all[limit..], Remaining(table, f, Some(KeyOf(last))));
  }

  function Repeat(table: seq<Log>, n: nat): seq<seq<Log>> {
    seq(n, i => table)
  }

  lemma RepeatTail(table: seq<Log>, n: nat)
    requires n > 0
    ensures Repeat(table, n)[0] == table && Repeat(table, n)[1..] == Repeat(table, n - 1)
  {}

  lemma PrefixSplits(all: seq<Log>, n: nat, rest: seq<Log>)
    requires n <= |all| && rest <= all[n..]
    ensures all[..n] + rest <= all
    ensures rest == all[n..] ==> all[..n] + rest == all
  {
    assert all == all[..n] + all[n..];
  }

  /** On a table at rest the pages are consecutive pieces of the whole ordered result. */
  lemma {:induction false} StaticKeyWalk(table: seq<Log>, f: Filter, limit: nat, bound: Option<Key>,
                                         cuts: seq<seq<Log>>, finished: bool)
    requires Addressable(table)
    requires IsKeyWalk(Repeat(table, |cuts|), f, limit, bound, cuts, finished)
    ensures Concat(cuts) <= Remaining(table, f, bound)
    ensures finished ==> Concat(cuts) == Remaining(table, f, bound)
    ensures |cuts| <= |Remaining(table, f, bound)| + 1
    decreases |cuts|
  {
    var all := Remaining(table, f, bound);
    RepeatTail(table, |cuts|);
    if |cuts| > 1 {
      RemainingSplits(table, f, bound, limit);
      StaticKeyWalk(table, f, limit, Some(KeyOf(all[limit - 1])), cuts[1..], finished);
      PrefixSplits(all, limit, Concat(cuts[1..]));
    } else {
      assert Concat(cuts[1..]) == [];
      assert Concat(cuts) == cuts[0];
    }
  }

  /******* Walking the cursors *******/

  function Delivered(pages: seq<Page>): seq<Log> {
    if pages == [] then [] else pages[0].items + Delivered(pages[1..])
  }

  function ItemsOf(pages: seq<Page>): seq<seq<Log>> {
    seq(|pages|, i requires 0 <= i < |pages| => pages[i].items)
  }

  /** A client follows `next` from page to page while the table may change between requests. */
  predicate IsWalk(codec: FloatText, tables: seq<seq<Log>>, f: Filter, limit: nat, cursor: string, pages: seq<Page>)
    decreases |pages|
  {
    && |tables| == |pages| > 0
    && ListPage(codec, tables[0], f, cursor, limit) == Success(pages[0])
    && (|pages| > 1 ==> pages[0].next.Some? && IsWalk(codec, tables[1..], f, limit, pages[0].next.value, pages[1..]))
  }

  predicate Finished(pages: seq<Page>) {
    pages != [] && pages[|pages| - 1].next == None
  }

  lemma RowBound(codec: FloatText, table: seq<Log>, row: Log)
    requires Faithful(codec) && Addressable(table) && row in table
    ensures BoundOf(codec, Encode(codec, row.receivedAt, row.id)) == Success(Some(KeyOf(row)))
  {
    CursorRoundTrip(codec, row.receivedAt, row.id);
  }

  /** The next cursor stands for the key of the last row delivered. */
  lemma NextBound(codec: FloatText, table: seq<Log>, f: Filter, bound: Option<Key>, limit: nat)
    requires Faithful(codec) && Addressable(table) && limit >= 1
    requires |Remaining(table, f, bound)| > limit
    ensures var all := Remaining(table, f, bound);
            var page := PageOf(codec, all, limit);
            page.next.Some? && BoundOf(codec, page.next.value) == Success(Some(KeyOf(all[limit - 1])))
  {
    RemainingIs(table, f, bound);
    var all := Remaining(table, f, bound);
    assert all[limit - 1] in all;
    RowBound(codec, table, all[limit - 1]);
  }

  lemma {:induction false} DeliveredIsConcat(pages: seq<Page>)
    ensures Delivered(pages) == Concat(ItemsOf(pages))
  {
    if pages != [] {
      DeliveredIsConcat(pages[1..]);
      assert ItemsOf(pages)[1..] == ItemsOf(pages[1..]);
    }
  }

  /** Following the cursor strings is cutting by keys. */
  lemma {:induction false} CursorsAreKeys(codec: FloatText, tables: seq<seq<Log>>, f: Filter, limit: nat,
                                          cursor: string, bound: Option<Key>, pages: seq<Page>)
    requires Faithful(codec) && limit >= 1
    requires forall k :: 0 <= k < |tables| ==> Addressable(tables[k])
    requires BoundOf(codec, cursor) == Success(bound)
    requires IsWalk(codec, tables, f, limit, cursor, pages)
    ensures IsKeyWalk(tables, f, limit, bound, ItemsOf(pages), Finished(pages))
    decreases |pages|
  {
    var all := Remaining(tables[0], f, bound);
    if |pages| > 1 {
      NextBound(codec, tables[0], f, bound, limit);
      CursorsAreKeys(codec, tables[1..], f, limit, pages[0].next.value, Some(KeyOf(all[limit - 1])), pages[1..]);
      assert ItemsOf(pages)[1..] == ItemsOf(pages[1..]);
    }
  }

  lemma DescendingHasOne(rows: seq<Log>, key: Key)
    requires Descending(rows) && exists row :: row in rows && KeyOf(row) == key
    ensures exists i :: 0 <= i < |rows| && IsOnly(rows, key, i)
  {
    var row :| row in rows && KeyOf(row) == key;
    var i :| 0 <= i < |rows| && rows[i] == row;
    assert IsOnly(rows, key, i);
  }

  /** The row at position `i` is the only one with the key. */
  ghost predicate IsOnly(rows: seq<Log>, key: Key, i: nat) {
    i < |rows| && forall j :: 0 <= j < |rows| ==> (KeyOf(rows[j]) == key <==> j == i)
  }

  /** While rows come and go between the requests, and while `processed`, `attempts` and everything else but time and
      id change in the others, each log that is there at every request is delivered exactly once, as it was when its
      page was cut, and all deliveries are in strictly descending order. */
  lemma WalkIsExactlyOnce(codec: FloatText, tables: seq<seq<Log>>, f: Filter, limit: nat, pages: seq<Page>, key: Key)
    requires Faithful(codec) && limit >= 1
    requires forall k :: 0 <= k < |tables| ==> Addressable(tables[k])
    requires IsWalk(codec, tables, f, limit, "", pages) && Finished(pages)
    requires Throughout(tables, f, key)
    ensures Descending(Delivered(pages))
    ensures exists i :: 0 <= i < |Delivered(pages)| && IsOnly(Delivered(pages), key, i)
    ensures forall row :: row in Delivered(pages) ==>
              exists k :: 0 <= k < |tables| && row in tables[k] && row in pages[k].items && Matches(f, row)
  {
    CursorsAreKeys(codec, tables, f, limit, "", None, pages);
    DeliveredIsConcat(pages);
    KeyWalkDescends(tables, f, limit, None, ItemsOf(pages), true);
    KeyWalkMissesNothing(tables, f, limit, None, ItemsOf(pages), key);
    DescendingHasOne(Delivered(pages), key);
    forall row | row in Delivered(pages)
      ensures exists k :: 0 <= k < |tables| && row in tables[k] && row in pages[k].items && Matches(f, row)
    {
      KeyWalkDeliversRows(tables, f, limit, None, ItemsOf(pages), true, row);
    }
  }

  /** On a table at rest a finished walk is the filtered table in descending order, cut into pages;
      no walk has more pages than rows plus one. */
  lemma StaticWalkIsPartition(codec: FloatText, table: seq<Log>, f: Filter, limit: nat, pages: seq<Page>)
    requires Faithful(codec) && limit >= 1 && Addressable(table)
    requires IsWalk(codec, Repeat(table, |pages|), f, limit, "", pages)
    ensures Delivered(pages) <= Remaining(table, f, None)
    ensures Finished(pages) ==> Delivered(pages) == Remaining(table, f, None)
    ensures Descending(Remaining(table, f, None))
    ensures forall row :: row in Remaining(table, f, None) <==> row in table && Matches(f, row)
    ensures |pages| <= |Remaining(table, f, None)| + 1
  {
    CursorsAreKeys(codec, Repeat(table, |pages|), f, limit, "", None, pages);
    DeliveredIsConcat(pages);
    StaticKeyWalk(table, f, limit, None, ItemsOf(pages), Finished(pages));
    RemainingIs(table, f, None);
  }

  lemma ConsWalk(codec: FloatText, table: seq<Log>, f: Filter, limit: nat, cursor: string, page: Page, rest: seq<Page>)
    requires ListPage(codec, table, f, cursor, limit) == Success(page) && page.next.Some?
    requires IsWalk(codec, Repeat(table, |rest|), f, limit, page.next.value, rest)
    ensures IsWalk(codec, Repeat(table, |rest| + 1), f, limit, cursor, [page] + rest)
    ensures Finished(rest) ==> Finished([page] + rest)
  {
    var pages, tables := [page] + rest, Repeat(table, |rest| + 1);
    RepeatTail(table, |rest| + 1);
    assert pages[1..] == rest && pages[0] == page;
  }

  /** The walk over a table at rest ends, for every limit of at least 1. */
  lemma {:induction false} StaticWalkFinishes(codec: FloatText, table: seq<Log>, f: Filter, limit: nat,
                                              cursor: string, bound: Option<Key>) returns (pages: seq<Page>)
    requires Faithful(codec) && limit >= 1 && Addressable(table)
    requires BoundOf(codec, cursor) == Success(bound)
    ensures IsWalk(codec, Repeat(table, |pages|), f, limit, cursor, pages) && Finished(pages)
    decreases |Remaining(table, f, bound)|
  {
    var all := Remaining(table, f, bound);
    var page := PageOf(codec, all, limit);
    if |all| <= limit {
      pages := [page];
    } else {
      NextBound(codec, table, f, bound, limit);
      RemainingSplits(table, f, bound, limit);
      var rest := StaticWalkFinishes(codec, table, f, limit, page.next.value, Some(KeyOf(all[limit - 1])));
      pages := [page] + rest;
      ConsWalk(codec, table, f, limit, cursor, page, rest);
    }
  }
}
