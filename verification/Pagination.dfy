/** Keyset pagination over a table that a pipeline keeps writing.

    One request sees one snapshot; between two requests the table may change in
    any way. The activation list orders on (started_ms, entity_key, seq), newest
    first, and its cursor is that tuple of the last row shown.
 */
module Pagination {
  import opened Wrappers
  import opened Order
  import opened Rounding

  datatype Row = Row(
    entityKey: string, seqNo: int, startedMs: int, traceId: string, status: string, kind: string,
    model: Option<string>, tools: seq<string>, reasons: seq<string>)

  type Table = seq<Row>

  /** The primary key of `activations`. */
  ghost predicate PrimaryKey(table: Table) {
    forall i, j :: 0 <= i < j < |table| ==>
      table[i].entityKey != table[j].entityKey || table[i].seqNo != table[j].seqNo
  }

  // ----- the list's total order -----

  datatype Key = Key(startedMs: int, entityKey: string, seqNo: int)

  function KeyOf(row: Row): Key {
    Key(row.startedMs, row.entityKey, row.seqNo)
  }

  predicate Less(a: Key, b: Key) {
    || a.startedMs < b.startedMs
    || (a.startedMs == b.startedMs && StringLess(a.entityKey, b.entityKey))
    || (a.startedMs == b.startedMs && a.entityKey == b.entityKey && a.seqNo < b.seqNo)
  }

  lemma LessIsTotal(a: Key, b: Key)
    ensures !Less(a, a) && !(Less(a, b) && Less(b, a))
    ensures a == b || Less(a, b) || Less(b, a)
  {
    StringOrder(a.entityKey, b.entityKey);
    StringOrder(a.entityKey, a.entityKey);
  }

  lemma LessIsTransitive(a: Key, b: Key, c: Key)
    requires Less(a, b) && Less(b, c)
    ensures Less(a, c)
  {
    if StringLess(a.entityKey, b.entityKey) && StringLess(b.entityKey, c.entityKey) {
      StringTransitive(a.entityKey, b.entityKey, c.entityKey);
    }
  }

  // ----- filters -----

  datatype Filter = Filter(
    entityKey: Option<string>, status: Option<string>, kind: Option<string>, model: Option<string>,
    tool: Option<string>, reason: Option<string>, sinceMs: Option<int>, untilMs: Option<int>, query: Option<string>)

  function Fold(c: char): char {
    if 'A' <= c <= 'Z' then (c as int + 32) as char else c
  }

  /** SQL `LIKE`: `%` is any run, `_` any character, ASCII letters compare without case. */
  predicate Like(text: string, pattern: string)
    decreases |text| + |pattern|
  {
    if pattern == "" then text == ""
    else if pattern[0] == '%' then Like(text, pattern[1..]) || (text != "" && Like(text[1..], pattern))
    else text != "" && (pattern[0] == '_' || Fold(pattern[0]) == Fold(text[0])) && Like(text[1..], pattern[1..])
  }

  predicate Equals(column: string, wanted: Option<string>) {
    wanted.None? || column == wanted.value
  }

  predicate Matches(f: Filter, row: Row) {
    && Equals(row.entityKey, f.entityKey)
    && Equals(row.status, f.status)
    && Equals(row.kind, f.kind)
    && (f.model.Some? ==> row.model == f.model)
    && (f.tool.Some? ==> f.tool.value in row.tools)
    && (f.reason.Some? ==> f.reason.value in row.reasons)
    && (f.sinceMs.Some? ==> row.startedMs >= f.sinceMs.value)
    && (f.untilMs.Some? ==> row.startedMs < f.untilMs.value)
    && (f.query.Some? ==>
          var pattern := "%" + f.query.value + "%";
          || Like(row.entityKey, pattern)
          || Like(row.traceId, pattern)
          || Like(if row.model.Some? then row.model.value else "", pattern))
  }

  /** A window splits at any edge: each of its rows passes exactly one of the two halves. */
  lemma AdjacentWindows(f: Filter, row: Row, since: int, edge: int, until: int)
    requires since <= edge <= until
    ensures var early := Matches(f.(sinceMs := Some(since), untilMs := Some(edge)), row);
            var late := Matches(f.(sinceMs := Some(edge), untilMs := Some(until)), row);
            && !(early && late)
            && (Matches(f.(sinceMs := Some(since), untilMs := Some(until)), row) <==> early || late)
  {
  }

  // ----- one request -----

  predicate After(row: Row, cursor: Option<Key>) {
    cursor.None? || Less(KeyOf(row), cursor.value)
  }

  function Scanned(table: Table, f: Filter, cursor: Option<Key>): (rows: seq<Row>)
    ensures forall r :: r in rows <==> r in table && Matches(f, r) && After(r, cursor)
  {
    if table == [] then []
    else
      (if Matches(f, table[0]) && After(table[0], cursor) then [table[0]] else [])
      + Scanned(table[1..], f, cursor)
  }

  function InsertRow(row: Row, sorted: seq<Row>): (r: seq<Row>)
    ensures |r| == |sorted| + 1
    ensures forall x :: x in r <==> x in sorted || x == row
  {
    if sorted == [] || Less(KeyOf(sorted[0]), KeyOf(row)) then [row] + sorted
    else [sorted[0]] + InsertRow(row, sorted[1..])
  }

  /** `ORDER BY started_ms DESC, entity_key DESC, seq DESC` */
  function Ordered(rows: seq<Row>): (r: seq<Row>)
    ensures |r| == |rows|
    ensures forall x :: x in r <==> x in rows
  {
    if rows == [] then [] else InsertRow(rows[0], Ordered(rows[1..]))
  }

  datatype Page = Page(items: seq<Row>, next: Option<Key>, total: nat)

  /** `rows` holds one row more than fits if there is a next page. */
  function Paginate(rows: seq<Row>, limit: nat, total: nat): Page
    requires limit >= 1
  {
    if |rows| <= limit then Page(rows, None, total)
    else Page(rows[..limit], Some(KeyOf(rows[limit - 1])), total)
  }

  function Clamp(limit: int): (n: nat)
    ensures n >= 1
  {
    if limit < 1 then 1 else limit
  }

  function Activations(table: Table, f: Filter, cursor: Option<Key>, limit: int): Page {
    var n := Clamp(limit);
    var rows := Ordered(Scanned(table, f, cursor));
    Paginate(if |rows| > n + 1 then rows[..n + 1] else rows, n, |Scanned(table, f, None)|)
  }

  // ----- sorting -----

  ghost predicate Descending(rows: seq<Row>) {
    forall i, j :: 0 <= i < j < |rows| ==> Less(KeyOf(rows[j]), KeyOf(rows[i]))
  }

  ghost predicate DistinctKeys(rows: seq<Row>) {
    forall i, j :: 0 <= i < j < |rows| ==> KeyOf(rows[i]) != KeyOf(rows[j])
  }

  lemma {:induction false} InsertDescends(row: Row, sorted: seq<Row>)
    requires Descending(sorted) && forall x :: x in sorted ==> KeyOf(x) != KeyOf(row)
    ensures Descending(InsertRow(row, sorted))
    decreases |sorted|
  {
    if sorted != [] {
      if Less(KeyOf(sorted[0]), KeyOf(row)) {
        forall j | 0 < j < |sorted| ensures Less(KeyOf(sorted[j]), KeyOf(row)) {
          LessIsTransitive(KeyOf(sorted[j]), KeyOf(sorted[0]), KeyOf(row));
        }
      } else {
        LessIsTotal(KeyOf(sorted[0]), KeyOf(row));
        var rest := InsertRow(row, sorted[1..]);
        InsertDescends(row, sorted[1..]);
        forall j | 0 <= j < |rest| ensures Less(KeyOf(rest[j]), KeyOf(sorted[0])) {
          assert rest[j] in rest;
          if rest[j] != row {
            var k :| 0 <= k < |sorted[1..]| && sorted[1..][k] == rest[j];
            assert rest[j] == sorted[k + 1];
          }
        }
      }
    }
  }

  lemma {:induction false} OrderedDescends(rows: seq<Row>)
    requires DistinctKeys(rows)
    ensures Descending(Ordered(rows))
    decreases |rows|
  {
    if rows != [] {
      OrderedDescends(rows[1..]);
      forall x | x in Ordered(rows[1..]) ensures KeyOf(x) != KeyOf(rows[0]) {
        var k :| 0 <= k < |rows[1..]| && rows[1..][k] == x;
        assert x == rows[k + 1];
      }
      InsertDescends(rows[0], Ordered(rows[1..]));
    }
  }

  lemma {:induction false} ScannedKeys(table: Table, f: Filter, cursor: Option<Key>)
    requires PrimaryKey(table)
    ensures DistinctKeys(Scanned(table, f, cursor))
    decreases |table|
  {
    if table != [] {
      ScannedKeys(table[1..], f, cursor);
      var rest := Scanned(table[1..], f, cursor);
      forall j | 0 <= j < |rest| ensures KeyOf(rest[j]) != KeyOf(table[0]) {
        assert rest[j] in rest;
        var k :| 0 <= k < |table[1..]| && table[1..][k] == rest[j];
        assert rest[j] == table[k + 1];
      }
    }
  }

  lemma ListDescends(table: Table, f: Filter, cursor: Option<Key>)
    requires PrimaryKey(table)
    ensures Descending(Ordered(Scanned(table, f, cursor)))
  {
    ScannedKeys(table, f, cursor);
    OrderedDescends(Scanned(table, f, cursor));
  }

  lemma NoMemberNoRow(b: seq<Row>)
    ensures RowSet(b) == {} <==> b == []
  {
    if b != [] {
      assert b[0] in RowSet(b);
    }
  }

  ghost function RowSet(rows: seq<Row>): set<Row> {
    set r | r in rows
  }

  /** A descending list is determined by its members. */
  lemma {:induction false} DescendingIsUnique(a: seq<Row>, b: seq<Row>)
    ensures Descending(a) && Descending(b) && RowSet(a) == RowSet(b) ==> a == b
    decreases |a|
  {
    if a == [] || b == [] {
      NoMemberNoRow(a);
      NoMemberNoRow(b);
    } else if Descending(a) && Descending(b) && RowSet(a) == RowSet(b) {
      SameHead(a, b);
      DescendingIsUnique(a[1..], b[1..]);
      assert a == [a[0]] + a[1..] && b == [b[0]] + b[1..];
    }
  }

  lemma SameHead(a: seq<Row>, b: seq<Row>)
    ensures a != [] && b != [] && Descending(a) && Descending(b) && RowSet(a) == RowSet(b) ==>
              a[0] == b[0] && RowSet(a[1..]) == RowSet(b[1..])
  {
    if a != [] && b != [] && Descending(a) && Descending(b) && RowSet(a) == RowSet(b) {
      assert a[0] in RowSet(a) && b[0] in RowSet(b);
      if a[0] != b[0] {
        var i :| 0 <= i < |b| && b[i] == a[0];
        var j :| 0 <= j < |a| && a[j] == b[0];
        LessIsTotal(KeyOf(a[0]), KeyOf(b[0]));
      }
      WithoutHead(a);
      WithoutHead(b);
    }
  }

  lemma WithoutHead(a: seq<Row>)
    ensures a != [] && Descending(a) ==> RowSet(a[1..]) == RowSet(a) - {a[0]}
  {
    if a != [] && Descending(a) {
      LessIsTotal(KeyOf(a[0]), KeyOf(a[0]));
      assert forall k :: 0 < k < |a| ==> a[k] != a[0];
      assert forall x :: x in a <==> x == a[0] || x in a[1..];
    }
  }

  // ----- a scan: one request per snapshot, following the cursor -----

  /** Every row the client is shown, page after page, when the `i`-th request finds
      `tables[i]`. */
  function Shown(tables: seq<Table>, f: Filter, cursor: Option<Key>, limit: int): seq<Row> {
    if tables == [] then []
    else
      var page := Activations(tables[0], f, cursor, limit);
      page.items + (if page.next.None? then [] else Shown(tables[1..], f, page.next, limit))
  }

  /** The scan reaches a page with no next cursor. */
  predicate Finishes(tables: seq<Table>, f: Filter, cursor: Option<Key>, limit: int) {
    tables != [] &&
    var page := Activations(tables[0], f, cursor, limit);
    page.next.None? || Finishes(tables[1..], f, page.next, limit)
  }

  ghost predicate AllKeyed(tables: seq<Table>) {
    forall i :: 0 <= i < |tables| ==> PrimaryKey(tables[i])
  }

  /** One page: the first `limit` rows of the list below the cursor; the next cursor
      is the last key shown, and is absent exactly when nothing is left. */
  lemma PageIsAPrefix(table: Table, f: Filter, cursor: Option<Key>, limit: int)
    requires PrimaryKey(table)
    ensures var page := Activations(table, f, cursor, limit);
            var list := Ordered(Scanned(table, f, cursor));
            var n := Clamp(limit);
            && Descending(list)
            && page.items == (if |list| <= n then list else list[..n])
            && (page.next.None? <==> |list| <= n)
            && (page.next.Some? ==> page.next.value == KeyOf(list[n - 1]))
  {
    ListDescends(table, f, cursor);
  }

  /** The rows below a page's cursor are the rows after the page. */
  lemma BelowIff(table: Table, f: Filter, cursor: Option<Key>, n: nat, x: Row)
    requires PrimaryKey(table)
    requires 0 < n <= |Ordered(Scanned(table, f, cursor))|
    ensures var list := Ordered(Scanned(table, f, cursor));
            x in Ordered(Scanned(table, f, Some(KeyOf(list[n - 1])))) <==> x in list[n..]
  {
    hide Matches, StringLess;
    var list := Ordered(Scanned(table, f, cursor));
    var edge := KeyOf(list[n - 1]);
    ListDescends(table, f, cursor);
    assert list[n - 1] in list;
    assert x in list <==> x in table && Matches(f, x) && After(x, cursor);
    assert x in Ordered(Scanned(table, f, Some(edge))) <==> x in table && Matches(f, x) && After(x, Some(edge));
    hide Ordered, Scanned, PrimaryKey;
    if x in table && Matches(f, x) && After(x, Some(edge)) {
      if cursor.Some? {
        LessIsTransitive(KeyOf(x), edge, cursor.value);
      }
      AtOrAfter(list, n, x);
    }
    if x in list[n..] {
      var i :| n <= i < |list| && list[i] == x;
    }
  }

  lemma AtOrAfter(list: seq<Row>, n: nat, x: Row)
    requires Descending(list) && 0 < n <= |list| && x in list && Less(KeyOf(x), KeyOf(list[n - 1]))
    ensures x in list[n..]
  {
    var i :| 0 <= i < |list| && list[i] == x;
    LessIsTotal(KeyOf(x), KeyOf(list[n - 1]));
    if i >= n {
      assert list[n..][i - n] == x;
    }
  }

  /** What follows a page is the list below its cursor. */
  lemma NextListIsTheSuffix(table: Table, f: Filter, cursor: Option<Key>, n: nat)
    requires PrimaryKey(table)
    requires 0 < n <= |Ordered(Scanned(table, f, cursor))|
    ensures var list := Ordered(Scanned(table, f, cursor));
            Ordered(Scanned(table, f, Some(KeyOf(list[n - 1])))) == list[n..]
  {
    hide Ordered, Scanned, PrimaryKey, Less;
    var list := Ordered(Scanned(table, f, cursor));
    var below := Ordered(Scanned(table, f, Some(KeyOf(list[n - 1]))));
    ListDescends(table, f, cursor);
    ListDescends(table, f, Some(KeyOf(list[n - 1])));
    forall x ensures x in below <==> x in list[n..] {
      BelowIff(table, f, cursor, n, x);
    }
    assert RowSet(below) == RowSet(list[n..]);
    DescendingIsUnique(below, list[n..]);
  }

  ghost predicate AllAfter(rows: seq<Row>, cursor: Option<Key>) {
    forall i :: 0 <= i < |rows| ==> After(rows[i], cursor)
  }

  lemma ShownSplits(tables: seq<Table>, f: Filter, cursor: Option<Key>, limit: int)
    requires tables != []
    ensures var page := Activations(tables[0], f, cursor, limit);
            && Shown(tables, f, cursor, limit)
               == page.items + (if page.next.None? then [] else Shown(tables[1..], f, page.next, limit))
            && (Finishes(tables, f, cursor, limit)
                <==> page.next.None? || Finishes(tables[1..], f, page.next, limit))
  {
  }

  lemma PageIsAfter(table: Table, f: Filter, cursor: Option<Key>, limit: int)
    requires PrimaryKey(table)
    ensures AllAfter(Activations(table, f, cursor, limit).items, cursor)
  {
    hide Matches, Less;
    var items := Activations(table, f, cursor, limit).items;
    PageIsAPrefix(table, f, cursor, limit);
    forall i | 0 <= i < |items| ensures After(items[i], cursor) {
      assert items[i] in Ordered(Scanned(table, f, cursor));
    }
  }

  lemma PageIsClosed(table: Table, f: Filter, cursor: Option<Key>, limit: int)
    requires PrimaryKey(table)
    ensures var page := Activations(table, f, cursor, limit);
            && Descending(page.items)
            && (page.next.Some? ==> page.items != [] && page.next.value == KeyOf(page.items[|page.items| - 1]))
  {
    hide Matches, Less, Scanned, Ordered, Activations;
    PageIsAPrefix(table, f, cursor, limit);
  }

  lemma ShownStep(table: Table, rest: seq<Table>, f: Filter, cursor: Option<Key>, limit: int)
    ensures var page := Activations(table, f, cursor, limit);
            && Shown([table] + rest, f, cursor, limit)
               == page.items + (if page.next.None? then [] else Shown(rest, f, page.next, limit))
            && (Finishes([table] + rest, f, cursor, limit)
                <==> page.next.None? || Finishes(rest, f, page.next, limit))
  {
    hide Activations, Shown, Finishes;
    ShownSplits([table] + rest, f, cursor, limit);
    assert ([table] + rest)[1..] == rest;
  }

  /** Whatever is inserted, changed or removed between requests, the rows shown are
      strictly descending: no row repeats. */
  lemma {:induction false} ScanDescends(tables: seq<Table>, f: Filter, cursor: Option<Key>, limit: int)
    requires AllKeyed(tables)
    ensures Descending(Shown(tables, f, cursor, limit))
    ensures AllAfter(Shown(tables, f, cursor, limit), cursor)
    decreases |tables|
  {
    if tables != [] {
      hide Activations, Shown, Finishes, Descending, AllAfter, PrimaryKey;
      var page := Activations(tables[0], f, cursor, limit);
      ShownSplits(tables, f, cursor, limit);
      PageIsAfter(tables[0], f, cursor, limit);
      PageIsClosed(tables[0], f, cursor, limit);
      if page.next.Some? {
        var rest := Shown(tables[1..], f, page.next, limit);
        ScanDescends(tables[1..], f, page.next, limit);
        JoinDescending(page.items, rest, cursor);
      } else {
        assert page.items + [] == page.items;
      }
    }
  }

  lemma JoinDescending(page: seq<Row>, rest: seq<Row>, cursor: Option<Key>)
    requires page != [] && Descending(page) && AllAfter(page, cursor)
    requires Descending(rest) && AllAfter(rest, Some(KeyOf(page[|page| - 1])))
    ensures Descending(page + rest) && AllAfter(page + rest, cursor)
  {
    var edge := KeyOf(page[|page| - 1]);
    forall i, j | 0 <= i < |page| && 0 <= j < |rest| ensures Less(KeyOf(rest[j]), KeyOf(page[i])) {
      assert After(rest[j], Some(edge));
      if i < |page| - 1 {
        LessIsTransitive(KeyOf(rest[j]), edge, KeyOf(page[i]));
      }
    }
    forall j | 0 <= j < |rest| ensures After(rest[j], cursor) {
      if cursor.Some? {
        LessIsTransitive(KeyOf(rest[j]), edge, cursor.value);
      }
    }
  }

  /** A row that is present when a page is read is on the page, or below its cursor. */
  lemma OnPageOrBelow(table: Table, f: Filter, cursor: Option<Key>, limit: int, row: Row)
    requires PrimaryKey(table) && row in table && Matches(f, row) && After(row, cursor)
    ensures var page := Activations(table, f, cursor, limit);
            row in page.items || (page.next.Some? && After(row, page.next))
  {
    hide Matches;
    var list, n := Ordered(Scanned(table, f, cursor)), Clamp(limit);
    assert row in list;
    hide Scanned, Ordered, Activations, Less, PrimaryKey;
    PageIsAPrefix(table, f, cursor, limit);
    if |list| > n {
      var k :| 0 <= k < |list| && list[k] == row;
      if k < n {
        assert list[..n][k] == row;
      } else {
        assert Less(KeyOf(list[k]), KeyOf(list[n - 1]));
      }
    }
  }

  ghost predicate HoldsKey(table: Table, f: Filter, key: Key) {
    exists r :: r in table && Matches(f, r) && KeyOf(r) == key
  }

  /** Every snapshot holds a row with this key that passes the filter; its other columns
      may differ from one to the next. */
  ghost predicate KeyStays(tables: seq<Table>, f: Filter, key: Key) {
    forall i :: 0 <= i < |tables| ==> HoldsKey(tables[i], f, key)
  }

  ghost predicate ShowsKey(rows: seq<Row>, key: Key) {
    exists i :: 0 <= i < |rows| && KeyOf(rows[i]) == key
  }

  ghost predicate ShowsKeyOnce(rows: seq<Row>, key: Key) {
    exists i: nat :: OnlyAt(rows, i, key)
  }

  ghost predicate OnlyAt(rows: seq<Row>, i: nat, key: Key) {
    i < |rows| && forall j :: 0 <= j < |rows| ==> (KeyOf(rows[j]) == key <==> j == i)
  }

  lemma ShowsKeyInside(page: seq<Row>, rest: seq<Row>, key: Key)
    requires ShowsKey(page, key) || ShowsKey(rest, key)
    ensures ShowsKey(page + rest, key)
  {
    if ShowsKey(page, key) {
      var i :| 0 <= i < |page| && KeyOf(page[i]) == key;
      assert (page + rest)[i] == page[i];
    } else {
      var i :| 0 <= i < |rest| && KeyOf(rest[i]) == key;
      assert (page + rest)[|page| + i] == rest[i];
    }
  }

  lemma KeyOnPageOrBelow(table: Table, f: Filter, cursor: Option<Key>, limit: int, key: Key)
    requires PrimaryKey(table) && HoldsKey(table, f, key) && (cursor.None? || Less(key, cursor.value))
    ensures var page := Activations(table, f, cursor, limit);
            ShowsKey(page.items, key) || (page.next.Some? && Less(key, page.next.value))
  {
    hide Matches, Activations, PrimaryKey, Less;
    var r :| r in table && Matches(f, r) && KeyOf(r) == key;
    OnPageOrBelow(table, f, cursor, limit, r);
  }

  /** A key that every snapshot holds is shown by a finished scan. */
  lemma {:induction false} ScanIsComplete(tables: seq<Table>, f: Filter, cursor: Option<Key>, limit: int, key: Key)
    requires AllKeyed(tables) && Finishes(tables, f, cursor, limit)
    requires cursor.None? || Less(key, cursor.value)
    requires KeyStays(tables, f, key)
    ensures ShowsKey(Shown(tables, f, cursor, limit), key)
    decreases |tables|
  {
    assert tables != [];
    hide Matches, Activations, Shown, Finishes, PrimaryKey, ShowsKey, Less, HoldsKey;
    var page := Activations(tables[0], f, cursor, limit);
    ShownSplits(tables, f, cursor, limit);
    KeyOnPageOrBelow(tables[0], f, cursor, limit, key);
    var rest := if page.next.None? then [] else Shown(tables[1..], f, page.next, limit);
    if !ShowsKey(page.items, key) {
      ScanIsComplete(tables[1..], f, page.next, limit, key);
    }
    ShowsKeyInside(page.items, rest, key);
  }

  /** Everything shown was in some snapshot and passes the filter. */
  lemma {:induction false} ScanIsSound(tables: seq<Table>, f: Filter, cursor: Option<Key>, limit: int, row: Row)
    requires AllKeyed(tables) && row in Shown(tables, f, cursor, limit)
    ensures Matches(f, row) && exists i :: 0 <= i < |tables| && row in tables[i]
    decreases |tables|
  {
    hide Matches;
    var page := Activations(tables[0], f, cursor, limit);
    PageIsAPrefix(tables[0], f, cursor, limit);
    if row in page.items {
      assert row in Ordered(Scanned(tables[0], f, cursor));
      assert row in tables[0];
    } else {
      ScanIsSound(tables[1..], f, page.next, limit, row);
      var i :| 0 <= i < |tables[1..]| && row in tables[1..][i];
      assert row in tables[i + 1];
    }
  }

  /** It is shown exactly once. */
  lemma ScanShowsOnce(tables: seq<Table>, f: Filter, limit: int, key: Key)
    requires AllKeyed(tables) && Finishes(tables, f, None, limit) && KeyStays(tables, f, key)
    ensures ShowsKeyOnce(Shown(tables, f, None, limit), key)
  {
    hide Shown, Finishes, AllKeyed, KeyStays, AllAfter;
    ScanIsComplete(tables, f, None, limit, key);
    ScanDescends(tables, f, None, limit);
    DescendingShowsOnce(Shown(tables, f, None, limit), key);
  }

  lemma DescendingShowsOnce(rows: seq<Row>, key: Key)
    requires Descending(rows) && ShowsKey(rows, key)
    ensures ShowsKeyOnce(rows, key)
  {
    var i :| 0 <= i < |rows| && KeyOf(rows[i]) == key;
    LessIsTotal(key, key);
    hide Less;
    assert OnlyAt(rows, i, key);
  }

  lemma RowStays(tables: seq<Table>, f: Filter, row: Row)
    requires Matches(f, row) && forall i :: 0 <= i < |tables| ==> row in tables[i]
    ensures KeyStays(tables, f, KeyOf(row))
  {
    hide Matches;
  }

  /** A row that no snapshot changes is shown as it is. */
  lemma UnchangedIsShown(tables: seq<Table>, f: Filter, limit: int, row: Row)
    requires AllKeyed(tables) && Finishes(tables, f, None, limit) && Matches(f, row)
    requires forall i :: 0 <= i < |tables| ==> row in tables[i]
    ensures row in Shown(tables, f, None, limit) && ShowsKeyOnce(Shown(tables, f, None, limit), KeyOf(row))
  {
    hide Shown, Finishes, Matches;
    var shown := Shown(tables, f, None, limit);
    RowStays(tables, f, row);
    ScanShowsOnce(tables, f, limit, KeyOf(row));
    var i: nat :| OnlyAt(shown, i, KeyOf(row));
    ScanIsSound(tables, f, None, limit, shown[i]);
    var k :| 0 <= k < |tables| && shown[i] in tables[k];
    assert PrimaryKey(tables[k]);
  }

  // ----- a store nobody writes -----

  function PagesFor(rows: nat, n: nat): (pages: nat)
    requires n >= 1
    ensures pages >= 1
  {
    if rows <= n then 1 else 1 + PagesFor(rows - n, n)
  }

  function Copies(table: Table, k: nat): seq<Table> {
    seq(k, _ => table)
  }

  /** On a fixed store the pages concatenate to the whole sorted, filtered list, and
      the null cursor arrives with page max(1, ceil(rows / limit)), not earlier. */
  lemma {:induction false} FixedStoreScan(table: Table, f: Filter, cursor: Option<Key>, limit: int, k: nat)
    requires PrimaryKey(table)
    ensures var list := Ordered(Scanned(table, f, cursor));
            var tables := Copies(table, k);
            && (Finishes(tables, f, cursor, limit) <==> k >= PagesFor(|list|, Clamp(limit)))
            && (k >= PagesFor(|list|, Clamp(limit)) ==> Shown(tables, f, cursor, limit) == list)
    decreases k
  {
    hide Ordered, Scanned, Activations, PrimaryKey, Shown, Finishes, Copies;
    var list, n := Ordered(Scanned(table, f, cursor)), Clamp(limit);
    if k == 0 {
      NoRequests(table, f, cursor, limit);
    } else {
      CopiesStep(table, f, cursor, limit, k);
      PageIsAPrefix(table, f, cursor, limit);
      if |list| > n {
        NextListIsTheSuffix(table, f, cursor, n);
        FixedStoreScan(table, f, Some(KeyOf(list[n - 1])), limit, k - 1);
        assert list == list[..n] + list[n..];
      } else {
        assert list + [] == list;
      }
    }
  }

  lemma NoRequests(table: Table, f: Filter, cursor: Option<Key>, limit: int)
    ensures !Finishes(Copies(table, 0), f, cursor, limit)
  {
  }

  lemma CopiesStep(table: Table, f: Filter, cursor: Option<Key>, limit: int, k: nat)
    requires k > 0
    ensures var page := Activations(table, f, cursor, limit);
            && Shown(Copies(table, k), f, cursor, limit)
               == page.items + (if page.next.None? then [] else Shown(Copies(table, k - 1), f, page.next, limit))
            && (Finishes(Copies(table, k), f, cursor, limit)
                <==> page.next.None? || Finishes(Copies(table, k - 1), f, page.next, limit))
  {
    assert Copies(table, k) == [table] + Copies(table, k - 1);
    hide Activations, Shown, Finishes, Copies;
    ShownStep(table, Copies(table, k - 1), f, cursor, limit);
  }

  lemma {:induction false} PageCountBounds(rows: nat, n: nat)
    requires n >= 1 && rows > 0
    ensures (PagesFor(rows, n) - 1) * n < rows <= PagesFor(rows, n) * n
    decreases rows
  {
    if rows > n {
      PageCountBounds(rows - n, n);
      var p: int := PagesFor(rows - n, n);
      assert PagesFor(rows, n) == p + 1;
      assert p * n == (p - 1) * n + n && (p + 1) * n == p * n + n;
    }
  }

  lemma PageCountIsCeiling(rows: nat, n: nat)
    requires n >= 1
    ensures PagesFor(rows, n) == if rows == 0 then 1 else (rows + n - 1) / n
  {
    var p := PagesFor(rows, n);
    if rows > 0 {
      PageCountBounds(rows, n);
      DivIs(rows + n - 1, n, p, rows + n - 1 - p * n);
    } else {
      assert PagesFor(0, n) == 1;
    }
  }
}
