/** Can an activation be listed twice? No cursor key repeats, but an activation's key
    holds its start, and an event that arrives late moves the start back.
 */
module Repeats {
  import opened Order
  import opened Pagination
  import opened Wrappers

  /** Two versions of one activation, by primary key. */
  predicate Same(r: Row, s: Row) {
    r.entityKey == s.entityKey && r.seqNo == s.seqNo
  }

  /** No activation is listed twice. */
  ghost predicate NoRepeat(rows: seq<Row>) {
    forall i, j :: 0 <= i < j < |rows| ==> !Same(rows[i], rows[j])
  }

  // ----- requests against a history of the store -----

  /** Request `i` finds state `at[i]` of the history; time does not go back. */
  ghost predicate Schedule(history: seq<Table>, at: seq<nat>) {
    && (forall i :: 0 <= i < |at| ==> at[i] < |history|)
    && (forall i, j :: 0 <= i <= j < |at| ==> at[i] <= at[j])
  }

  function States(history: seq<Table>, at: seq<nat>): seq<Table>
    requires Schedule(history, at)
  {
    seq(|at|, i requires 0 <= i < |at| => history[at[i]])
  }

  /** `r` moves back: a later state holds it with an earlier start. */
  predicate MovesBack(f: Filter, before: Table, after: Table, r: Row, s: Row) {
    r in before && s in after && Matches(f, r) && Matches(f, s) && Same(r, s) && s.startedMs < r.startedMs
  }

  /** `x` is listed below `r`, so that a page can end between them. */
  predicate Below(f: Filter, table: Table, r: Row, x: Row) {
    x in table && Matches(f, x) && Less(KeyOf(x), KeyOf(r))
  }

  /** Some activation with a row below it moves back. */
  ghost predicate SomethingMoves(history: seq<Table>, f: Filter) {
    exists a, b, r, s, x :: 0 <= a < b < |history| && MovesBack(f, history[a], history[b], r, s)
                            && Below(f, history[a], r, x)
  }

  // ----- where two shown rows come from -----

  ghost predicate From(tables: seq<Table>, f: Filter, a: nat, r: Row) {
    a < |tables| && r in tables[a] && Matches(f, r)
  }

  ghost predicate Followed(tables: seq<Table>, f: Filter, a: nat, r: Row)
    requires a < |tables|
  {
    exists x :: Below(f, tables[a], r, x)
  }

  lemma PageRowsAreFrom(table: Table, f: Filter, cursor: Option<Key>, limit: int, i: nat)
    requires PrimaryKey(table)
    requires i < |Activations(table, f, cursor, limit).items|
    ensures var page := Activations(table, f, cursor, limit);
            && page.items[i] in table && Matches(f, page.items[i])
            && (page.next.Some? ==> exists x :: Below(f, table, page.items[i], x))
  {
    hide Matches, Less;
    var page, list, n := Activations(table, f, cursor, limit), Ordered(Scanned(table, f, cursor)), Clamp(limit);
    PageIsAPrefix(table, f, cursor, limit);
    assert page.items[i] == list[i] && list[i] in list;
    if page.next.Some? {
      assert list[n] in list && Less(KeyOf(list[n]), KeyOf(list[i]));
      assert Below(f, table, page.items[i], list[n]);
    }
  }

  /** Any row shown was found by some request. */
  lemma {:induction false} ShownFrom(
    tables: seq<Table>, f: Filter, cursor: Option<Key>, limit: int, i: nat) returns (a: nat)
    requires AllKeyed(tables) && i < |Shown(tables, f, cursor, limit)|
    ensures From(tables, f, a, Shown(tables, f, cursor, limit)[i])
    decreases |tables|
  {
    hide Activations, Shown, PrimaryKey, Matches;
    assert tables != [] by {
      ShownNothing(f, cursor, limit);
    }
    ShownSplits(tables, f, cursor, limit);
    var page := Activations(tables[0], f, cursor, limit);
    if i < |page.items| {
      a := 0;
      PageRowsAreFrom(tables[0], f, cursor, limit, i);
    } else {
      var b := ShownFrom(tables[1..], f, page.next, limit, i - |page.items|);
      a := b + 1;
      assert tables[1..][b] == tables[a];
    }
  }

  lemma ShownNothing(f: Filter, cursor: Option<Key>, limit: int)
    ensures Shown([], f, cursor, limit) == []
  {
  }

  /** Of two rows shown, the earlier was found no later; if by an earlier request, it had
      a row below it. */
  lemma {:induction false} PairFrom(
    tables: seq<Table>, f: Filter, cursor: Option<Key>, limit: int, i: nat, j: nat) returns (a: nat, b: nat)
    requires AllKeyed(tables) && i < j < |Shown(tables, f, cursor, limit)|
    ensures var shown := Shown(tables, f, cursor, limit);
            && a <= b && From(tables, f, a, shown[i]) && From(tables, f, b, shown[j])
            && (a < b ==> Followed(tables, f, a, shown[i]))
    decreases |tables|
  {
    hide Activations, Shown, PrimaryKey, Matches, Below;
    assert tables != [] by {
      ShownNothing(f, cursor, limit);
    }
    ShownSplits(tables, f, cursor, limit);
    var page := Activations(tables[0], f, cursor, limit);
    var n, rest := |page.items|, tables[1..];
    if i < n {
      a := 0;
      PageRowsAreFrom(tables[0], f, cursor, limit, i);
      if j < n {
        b := 0;
        PageRowsAreFrom(tables[0], f, cursor, limit, j);
      } else {
        var c := ShownFrom(rest, f, page.next, limit, j - n);
        b := c + 1;
        assert rest[c] == tables[b];
      }
    } else {
      var c, d := PairFrom(rest, f, page.next, limit, i - n, j - n);
      a, b := c + 1, d + 1;
      assert rest[c] == tables[a] && rest[d] == tables[b];
    }
  }

  // ----- nothing moves back, so nothing repeats -----

  lemma SameRow(table: Table, r: Row, s: Row)
    requires PrimaryKey(table) && r in table && s in table && Same(r, s)
    ensures r == s
  {
  }

  lemma RepeatMoves(history: seq<Table>, f: Filter, at: seq<nat>, limit: int, i: nat, j: nat)
    requires AllKeyed(history) && Schedule(history, at)
    requires i < j < |Shown(States(history, at), f, None, limit)|
    requires var shown := Shown(States(history, at), f, None, limit);
             Same(shown[i], shown[j])
    ensures SomethingMoves(history, f)
  {
    hide Shown, Matches, StringLess, PrimaryKey;
    var tables := States(history, at);
    var shown := Shown(tables, f, None, limit);
    var r, s := shown[i], shown[j];
    ScanDescends(tables, f, None, limit);
    LessIsTotal(KeyOf(r), KeyOf(r));
    assert Less(KeyOf(s), KeyOf(r));
    var a, b := PairFrom(tables, f, None, limit, i, j);
    if at[a] == at[b] {
      SameRow(history[at[a]], r, s);
      assert false;
    }
    assert at[a] < at[b] && s.startedMs < r.startedMs by {
      StringOrder(r.entityKey, r.entityKey);
    }
    var x :| Below(f, tables[a], r, x);
    assert MovesBack(f, history[at[a]], history[at[b]], r, s) && Below(f, history[at[a]], r, x);
  }

  // ----- something moves back, so something repeats -----

  /** A page can be cut off after any row that has one below it. */
  lemma PageCanEnd(table: Table, f: Filter, r: Row, x: Row) returns (limit: nat)
    requires PrimaryKey(table) && r in table && Matches(f, r) && Below(f, table, r, x)
    ensures var page := Activations(table, f, None, limit);
            r in page.items && page.next == Some(KeyOf(r))
  {
    hide Less, PrimaryKey, Ordered, Activations, Matches;
    var list := Ordered(Scanned(table, f, None));
    BothListed(table, f, r, x);
    hide Scanned, Below, Descending;
    var p :| 0 <= p < |list| && list[p] == r;
    limit := p + 1;
    PageIsAPrefix(table, f, None, limit);
    Higher(list, p, x);
    assert list[..limit][p] == r;
  }

  lemma BothListed(table: Table, f: Filter, r: Row, x: Row)
    requires r in table && Matches(f, r) && Below(f, table, r, x)
    ensures var list := Ordered(Scanned(table, f, None));
            r in list && x in list && Less(KeyOf(x), KeyOf(r))
  {
    hide Matches, Less;
  }

  lemma Higher(list: seq<Row>, p: nat, x: Row)
    requires Descending(list) && p < |list| && x in list && Less(KeyOf(x), KeyOf(list[p]))
    ensures p + 1 < |list|
  {
    hide Less;
    var q :| 0 <= q < |list| && list[q] == x;
    LessIsTotal(KeyOf(x), KeyOf(list[p]));
  }

  /** From there a client that finds the later state is shown all that is below `r` in it. */
  lemma RestIsShown(table: Table, f: Filter, r: Row, s: Row, limit: nat) returns (k: nat)
    requires PrimaryKey(table) && s in table && Matches(f, s) && Less(KeyOf(s), KeyOf(r))
    ensures s in Shown(Copies(table, k), f, Some(KeyOf(r)), limit)
  {
    hide Matches, Less;
    var rest := Ordered(Scanned(table, f, Some(KeyOf(r))));
    assert s in rest;
    k := PagesFor(|rest|, Clamp(limit));
    hide Ordered, Scanned, Shown, Finishes, Copies;
    FixedStoreScan(table, f, Some(KeyOf(r)), limit, k);
  }

  lemma MovedIsShownTwice(before: Table, after: Table, f: Filter, r: Row, s: Row, x: Row) returns (limit: nat, k: nat)
    requires PrimaryKey(before) && PrimaryKey(after)
    requires MovesBack(f, before, after, r, s) && Below(f, before, r, x)
    ensures !NoRepeat(Shown([before] + Copies(after, k), f, None, limit))
  {
    assert Less(KeyOf(s), KeyOf(r));
    hide Matches, PrimaryKey, Less, Below, Activations, Shown, Finishes, Copies;
    limit := PageCanEnd(before, f, r, x);
    k := RestIsShown(after, f, r, s, limit);
    ShownStep(before, Copies(after, k), f, None, limit);
    var items, rest := Activations(before, f, None, limit).items, Shown(Copies(after, k), f, Some(KeyOf(r)), limit);
    var p :| 0 <= p < |items| && items[p] == r;
    var q :| 0 <= q < |rest| && rest[q] == s;
    assert (items + rest)[p] == r && (items + rest)[|items| + q] == s;
  }

  function Twice(a: nat, b: nat, k: nat): seq<nat> {
    [a] + seq(k, _ => b)
  }

  lemma TwiceIsASchedule(history: seq<Table>, a: nat, b: nat, k: nat)
    requires a < b < |history|
    ensures Schedule(history, Twice(a, b, k))
    ensures States(history, Twice(a, b, k)) == [history[a]] + Copies(history[b], k)
  {
  }

  /** Over a history of the store, no client at any page size and on any schedule is
      shown an activation twice, exactly when no activation with a row below it in the
      list moves back.
   */
  lemma NeverRepeatsIff(history: seq<Table>, f: Filter)
    requires AllKeyed(history)
    ensures (forall at, limit :: Schedule(history, at) ==> NoRepeat(Shown(States(history, at), f, None, limit)))
            <==> !SomethingMoves(history, f)
  {
    hide Shown, Matches, PrimaryKey, MovesBack, Below, Same, Schedule, States;
    if SomethingMoves(history, f) {
      var a, b, r, s, x :| 0 <= a < b < |history| && MovesBack(f, history[a], history[b], r, s)
                           && Below(f, history[a], r, x);
      var limit, k := MovedIsShownTwice(history[a], history[b], f, r, s, x);
      TwiceIsASchedule(history, a, b, k);
      assert !NoRepeat(Shown(States(history, Twice(a, b, k)), f, None, limit));
    } else {
      forall at, limit | Schedule(history, at) ensures NoRepeat(Shown(States(history, at), f, None, limit)) {
        var shown := Shown(States(history, at), f, None, limit);
        forall i, j | 0 <= i < j < |shown| ensures !Same(shown[i], shown[j]) {
          if Same(shown[i], shown[j]) {
            RepeatMoves(history, f, at, limit, i, j);
          }
        }
      }
    }
  }

  // ----- a store in which it happens -----

  const NO_FILTER: Filter := Filter(None, None, None, None, None, None, None, None, None)

  function Started(entityKey: string, ms: int): Row {
    Row(entityKey, 0, ms, "", "completed", "start", None, [], [])
  }

  /** The condition matters: an activation whose start moves back while a client
      pages is shown twice. */
  lemma MovedActivationRepeats(first: int, second: int, moved: int)
    requires moved < second < first
    ensures var before, after := [Started("a", first), Started("b", second)], [Started("a", moved), Started("b", second)];
            && AllKeyed([before, after, after])
            && Shown([before, after, after], NO_FILTER, None, 1)
               == [Started("a", first), Started("b", second), Started("a", moved)]
  {
    hide Activations, Shown, PrimaryKey, StringLess;
    var a, b, a' := Started("a", first), Started("b", second), Started("a", moved);
    var before, after := [a, b], [a', b];
    PageOfTwo(before, a, b, None);
    PageOfTwo(after, b, a', Some(KeyOf(a)));
    PageOfTwo(after, b, a', Some(KeyOf(b)));
    LessIsTotal(KeyOf(b), KeyOf(b));
    ShownSplits([after], NO_FILTER, Some(KeyOf(b)), 1);
    ShownSplits([after, after], NO_FILTER, Some(KeyOf(a)), 1);
    ShownSplits([before, after, after], NO_FILTER, None, 1);
    assert [before, after, after][1..] == [after, after] && [after, after][1..] == [after];
  }

  /** A page of one row over a table of two, `a` the newer. */
  lemma PageOfTwo(table: Table, a: Row, b: Row, cursor: Option<Key>)
    requires table == [a, b] || table == [b, a]
    requires Less(KeyOf(b), KeyOf(a)) && After(b, cursor)
    ensures PrimaryKey(table) <==> a.entityKey != b.entityKey || a.seqNo != b.seqNo
    ensures var page := Activations(table, NO_FILTER, cursor, 1);
            if After(a, cursor) then page.items == [a] && page.next == Some(KeyOf(a))
            else page.items == [b] && page.next == None
  {
    hide After, Scanned, Ordered;
    assert PrimaryKey(table) ==> table[0].entityKey != table[1].entityKey || table[0].seqNo != table[1].seqNo;
    ListOfTwo(table, a, b, cursor);
  }

  lemma ListOfTwo(table: Table, a: Row, b: Row, cursor: Option<Key>)
    requires table == [a, b] || table == [b, a]
    requires Less(KeyOf(b), KeyOf(a)) && After(b, cursor)
    ensures Ordered(Scanned(table, NO_FILTER, cursor)) == if After(a, cursor) then [a, b] else [b]
  {
    LessIsTotal(KeyOf(a), KeyOf(b));
    hide Less, Ordered, Scanned, After;
    OrderTwo(a, b);
    OrderTwo(b, b);
    ScanTwo(table[0], table[1], cursor);
    var first := if After(table[0], cursor) then [table[0]] else [];
    var second := if After(table[1], cursor) then [table[1]] else [];
    assert table == [table[0], table[1]];
    if After(a, cursor) {
      assert first + second == table;
    } else {
      assert first + second == [b];
    }
  }

  lemma OrderTwo(a: Row, b: Row)
    ensures Less(KeyOf(b), KeyOf(a)) && !Less(KeyOf(a), KeyOf(b)) ==>
              Ordered([a, b]) == [a, b] && Ordered([b, a]) == [a, b]
    ensures Ordered([a]) == [a]
  {
    assert [a, b][1..] == [b] && [b, a][1..] == [a];
    assert Ordered([a][1..]) == [] && Ordered([b][1..]) == [];
  }

  lemma ScanTwo(x: Row, y: Row, cursor: Option<Key>)
    ensures Scanned([x, y], NO_FILTER, cursor) ==
              (if After(x, cursor) then [x] else []) + (if After(y, cursor) then [y] else [])
  {
    assert [x, y][1..] == [y] && Scanned([y][1..], NO_FILTER, cursor) == [];
  }
}
