/** Can a client miss an activation that is in the store all along? A row that stays under
    its key is never missed, but an activation's key holds its start, and pruning its
    oldest events moves the start forward.
 */
module Misses {
  import opened Order
  import opened Pagination
  import opened Repeats
  import opened Wrappers

  /** The state holds a version of the activation `e` that passes the filter. */
  ghost predicate Present(table: Table, f: Filter, e: Row) {
    exists r :: VersionIn(table, f, e, r)
  }

  predicate VersionIn(table: Table, f: Filter, e: Row, r: Row) {
    r in table && Matches(f, r) && Same(r, e)
  }

  ghost predicate Listed(rows: seq<Row>, e: Row) {
    exists i :: 0 <= i < |rows| && Same(rows[i], e)
  }

  /** `e` is listed below `x` in one state, and not below where `x` was in another. */
  predicate Passes(f: Filter, before: Table, after: Table, e: Row, r: Row, s: Row, x: Row) {
    && VersionIn(before, f, e, r) && VersionIn(after, f, e, s)
    && x in before && Matches(f, x) && Less(KeyOf(r), KeyOf(x)) && !Less(KeyOf(s), KeyOf(x))
  }

  ghost predicate MovesAhead(history: seq<Table>, f: Filter, e: Row) {
    exists a, b, r, s, x :: 0 <= a < b < |history| && Passes(f, history[a], history[b], e, r, s, x)
  }

  ghost predicate AlwaysPresent(tables: seq<Table>, f: Filter, e: Row) {
    forall i :: 0 <= i < |tables| ==> Present(tables[i], f, e)
  }

  // ----- whatever is missed moved ahead -----

  lemma OnPageOrBelowLast(table: Table, f: Filter, cursor: Option<Key>, limit: int, e: Row, r: Row) returns (x: Row)
    requires PrimaryKey(table) && VersionIn(table, f, e, r) && After(r, cursor)
    requires !Listed(Activations(table, f, cursor, limit).items, e)
    ensures var page := Activations(table, f, cursor, limit);
            page.next == Some(KeyOf(x)) && x in table && Matches(f, x) && Less(KeyOf(r), KeyOf(x))
  {
    hide Matches, Less, Activations, PrimaryKey, Scanned;
    OnPageOrBelow(table, f, cursor, limit, r);
    PageIsAPrefix(table, f, cursor, limit);
    var page, list := Activations(table, f, cursor, limit), Ordered(Scanned(table, f, cursor));
    x := list[Clamp(limit) - 1];
    assert x in list && x in Scanned(table, f, cursor);
  }

  lemma ListedInside(page: seq<Row>, rest: seq<Row>, e: Row)
    ensures Listed(page + rest, e) <==> Listed(page, e) || Listed(rest, e)
  {
    if Listed(page, e) {
      var i :| 0 <= i < |page| && Same(page[i], e);
      assert Same((page + rest)[i], e);
    }
    if Listed(rest, e) {
      var i :| 0 <= i < |rest| && Same(rest[i], e);
      assert Same((page + rest)[|page| + i], e);
    }
  }

  /** A finished scan that misses `e` found it ahead of the cursor at some request, and
      below it at the request before. */
  lemma {:induction false} MissedPasses(
    tables: seq<Table>, f: Filter, cursor: Option<Key>, limit: int, e: Row, r: Row)
    returns (a: nat, before: Row, after: Row, x: Row)
    requires AllKeyed(tables) && Finishes(tables, f, cursor, limit) && AlwaysPresent(tables, f, e)
    requires tables != [] && VersionIn(tables[0], f, e, r) && After(r, cursor)
    requires !Listed(Shown(tables, f, cursor, limit), e)
    ensures a + 1 < |tables| && Passes(f, tables[a], tables[a + 1], e, before, after, x)
    decreases |tables|
  {
    hide Matches, Less, Activations, PrimaryKey, Shown, Finishes, Listed, Same, Present;
    var page, rest := Activations(tables[0], f, cursor, limit), tables[1..];
    ShownSplits(tables, f, cursor, limit);
    ListedInside(page.items, if page.next.None? then [] else Shown(rest, f, page.next, limit), e);
    x := OnPageOrBelowLast(tables[0], f, cursor, limit, e, r);
    FinishesSomewhere(rest, f, page.next, limit);
    after := VersionOf(tables[1], f, e);
    if After(after, page.next) {
      a, before, after, x := MissedPasses(rest, f, page.next, limit, e, after);
      a := a + 1;
    } else {
      a, before := 0, r;
    }
  }

  lemma FinishesSomewhere(tables: seq<Table>, f: Filter, cursor: Option<Key>, limit: int)
    requires Finishes(tables, f, cursor, limit)
    ensures tables != []
  {
  }

  lemma VersionOf(table: Table, f: Filter, e: Row) returns (r: Row)
    requires Present(table, f, e)
    ensures VersionIn(table, f, e, r)
  {
    r :| VersionIn(table, f, e, r);
  }

  lemma MissedMovesAhead(history: seq<Table>, f: Filter, at: seq<nat>, limit: int, e: Row)
    requires AllKeyed(history) && AlwaysPresent(history, f, e) && Schedule(history, at)
    requires Finishes(States(history, at), f, None, limit) && !Listed(Shown(States(history, at), f, None, limit), e)
    ensures MovesAhead(history, f, e)
  {
    hide Shown, Finishes, Matches, Less, PrimaryKey, Present, Listed;
    var tables := States(history, at);
    FinishesSomewhere(tables, f, None, limit);
    var r := VersionOf(tables[0], f, e);
    var a, before, after, x := MissedPasses(tables, f, None, limit, e, r);
    assert at[a] <= at[a + 1];
    if at[a] == at[a + 1] {
      SameRow(history[at[a]], before, after);
      assert false;
    }
    assert Passes(f, history[at[a]], history[at[a + 1]], e, before, after, x);
  }

  // ----- whatever moves ahead can be missed -----

  /** A page that ends at `x`, then the later state to the end: `e` is on neither. */
  lemma MovedIsMissed(before: Table, after: Table, f: Filter, e: Row, r: Row, s: Row, x: Row)
    returns (limit: nat, k: nat)
    requires PrimaryKey(before) && PrimaryKey(after) && Passes(f, before, after, e, r, s, x)
    ensures var tables := [before] + Copies(after, k);
            Finishes(tables, f, None, limit) && !Listed(Shown(tables, f, None, limit), e)
  {
    hide Matches, PrimaryKey, Less, Activations, Shown, Finishes, Copies, Listed, Scanned, Ordered, Same;
    limit := PageCanEnd(before, f, x, r);
    k := PagesFor(|Ordered(Scanned(after, f, Some(KeyOf(x))))|, Clamp(limit));
    FixedStoreScan(after, f, Some(KeyOf(x)), limit, k);
    ShownStep(before, Copies(after, k), f, None, limit);
    var items := Activations(before, f, None, limit).items;
    NotOnFirstPage(before, f, limit, e, r, x);
    NotBelow(after, f, e, s, KeyOf(x));
    ListedInside(items, Ordered(Scanned(after, f, Some(KeyOf(x)))), e);
  }

  lemma NotOnFirstPage(table: Table, f: Filter, limit: nat, e: Row, r: Row, x: Row)
    requires PrimaryKey(table) && VersionIn(table, f, e, r) && Less(KeyOf(r), KeyOf(x))
    requires Activations(table, f, None, limit).next == Some(KeyOf(x))
    ensures !Listed(Activations(table, f, None, limit).items, e)
  {
    hide Matches, Less, Activations;
    var list, n := Ordered(Scanned(table, f, None)), Clamp(limit);
    PageIsAPrefix(table, f, None, limit);
    forall i | 0 <= i < n ensures !Same(list[i], e) {
      assert list[i] in list;
      assert i < n - 1 ==> Less(KeyOf(x), KeyOf(list[i]));
      if Same(list[i], e) {
        SameRow(table, list[i], r);
        LessIsTotal(KeyOf(r), KeyOf(x));
        assert false;
      }
    }
  }

  lemma NotBelow(table: Table, f: Filter, e: Row, s: Row, edge: Key)
    requires PrimaryKey(table) && VersionIn(table, f, e, s) && !Less(KeyOf(s), edge)
    ensures !Listed(Ordered(Scanned(table, f, Some(edge))), e)
  {
    hide Matches, Less;
    var list := Ordered(Scanned(table, f, Some(edge)));
    forall i | 0 <= i < |list| ensures !Same(list[i], e) {
      assert list[i] in list;
      if Same(list[i], e) {
        SameRow(table, list[i], s);
        assert false;
      }
    }
  }

  /** Over a history whose every state holds an activation, every finished scan lists it,
      at every page size and on every schedule, exactly when it never moves from below
      some row of the list to that row's place or above it.
   */
  lemma NeverMissedIff(history: seq<Table>, f: Filter, e: Row)
    requires AllKeyed(history) && AlwaysPresent(history, f, e)
    ensures (forall at, limit :: Schedule(history, at) && Finishes(States(history, at), f, None, limit) ==>
                                   Listed(Shown(States(history, at), f, None, limit), e))
            <==> !MovesAhead(history, f, e)
  {
    hide Shown, Finishes, Listed, Matches, PrimaryKey, Passes, Schedule, States, Present;
    if MovesAhead(history, f, e) {
      var a, b, r, s, x :| 0 <= a < b < |history| && Passes(f, history[a], history[b], e, r, s, x);
      var limit, k := MovedIsMissed(history[a], history[b], f, e, r, s, x);
      TwiceIsASchedule(history, a, b, k);
      assert !Listed(Shown(States(history, Twice(a, b, k)), f, None, limit), e);
    } else {
      forall at, limit | Schedule(history, at) && Finishes(States(history, at), f, None, limit)
        ensures Listed(Shown(States(history, at), f, None, limit), e)
      {
        if !Listed(Shown(States(history, at), f, None, limit), e) {
          MissedMovesAhead(history, f, at, limit, e);
        }
      }
    }
  }

  // ----- a store in which it happens -----

  /** The condition matters: an activation whose oldest events are pruned while a client
      pages moves ahead of the cursor and is never shown. */
  lemma PrunedActivationIsMissed(first: int, second: int, moved: int)
    requires first < second < moved
    ensures var before := [Started("a", first), Started("b", second)];
            var after := [Started("a", moved), Started("b", second)];
            && AllKeyed([before, after])
            && Finishes([before, after], NO_FILTER, None, 1)
            && Shown([before, after], NO_FILTER, None, 1) == [Started("b", second)]
  {
    hide Activations, Shown, Finishes, PrimaryKey, StringLess;
    var a, b, a' := Started("a", first), Started("b", second), Started("a", moved);
    var before, after := [a, b], [a', b];
    assert Less(KeyOf(a), KeyOf(b)) && Less(KeyOf(b), KeyOf(a'));
    PageOfTwo(before, b, a, None);
    PageOfTwo(after, a', b, None);
    LastPage(a', b);
    ShownSplits([after], NO_FILTER, Some(KeyOf(b)), 1);
    ShownSplits([before, after], NO_FILTER, None, 1);
    assert [before, after][1..] == [after];
  }

  lemma LastPage(a: Row, b: Row)
    requires Less(KeyOf(b), KeyOf(a))
    ensures var page := Activations([a, b], NO_FILTER, Some(KeyOf(b)), 1);
            page.items == [] && page.next == None
  {
    hide Less;
    LessIsTotal(KeyOf(a), KeyOf(b));
    LessIsTotal(KeyOf(b), KeyOf(b));
    ScanTwo(a, b, Some(KeyOf(b)));
  }
}
