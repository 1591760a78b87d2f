/** A client's scan of the activation list: it holds nothing but the opaque token of
    the last page. JSON is a parameter.
 */
module Scan {
  import opened Cursor
  import opened Pagination
  import opened Varint
  import opened Wrappers

  datatype Scalar = Number(n: int) | Text(s: string)

  type Dump = seq<Scalar> -> seq<Byte>

  type Load = seq<Byte> -> Option<Json<Scalar>>

  /** JSON text is never empty and reads back. */
  ghost predicate ReadsJson(dump: Dump, load: Load) {
    forall values :: dump(values) != [] && load(dump(values)) == Some(List(values))
  }

  function Columns(key: Key): seq<Scalar> {
    [Number(key.startedMs), Text(key.entityKey), Number(key.seqNo)]
  }

  function Token(key: Key, dump: Dump): string {
    EncodeCursor(Columns(key), dump)
  }

  function KeyIn(token: string, load: Load): Option<Key> {
    match DecodeCursor(token, 3, load)
    case None => None
    case Some(values) =>
      if values[0].Number? && values[1].Text? && values[2].Number?
      then Some(Key(values[0].n, values[1].s, values[2].n))
      else None
  }

  /** One request; an empty token asks for the first page. */
  function Request(table: Table, f: Filter, token: string, limit: int, load: Load): Option<Page> {
    if token == "" then Some(Activations(table, f, None, limit))
    else
      match KeyIn(token, load)
      case None => None
      case Some(key) => Some(Activations(table, f, Some(key), limit))
  }

  /** The rows a client collects by sending back the token of each page. */
  function Collected(tables: seq<Table>, f: Filter, token: string, limit: int, dump: Dump, load: Load): seq<Row>
    decreases |tables|
  {
    if tables == [] then []
    else
      match Request(tables[0], f, token, limit, load)
      case None => []
      case Some(page) =>
        page.items
        + if page.next.None? then [] else Collected(tables[1..], f, Token(page.next.value, dump), limit, dump, load)
  }

  lemma TokenReadsBack(key: Key, dump: Dump, load: Load)
    requires ReadsJson(dump, load)
    ensures Token(key, dump) != "" && KeyIn(Token(key, dump), load) == Some(key)
  {
    hide EncodeCursor, DecodeCursor;
    var values := Columns(key);
    assert dump(values) != [] && load(dump(values)) == Some(List(values));
    TokenIsNotEmpty(values, dump);
    IssuedCursorDecodes(values, 3, dump, load);
  }

  lemma TokenIsNotEmpty(values: seq<Scalar>, dump: Dump)
    requires dump(values) != []
    ensures EncodeCursor(values, dump) != ""
  {
    PaddingRestored(dump(values));
  }

  lemma {:induction false} CollectsFrom(tables: seq<Table>, f: Filter, key: Key, limit: int, dump: Dump, load: Load)
    requires ReadsJson(dump, load)
    ensures Collected(tables, f, Token(key, dump), limit, dump, load) == Shown(tables, f, Some(key), limit)
    decreases |tables|
  {
    hide Activations, Token, KeyIn, ReadsJson;
    if tables != [] {
      var page := Activations(tables[0], f, Some(key), limit);
      TokenReadsBack(key, dump, load);
      if page.next.Some? {
        CollectsFrom(tables[1..], f, page.next.value, limit, dump, load);
      }
    }
  }

  /** Through tokens, from the empty one on, a client collects exactly the scan. */
  lemma TokensCarryTheScan(tables: seq<Table>, f: Filter, limit: int, dump: Dump, load: Load)
    requires ReadsJson(dump, load)
    ensures Collected(tables, f, "", limit, dump, load) == Shown(tables, f, None, limit)
  {
    hide Activations, Token, KeyIn, ReadsJson;
    if tables != [] {
      var page := Activations(tables[0], f, None, limit);
      if page.next.Some? {
        CollectsFrom(tables[1..], f, page.next.value, limit, dump, load);
      }
    }
  }

  /** Hence what the client collects never repeats a key, and holds once each key that
      stays in the store and each row that stays as it is. */
  lemma ClientScan(tables: seq<Table>, f: Filter, limit: int, dump: Dump, load: Load, key: Key, row: Row)
    requires ReadsJson(dump, load) && AllKeyed(tables)
    ensures Descending(Collected(tables, f, "", limit, dump, load))
    ensures Finishes(tables, f, None, limit) && KeyStays(tables, f, key) ==>
              ShowsKeyOnce(Collected(tables, f, "", limit, dump, load), key)
    ensures Finishes(tables, f, None, limit) && Matches(f, row) && (forall i :: 0 <= i < |tables| ==> row in tables[i])
            ==> multiset(Collected(tables, f, "", limit, dump, load))[row] == 1
  {
    hide Shown, Finishes, ReadsJson, Matches, AllKeyed, KeyStays, ShowsKeyOnce;
    TokensCarryTheScan(tables, f, limit, dump, load);
    ScanDescends(tables, f, None, limit);
    if Finishes(tables, f, None, limit) {
      if KeyStays(tables, f, key) {
        ScanShowsOnce(tables, f, limit, key);
      }
      if Matches(f, row) && forall i :: 0 <= i < |tables| ==> row in tables[i] {
        UnchangedIsShown(tables, f, limit, row);
        OccursOnce(Shown(tables, f, None, limit), row);
      }
    }
  }

  lemma OccursOnce(rows: seq<Row>, row: Row)
    requires row in rows && ShowsKeyOnce(rows, KeyOf(row))
    ensures multiset(rows)[row] == 1
  {
    var i: nat :| OnlyAt(rows, i, KeyOf(row));
    var before, after := rows[..i], rows[i + 1..];
    assert rows == before + [rows[i]] + after;
    assert row !in before && row !in after;
  }
}
