/** What a page of the activation list holds, in the table's own columns: which rows a
    filter asks for, in which order, how many there are.
 */
module Filters {
  import opened Order
  import opened Pagination
  import opened Wrappers

  // ----- what a filter asks of a row -----

  datatype Criterion =
    | ByEntity(text: string) | ByStatus(text: string) | ByKind(text: string) | ByModel(text: string)
    | ByTool(text: string) | ByReason(text: string) | Since(ms: int) | Until(ms: int) | ByQuery(text: string)

  predicate Asks(f: Filter, c: Criterion) {
    match c
    case ByEntity(text) => f.entityKey == Some(text)
    case ByStatus(text) => f.status == Some(text)
    case ByKind(text) => f.kind == Some(text)
    case ByModel(text) => f.model == Some(text)
    case ByTool(text) => f.tool == Some(text)
    case ByReason(text) => f.reason == Some(text)
    case Since(ms) => f.sinceMs == Some(ms)
    case Until(ms) => f.untilMs == Some(ms)
    case ByQuery(text) => f.query == Some(text)
  }

  ghost predicate Satisfies(row: Row, c: Criterion) {
    match c
    case ByEntity(text) => row.entityKey == text
    case ByStatus(text) => row.status == text
    case ByKind(text) => row.kind == text
    case ByModel(text) => row.model == Some(text)
    case ByTool(text) => text in row.tools
    case ByReason(text) => text in row.reasons
    case Since(ms) => ms <= row.startedMs
    case Until(ms) => row.startedMs < ms
    case ByQuery(text) =>
      || Contains(row.entityKey, text)
      || Contains(row.traceId, text)
      || Contains(if row.model.Some? then row.model.value else "", text)
  }

  /** The filters conjoin; one that is not set asks nothing. */
  ghost predicate Meets(row: Row, f: Filter) {
    forall c :: Asks(f, c) ==> Satisfies(row, c)
  }

  // ----- searching a text -----

  /** Equal but for the case of ASCII letters. */
  predicate SameLetter(c: char, d: char) {
    || c == d
    || ('A' <= c <= 'Z' && d as int == c as int + 32)
    || ('A' <= d <= 'Z' && c as int == d as int + 32)
  }

  /** `piece` stands at `k` in `text`; `_` stands for any character. */
  ghost predicate OccursAt(text: string, k: int, piece: string) {
    && 0 <= k && k + |piece| <= |text|
    && forall i :: 0 <= i < |piece| ==> piece[i] == '_' || SameLetter(piece[i], text[k + i])
  }

  function FirstPercent(query: string): (i: nat)
    ensures i <= |query| && (i < |query| ==> query[i] == '%') && '%' !in query[..i]
  {
    if query == "" || query[0] == '%' then 0 else 1 + FirstPercent(query[1..])
  }

  /** The pieces of `query` between its `%` signs occur in `text`, one after another. */
  ghost predicate Contains(text: string, query: string)
    decreases |query|, 1
  {
    exists k :: ContainsAt(text, k, query)
  }

  ghost predicate ContainsAt(text: string, k: int, query: string)
    decreases |query|, 0
  {
    var i := FirstPercent(query);
    OccursAt(text, k, query[..i]) && (i < |query| ==> Contains(text[k + i..], query[i + 1..]))
  }

  lemma FoldsAlike(c: char, d: char)
    ensures Fold(c) == Fold(d) <==> SameLetter(c, d)
  {
  }

  lemma LikeEmpty(text: string)
    ensures Like(text, "%")
    decreases |text|
  {
    assert "%"[1..] == "";
    if text != "" {
      LikeEmpty(text[1..]);
    }
  }

  /** `%` is any run of characters. */
  lemma {:induction false} LikeAnyRun(text: string, rest: string)
    ensures Like(text, "%" + rest) <==> exists k :: 0 <= k <= |text| && Like(text[k..], rest)
    decreases |text|
  {
    assert ("%" + rest)[1..] == rest && text[0..] == text;
    if text != "" {
      LikeAnyRun(text[1..], rest);
      if k :| 0 <= k <= |text[1..]| && Like(text[1..][k..], rest) {
        assert text[k + 1..] == text[1..][k..];
      }
      if k :| 0 <= k <= |text| && Like(text[k..], rest) {
        if k > 0 {
          assert text[1..][k - 1..] == text[k..];
        }
      }
    }
  }

  /** Anything else stands for itself. */
  lemma {:induction false} LikePiece(text: string, piece: string, rest: string)
    requires '%' !in piece
    ensures Like(text, piece + rest) <==> OccursAt(text, 0, piece) && Like(text[|piece|..], rest)
    decreases |piece|
  {
    if piece == "" {
      assert piece + rest == rest && text[0..] == text;
    } else {
      assert (piece + rest)[0] == piece[0] && (piece + rest)[1..] == piece[1..] + rest;
      if text != "" {
        LikePiece(text[1..], piece[1..], rest);
        FoldsAlike(piece[0], text[0]);
        OccursStep(text, piece);
        if |piece| <= |text| {
          assert text[1..][|piece[1..]|..] == text[|piece|..];
        }
      }
    }
  }

  lemma OccursStep(text: string, piece: string)
    requires text != "" && piece != ""
    ensures OccursAt(text, 0, piece) <==>
              (piece[0] == '_' || SameLetter(piece[0], text[0])) && OccursAt(text[1..], 0, piece[1..])
  {
    hide SameLetter;
    if OccursAt(text[1..], 0, piece[1..]) {
      assert forall i :: 0 < i < |piece| ==> piece[i] == piece[1..][i - 1] && text[i] == text[1..][i - 1];
    }
  }

  lemma OccursLater(text: string, k: int, piece: string)
    requires 0 <= k <= |text|
    ensures OccursAt(text, k, piece) <==> OccursAt(text[k..], 0, piece)
  {
    hide SameLetter;
  }

  /** A pattern between two `%` signs, from its first piece on. */
  function Pattern(query: string): string {
    var i := FirstPercent(query);
    query[..i] + (if i < |query| then "%" + query[i + 1..] + "%" else "%")
  }

  lemma {:induction false} LikeAt(text: string, k: int, query: string)
    requires 0 <= k <= |text|
    ensures Like(text[k..], Pattern(query)) <==> ContainsAt(text, k, query)
    decreases |query|, 0
  {
    var i := FirstPercent(query);
    var piece := query[..i];
    OccursLater(text, k, piece);
    LikePiece(text[k..], piece, if i < |query| then "%" + query[i + 1..] + "%" else "%");
    hide Like;
    if OccursAt(text, k, piece) {
      assert text[k..][i..] == text[k + i..];
      if i < |query| {
        LikeContains(text[k + i..], query[i + 1..]);
      } else {
        LikeEmpty(text[k + i..]);
      }
    }
  }

  /** The search clause finds exactly what contains the query. */
  lemma {:induction false} LikeContains(text: string, query: string)
    ensures Like(text, "%" + query + "%") <==> Contains(text, query)
    decreases |query|, 1
  {
    hide Like;
    assert "%" + query + "%" == "%" + Pattern(query);
    LikeAnyRun(text, Pattern(query));
    forall k | 0 <= k <= |text| ensures Like(text[k..], Pattern(query)) <==> ContainsAt(text, k, query) {
      LikeAt(text, k, query);
    }
    assert forall k :: ContainsAt(text, k, query) ==> 0 <= k <= |text|;
  }

  // ----- the filter -----

  /** The clauses of a filter pass exactly the rows that satisfy each criterion it sets. */
  lemma MatchesIff(f: Filter, row: Row)
    ensures Matches(f, row) <==> Meets(row, f)
  {
    hide Contains, Like;
    if f.query.Some? {
      LikeContains(row.entityKey, f.query.value);
      LikeContains(row.traceId, f.query.value);
      LikeContains(if row.model.Some? then row.model.value else "", f.query.value);
    }
    if Meets(row, f) {
      MeetsEach(row, f);
    }
  }

  lemma MeetsEach(row: Row, f: Filter)
    requires Meets(row, f)
    ensures f.entityKey.Some? ==> Satisfies(row, ByEntity(f.entityKey.value))
    ensures f.status.Some? ==> Satisfies(row, ByStatus(f.status.value))
    ensures f.kind.Some? ==> Satisfies(row, ByKind(f.kind.value))
    ensures f.model.Some? ==> Satisfies(row, ByModel(f.model.value))
    ensures f.tool.Some? ==> Satisfies(row, ByTool(f.tool.value))
    ensures f.reason.Some? ==> Satisfies(row, ByReason(f.reason.value))
    ensures f.sinceMs.Some? ==> Satisfies(row, Since(f.sinceMs.value))
    ensures f.untilMs.Some? ==> Satisfies(row, Until(f.untilMs.value))
    ensures f.query.Some? ==> Satisfies(row, ByQuery(f.query.value))
  {
    hide Satisfies;
  }

  // ----- the page -----

  /** `r` is listed below the key: by start, then entity, then seq. */
  predicate Older(r: Row, k: Key) {
    || r.startedMs < k.startedMs
    || (r.startedMs == k.startedMs
        && (|| StringLess(r.entityKey, k.entityKey)
            || (r.entityKey == k.entityKey && r.seqNo < k.seqNo)))
  }

  /** What a request asks for. */
  ghost predicate Wanted(table: Table, f: Filter, cursor: Option<Key>, r: Row) {
    r in table && Meets(r, f) && (cursor.Some? ==> Older(r, cursor.value))
  }

  function At(r: Row): Key {
    Key(r.startedMs, r.entityKey, r.seqNo)
  }

  ghost predicate NewestFirst(rows: seq<Row>) {
    forall i, j :: 0 <= i < j < |rows| ==> Older(rows[j], At(rows[i]))
  }

  lemma WantedIff(table: Table, f: Filter, cursor: Option<Key>, r: Row)
    ensures r in Ordered(Scanned(table, f, cursor)) <==> Wanted(table, f, cursor, r)
  {
    hide Meets;
    MatchesIff(f, r);
    hide Matches;
  }

  lemma {:induction false} DistinctRows(rows: seq<Row>)
    requires DistinctKeys(rows)
    ensures |RowSet(rows)| == |rows|
    decreases |rows|
  {
    if rows == [] {
      NoMemberNoRow(rows);
    } else {
      var init, last := rows[..|rows| - 1], rows[|rows| - 1];
      DistinctRows(init);
      assert rows == init + [last] && last !in init;
      assert RowSet(rows) == RowSet(init) + {last};
    }
  }

  lemma TotalIs(table: Table, f: Filter)
    requires PrimaryKey(table)
    ensures |Scanned(table, f, None)| == |set r | r in table && Meets(r, f)|
  {
    hide Meets, Matches;
    var rows := Scanned(table, f, None);
    ScannedKeys(table, f, None);
    DistinctRows(rows);
    forall r ensures r in rows <==> r in table && Meets(r, f) {
      MatchesIff(f, r);
    }
    assert RowSet(rows) == set r | r in table && Meets(r, f);
  }

  lemma LessIsOlder()
    ensures forall r: Row, s: Row :: Less(KeyOf(r), KeyOf(s)) <==> Older(r, At(s))
  {
  }

  /** The first `n` rows of a list, newest first. */
  lemma HeadOfList(list: seq<Row>, n: nat)
    requires Descending(list) && n >= 1
    ensures var items := if |list| <= n then list else list[..n];
            && NewestFirst(items)
            && (forall r :: r in items ==> r in list)
            && (|list| <= n <==> forall r :: r in list ==> r in items)
            && (|list| > n ==> forall r :: r in list && r !in items ==> Older(r, At(list[n - 1])))
  {
    LessIsOlder();
    hide Less, Older;
    if |list| > n {
      var items, edge := list[..n], KeyOf(list[n - 1]);
      assert list[n] in list && list == items + list[n..];
      NotAmong(list, n);
      forall r | r in list && r !in items ensures Older(r, At(list[n - 1])) {
        assert r in list[n..];
        var i :| n <= i < |list| && list[i] == r;
      }
    }
  }

  lemma NotAmong(list: seq<Row>, n: nat)
    requires Descending(list) && 0 < n < |list|
    ensures list[n] !in list[..n]
  {
    LessIsTotal(KeyOf(list[n]), KeyOf(list[n]));
    hide Less;
  }

  /** One request: of the rows asked for the newest, newest first, as many as fit; the
      next cursor is the last one shown, and is absent exactly when none is left; the
      total counts every row the filter passes, whatever the cursor. */
  lemma PageHolds(table: Table, f: Filter, cursor: Option<Key>, limit: int)
    requires PrimaryKey(table)
    ensures var page, n := Activations(table, f, cursor, limit), if limit < 1 then 1 else limit;
            && (forall r :: r in page.items ==> Wanted(table, f, cursor, r))
            && NewestFirst(page.items) && |page.items| <= n
            && (page.next == None <==> forall r :: Wanted(table, f, cursor, r) ==> r in page.items)
            && (page.next != None ==>
                  && |page.items| == n && page.next == Some(At(page.items[n - 1]))
                  && forall r :: Wanted(table, f, cursor, r) && r !in page.items ==> Older(r, At(page.items[n - 1])))
            && page.total == |set r | r in table && Meets(r, f)|
  {
    TotalIs(table, f);
    TotalOf(table, f, cursor, limit);
    hide Wanted, Ordered, Scanned, Meets, Matches, PrimaryKey, Activations, NewestFirst, Descending, Older;
    var list := Ordered(Scanned(table, f, cursor));
    PageIsAPrefix(table, f, cursor, limit);
    HeadOfList(list, Clamp(limit));
    forall r ensures r in list <==> Wanted(table, f, cursor, r) {
      WantedIff(table, f, cursor, r);
    }
  }

  lemma TotalOf(table: Table, f: Filter, cursor: Option<Key>, limit: int)
    ensures Activations(table, f, cursor, limit).total == |Scanned(table, f, None)|
  {
    hide Scanned, Ordered;
  }

  /** A scan shows nothing the filter does not ask for, and if it finishes, every row
      that it asks for and that stays. */
  lemma ScanShows(tables: seq<Table>, f: Filter, limit: int, row: Row)
    requires AllKeyed(tables)
    ensures row in Shown(tables, f, None, limit) ==> Meets(row, f) && exists i :: 0 <= i < |tables| && row in tables[i]
    ensures Finishes(tables, f, None, limit) && Meets(row, f) && (forall i :: 0 <= i < |tables| ==> row in tables[i])
            ==> row in Shown(tables, f, None, limit)
  {
    hide Meets, Matches, Shown, Finishes, AllKeyed, ShowsKeyOnce;
    MatchesIff(f, row);
    if row in Shown(tables, f, None, limit) {
      ScanIsSound(tables, f, None, limit, row);
    }
    if Finishes(tables, f, None, limit) && Meets(row, f) && forall i :: 0 <= i < |tables| ==> row in tables[i] {
      UnchangedIsShown(tables, f, limit, row);
    }
  }
}
