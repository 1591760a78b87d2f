/** Flattening an activation's spans into depth-first order.

    Parent links come from telemetry and may be malformed: unknown, self-linked or
    cyclic. `Flatten` is the traversal as a recursive function; the method keeps
    the explicit stack and is proved to compute it.
 */
module SpanTree {
  import opened OrderedDict
  import opened Order

  // ----- spans -----

  datatype Event = Event(
    spanId: string, parentSpanId: string, eventType: string, stepIndex: int, startMs: int, detail: string)

  datatype Span = Span(parentSpanId: string, role: string, stepIndex: int, events: seq<Event>)

  type Spans = Dict<string, Span>

  function Role(eventType: string): string {
    if eventType == "ACTIVATION_START" || eventType == "ACTIVATION_END" then "ACTIVATION" else eventType
  }

  function Min(a: int, b: int): int {
    if a <= b then a else b
  }

  function WithEvent(spans: Spans, e: Event): Spans {
    if spans.Has(e.spanId) then
      var span := spans.vals[e.spanId];
      spans.Put(e.spanId, span.(events := span.events + [e], stepIndex := Min(span.stepIndex, e.stepIndex)))
    else
      spans.Put(e.spanId, Span(e.parentSpanId, Role(e.eventType), e.stepIndex, [e]))
  }

  function Collected(events: seq<Event>): Spans {
    if events == [] then Empty()
    else WithEvent(Collected(events[..|events| - 1]), events[|events| - 1])
  }

  method CollectSpans(events: seq<Event>) returns (spans: Spans)
    ensures spans == Collected(events)
  {
    spans := Empty();
    for i := 0 to |events|
      invariant spans == Collected(events[..i])
    {
      spans := WithEvent(spans, events[i]);
      assert events[..i + 1][..i] == events[..i];
    }
    assert events[..|events|] == events;
  }

  function EventsOn(events: seq<Event>, id: string): seq<Event> {
    if events == [] then []
    else
      EventsOn(events[..|events| - 1], id) +
      (if events[|events| - 1].spanId == id then [events[|events| - 1]] else [])
  }

  /** Each event is on its own span and on no other, and keeps its place. */
  lemma {:induction false} EventsOnConcat(a: seq<Event>, b: seq<Event>, e: Event, id: string)
    ensures EventsOn(a + b, id) == EventsOn(a, id) + EventsOn(b, id)
    ensures EventsOn([e], id) == if e.spanId == id then [e] else []
    decreases |b|
  {
    assert [e][..0] == [];
    if b == [] {
      assert a + b == a;
    } else {
      var init := b[..|b| - 1];
      assert (a + b)[..|a + b| - 1] == a + init;
      EventsOnConcat(a, init, e, id);
    }
  }

  function LeastStep(events: seq<Event>): (step: int)
    requires events != []
    ensures exists e :: e in events && e.stepIndex == step
    ensures forall e :: e in events ==> step <= e.stepIndex
  {
    assert events == events[..|events| - 1] + [events[|events| - 1]];
    if |events| == 1 then events[0].stepIndex
    else Min(LeastStep(events[..|events| - 1]), events[|events| - 1].stepIndex)
  }

  function FirstMs(events: seq<Event>): (ms: int)
    requires events != []
    ensures exists e :: e in events && e.startMs == ms
    ensures forall e :: e in events ==> ms <= e.startMs
  {
    assert events == events[..|events| - 1] + [events[|events| - 1]];
    if |events| == 1 then events[0].startMs
    else Min(FirstMs(events[..|events| - 1]), events[|events| - 1].startMs)
  }

  /** What a span is, from its own events. */
  ghost predicate Holds(spans: Spans, id: string, own: seq<Event>) {
    && (spans.Has(id) <==> own != [])
    && (own != [] ==>
          spans.vals[id] == Span(own[0].parentSpanId, Role(own[0].eventType), LeastStep(own), own))
  }

  lemma HoldsMore(spans: Spans, id: string, own: seq<Event>, e: Event)
    requires Holds(spans, id, own)
    ensures Holds(WithEvent(spans, e), id, own + (if e.spanId == id then [e] else []))
  {
    hide Role;
    assert (own + [e])[..|own|] == own && own + [] == own;
  }

  lemma WithEventIsValid(spans: Spans, e: Event)
    requires spans.Valid()
    ensures WithEvent(spans, e).Valid()
  {
  }

  /** Each span holds exactly its own events, in order; its parent and role come
      from the first of them and its step is the least. */
  lemma {:induction false} CollectedSpans(events: seq<Event>, id: string)
    ensures Collected(events).Valid()
    ensures var own := EventsOn(events, id);
            && (Collected(events).Has(id) <==> own != [])
            && (own != [] ==>
                  Collected(events).vals[id] ==
                    Span(own[0].parentSpanId, Role(own[0].eventType), LeastStep(own), own))
    decreases |events|
  {
    hide WithEvent, LeastStep, Role, Distinct;
    if events != [] {
      var init, last := events[..|events| - 1], events[|events| - 1];
      CollectedSpans(init, id);
      HoldsMore(Collected(init), id, EventsOn(init, id), last);
      WithEventIsValid(Collected(init), last);
    } else {
      NothingCollected();
    }
  }

  lemma NothingCollected()
    ensures Collected([]).Valid()
  {
  }

  // ----- the forest the parent links describe -----

  /** `parent` holds the links that count; a span without one is a root. */
  datatype Forest = Forest(ids: seq<string>, parent: map<string, string>, firstMs: map<string, int>) {
    ghost predicate Valid() {
      && Distinct(ids)
      && (forall id :: id in parent ==> id in ids && parent[id] in ids)
      && (forall id :: id in ids ==> id in firstMs)
    }

    predicate Less(a: string, b: string)
      requires a in firstMs && b in firstMs
    {
      PairLess(firstMs[a], a, firstMs[b], b)
    }
  }

  ghost predicate DepthIs(f: Forest, id: string, d: nat)
    requires f.Valid()
    decreases d
  {
    if d == 0 then id in f.ids && id !in f.parent
    else id in f.parent && DepthIs(f, f.parent[id], d - 1)
  }

  /** The parent chain of `id` reaches a root. */
  ghost predicate Anchored(f: Forest, id: string)
    requires f.Valid()
  {
    exists d: nat :: DepthIs(f, id, d)
  }

  lemma {:induction false} DepthIsUnique(f: Forest, id: string, d: nat, e: nat)
    requires f.Valid() && DepthIs(f, id, d) && DepthIs(f, id, e)
    ensures d == e && id in f.ids
    decreases d
  {
    if d > 0 && e > 0 {
      DepthIsUnique(f, f.parent[id], d - 1, e - 1);
    }
  }

  ghost function Chain(f: Forest, id: string, d: nat): set<string>
    requires f.Valid() && DepthIs(f, id, d)
    decreases d
  {
    if d == 0 then {id} else {id} + Chain(f, f.parent[id], d - 1)
  }

  ghost predicate DepthUpTo(f: Forest, id: string, d: nat)
    requires f.Valid()
  {
    exists e: nat :: e <= d && DepthIs(f, id, e)
  }

  lemma {:induction false} ChainMembers(f: Forest, id: string, d: nat)
    requires f.Valid() && DepthIs(f, id, d)
    ensures forall x :: x in Chain(f, id, d) ==> x in f.ids && DepthUpTo(f, x, d)
    decreases d
  {
    if d > 0 {
      ChainMembers(f, f.parent[id], d - 1);
      forall x | x in Chain(f, id, d) ensures x in f.ids && DepthUpTo(f, x, d) {
        if x != id {
          var e: nat :| e <= d - 1 && DepthIs(f, x, e);
        }
      }
    }
  }

  lemma NotAboveItself(f: Forest, id: string, d: nat)
    requires f.Valid() && DepthIs(f, id, d) && d > 0
    ensures id !in Chain(f, f.parent[id], d - 1)
  {
    ChainMembers(f, f.parent[id], d - 1);
    if id in Chain(f, f.parent[id], d - 1) {
      var e: nat :| e <= d - 1 && DepthIs(f, id, e);
      DepthIsUnique(f, id, d, e);
    }
  }

  lemma {:induction false} ChainSize(f: Forest, id: string, d: nat)
    requires f.Valid() && DepthIs(f, id, d)
    ensures |Chain(f, id, d)| == d + 1
    decreases d
  {
    if d > 0 {
      ChainSize(f, f.parent[id], d - 1);
      NotAboveItself(f, id, d);
    }
  }

  lemma {:induction false} SetOfSeqSize(ids: seq<string>, s: set<string>)
    requires forall x :: x in s ==> x in ids
    ensures |s| <= |ids|
    decreases |ids|
  {
    if ids == [] {
      assert s == {};
    } else {
      SetOfSeqSize(ids[1..], s - {ids[0]});
    }
  }

  /** A chain that reaches a root never revisits a span, so it is short. */
  lemma DepthIsBounded(f: Forest, id: string, d: nat)
    requires f.Valid() && DepthIs(f, id, d)
    ensures d < |f.ids|
  {
    ChainSize(f, id, d);
    ChainMembers(f, id, d);
    SetOfSeqSize(f.ids, Chain(f, id, d));
  }

  /** The ancestor of `id`, which has depth `d`, at depth `e`. */
  ghost function AncestorAt(f: Forest, id: string, d: nat, e: nat): (a: string)
    requires f.Valid() && DepthIs(f, id, d) && e <= d
    ensures DepthIs(f, a, e)
    decreases d
  {
    if d == e then id else AncestorAt(f, f.parent[id], d - 1, e)
  }

  lemma {:induction false} AncestorStep(f: Forest, id: string, d: nat, e: nat)
    requires f.Valid() && DepthIs(f, id, d) && e < d
    ensures var a := AncestorAt(f, id, d, e + 1);
            a in f.parent && f.parent[a] == AncestorAt(f, id, d, e)
    decreases d
  {
    if d > e + 1 {
      AncestorStep(f, f.parent[id], d - 1, e);
    }
  }

  // ----- sorting siblings -----

  predicate InForest(f: Forest, ids: seq<string>) {
    forall x :: x in ids ==> x in f.firstMs
  }

  function Insert(f: Forest, id: string, sorted: seq<string>): (r: seq<string>)
    requires id in f.firstMs && InForest(f, sorted)
    ensures InForest(f, r)
    ensures multiset(r) == multiset(sorted) + multiset{id}
  {
    if sorted == [] || f.Less(id, sorted[0]) then [id] + sorted
    else
      assert sorted == [sorted[0]] + sorted[1..];
      [sorted[0]] + Insert(f, id, sorted[1..])
  }

  function Sorted(f: Forest, ids: seq<string>): (r: seq<string>)
    requires InForest(f, ids)
    ensures InForest(f, r)
    ensures multiset(r) == multiset(ids)
  {
    if ids == [] then []
    else
      assert ids == [ids[0]] + ids[1..];
      Insert(f, ids[0], Sorted(f, ids[1..]))
  }

  ghost predicate Ascending(f: Forest, ids: seq<string>)
    requires InForest(f, ids)
  {
    forall i, j :: 0 <= i < j < |ids| ==> f.Less(ids[i], ids[j])
  }

  lemma LessIsTotal(f: Forest, a: string, b: string)
    requires a in f.firstMs && b in f.firstMs && a != b
    ensures f.Less(a, b) || f.Less(b, a)
  {
    StringOrder(a, b);
  }

  lemma LessIsTransitive(f: Forest, a: string, b: string, c: string)
    requires a in f.firstMs && b in f.firstMs && c in f.firstMs && f.Less(a, b) && f.Less(b, c)
    ensures f.Less(a, c)
  {
    if f.firstMs[a] == f.firstMs[b] == f.firstMs[c] {
      StringTransitive(a, b, c);
    }
  }

  lemma {:induction false} InsertAscends(f: Forest, id: string, sorted: seq<string>)
    requires id in f.firstMs && InForest(f, sorted) && Ascending(f, sorted) && id !in sorted
    ensures Ascending(f, Insert(f, id, sorted))
    decreases |sorted|
  {
    var r := Insert(f, id, sorted);
    if sorted != [] {
      if f.Less(id, sorted[0]) {
        forall j | 0 < j < |sorted| ensures f.Less(id, sorted[j]) {
          LessIsTransitive(f, id, sorted[0], sorted[j]);
        }
      } else {
        LessIsTotal(f, id, sorted[0]);
        InsertAscends(f, id, sorted[1..]);
        var rest := Insert(f, id, sorted[1..]);
        forall j | 0 <= j < |rest| ensures f.Less(sorted[0], rest[j]) {
          assert rest[j] in multiset(rest);
          assert rest[j] in sorted[1..] || rest[j] == id;
        }
      }
    }
  }

  lemma {:induction false} SortedAscends(f: Forest, ids: seq<string>)
    requires InForest(f, ids) && Distinct(ids)
    ensures Ascending(f, Sorted(f, ids))
    ensures Distinct(Sorted(f, ids))
    ensures forall x :: x in Sorted(f, ids) <==> x in ids
    decreases |ids|
  {
    if ids != [] {
      SortedAscends(f, ids[1..]);
      InsertAscends(f, ids[0], Sorted(f, ids[1..]));
    }
    forall x ensures x in Sorted(f, ids) <==> x in ids {
      assert x in Sorted(f, ids) <==> x in multiset(Sorted(f, ids));
      assert x in ids <==> x in multiset(ids);
    }
    forall i, j | 0 <= i < j < |Sorted(f, ids)| ensures Sorted(f, ids)[i] != Sorted(f, ids)[j] {
      StringOrder(Sorted(f, ids)[i], Sorted(f, ids)[j]);
    }
  }

  // ----- the traversal as a function -----

  datatype Visit = Visit(id: string, depth: nat)

  function ChildrenIn(f: Forest, ids: seq<string>, p: string): (r: seq<string>)
    ensures forall x :: x in r <==> x in ids && x in f.parent && f.parent[x] == p
  {
    if ids == [] then []
    else
      ChildrenIn(f, ids[..|ids| - 1], p) +
      (if ids[|ids| - 1] in f.parent && f.parent[ids[|ids| - 1]] == p then [ids[|ids| - 1]] else [])
  }

  function RootsIn(f: Forest, ids: seq<string>): (r: seq<string>)
    ensures forall x :: x in r <==> x in ids && x !in f.parent
  {
    if ids == [] then []
    else RootsIn(f, ids[..|ids| - 1]) + (if ids[|ids| - 1] in f.parent then [] else [ids[|ids| - 1]])
  }

  lemma {:induction false} PartsAreDistinct(f: Forest, ids: seq<string>, p: string)
    requires Distinct(ids)
    ensures Distinct(ChildrenIn(f, ids, p)) && Distinct(RootsIn(f, ids))
    decreases |ids|
  {
    if ids != [] {
      var init := ids[..|ids| - 1];
      PartsAreDistinct(f, init, p);
      assert ids[|ids| - 1] !in init;
      DistinctAppend(ChildrenIn(f, init, p), ids[|ids| - 1]);
      DistinctAppend(RootsIn(f, init), ids[|ids| - 1]);
      hide Distinct;
    }
  }

  lemma DistinctAppend(ids: seq<string>, id: string)
    requires Distinct(ids) && id !in ids
    ensures Distinct(ids + [id]) && Distinct(ids + [])
  {
    assert ids + [] == ids;
  }

  type Kids = map<string, seq<string>>

  /** The sorted children of every span. */
  function KidsOf(f: Forest): Kids
    requires InForest(f, f.ids)
  {
    map p | p in f.ids :: Sorted(f, ChildrenIn(f, f.ids, p))
  }

  function Roots(f: Forest): seq<string>
    requires InForest(f, f.ids)
  {
    Sorted(f, RootsIn(f, f.ids))
  }

  /** Pre-order over the subtrees of `ids`, at most `fuel` levels deep. */
  function Flatten(kids: Kids, ids: seq<string>, depth: nat, fuel: nat): seq<Visit>
    decreases fuel, |ids|
  {
    if ids == [] || fuel == 0 || ids[0] !in kids then []
    else
      [Visit(ids[0], depth)]
      + Flatten(kids, kids[ids[0]], depth + 1, fuel - 1)
      + Flatten(kids, ids[1..], depth, fuel)
  }

  function DepthFirst(f: Forest): seq<Visit>
    requires InForest(f, f.ids)
  {
    Flatten(KidsOf(f), Roots(f), 0, |f.ids|)
  }

  /** Siblings at one depth, in order: what every call of `Flatten` is given. */
  ghost predicate Level(f: Forest, ids: seq<string>, depth: nat)
    requires f.Valid()
  {
    && (forall x :: x in ids ==> DepthIs(f, x, depth))
    && InForest(f, ids) && Ascending(f, ids)
  }

  lemma TailIsALevel(f: Forest, ids: seq<string>, depth: nat)
    requires f.Valid() && Level(f, ids, depth) && ids != []
    ensures Level(f, ids[1..], depth) && DepthIs(f, ids[0], depth) && depth < |f.ids|
  {
    assert ids[0] in ids;
    DepthIsBounded(f, ids[0], depth);
    forall x | x in ids[1..] ensures x in ids {
    }
  }

  lemma RootsAreALevel(f: Forest)
    requires f.Valid()
    ensures InForest(f, f.ids) && Level(f, Roots(f), 0)
    ensures forall x :: x in Roots(f) <==> DepthIs(f, x, 0)
  {
    PartsAreDistinct(f, f.ids, "");
    SortedAscends(f, RootsIn(f, f.ids));
  }

  /** `kids` lists, in order, the children of every span. */
  ghost predicate Arranged(f: Forest, kids: Kids) {
    forall p :: p in f.ids ==>
      && p in kids && InForest(f, kids[p]) && Ascending(f, kids[p])
      && forall x :: x in kids[p] <==> x in f.parent && f.parent[x] == p
  }

  lemma KidsAreArranged(f: Forest)
    requires f.Valid()
    ensures InForest(f, f.ids) && Arranged(f, KidsOf(f))
  {
    forall p | p in f.ids
      ensures Ascending(f, KidsOf(f)[p])
      ensures forall x :: x in KidsOf(f)[p] <==> x in f.parent && f.parent[x] == p
    {
      PartsAreDistinct(f, f.ids, p);
      SortedAscends(f, ChildrenIn(f, f.ids, p));
    }
  }

  lemma KidsAreALevel(f: Forest, kids: Kids, p: string, depth: nat)
    requires f.Valid() && Arranged(f, kids) && DepthIs(f, p, depth)
    ensures p in kids && Level(f, kids[p], depth + 1)
  {
    DepthIsUnique(f, p, depth, depth);
  }

  /** `v` is a span below some member of `ids`, or a member. */
  ghost predicate Below(f: Forest, ids: seq<string>, depth: nat, v: Visit)
    requires f.Valid()
  {
    DepthIs(f, v.id, v.depth) && v.depth >= depth && AncestorAt(f, v.id, v.depth, depth) in ids
  }

  lemma BelowSplits(f: Forest, kids: Kids, ids: seq<string>, depth: nat, v: Visit)
    requires f.Valid() && Arranged(f, kids) && Level(f, ids, depth) && ids != [] && ids[0] in kids
    ensures Below(f, ids, depth, v) <==>
              || v == Visit(ids[0], depth)
              || Below(f, kids[ids[0]], depth + 1, v)
              || Below(f, ids[1..], depth, v)
  {
    DepthIsUnique(f, ids[0], depth, depth);
    if DepthIs(f, v.id, v.depth) && v.depth > depth {
      AncestorStep(f, v.id, v.depth, depth);
    }
  }

  /** The subtrees `Flatten` visits one after the other share no span. */
  lemma BelowIsDisjoint(f: Forest, kids: Kids, ids: seq<string>, depth: nat, v: Visit)
    requires f.Valid() && Arranged(f, kids) && Level(f, ids, depth) && ids != [] && ids[0] in kids
    ensures Below(f, kids[ids[0]], depth + 1, v) ==>
              v.depth > depth && AncestorAt(f, v.id, v.depth, depth) == ids[0]
    ensures Below(f, ids[1..], depth, v) ==> AncestorAt(f, v.id, v.depth, depth) != ids[0]
  {
    DepthIsUnique(f, ids[0], depth, depth);
    if Below(f, kids[ids[0]], depth + 1, v) {
      AncestorStep(f, v.id, v.depth, depth);
    }
    if ids[0] in ids[1..] {
      var j :| 0 < j < |ids| && ids[j] == ids[0];
      StringOrder(ids[0], ids[0]);
    }
  }

  lemma NothingBelow(f: Forest, kids: Kids, depth: nat, fuel: nat, v: Visit)
    requires f.Valid()
    ensures Flatten(kids, [], depth, fuel) == [] && !Below(f, [], depth, v)
  {
  }

  /** Exactly the spans below `ids` are visited, at their own depth. */
  lemma {:induction false} FlattenVisits(f: Forest, kids: Kids, ids: seq<string>, depth: nat, fuel: nat, v: Visit)
    requires f.Valid() && Arranged(f, kids) && Level(f, ids, depth) && depth + fuel >= |f.ids|
    ensures v in Flatten(kids, ids, depth, fuel) <==> Below(f, ids, depth, v)
    decreases fuel, |ids|
  {
    hide Below, Arranged, Flatten, Level, DepthIs;
    if ids == [] {
      NothingBelow(f, kids, depth, fuel, v);
    } else {
      Parts(f, kids, ids, depth, fuel);
      FlattenVisits(f, kids, kids[ids[0]], depth + 1, fuel - 1, v);
      FlattenVisits(f, kids, ids[1..], depth, fuel, v);
      BelowSplits(f, kids, ids, depth, v);
      InConcat(Visit(ids[0], depth), Flatten(kids, kids[ids[0]], depth + 1, fuel - 1),
               Flatten(kids, ids[1..], depth, fuel), v);
    }
  }

  lemma InConcat<T>(head: T, a: seq<T>, b: seq<T>, v: T)
    ensures v in [head] + a + b <==> v == head || v in a || v in b
  {
  }

  lemma {:induction false} AncestorsCompose(f: Forest, id: string, d: nat, e: nat, g: nat)
    requires f.Valid() && DepthIs(f, id, d) && g <= e <= d
    ensures AncestorAt(f, AncestorAt(f, id, d, e), e, g) == AncestorAt(f, id, d, g)
    decreases d
  {
    if e < d {
      AncestorsCompose(f, f.parent[id], d - 1, e, g);
    }
  }

  /** Children of one parent, or roots. */
  predicate Siblings(f: Forest, a: string, b: string) {
    (a !in f.parent && b !in f.parent) || (a in f.parent && b in f.parent && f.parent[a] == f.parent[b])
  }

  lemma SiblingsAgree(f: Forest, a: string, d: nat, b: string, e: nat)
    requires f.Valid() && DepthIs(f, a, d) && DepthIs(f, b, e) && Siblings(f, a, b)
    ensures d == e
    ensures forall g: nat :: g < d ==> AncestorAt(f, a, d, g) == AncestorAt(f, b, e, g)
  {
    if d > 0 && e > 0 {
      DepthIsUnique(f, f.parent[a], d - 1, e - 1);
    }
  }

  ghost predicate RunsDeeper(vs: seq<Visit>, i: nat, k: nat)
    requires i < k < |vs|
  {
    forall m :: i < m <= k ==> vs[m].depth > vs[i].depth
  }

  ghost predicate Encloses(f: Forest, a: Visit, b: Visit)
    requires f.Valid() && DepthIs(f, b.id, b.depth)
  {
    b.depth > a.depth && AncestorAt(f, b.id, b.depth, a.depth) == a.id
  }

  /** How two visits relate, `i` before `k`: they are different spans; the later
      is a descendant of the earlier exactly when everything between is deeper;
      siblings ascend. */
  ghost predicate Related(f: Forest, vs: seq<Visit>, i: nat, k: nat)
    requires f.Valid() && i < k < |vs|
  {
    && DepthIs(f, vs[i].id, vs[i].depth) && DepthIs(f, vs[k].id, vs[k].depth)
    && vs[i].id in f.firstMs && vs[k].id in f.firstMs
    && vs[i].id != vs[k].id
    && (RunsDeeper(vs, i, k) <==> Encloses(f, vs[i], vs[k]))
    && (Siblings(f, vs[i].id, vs[k].id) ==> f.Less(vs[i].id, vs[k].id))
  }

  lemma RelatedShifts(f: Forest, pre: seq<Visit>, vs: seq<Visit>, post: seq<Visit>, i: nat, k: nat)
    requires f.Valid() && i < k < |vs| && Related(f, vs, i, k)
    ensures Related(f, pre + vs + post, |pre| + i, |pre| + k)
  {
    var all := pre + vs + post;
    if RunsDeeper(vs, i, k) {
      forall m | |pre| + i < m <= |pre| + k ensures all[m].depth > all[|pre| + i].depth {
        assert all[m] == vs[m - |pre|];
      }
    }
    if RunsDeeper(all, |pre| + i, |pre| + k) {
      forall m | i < m <= k ensures vs[m].depth > vs[i].depth {
        assert vs[m] == all[|pre| + m];
      }
    }
  }

  /** The visit `v` of a later subtree, seen from an earlier one's root or member `u`. */
  lemma AcrossSubtrees(f: Forest, kids: Kids, ids: seq<string>, depth: nat, u: Visit, v: Visit)
    requires f.Valid() && Arranged(f, kids) && Level(f, ids, depth) && ids != [] && ids[0] in kids
    requires u == Visit(ids[0], depth) || Below(f, kids[ids[0]], depth + 1, u)
    requires Below(f, ids[1..], depth, v)
    ensures DepthIs(f, u.id, u.depth) && u.depth >= depth && u.id != v.id && !Encloses(f, u, v)
    ensures u.id in f.firstMs && v.id in f.firstMs && (Siblings(f, u.id, v.id) ==> f.Less(u.id, v.id))
  {
    TailIsALevel(f, ids, depth);
    BelowIsDisjoint(f, kids, ids, depth, u);
    BelowIsDisjoint(f, kids, ids, depth, v);
    assert AncestorAt(f, u.id, u.depth, depth) == ids[0];
    DepthIsUnique(f, u.id, u.depth, u.depth);
    DepthIsUnique(f, v.id, v.depth, v.depth);
    if u.id == v.id {
      DepthIsUnique(f, u.id, u.depth, v.depth);
    }
    if Encloses(f, u, v) {
      AncestorsCompose(f, v.id, v.depth, u.depth, depth);
    }
    if Siblings(f, u.id, v.id) {
      SiblingsAgree(f, u.id, u.depth, v.id, v.depth);
      assert u.depth == depth;
      assert u.id == ids[0] && v.id in ids[1..];
    }
  }

  lemma DownSubtree(f: Forest, kids: Kids, ids: seq<string>, depth: nat, v: Visit)
    requires f.Valid() && Arranged(f, kids) && Level(f, ids, depth) && ids != [] && ids[0] in kids
    requires Below(f, kids[ids[0]], depth + 1, v)
    ensures var u := Visit(ids[0], depth);
            u.id != v.id && Encloses(f, u, v) && !Siblings(f, u.id, v.id) && u.id in f.firstMs && v.id in f.firstMs
  {
    TailIsALevel(f, ids, depth);
    BelowIsDisjoint(f, kids, ids, depth, v);
    DepthIsUnique(f, v.id, v.depth, v.depth);
    DepthIsUnique(f, ids[0], depth, depth);
    if ids[0] == v.id {
      DepthIsUnique(f, v.id, depth, v.depth);
    }
    if Siblings(f, ids[0], v.id) {
      SiblingsAgree(f, ids[0], depth, v.id, v.depth);
    }
  }

  /** The visits of `ids` are its head, then `sub`, then `rest`. */
  ghost predicate Subtrees(f: Forest, kids: Kids, ids: seq<string>, depth: nat, sub: seq<Visit>, rest: seq<Visit>)
    requires f.Valid()
  {
    && Arranged(f, kids) && Level(f, ids, depth) && ids != [] && ids[0] in kids
    && (forall j :: 0 <= j < |sub| ==> Below(f, kids[ids[0]], depth + 1, sub[j]))
    && (forall j :: 0 <= j < |rest| ==> Below(f, ids[1..], depth, rest[j]))
    && (rest != [] ==> rest[0].depth == depth)
  }

  lemma InThree<T>(head: T, sub: seq<T>, rest: seq<T>, k: nat)
    requires k < 1 + |sub| + |rest|
    ensures ([head] + sub + rest)[k] ==
            if k == 0 then head else if k <= |sub| then sub[k - 1] else rest[k - 1 - |sub|]
  {
  }

  lemma RelatesAcross(
    f: Forest, kids: Kids, ids: seq<string>, depth: nat, sub: seq<Visit>, rest: seq<Visit>, i: nat, k: nat)
    requires f.Valid() && Subtrees(f, kids, ids, depth, sub, rest)
    requires i <= |sub| < k < 1 + |sub| + |rest|
    ensures Related(f, [Visit(ids[0], depth)] + sub + rest, i, k)
  {
    hide Arranged, Siblings, Level;
    var vs := [Visit(ids[0], depth)] + sub + rest;
    InThree(Visit(ids[0], depth), sub, rest, i);
    InThree(Visit(ids[0], depth), sub, rest, k);
    InThree(Visit(ids[0], depth), sub, rest, 1 + |sub|);
    AcrossSubtrees(f, kids, ids, depth, vs[i], vs[k]);
    assert !RunsDeeper(vs, i, k);
  }

  lemma RelatesDown(
    f: Forest, kids: Kids, ids: seq<string>, depth: nat, sub: seq<Visit>, rest: seq<Visit>, k: nat)
    requires f.Valid() && Subtrees(f, kids, ids, depth, sub, rest)
    requires 0 < k <= |sub|
    ensures Related(f, [Visit(ids[0], depth)] + sub + rest, 0, k)
  {
    hide Arranged, Siblings;
    var vs := [Visit(ids[0], depth)] + sub + rest;
    forall m | 0 < m <= k ensures vs[m].depth > depth {
      assert vs[m] == sub[m - 1];
    }
    assert ids[0] in ids;
    DownSubtree(f, kids, ids, depth, vs[k]);
  }

  lemma FlattenStep(kids: Kids, ids: seq<string>, depth: nat, fuel: nat)
    requires ids != [] && ids[0] in kids && fuel > 0
    ensures Flatten(kids, ids, depth, fuel) ==
              [Visit(ids[0], depth)] + Flatten(kids, kids[ids[0]], depth + 1, fuel - 1)
              + Flatten(kids, ids[1..], depth, fuel)
  {
  }

  /** What a flattening is made of: the first id, its subtree, and the other ids. */
  lemma Parts(f: Forest, kids: Kids, ids: seq<string>, depth: nat, fuel: nat)
    requires f.Valid() && Arranged(f, kids) && Level(f, ids, depth) && depth + fuel >= |f.ids| && ids != []
    ensures Level(f, ids[1..], depth) && ids[0] in kids && Level(f, kids[ids[0]], depth + 1) && fuel > 0
    ensures Flatten(kids, ids, depth, fuel) ==
              [Visit(ids[0], depth)] + Flatten(kids, kids[ids[0]], depth + 1, fuel - 1)
              + Flatten(kids, ids[1..], depth, fuel)
  {
    TailIsALevel(f, ids, depth);
    KidsAreALevel(f, kids, ids[0], depth);
    FlattenStep(kids, ids, depth, fuel);
  }

  /** Two visits are related if they are within whichever part holds them both. */
  lemma RelatedByParts(f: Forest, kids: Kids, ids: seq<string>, depth: nat, fuel: nat, i: nat, k: nat)
    requires f.Valid() && Arranged(f, kids) && Level(f, ids, depth) && depth + fuel >= |f.ids| && ids != []
    requires ids[0] in kids && fuel > 0 && i < k < |Flatten(kids, ids, depth, fuel)|
    requires var n := 1 + |Flatten(kids, kids[ids[0]], depth + 1, fuel - 1)|;
             && (n <= i && k - n < |Flatten(kids, ids[1..], depth, fuel)| ==>
                   Related(f, Flatten(kids, ids[1..], depth, fuel), i - n, k - n))
             && (0 < i && k < n ==> Related(f, Flatten(kids, kids[ids[0]], depth + 1, fuel - 1), i - 1, k - 1))
    ensures Related(f, Flatten(kids, ids, depth, fuel), i, k)
  {
    hide Related, Subtrees, Arranged, Level, Flatten, DepthIs;
    Parts(f, kids, ids, depth, fuel);
    SubtreesOf(f, kids, ids, depth, fuel);
    var sub, rest := Flatten(kids, kids[ids[0]], depth + 1, fuel - 1), Flatten(kids, ids[1..], depth, fuel);
    Assemble(f, kids, ids, depth, sub, rest, i, k);
  }

  lemma FlattensSomething(kids: Kids, ids: seq<string>, depth: nat, fuel: nat)
    requires Flatten(kids, ids, depth, fuel) != []
    ensures ids != []
  {
  }

  lemma {:induction false} FlattenRelates(
    f: Forest, kids: Kids, ids: seq<string>, depth: nat, fuel: nat, i: nat, k: nat)
    requires f.Valid() && Arranged(f, kids) && Level(f, ids, depth) && depth + fuel >= |f.ids|
    requires i < k < |Flatten(kids, ids, depth, fuel)|
    ensures Related(f, Flatten(kids, ids, depth, fuel), i, k)
    decreases fuel, |ids|
  {
    hide Related, Arranged, Level, Flatten, DepthIs;
    FlattensSomething(kids, ids, depth, fuel);
    Parts(f, kids, ids, depth, fuel);
    var n := 1 + |Flatten(kids, kids[ids[0]], depth + 1, fuel - 1)|;
    if n <= i {
      FlattenRelates(f, kids, ids[1..], depth, fuel, i - n, k - n);
    } else if 0 < i && k < n {
      FlattenRelates(f, kids, kids[ids[0]], depth + 1, fuel - 1, i - 1, k - 1);
    }
    RelatedByParts(f, kids, ids, depth, fuel, i, k);
  }

  lemma Assemble(
    f: Forest, kids: Kids, ids: seq<string>, depth: nat, sub: seq<Visit>, rest: seq<Visit>, i: nat, k: nat)
    requires f.Valid() && Subtrees(f, kids, ids, depth, sub, rest)
    requires i < k < 1 + |sub| + |rest|
    requires i > |sub| ==> Related(f, rest, i - 1 - |sub|, k - 1 - |sub|)
    requires 0 < i && k <= |sub| ==> Related(f, sub, i - 1, k - 1)
    ensures Related(f, [Visit(ids[0], depth)] + sub + rest, i, k)
  {
    hide Related, Arranged, Level, Below;
    var head := Visit(ids[0], depth);
    if i > |sub| {
      ShiftIntoRest(f, head, sub, rest, i - 1 - |sub|, k - 1 - |sub|);
    } else if k > |sub| {
      RelatesAcross(f, kids, ids, depth, sub, rest, i, k);
    } else if i > 0 {
      ShiftIntoSub(f, head, sub, rest, i - 1, k - 1);
    } else {
      RelatesDown(f, kids, ids, depth, sub, rest, k);
    }
  }

  lemma ShiftIntoRest(f: Forest, head: Visit, sub: seq<Visit>, rest: seq<Visit>, i: nat, k: nat)
    requires f.Valid() && i < k < |rest| && Related(f, rest, i, k)
    ensures Related(f, [head] + sub + rest, 1 + |sub| + i, 1 + |sub| + k)
  {
    hide Related;
    RelatedShifts(f, [head] + sub, rest, [], i, k);
    assert [head] + sub + rest + [] == [head] + sub + rest;
  }

  lemma ShiftIntoSub(f: Forest, head: Visit, sub: seq<Visit>, rest: seq<Visit>, i: nat, k: nat)
    requires f.Valid() && i < k < |sub| && Related(f, sub, i, k)
    ensures Related(f, [head] + sub + rest, 1 + i, 1 + k)
  {
    hide Related;
    RelatedShifts(f, [head], sub, rest, i, k);
  }

  lemma SubtreesOf(f: Forest, kids: Kids, ids: seq<string>, depth: nat, fuel: nat)
    requires f.Valid() && Arranged(f, kids) && Level(f, ids, depth) && depth + fuel >= |f.ids| && ids != []
    ensures ids[0] in kids && fuel > 0
    ensures Subtrees(f, kids, ids, depth, Flatten(kids, kids[ids[0]], depth + 1, fuel - 1),
                     Flatten(kids, ids[1..], depth, fuel))
  {
    TailIsALevel(f, ids, depth);
    KidsAreALevel(f, kids, ids[0], depth);
    var sub := Flatten(kids, kids[ids[0]], depth + 1, fuel - 1);
    var rest := Flatten(kids, ids[1..], depth, fuel);
    forall j | 0 <= j < |sub| ensures Below(f, kids[ids[0]], depth + 1, sub[j]) {
      FlattenVisits(f, kids, kids[ids[0]], depth + 1, fuel - 1, sub[j]);
    }
    forall j | 0 <= j < |rest| ensures Below(f, ids[1..], depth, rest[j]) {
      FlattenVisits(f, kids, ids[1..], depth, fuel, rest[j]);
    }
  }

  // ----- what the traversal guarantees -----

  /** Exactly the anchored spans are visited, each at the length of its chain. */
  lemma DepthFirstVisits(f: Forest, id: string)
    requires f.Valid()
    ensures InForest(f, f.ids)
    ensures forall d: nat :: Visit(id, d) in DepthFirst(f) <==> DepthIs(f, id, d)
    ensures (exists d: nat :: Visit(id, d) in DepthFirst(f)) <==> Anchored(f, id)
  {
    RootsAreALevel(f);
    KidsAreArranged(f);
    forall d: nat ensures Visit(id, d) in DepthFirst(f) <==> DepthIs(f, id, d) {
      FlattenVisits(f, KidsOf(f), Roots(f), 0, |f.ids|, Visit(id, d));
    }
  }

  lemma DepthFirstRelates(f: Forest, i: nat, k: nat)
    requires f.Valid() && InForest(f, f.ids) && i < k < |DepthFirst(f)|
    ensures Related(f, DepthFirst(f), i, k)
  {
    RootsAreALevel(f);
    KidsAreArranged(f);
    FlattenRelates(f, KidsOf(f), Roots(f), 0, |f.ids|, i, k);
  }

  // ----- the traversal with an explicit stack -----

  datatype SpanNode = SpanNode(
    spanId: string, parentSpanId: string, role: string, stepIndex: int, depth: nat, order: nat, events: seq<Event>)

  function IsLink(spans: Spans, id: string): bool
    requires spans.Has(id)
  {
    var parent := spans.vals[id].parentSpanId;
    parent != "" && spans.Has(parent) && parent != id
  }

  function ForestOf(spans: Spans): Forest
    requires forall id :: id in spans.vals ==> spans.vals[id].events != []
  {
    Forest(
      spans.keys,
      map id | id in spans.vals && IsLink(spans, id) :: spans.vals[id].parentSpanId,
      map id | id in spans.vals :: FirstMs(spans.vals[id].events))
  }

  ghost predicate GoodSpans(spans: Spans) {
    spans.Valid() && forall id :: id in spans.vals ==> spans.vals[id].events != []
  }

  lemma ForestIsValid(spans: Spans)
    requires GoodSpans(spans)
    ensures ForestOf(spans).Valid() && InForest(ForestOf(spans), spans.keys) && Links(ForestOf(spans), spans)
  {
  }

  function NodeAt(spans: Spans, v: Visit, order: nat): SpanNode
    requires spans.Has(v.id)
  {
    var span := spans.vals[v.id];
    SpanNode(v.id, span.parentSpanId, span.role, span.stepIndex, v.depth, order, span.events)
  }

  function Levels(n: nat, depth: nat): nat {
    if depth < n then n - depth else 0
  }

  /** What is still to be visited, from the top of the stack down. */
  ghost function Remaining(kids: Kids, stack: seq<Visit>, n: nat): seq<Visit> {
    if stack == [] then []
    else
      var top := stack[|stack| - 1];
      Flatten(kids, [top.id], top.depth, Levels(n, top.depth)) + Remaining(kids, stack[..|stack| - 1], n)
  }

  function Reversed(ids: seq<string>, depth: nat): seq<Visit> {
    if ids == [] then [] else Reversed(ids[1..], depth) + [Visit(ids[0], depth)]
  }

  lemma RemainingTop(kids: Kids, below: seq<Visit>, top: Visit, n: nat)
    requires top.depth < n && top.id in kids
    ensures Remaining(kids, below + [top], n) ==
              [top] + (Flatten(kids, kids[top.id], top.depth + 1, n - top.depth - 1) + Remaining(kids, below, n))
  {
    var stack := below + [top];
    assert stack[..|stack| - 1] == below && stack[|stack| - 1] == top;
    FlattenStep(kids, [top.id], top.depth, n - top.depth);
    assert Flatten(kids, [top.id][1..], top.depth, n - top.depth) == [];
  }

  lemma Regroup<T>(head: T, a: seq<T>, b: seq<T>, c: seq<T>)
    ensures [head] + (a + (b + c)) == [head] + a + b + c
  {
  }

  /** Pushing siblings in reverse leaves them to be visited first, in order. */
  lemma {:induction false} RemainingPush(kids: Kids, stack: seq<Visit>, ids: seq<string>, depth: nat, n: nat)
    requires ids != [] ==> depth < n
    requires forall id :: id in ids ==> id in kids
    ensures Remaining(kids, stack + Reversed(ids, depth), n) ==
              Flatten(kids, ids, depth, Levels(n, depth)) + Remaining(kids, stack, n)
    decreases |ids|
  {
    if ids == [] {
      assert stack + [] == stack;
      assert [] + Remaining(kids, stack, n) == Remaining(kids, stack, n);
    } else {
      hide Flatten, Remaining;
      var v, others := Visit(ids[0], depth), Reversed(ids[1..], depth);
      var sub, later := Flatten(kids, kids[ids[0]], depth + 1, n - depth - 1), Flatten(kids, ids[1..], depth, n - depth);
      calc {
        Remaining(kids, stack + Reversed(ids, depth), n);
      == { assert stack + (others + [v]) == stack + others + [v]; }
        Remaining(kids, stack + others + [v], n);
      == { RemainingTop(kids, stack + others, v, n); }
        [v] + (sub + Remaining(kids, stack + others, n));
      == { RemainingPush(kids, stack, ids[1..], depth, n); }
        [v] + (sub + (later + Remaining(kids, stack, n)));
      == { Regroup(v, sub, later, Remaining(kids, stack, n)); }
        [v] + sub + later + Remaining(kids, stack, n);
      == { FlattenStep(kids, ids, depth, n - depth); }
        Flatten(kids, ids, depth, n - depth) + Remaining(kids, stack, n);
      }
    }
  }

  function NodesOf(spans: Spans, vs: seq<Visit>): seq<SpanNode>
    requires forall v :: v in vs ==> spans.Has(v.id)
  {
    seq(|vs|, i requires 0 <= i < |vs| => NodeAt(spans, vs[i], i))
  }

  /** `f` is the forest of `spans`, as far as its links go. */
  ghost predicate Links(f: Forest, spans: Spans) {
    && f.ids == spans.keys
    && forall id :: id in f.ids ==>
         && spans.Has(id)
         && (id in f.parent <==> IsLink(spans, id))
         && (id in f.parent ==> f.parent[id] == spans.vals[id].parentSpanId && f.parent[id] in f.ids)
  }

  lemma ChildrenStep(f: Forest, ids: seq<string>, id: string, p: string)
    ensures ChildrenIn(f, ids + [id], p) ==
              ChildrenIn(f, ids, p) + (if id in f.parent && f.parent[id] == p then [id] else [])
    ensures RootsIn(f, ids + [id]) == RootsIn(f, ids) + (if id in f.parent then [] else [id])
  {
    assert (ids + [id])[..|ids|] == ids;
  }

  /** `children` groups the spans of `done` by parent. */
  ghost predicate Grouped(f: Forest, children: map<string, seq<string>>, done: seq<string>) {
    forall p :: p in f.ids ==> p in children && children[p] == ChildrenIn(f, done, p)
  }

  lemma GroupedStep(f: Forest, children: map<string, seq<string>>, done: seq<string>, id: string)
    requires Grouped(f, children, done) && (id in f.parent ==> f.parent[id] in children)
    ensures id in f.parent ==>
              Grouped(f, children[f.parent[id] := children[f.parent[id]] + [id]], done + [id])
    ensures id !in f.parent ==> Grouped(f, children, done + [id])
  {
    hide ChildrenIn;
    forall p ensures ChildrenIn(f, done + [id], p) ==
                       ChildrenIn(f, done, p) + (if id in f.parent && f.parent[id] == p then [id] else [])
    {
      ChildrenStep(f, done, id, p);
    }
  }

  lemma NoChildren(f: Forest, spans: Spans, children: map<string, seq<string>>)
    requires Links(f, spans) && children == map p | p in spans.keys :: []
    ensures Grouped(f, children, spans.keys[..0]) && (forall p :: p in f.ids ==> p in children)
    ensures RootsIn(f, spans.keys[..0]) == []
  {
    assert spans.keys[..0] == [];
  }

  /** One turn of the linking loop. */
  lemma GroupOne(f: Forest, spans: Spans, children: map<string, seq<string>>, i: nat)
    requires Links(f, spans) && i < |spans.keys|
    requires Grouped(f, children, spans.keys[..i]) && forall p :: p in f.ids ==> p in children
    ensures spans.Has(spans.keys[i])
    ensures var id, done := spans.keys[i], spans.keys[..i + 1];
            var parent := spans.vals[id].parentSpanId;
            && (IsLink(spans, id) ==>
                  && parent in f.ids
                  && Grouped(f, children[parent := children[parent] + [id]], done)
                  && RootsIn(f, done) == RootsIn(f, spans.keys[..i]))
            && (!IsLink(spans, id) ==>
                  Grouped(f, children, done) && RootsIn(f, done) == RootsIn(f, spans.keys[..i]) + [id])
  {
    hide ChildrenIn, RootsIn, IsLink, Grouped;
    var id, done := spans.keys[i], spans.keys[..i];
    assert spans.keys[..i + 1] == done + [id];
    assert id in f.ids;
    ChildrenStep(f, done, id, "");
    GroupedStep(f, children, done, id);
    assert RootsIn(f, done) + [] == RootsIn(f, done);
  }

  method GroupChildren(ghost f: Forest, spans: Spans)
    returns (children: map<string, seq<string>>, roots: seq<string>)
    requires Links(f, spans)
    ensures Grouped(f, children, f.ids)
    ensures roots == RootsIn(f, f.ids)
  {
    assert f.ids == spans.keys;
    hide Links, Grouped, ChildrenIn, RootsIn, IsLink;
    children := map p | p in spans.keys :: [];
    roots := [];
    NoChildren(f, spans, children);
    for i := 0 to |spans.keys|
      invariant Grouped(f, children, spans.keys[..i]) && forall p :: p in f.ids ==> p in children
      invariant roots == RootsIn(f, spans.keys[..i])
    {
      var id := spans.keys[i];
      GroupOne(f, spans, children, i);
      if IsLink(spans, id) {
        var parent := spans.vals[id].parentSpanId;
        children := children[parent := children[parent] + [id]];
      } else {
        roots := roots + [id];
      }
    }
    assert spans.keys[..|spans.keys|] == spans.keys;
  }

  lemma DepthFirstIsKnown(spans: Spans)
    requires GoodSpans(spans)
    ensures InForest(ForestOf(spans), spans.keys)
    ensures forall v :: v in DepthFirst(ForestOf(spans)) ==> spans.Has(v.id)
  {
    var f := ForestOf(spans);
    ForestIsValid(spans);
    forall v | v in DepthFirst(f) ensures spans.Has(v.id) {
      DepthFirstVisits(f, v.id);
      assert Visit(v.id, v.depth) in DepthFirst(f);
      DepthIsUnique(f, v.id, v.depth, v.depth);
    }
  }

  lemma RootsFit(f: Forest)
    requires f.Valid() && InForest(f, f.ids)
    ensures Roots(f) != [] ==> 0 < |f.ids|
    ensures forall id :: id in Roots(f) ==> id in KidsOf(f)
    ensures forall v :: v in Reversed(Roots(f), 0) ==> DepthIs(f, v.id, v.depth)
  {
    RootsAreALevel(f);
    PushedDepths(f, Roots(f), 0);
  }

  lemma KidsFit(f: Forest, kids: Kids, top: Visit)
    requires f.Valid() && Arranged(f, kids) && DepthIs(f, top.id, top.depth) && top.id in kids
    ensures top.depth + 1 <= |f.ids|
    ensures kids[top.id] != [] ==> top.depth + 1 < |f.ids|
    ensures forall id :: id in kids[top.id] ==> id in kids && DepthIs(f, id, top.depth + 1)
  {
    DepthIsBounded(f, top.id, top.depth);
    KidsAreALevel(f, kids, top.id, top.depth);
    forall id | id in kids[top.id] ensures id in kids && top.depth + 1 < |f.ids| {
      DepthIsBounded(f, id, top.depth + 1);
      DepthIsUnique(f, id, top.depth + 1, top.depth + 1);
    }
    if kids[top.id] != [] {
      assert kids[top.id][0] in kids[top.id];
    }
  }

  lemma {:induction false} PushedDepths(f: Forest, ids: seq<string>, depth: nat)
    requires f.Valid() && forall id :: id in ids ==> DepthIs(f, id, depth)
    ensures forall v :: v in Reversed(ids, depth) ==> DepthIs(f, v.id, v.depth)
    decreases |ids|
  {
    if ids != [] {
      PushedDepths(f, ids[1..], depth);
    }
  }

  ghost function FirstIds(vs: seq<Visit>, n: nat): set<string>
    requires n <= |vs|
  {
    set j | 0 <= j < n :: vs[j].id
  }

  /** The span on top of the stack has not been visited: the `visited` test never fires. */
  lemma NotYetVisited(f: Forest, vs: seq<Visit>, n: nat)
    requires f.Valid() && InForest(f, f.ids) && vs == DepthFirst(f) && n < |vs|
    ensures vs[n].id !in FirstIds(vs, n)
    ensures FirstIds(vs, n + 1) == FirstIds(vs, n) + {vs[n].id}
  {
    hide DepthFirst;
    forall j | 0 <= j < n ensures vs[j].id != vs[n].id {
      VisitsDiffer(f, j, n);
    }
  }

  lemma VisitsDiffer(f: Forest, j: nat, n: nat)
    requires f.Valid() && InForest(f, f.ids) && j < n < |DepthFirst(f)|
    ensures DepthFirst(f)[j].id != DepthFirst(f)[n].id
  {
    hide DepthFirst;
    DepthFirstRelates(f, j, n);
  }

  /** The first `done` visits have been emitted and `stack` holds the rest. */
  ghost predicate Progress(f: Forest, kids: Kids, vs: seq<Visit>, stack: seq<Visit>, done: nat)
    requires f.Valid()
  {
    && (forall v :: v in stack ==> DepthIs(f, v.id, v.depth))
    && done <= |vs| && vs[done..] == Remaining(kids, stack, |f.ids|)
  }

  lemma ProgressStarts(f: Forest, kids: Kids)
    requires f.Valid() && InForest(f, f.ids) && kids == KidsOf(f)
    ensures Arranged(f, kids) && Progress(f, kids, DepthFirst(f), Reversed(Roots(f), 0), 0)
  {
    hide Sorted, KidsOf, Roots, Flatten, Arranged, Reversed;
    RootsAreALevel(f);
    KidsAreArranged(f);
    RootsFit(f);
    RemainingPush(kids, [], Roots(f), 0, |f.ids|);
    assert [] + Reversed(Roots(f), 0) == Reversed(Roots(f), 0);
    assert DepthFirst(f)[0..] == DepthFirst(f) == DepthFirst(f) + [];
  }

  lemma ProgressSteps(f: Forest, kids: Kids, vs: seq<Visit>, stack: seq<Visit>, done: nat)
    requires f.Valid() && Arranged(f, kids) && Progress(f, kids, vs, stack, done) && stack != []
    ensures var top := stack[|stack| - 1];
            && top.id in kids && done < |vs| && vs[done] == top
            && Progress(f, kids, vs, stack[..|stack| - 1] + Reversed(kids[top.id], top.depth + 1), done + 1)
  {
    hide Flatten, Remaining;
    var top, below := stack[|stack| - 1], stack[..|stack| - 1];
    var n := |f.ids|;
    assert top in stack;
    DepthIsBounded(f, top.id, top.depth);
    KidsAreALevel(f, kids, top.id, top.depth);
    assert stack == below + [top];
    RemainingTop(kids, below, top, n);
    assert vs[done] == vs[done..][0] && vs[done + 1..] == vs[done..][1..];
    KidsFit(f, kids, top);
    RemainingPush(kids, below, kids[top.id], top.depth + 1, n);
    PushedDepths(f, kids[top.id], top.depth + 1);
  }

  lemma ProgressEnds(f: Forest, kids: Kids, vs: seq<Visit>, done: nat)
    requires f.Valid() && Progress(f, kids, vs, [], done)
    ensures done == |vs| && vs[..done] == vs
  {
    assert |vs[done..]| == 0;
  }

  lemma RootsAre(f: Forest, roots: seq<string>)
    requires InForest(f, f.ids) && roots == RootsIn(f, f.ids)
    ensures InForest(f, roots) && Sorted(f, roots) == Roots(f)
    ensures forall vs: seq<Visit> :: FirstIds(vs, 0) == {}
  {
  }

  lemma KidsMatch(f: Forest, children: map<string, seq<string>>, id: string)
    requires InForest(f, f.ids) && id in KidsOf(f) && Grouped(f, children, f.ids)
    ensures id in children && InForest(f, children[id]) && KidsOf(f)[id] == Sorted(f, children[id])
  {
  }

  lemma NodesGrow(spans: Spans, vs: seq<Visit>, n: nat)
    requires n < |vs| && forall v :: v in vs ==> spans.Has(v.id)
    ensures vs[n] in vs && NodesOf(spans, vs[..n + 1]) == NodesOf(spans, vs[..n]) + [NodeAt(spans, vs[n], n)]
  {
  }

  method Traverse(f: Forest, spans: Spans, children: map<string, seq<string>>, roots: seq<string>)
    returns (nodes: seq<SpanNode>)
    requires f.Valid() && InForest(f, f.ids) && roots == RootsIn(f, f.ids)
    requires Grouped(f, children, f.ids)
    requires forall v :: v in DepthFirst(f) ==> spans.Has(v.id)
    ensures nodes == NodesOf(spans, DepthFirst(f))
  {
    hide Progress, Arranged, DepthFirst, FirstIds, KidsOf, Sorted, Distinct, Grouped, RootsIn;
    ghost var kids, vs := KidsOf(f), DepthFirst(f);
    ProgressStarts(f, kids);
    RootsAre(f, roots);
    var stack := Reversed(Sorted(f, roots), 0);
    nodes := [];
    var visited: set<string> := {};
    while stack != []
      invariant Progress(f, kids, vs, stack, |nodes|) && |nodes| <= |vs|
      invariant nodes == NodesOf(spans, vs[..|nodes|])
      invariant visited == FirstIds(vs, |nodes|)
      decreases |vs| - |nodes|
    {
      hide NodesOf;
      var top := stack[|stack| - 1];
      ProgressSteps(f, kids, vs, stack, |nodes|);
      NotYetVisited(f, vs, |nodes|);
      NodesGrow(spans, vs, |nodes|);
      stack := stack[..|stack| - 1];
      assert top.id !in visited;
      if top.id !in visited {
        visited := visited + {top.id};
        nodes := nodes + [NodeAt(spans, top, |nodes|)];
        KidsMatch(f, children, top.id);
        stack := stack + Reversed(Sorted(f, children[top.id]), top.depth + 1);
      }
    }
    ProgressEnds(f, kids, vs, |nodes|);
  }

  /** The flattening of an activation's events. */
  method SpanTree(events: seq<Event>) returns (nodes: seq<SpanNode>)
    ensures GoodSpans(Collected(events)) && InForest(ForestOf(Collected(events)), Collected(events).keys)
    ensures forall v :: v in DepthFirst(ForestOf(Collected(events))) ==> Collected(events).Has(v.id)
    ensures nodes == NodesOf(Collected(events), DepthFirst(ForestOf(Collected(events))))
  {
    var spans := CollectSpans(events);
    SpansAreGood(events);
    ForestIsValid(spans);
    DepthFirstIsKnown(spans);
    var children, roots := GroupChildren(ForestOf(spans), spans);
    nodes := Traverse(ForestOf(spans), spans, children, roots);
  }

  lemma SpansAreGood(events: seq<Event>)
    ensures GoodSpans(Collected(events))
  {
    CollectedSpans(events, "");
    forall id | id in Collected(events).vals ensures Collected(events).vals[id].events != [] {
      CollectedSpans(events, id);
    }
  }

  /** The forest, from the events: a span's parent is the one its first event names, if
      that is another span with events; its first time is the least start of its own. */
  lemma ForestFromEvents(events: seq<Event>, id: string)
    ensures GoodSpans(Collected(events))
    ensures var f, own := ForestOf(Collected(events)), EventsOn(events, id);
            && (id in f.ids <==> own != [])
            && (id in f.parent <==>
                  && own != [] && own[0].parentSpanId != "" && own[0].parentSpanId != id
                  && EventsOn(events, own[0].parentSpanId) != [])
            && (id in f.parent ==> f.parent[id] == own[0].parentSpanId)
            && (own != [] ==>
                  && id in f.firstMs
                  && (exists e :: e in own && e.startMs == f.firstMs[id])
                  && (forall e :: e in own ==> f.firstMs[id] <= e.startMs))
  {
    hide EventsOn, Collected, FirstMs;
    SpansAreGood(events);
    CollectedSpans(events, id);
    var own := EventsOn(events, id);
    if own != [] {
      CollectedSpans(events, own[0].parentSpanId);
    }
  }

  ghost function TreeOf(events: seq<Event>): seq<SpanNode> {
    SpansAreGood(events);
    ForestIsValid(Collected(events));
    DepthFirstIsKnown(Collected(events));
    NodesOf(Collected(events), DepthFirst(ForestOf(Collected(events))))
  }

  /** `nodes[i]` and `nodes[k]`, `i` before `k`: different spans; the later is below
      the earlier exactly when everything listed between is deeper than the
      earlier; siblings are listed by first event time, then id. */
  ghost predicate NodesRelate(f: Forest, nodes: seq<SpanNode>, i: nat, k: nat)
    requires f.Valid() && i < k < |nodes|
  {
    var a, b := nodes[i], nodes[k];
    && a.spanId != b.spanId
    && DepthIs(f, b.spanId, b.depth)
    && ((forall m :: i < m <= k ==> nodes[m].depth > a.depth) <==>
          b.depth > a.depth && AncestorAt(f, b.spanId, b.depth, a.depth) == a.spanId)
    && ((a.spanId !in f.parent && b.spanId !in f.parent)
        || (a.spanId in f.parent && b.spanId in f.parent && f.parent[a.spanId] == f.parent[b.spanId]) ==>
          && a.spanId in f.firstMs && b.spanId in f.firstMs
          && (|| f.firstMs[a.spanId] < f.firstMs[b.spanId]
              || (f.firstMs[a.spanId] == f.firstMs[b.spanId] && StringLess(a.spanId, b.spanId))))
  }

  lemma NodesRelateAsVisits(f: Forest, spans: Spans, vs: seq<Visit>, i: nat, k: nat)
    requires f.Valid() && i < k < |vs| && Related(f, vs, i, k)
    requires forall v :: v in vs ==> spans.Has(v.id)
    ensures NodesRelate(f, NodesOf(spans, vs), i, k)
  {
    var nodes := NodesOf(spans, vs);
    assert forall m :: 0 <= m < |vs| ==> nodes[m].depth == vs[m].depth && nodes[m].spanId == vs[m].id;
    assert (forall m :: i < m <= k ==> nodes[m].depth > nodes[i].depth) <==> RunsDeeper(vs, i, k);
  }

  lemma TreeIsDepthFirst(events: seq<Event>, i: nat, k: nat)
    requires i < k < |TreeOf(events)|
    ensures GoodSpans(Collected(events)) && ForestOf(Collected(events)).Valid()
    ensures NodesRelate(ForestOf(Collected(events)), TreeOf(events), i, k)
  {
    hide NodesRelate, Related, DepthFirst, Collected, ForestOf;
    var spans := Collected(events);
    SpansAreGood(events);
    ForestIsValid(spans);
    DepthFirstIsKnown(spans);
    DepthFirstRelates(ForestOf(spans), i, k);
    NodesRelateAsVisits(ForestOf(spans), spans, DepthFirst(ForestOf(spans)), i, k);
  }

  ghost predicate Listed(nodes: seq<SpanNode>, id: string, d: nat) {
    exists i :: 0 <= i < |nodes| && nodes[i].spanId == id && nodes[i].depth == d
  }

  lemma ListedAsVisited(spans: Spans, vs: seq<Visit>, id: string, d: nat)
    requires forall v :: v in vs ==> spans.Has(v.id)
    ensures Listed(NodesOf(spans, vs), id, d) <==> Visit(id, d) in vs
  {
    var nodes := NodesOf(spans, vs);
    if Visit(id, d) in vs {
      var i :| 0 <= i < |vs| && vs[i] == Visit(id, d);
      assert nodes[i].spanId == id && nodes[i].depth == d;
    }
    if i :| 0 <= i < |nodes| && nodes[i].spanId == id && nodes[i].depth == d {
      assert vs[i] == Visit(id, d);
    }
  }

  /** A span is listed exactly when its parent chain reaches a root, at the length
      of that chain. */
  lemma TreeLists(events: seq<Event>, id: string, d: nat)
    ensures GoodSpans(Collected(events)) && ForestOf(Collected(events)).Valid()
    ensures Listed(TreeOf(events), id, d) <==> DepthIs(ForestOf(Collected(events)), id, d)
  {
    hide DepthFirst, Collected, ForestOf, Listed;
    var spans := Collected(events);
    SpansAreGood(events);
    ForestIsValid(spans);
    DepthFirstIsKnown(spans);
    DepthFirstVisits(ForestOf(spans), id);
    ListedAsVisited(spans, DepthFirst(ForestOf(spans)), id, d);
  }

  /** A listed span carries its position and exactly its own events. */
  lemma TreeNodes(events: seq<Event>, i: nat)
    ensures i < |TreeOf(events)| ==>
              var node := TreeOf(events)[i];
              && node.order == i
              && node.events == EventsOn(events, node.spanId) != []
              && node.parentSpanId == node.events[0].parentSpanId
              && node.role == (if node.events[0].eventType in {"ACTIVATION_START", "ACTIVATION_END"} then "ACTIVATION"
                               else node.events[0].eventType)
              && (exists e :: e in node.events && e.stepIndex == node.stepIndex)
              && (forall e :: e in node.events ==> node.stepIndex <= e.stepIndex)
  {
    hide DepthFirst, Collected, ForestOf, EventsOn, LeastStep;
    var spans := Collected(events);
    SpansAreGood(events);
    ForestIsValid(spans);
    DepthFirstIsKnown(spans);
    if i < |DepthFirst(ForestOf(spans))| {
      var v := DepthFirst(ForestOf(spans))[i];
      assert spans.Has(v.id);
      CollectedSpans(events, v.id);
    }
  }
}
