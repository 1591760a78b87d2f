/** Remembering which intents were dealt with, in bounded memory: what is forgotten,
    and what forgetting can let through a second time.
 */
module Tracking {
  import opened OrderedDict
  import opened Wrappers

  type Id = string

  /** Intent id to expiry, oldest first. */
  type Tracked = Dict<Id, int>

  const MAX_TRACKED: nat := 4096
  const RETENTION_MS: int := 3_600_000

  /** Live strictly before the expiry; no expiry recorded reads as expired. */
  predicate Expired(expiresAtMs: int, nowMs: int) {
    expiresAtMs <= 0 || expiresAtMs <= nowMs
  }

  // ----- forgetting the oldest -----

  function Restrict(d: Tracked, keys: seq<Id>): Tracked
    requires d.Valid() && forall k :: k in keys ==> k in d.keys
  {
    Dict(keys, map k | k in keys :: d.vals[k])
  }

  /** The newest `cap` entries. */
  function Newest(d: Tracked, cap: nat): Tracked
    requires d.Valid()
  {
    if |d.keys| <= cap then d else Restrict(d, d.keys[|d.keys| - cap..])
  }

  lemma {:induction false} WithoutAbsent(keys: seq<Id>, k: Id)
    requires k !in keys
    ensures Without(keys, k) == keys
    decreases |keys|
  {
  }

  lemma DelOldest(d: Tracked)
    requires d.Valid() && d.keys != []
    ensures d.Del(d.keys[0]).Valid() && d.Del(d.keys[0]).keys == d.keys[1..]
  {
    DelIsValid(d, d.keys[0]);
    assert d.keys[0] !in d.keys[1..];
    WithoutAbsent(d.keys[1..], d.keys[0]);
  }

  lemma RestrictAgain(d: Tracked, k: Id, keys: seq<Id>)
    requires d.Valid() && d.Del(k).Valid() && forall x :: x in keys ==> x in d.keys && x != k
    ensures forall x :: x in keys ==> x in d.Del(k).keys
    ensures Restrict(d.Del(k), keys) == Restrict(d, keys)
  {
  }

  lemma RestrictAll(d: Tracked)
    requires d.Valid()
    ensures Restrict(d, d.keys) == d
  {
    assert Restrict(d, d.keys).vals == d.vals;
  }

  lemma KeptAreNewer(d: Tracked, cap: nat, x: Id)
    requires d.Valid() && |d.keys| > cap && x in d.keys[|d.keys| - cap..]
    ensures x in d.keys && x != d.keys[0]
  {
  }

  lemma DropOldest(d: Tracked, cap: nat)
    requires d.Valid() && |d.keys| > cap
    ensures d.Del(d.keys[0]).Valid() && Newest(d.Del(d.keys[0]), cap) == Newest(d, cap)
  {
    hide Without, Restrict, Newest, Distinct;
    DelOldest(d);
    var oldest, kept := d.keys[0], d.keys[|d.keys| - cap..];
    forall x | x in kept ensures x in d.keys && x != oldest {
      KeptAreNewer(d, cap, x);
    }
    RestrictAgain(d, oldest, kept);
    NewestOfRest(d, cap);
  }

  lemma NewestOfRest(d: Tracked, cap: nat)
    requires d.Valid() && |d.keys| > cap && d.Del(d.keys[0]).Valid()
    requires var rest := d.Del(d.keys[0]);
             && rest.keys == d.keys[1..]
             && (forall x :: x in d.keys[|d.keys| - cap..] ==> x in rest.keys)
             && Restrict(rest, d.keys[|d.keys| - cap..]) == Restrict(d, d.keys[|d.keys| - cap..])
    ensures Newest(d.Del(d.keys[0]), cap) == Newest(d, cap)
  {
    hide Without, Restrict, Distinct;
    var rest, kept := d.Del(d.keys[0]), d.keys[|d.keys| - cap..];
    assert rest.keys[|rest.keys| - cap..] == kept;
    if |rest.keys| <= cap {
      assert rest.keys == kept;
      RestrictAll(rest);
    }
  }

  method EvictOldest(tracked: Tracked, cap: nat) returns (r: Tracked)
    requires tracked.Valid()
    ensures r == Newest(tracked, cap)
  {
    r := tracked;
    while |r.keys| > cap
      invariant r.Valid() && Newest(r, cap) == Newest(tracked, cap)
      decreases |r.keys|
    {
      DropOldest(r, cap);
      DelOldest(r);
      var oldest := r.keys[0];
      r := r.Del(oldest);
    }
  }

  // ----- forgetting the long dead -----

  predicate LongDead(expiresAtMs: int, nowMs: int) {
    expiresAtMs + RETENTION_MS <= nowMs
  }

  function LiveKeys(keys: seq<Id>, vals: map<Id, int>, nowMs: int): (r: seq<Id>)
    ensures forall k :: k in r ==> k in keys
    ensures forall k :: k in r <==> k in keys && !(k in vals && LongDead(vals[k], nowMs))
  {
    if keys == [] then []
    else
      (if keys[0] in vals && LongDead(vals[keys[0]], nowMs) then [] else [keys[0]]) + LiveKeys(keys[1..], vals, nowMs)
  }

  function Surviving(d: Tracked, nowMs: int): Tracked
    requires d.Valid()
  {
    Restrict(d, LiveKeys(d.keys, d.vals, nowMs))
  }

  lemma {:induction false} LiveKeysStep(keys: seq<Id>, vals: map<Id, int>, k: Id, nowMs: int)
    requires Distinct(keys) && (forall x :: x in keys ==> x in vals) && k in vals && LongDead(vals[k], nowMs)
    ensures LiveKeys(Without(keys, k), vals - {k}, nowMs) == LiveKeys(keys, vals, nowMs)
    decreases |keys|
  {
    if keys != [] {
      assert keys == [keys[0]] + keys[1..];
      if k !in keys[1..] {
        WithoutAbsent(keys[1..], k);
      }
      LiveKeysStep(keys[1..], vals, k, nowMs);
    }
  }

  lemma {:induction false} NothingDead(keys: seq<Id>, vals: map<Id, int>, nowMs: int)
    requires forall k :: k in keys ==> k in vals && !LongDead(vals[k], nowMs)
    ensures LiveKeys(keys, vals, nowMs) == keys
    decreases |keys|
  {
    if keys != [] {
      assert keys[0] in keys && forall k :: k in keys[1..] ==> k in keys;
      NothingDead(keys[1..], vals, nowMs);
    }
  }

  lemma ForgetOne(d: Tracked, k: Id, nowMs: int)
    requires d.Valid() && d.Has(k) && LongDead(d.vals[k], nowMs)
    ensures d.Del(k).Valid() && Surviving(d.Del(k), nowMs) == Surviving(d, nowMs)
  {
    hide Without, Distinct, Restrict;
    DelIsValid(d, k);
    LiveKeysStep(d.keys, d.vals, k, nowMs);
    RestrictAgain(d, k, LiveKeys(d.keys, d.vals, nowMs));
  }

  lemma NothingToForget(d: Tracked, nowMs: int)
    requires d.Valid() && forall k :: d.Has(k) ==> !LongDead(d.vals[k], nowMs)
    ensures Surviving(d, nowMs) == d
  {
    NothingDead(d.keys, d.vals, nowMs);
    assert Surviving(d, nowMs).vals == d.vals;
  }

  lemma DelKeeps(d: Tracked, k: Id, keys: seq<Id>)
    requires forall x :: x in keys ==> d.Has(x) && x != k
    ensures forall x :: x in keys ==> d.Del(k).Has(x)
  {
  }

  lemma KeyOnce(d: Tracked, i: nat)
    requires d.Valid() && i < |d.keys|
    ensures d.keys[i] !in d.keys[i + 1..]
  {
  }

  method ForgetLongDead(tracked: Tracked, nowMs: int) returns (r: Tracked)
    requires tracked.Valid()
    ensures r == Surviving(tracked, nowMs)
  {
    hide Surviving, LongDead, Without, Distinct;
    var items := tracked.keys;
    r := tracked;
    for i := 0 to |items|
      invariant r.Valid() && Surviving(r, nowMs) == Surviving(tracked, nowMs)
      invariant forall k :: r.Has(k) ==> tracked.Has(k) && r.vals[k] == tracked.vals[k]
      invariant forall k :: r.Has(k) ==> k in items[i..] || !LongDead(tracked.vals[k], nowMs)
      invariant forall k :: k in items[i..] ==> r.Has(k)
    {
      var k := items[i];
      assert items[i..] == [k] + items[i + 1..];
      KeyOnce(tracked, i);
      assert forall x :: x in items[i + 1..] ==> r.Has(x) && x != k;
      if LongDead(tracked.vals[k], nowMs) {
        ForgetOne(r, k, nowMs);
        DelKeeps(r, k, items[i + 1..]);
        r := r.Del(k);
      }
    }
    NothingToForget(r, nowMs);
  }

  // ----- a guard: what was let through, and what it remembers -----

  /** One intent let through; `live` if the expiry gate was passed. */
  datatype Mark = Mark(id: Id, live: bool)

  /** The tracked ids, everything ever let through, and an id let through but not yet tracked. */
  datatype Guard = Guard(tracked: Tracked, marks: seq<Mark>, inFlight: Option<Id>)

  ghost function Ids(marks: seq<Mark>): set<Id> {
    set m | m in marks :: m.id
  }

  /** The other ids let through after mark `i` and before mark `j`. */
  ghost function Between(marks: seq<Mark>, i: nat, j: nat): set<Id>
    requires i < j <= |marks|
  {
    Ids(marks[i + 1..j]) - {marks[i].id}
  }

  /** Whatever is let through live a second time is separated from the first time by a
      full table of other ids. */
  ghost predicate Separated(marks: seq<Mark>) {
    forall i, j :: 0 <= i < j < |marks| && marks[i].id == marks[j].id && marks[j].live ==>
      |Between(marks, i, j)| >= MAX_TRACKED
  }

  /** The keys that come after `id`. */
  function After(keys: seq<Id>, id: Id): seq<Id> {
    if keys == [] then [] else if keys[0] == id then keys[1..] else After(keys[1..], id)
  }

  /** `id` is tracked, and everything tracked after it was let through since mark `l`. */
  ghost predicate Covered(keys: seq<Id>, id: Id, since: set<Id>) {
    id in keys && forall k :: k in After(keys, id) ==> k in since
  }

  ghost predicate Settled(g: Guard, exp: Id -> int, clock: int, l: nat)
    requires l < |g.marks|
  {
    var id := g.marks[l].id;
    || Expired(exp(id), clock)
    || (g.inFlight == Some(id) && l == |g.marks| - 1)
    || |Between(g.marks, l, |g.marks|)| >= MAX_TRACKED
    || Covered(g.tracked.keys, id, Ids(g.marks[l + 1..]))
  }

  ghost predicate Sound(g: Guard, exp: Id -> int) {
    && g.tracked.Valid()
    && |g.tracked.keys| <= MAX_TRACKED
    && (forall k :: g.tracked.Has(k) ==> g.tracked.vals[k] == exp(k) && k in Ids(g.marks))
    && (g.inFlight.Some? ==>
          && g.marks != [] && g.marks[|g.marks| - 1].id == g.inFlight.value
          && !g.tracked.Has(g.inFlight.value))
    && Separated(g.marks)
  }

  ghost predicate AllSettled(g: Guard, exp: Id -> int, clock: int) {
    forall l :: 0 <= l < |g.marks| ==> Settled(g, exp, clock, l)
  }

  ghost predicate GuardInv(g: Guard, exp: Id -> int, clock: int) {
    Sound(g, exp) && AllSettled(g, exp, clock)
  }

  // ----- the steps of a guard -----

  function Opened(g: Guard, id: Id, live: bool): Guard {
    g.(marks := g.marks + [Mark(id, live)], inFlight := Some(id))
  }

  function Recorded(g: Guard, expiresAtMs: int): Guard
    requires g.inFlight.Some? && g.tracked.Valid()
  {
    PutIsValid(g.tracked, g.inFlight.value, expiresAtMs);
    g.(tracked := Newest(g.tracked.Put(g.inFlight.value, expiresAtMs), MAX_TRACKED), inFlight := None)
  }

  function Swept(g: Guard, nowMs: int): Guard
    requires g.tracked.Valid()
  {
    g.(tracked := Surviving(g.tracked, nowMs))
  }

  lemma TimeKeeps(g: Guard, exp: Id -> int, clock: int, later: int)
    requires GuardInv(g, exp, clock) && clock <= later
    ensures GuardInv(g, exp, later)
  {
    hide Sound, Covered, Between;
    forall l | 0 <= l < |g.marks| ensures Settled(g, exp, later, l) {
      assert Settled(g, exp, clock, l);
    }
  }

  lemma SetGrows(a: set<Id>, b: set<Id>)
    requires a <= b
    ensures |a| <= |b|
  {
    var c := b - a;
    assert b == a + c && a !! c;
  }

  lemma OpenSettles(g: Guard, exp: Id -> int, clock: int, id: Id, live: bool, l: nat)
    requires l < |g.marks| && g.inFlight.None? && Settled(g, exp, clock, l)
    ensures Settled(Opened(g, id, live), exp, clock, l)
  {
    var h := Opened(g, id, live);
    assert h.marks[l + 1..] == g.marks[l + 1..] + [Mark(id, live)];
    assert g.marks[l + 1..|g.marks|] == g.marks[l + 1..];
    assert h.marks[l + 1..|h.marks|] == h.marks[l + 1..];
    SetGrows(Between(g.marks, l, |g.marks|), Between(h.marks, l, |h.marks|));
  }

  lemma OpenSeparates(g: Guard, exp: Id -> int, clock: int, id: Id, live: bool)
    requires GuardInv(g, exp, clock) && g.inFlight.None? && !g.tracked.Has(id) && (live ==> !Expired(exp(id), clock))
    ensures Separated(Opened(g, id, live).marks)
  {
    var n, marks := |g.marks|, Opened(g, id, live).marks;
    forall i, j | 0 <= i < j < |marks| && marks[i].id == marks[j].id && marks[j].live
      ensures |Between(marks, i, j)| >= MAX_TRACKED
    {
      assert marks[i + 1..j] == g.marks[i + 1..j];
      if j == n {
        assert Settled(g, exp, clock, i);
        assert id !in g.tracked.keys;
      } else {
        assert marks[j] == g.marks[j] && marks[i] == g.marks[i];
        assert Between(marks, i, j) == Between(g.marks, i, j);
      }
    }
  }

  /** Letting an id through keeps the guard, provided the id is not tracked and, if it
      goes through live, has not expired. */
  lemma OpenKeeps(g: Guard, exp: Id -> int, clock: int, id: Id, live: bool)
    requires GuardInv(g, exp, clock) && g.inFlight.None? && !g.tracked.Has(id) && (live ==> !Expired(exp(id), clock))
    ensures GuardInv(Opened(g, id, live), exp, clock)
  {
    hide Settled, Separated, Expired;
    var n, h := |g.marks|, Opened(g, id, live);
    OpenSeparates(g, exp, clock, id, live);
    assert Ids(g.marks) <= Ids(h.marks) by {
      assert forall m :: m in g.marks ==> m in h.marks;
    }
    forall l | 0 <= l < |h.marks| ensures Settled(h, exp, clock, l) {
      if l < n {
        OpenSettles(g, exp, clock, id, live, l);
      } else {
        LastIsSettled(h, exp, clock);
      }
    }
  }

  lemma LastIsSettled(g: Guard, exp: Id -> int, clock: int)
    requires g.marks != [] && g.inFlight == Some(g.marks[|g.marks| - 1].id)
    ensures Settled(g, exp, clock, |g.marks| - 1)
  {
  }

  lemma {:induction false} AfterAppend(keys: seq<Id>, id: Id, k: Id)
    requires id in keys
    ensures After(keys + [k], id) == After(keys, id) + [k]
    decreases |keys|
  {
    if keys[0] == id {
      assert (keys + [k])[1..] == keys[1..] + [k];
    } else {
      assert (keys + [k])[1..] == keys[1..] + [k];
      AfterAppend(keys[1..], id, k);
    }
  }

  lemma {:induction false} AfterLast(keys: seq<Id>, k: Id)
    requires k !in keys
    ensures After(keys + [k], k) == []
    decreases |keys|
  {
    if keys != [] {
      assert (keys + [k])[1..] == keys[1..] + [k];
      AfterLast(keys[1..], k);
    }
  }

  lemma {:induction false} DistinctSet(keys: seq<Id>, s: set<Id>)
    requires Distinct(keys) && forall k :: k in keys ==> k in s
    ensures |s| >= |keys|
    ensures (forall k :: k in s ==> k in keys) ==> |s| == |keys|
    decreases |keys|
  {
    if keys == [] {
      assert s != {} ==> exists k :: k in s;
    } else {
      assert keys[0] in keys && keys[0] !in keys[1..];
      assert forall k :: k in keys[1..] ==> k in keys;
      DistinctSet(keys[1..], s - {keys[0]});
    }
  }

  /** After an entry is put into a table of at most the cap, at most the oldest goes. */
  lemma PutThenEvict(d: Tracked, k: Id, v: int)
    requires d.Valid() && |d.keys| <= MAX_TRACKED && !d.Has(k)
    ensures d.Put(k, v).Valid()
    ensures var r := Newest(d.Put(k, v), MAX_TRACKED);
            && r.Valid() && |r.keys| <= MAX_TRACKED
            && r.keys == (if |d.keys| < MAX_TRACKED then d.keys + [k] else d.keys[1..] + [k])
            && (forall x :: r.Has(x) ==> r.vals[x] == d.Put(k, v).vals[x] && d.Put(k, v).Has(x))
  {
    PutIsValid(d, k, v);
    var p := d.Put(k, v);
    if |d.keys| == MAX_TRACKED {
      assert p.keys[|p.keys| - MAX_TRACKED..] == d.keys[1..] + [k];
      assert Distinct(p.keys[1..]) by {
        assert Distinct(p.keys);
      }
    }
  }

  lemma RecordSettles(g: Guard, exp: Id -> int, clock: int, l: nat)
    requires GuardInv(g, exp, clock) && g.inFlight.Some? && l < |g.marks|
    ensures Settled(Recorded(g, exp(g.inFlight.value)), exp, clock, l)
  {
    hide Expired, Separated, Newest;
    var k, id := g.inFlight.value, g.marks[l].id;
    var h, keys, since := Recorded(g, exp(k)), g.tracked.keys, Ids(g.marks[l + 1..]);
    PutThenEvict(g.tracked, k, exp(k));
    assert Settled(g, exp, clock, l);
    assert k !in keys;
    if l == |g.marks| - 1 {
      AfterLast(if |keys| < MAX_TRACKED then keys else keys[1..], k);
      assert k in h.tracked.keys;
    } else if Covered(keys, id, since) {
      assert g.marks[|g.marks| - 1] in g.marks[l + 1..];
      assert k in since;
      AfterAppend(keys, id, k);
      if |keys| == MAX_TRACKED {
        EvictionSettles(keys, id, k, g.marks, l);
      }
    }
  }

  /** When the oldest is evicted for `k`: either it is `id`, and a full table of others
      has been let through since, or `id` stays covered. */
  lemma EvictionSettles(keys: seq<Id>, id: Id, k: Id, marks: seq<Mark>, l: nat)
    requires Distinct(keys) && |keys| == MAX_TRACKED && k !in keys && l < |marks| && marks[l].id == id
    requires Covered(keys, id, Ids(marks[l + 1..])) && k in Ids(marks[l + 1..])
    ensures |Between(marks, l, |marks|)| >= MAX_TRACKED || Covered(keys[1..] + [k], id, Ids(marks[l + 1..]))
  {
    var rest, since := keys[1..] + [k], Ids(marks[l + 1..]);
    assert marks[l + 1..|marks|] == marks[l + 1..];
    hide Ids;
    hide Covered, Distinct;
    if keys[0] == id {
      FullTable(keys, id, k, since);
    } else {
      StillCovered(keys, id, k, since);
    }
  }

  lemma StillCovered(keys: seq<Id>, id: Id, k: Id, since: set<Id>)
    requires keys != [] && keys[0] != id && Covered(keys, id, since) && k in since
    ensures Covered(keys[1..] + [k], id, since)
  {
    assert keys == [keys[0]] + keys[1..];
    AfterAppend(keys[1..], id, k);
    assert After(keys[1..] + [k], id) == After(keys, id) + [k];
  }

  lemma FullTable(keys: seq<Id>, id: Id, k: Id, since: set<Id>)
    requires Distinct(keys) && |keys| == MAX_TRACKED && keys[0] == id && k !in keys
    requires Covered(keys, id, since) && k in since
    ensures |since - {id}| >= MAX_TRACKED
  {
    var rest := keys[1..] + [k];
    assert id !in keys[1..] && After(keys, id) == keys[1..];
    assert Distinct(rest);
    hide Distinct, After;
    assert forall x :: x in rest ==> x in since && x != id;
    DistinctSet(rest, since - {id});
  }

  lemma RecordKeeps(g: Guard, exp: Id -> int, clock: int)
    requires GuardInv(g, exp, clock) && g.inFlight.Some?
    ensures GuardInv(Recorded(g, exp(g.inFlight.value)), exp, clock)
  {
    hide Settled, Separated, Newest;
    var h := Recorded(g, exp(g.inFlight.value));
    PutThenEvict(g.tracked, g.inFlight.value, exp(g.inFlight.value));
    assert g.marks[|g.marks| - 1] in g.marks;
    forall l | 0 <= l < |h.marks| ensures Settled(h, exp, clock, l) {
      RecordSettles(g, exp, clock, l);
    }
  }

  lemma {:induction false} LiveAfter(keys: seq<Id>, vals: map<Id, int>, nowMs: int, id: Id, k: Id)
    requires id in LiveKeys(keys, vals, nowMs) && k in After(LiveKeys(keys, vals, nowMs), id)
    ensures k in After(keys, id)
    decreases |keys|
  {
    var rest := LiveKeys(keys[1..], vals, nowMs);
    if keys[0] in vals && LongDead(vals[keys[0]], nowMs) {
      assert LiveKeys(keys, vals, nowMs) == rest;
      LiveAfter(keys[1..], vals, nowMs, id, k);
      assert id in rest && keys[0] !in rest;
    } else {
      assert LiveKeys(keys, vals, nowMs) == [keys[0]] + rest;
      if keys[0] != id {
        LiveAfter(keys[1..], vals, nowMs, id, k);
      }
    }
  }

  lemma {:induction false} LiveKeysAreDistinct(keys: seq<Id>, vals: map<Id, int>, nowMs: int)
    requires Distinct(keys)
    ensures Distinct(LiveKeys(keys, vals, nowMs)) && |LiveKeys(keys, vals, nowMs)| <= |keys|
    decreases |keys|
  {
    if keys != [] {
      LiveKeysAreDistinct(keys[1..], vals, nowMs);
      var rest := LiveKeys(keys[1..], vals, nowMs);
      assert keys[0] !in keys[1..];
      assert forall j :: 0 <= j < |rest| ==> rest[j] in rest;
    }
  }

  lemma SoundIsValid(g: Guard, exp: Id -> int)
    requires Sound(g, exp)
    ensures g.tracked.Valid()
  {
  }

  lemma SweepIsSound(g: Guard, exp: Id -> int, nowMs: int)
    requires Sound(g, exp)
    ensures Sound(Swept(g, nowMs), exp)
  {
    hide Separated, LongDead, Ids;
    LiveKeysAreDistinct(g.tracked.keys, g.tracked.vals, nowMs);
  }

  /** The sweep keeps the guard: what it forgets can never go through live again. */
  lemma SweepKeeps(g: Guard, exp: Id -> int, clock: int, nowMs: int)
    requires GuardInv(g, exp, clock) && nowMs <= clock
    ensures GuardInv(Swept(g, nowMs), exp, clock)
  {
    hide Settled, Sound, Surviving;
    assert g.tracked.Valid() by {
      SoundIsValid(g, exp);
    }
    SweepIsSound(g, exp, nowMs);
    forall l | 0 <= l < |g.marks| ensures Settled(Swept(g, nowMs), exp, clock, l) {
      SweepSettles(g, exp, clock, nowMs, l);
    }
  }

  lemma SweepSettles(g: Guard, exp: Id -> int, clock: int, nowMs: int, l: nat)
    requires GuardInv(g, exp, clock) && nowMs <= clock && l < |g.marks|
    ensures Settled(Swept(g, nowMs), exp, clock, l)
  {
    hide Separated;
    var id, h := g.marks[l].id, Swept(g, nowMs);
    assert Settled(g, exp, clock, l);
    if id in h.tracked.keys {
      forall k | k in After(h.tracked.keys, id) ensures k in After(g.tracked.keys, id) {
        LiveAfter(g.tracked.keys, g.tracked.vals, nowMs, id, k);
      }
    }
  }

  /** What may happen to a guard between two moments: nothing, an untracked and, if live,
      unexpired id is let through, the id in flight is recorded, or a sweep. */
  ghost predicate Steps(g: Guard, h: Guard, exp: Id -> int, clock: int) {
    && g.tracked.Valid()
    && (|| h == g
        || (g.inFlight.None? && exists id, live :: CanOpen(g, id, live, exp, clock) && h == Opened(g, id, live))
        || (g.inFlight.Some? && h == Recorded(g, exp(g.inFlight.value)))
        || (exists nowMs :: nowMs <= clock && h == Swept(g, nowMs)))
  }

  ghost predicate CanOpen(g: Guard, id: Id, live: bool, exp: Id -> int, clock: int) {
    !g.tracked.Has(id) && (live ==> !Expired(exp(id), clock))
  }

  /** Whatever happens keeps the guard. */
  lemma StepKeeps(g: Guard, h: Guard, exp: Id -> int, clock: int)
    requires GuardInv(g, exp, clock) && Steps(g, h, exp, clock)
    ensures GuardInv(h, exp, clock)
  {
    hide GuardInv, Opened, Recorded, Swept;
    if h != g {
      if id, live :| g.inFlight.None? && CanOpen(g, id, live, exp, clock) && h == Opened(g, id, live) {
        OpenKeeps(g, exp, clock, id, live);
      } else if g.inFlight.Some? && h == Recorded(g, exp(g.inFlight.value)) {
        RecordKeeps(g, exp, clock);
      } else {
        var nowMs :| nowMs <= clock && h == Swept(g, nowMs);
        SweepKeeps(g, exp, clock, nowMs);
      }
    }
  }
}
