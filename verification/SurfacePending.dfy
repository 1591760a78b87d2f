/** What is pending in the surface: which requests, when the sweep can fail on one, and
    what it leaves.
 */
module SurfacePending {
  import opened OrderedDict
  import opened Surface
  import opened SurfaceRuns
  import opened Tracking

  // ----- what is pending -----

  /** The edit that retires the message of `id`. */
  predicate Settles(e: Effect, id: Id) {
    e == DecisionEdit(id) || e == SweepEdit(id)
  }

  predicate Asks(e: Effect, id: Id) {
    e.Posted? && e.interactive && e.intent.id == id
  }

  /** A message with buttons was posted for `id` and has not been edited since. */
  ghost predicate Outstanding(log: seq<Effect>, id: Id) {
    exists i :: 0 <= i < |log| && Asks(log[i], id) && Unsettled(log, i, id)
  }

  ghost predicate Unsettled(log: seq<Effect>, i: nat, id: Id) {
    forall j :: i < j < |log| ==> !Settles(log[j], id)
  }

  ghost function OutstandingIds(log: seq<Effect>): set<Id> {
    set id | id in PostedIds(log) && Outstanding(log, id)
  }

  lemma OutstandingOne(log: seq<Effect>, e: Effect, id: Id)
    ensures Outstanding(log + [e], id) <==> Asks(e, id) || (Outstanding(log, id) && !Settles(e, id))
  {
    var more := log + [e];
    if Asks(e, id) {
      assert more[|log|] == e && Unsettled(more, |log|, id);
    } else if Outstanding(log, id) && !Settles(e, id) {
      var i :| 0 <= i < |log| && Asks(log[i], id) && Unsettled(log, i, id);
      assert more[i] == log[i] && Unsettled(more, i, id);
    }
    if Outstanding(more, id) && !Asks(e, id) {
      var i :| 0 <= i < |more| && Asks(more[i], id) && Unsettled(more, i, id);
      assert more[|log|] == e;
      assert Unsettled(log, i, id) by {
        assert forall j :: i < j < |log| ==> log[j] == more[j];
      }
    }
  }

  /** Exactly the outstanding requests are pending. */
  ghost predicate OnlyOutstanding(t: Tables, log: seq<Effect>) {
    forall k :: t.pending.Has(k) <==> Outstanding(log, k)
  }

  /** A step that logs one effect and treats the pending table accordingly. */
  lemma OneEffectLater(t: Tables, u: Tables, log: seq<Effect>, e: Effect)
    requires OnlyOutstanding(t, log)
    requires forall k :: u.pending.Has(k) <==> Asks(e, k) || (t.pending.Has(k) && !Settles(e, k))
    ensures OnlyOutstanding(u, log + [e])
  {
    hide Outstanding, Asks, Settles;
    forall k ensures u.pending.Has(k) <==> Outstanding(log + [e], k) {
      OutstandingOne(log, e, k);
    }
  }

  lemma PostOutstanding(s: System, message: Ref)
    requires s.tables.Valid() && s.consumer.Posting? && OnlyOutstanding(s.tables, s.log)
    ensures OnlyOutstanding(PostFinished(s, message).tables, PostFinished(s, message).log)
  {
    hide OnlyOutstanding, Newest, Distinct;
    var h, intent := PostFinished(s, message), s.consumer.delivered;
    var posted := Posted(intent, s.consumer.interactive);
    OneEffectLater(s.tables, h.tables, s.log, posted);
    OneEffectLater(h.tables, h.tables, s.log + [posted], Commit(intent));
    assert h.log == s.log + [posted] + [Commit(intent)];
  }

  lemma NextOutstanding(s: System, a: Action)
    requires s.tables.Valid() && OnlyOutstanding(s.tables, s.log)
    ensures OnlyOutstanding(Next(s, a).tables, Next(s, a).log)
  {
    hide OnlyOutstanding, PostFinished, Items, Surviving, Newest, ContinueSweep, Without, Distinct, Expired;
    var h := Next(s, a);
    if a.PostDone? && s.consumer.Posting? {
      PostOutstanding(s, a.message);
    } else if h.log == s.log {
      assert h.tables.pending == s.tables.pending;
      SamePending(s.tables, h.tables, s.log);
    } else {
      var e := h.log[|s.log|];
      assert h.log == s.log + [e];
      OneEffectLater(s.tables, h.tables, s.log, e);
    }
  }

  lemma SamePending(t: Tables, u: Tables, log: seq<Effect>)
    requires OnlyOutstanding(t, log) && u.pending == t.pending
    ensures OnlyOutstanding(u, log)
  {
    hide Outstanding;
  }

  /** What is pending after every run: the outstanding requests, so the table is as large
      as they are many. */
  lemma {:induction false} PendingIsOutstanding(clock: int, actions: seq<Action>)
    ensures var s := Run(clock, actions);
            OnlyOutstanding(s.tables, s.log) && |s.tables.pending.keys| == |OutstandingIds(s.log)|
    decreases |actions|
  {
    hide Next, OnlyOutstanding, OutstandingIds;
    if actions == [] {
      NothingOutstanding(clock);
    } else {
      PendingIsOutstanding(clock, actions[..|actions| - 1]);
      NextOutstanding(Run(clock, actions[..|actions| - 1]), actions[|actions| - 1]);
    }
    CountOutstanding(Run(clock, actions).tables, Run(clock, actions).log);
  }

  lemma NothingOutstanding(clock: int)
    ensures OnlyOutstanding(Start(clock).tables, [])
  {
  }

  lemma CountOutstanding(t: Tables, log: seq<Effect>)
    requires t.Valid() && OnlyOutstanding(t, log)
    ensures |t.pending.keys| == |OutstandingIds(log)|
  {
    forall k ensures k in OutstandingIds(log) <==> k in t.pending.keys {
      if Outstanding(log, k) {
        var i :| 0 <= i < |log| && Asks(log[i], k) && Unsettled(log, i, k);
        assert log[i] in log;
      }
    }
    DistinctSet(t.pending.keys, OutstandingIds(log));
  }

  // ----- the sweep's deletions -----

  /** The first remaining item that has expired, or the end. */
  function FirstExpired(rest: seq<Item>, nowMs: int): (k: nat)
    ensures k <= |rest|
    ensures forall i :: 0 <= i < k ==> !Expired(rest[i].pending.expiresAtMs, nowMs)
    ensures k < |rest| ==> Expired(rest[k].pending.expiresAtMs, nowMs)
  {
    if rest == [] || Expired(rest[0].pending.expiresAtMs, nowMs) then 0 else 1 + FirstExpired(rest[1..], nowMs)
  }

  /** Where a sweep stops next: it fails exactly when the entry it would retire is no
      longer pending. */
  lemma {:induction false} SweepStops(t: Tables, nowMs: int, rest: seq<Item>)
    ensures var k := FirstExpired(rest, nowMs);
            ContinueSweep(t, nowMs, rest) ==
              if k == |rest| then SweepDone
              else if t.pending.Has(rest[k].id) then EditExpired(rest[k], rest[k + 1..])
              else MissingKey(rest[k].id)
    decreases |rest|
  {
    if rest != [] && !Expired(rest[0].pending.expiresAtMs, nowMs) {
      SweepStops(t, nowMs, rest[1..]);
      var k := FirstExpired(rest[1..], nowMs);
      if k + 1 < |rest| {
        assert rest[k + 2..] == rest[1..][k + 1..];
      }
    }
  }

  /** A click on the message was answered, retiring its pending entry, after `since`. */
  ghost predicate AnsweredSince(log: seq<Effect>, since: nat, id: Id)
    requires since <= |log|
  {
    DecisionEdit(id) in log[since..]
  }

  ghost predicate UniqueItems(rest: seq<Item>) {
    forall i, j :: 0 <= i < j < |rest| ==> rest[i].id != rest[j].id
  }

  /** Whatever a sweep has yet to visit is still pending or has been answered meanwhile. */
  ghost predicate Accounted(t: Tables, rest: seq<Item>, log: seq<Effect>, since: nat) {
    && since <= |log|
    && UniqueItems(rest)
    && forall i :: 0 <= i < |rest| ==> t.pending.Has(rest[i].id) || AnsweredSince(log, since, rest[i].id)
  }

  ghost predicate SweepAccounted(s: System) {
    && (s.sweeper.Sweeping? ==> Accounted(s.tables, s.sweeper.rest, s.log, s.sweeper.since))
    && (s.sweeper.Raised? ==>
          s.sweeper.since <= |s.log| && AnsweredSince(s.log, s.sweeper.since, s.sweeper.id))
  }

  lemma LogGrows(log: seq<Effect>, more: seq<Effect>, since: nat, id: Id)
    requires since <= |log|
    ensures AnsweredSince(log, since, id) ==> AnsweredSince(log + more, since, id)
    ensures DecisionEdit(id) in more ==> AnsweredSince(log + more, since, id)
  {
    assert (log + more)[since..] == log[since..] + more;
  }

  /** A step that leaves every pending entry, or answers the click that removes it. */
  lemma AccountedGrows(t: Tables, u: Tables, rest: seq<Item>, log: seq<Effect>, more: seq<Effect>, since: nat)
    requires Accounted(t, rest, log, since)
    requires forall k :: t.pending.Has(k) ==> u.pending.Has(k) || DecisionEdit(k) in more
    ensures Accounted(u, rest, log + more, since)
  {
    forall i | 0 <= i < |rest| ensures u.pending.Has(rest[i].id) || AnsweredSince(log + more, since, rest[i].id) {
      LogGrows(log, more, since, rest[i].id);
      assert t.pending.Has(rest[i].id) || AnsweredSince(log, since, rest[i].id);
    }
  }

  /** One segment of the sweep keeps the account of what remains. */
  lemma SweepOnAccounts(s: System, nowMs: int, rest: seq<Item>, since: nat)
    requires s.tables.Valid() && Accounted(s.tables, rest, s.log, since)
    ensures SweepAccounted(SweepOn(s, nowMs, rest, since))
  {
    hide Surviving, ContinueSweep, Without;
    var k := FirstExpired(rest, nowMs);
    SweepStops(s.tables, nowMs, rest);
    if k < |rest| {
      var id := rest[k].id;
      assert s.tables.pending.Has(id) || AnsweredSince(s.log, since, id);
      if s.tables.pending.Has(id) {
        var h, more := SweepOn(s, nowMs, rest, since), rest[k + 1..];
        forall i | 0 <= i < |more| ensures h.tables.pending.Has(more[i].id) || AnsweredSince(h.log, since, more[i].id) {
          assert more[i] == rest[k + 1 + i];
          LogGrows(s.log, [SweepEdit(id)], since, more[i].id);
        }
      }
    }
  }

  lemma ItemsAreAccounted(t: Tables, log: seq<Effect>)
    requires t.Valid()
    ensures Accounted(t, Items(t.pending), log, |log|)
  {
    var items := Items(t.pending);
    forall i | 0 <= i < |items| ensures t.pending.Has(items[i].id) {
      assert t.pending.keys[i] in t.pending.keys;
    }
  }

  /** A step that is not the sweep's: entries leave by an answered click and arrive by a post. */
  lemma OtherStep(s: System, a: Action)
    requires s.tables.Valid()
    requires !(a.StartSweep? && s.sweeper == Resting) && !(a.SweepEditDone? && s.sweeper.Sweeping?)
    ensures var h := Next(s, a);
            && h.sweeper == s.sweeper && |s.log| <= |h.log| && h.log == s.log + h.log[|s.log|..]
            && (forall k :: s.tables.pending.Has(k) ==>
                              h.tables.pending.Has(k) || DecisionEdit(k) in h.log[|s.log|..])
            && (forall k :: h.tables.pending.Has(k) ==>
                              || (s.tables.pending.Has(k) && h.tables.pending.vals[k] == s.tables.pending.vals[k])
                              || k in PostedIds(h.log[|s.log|..]))
  {
    hide Items, Surviving, Newest, ContinueSweep, Without, Distinct, Expired;
  }

  lemma NextAccounts(s: System, a: Action)
    requires s.tables.Valid() && SweepAccounted(s)
    ensures SweepAccounted(Next(s, a))
  {
    hide Accounted, Items, SweepOn, Delivered, PostFinished, Decided, PublishFinished, AnsweredSince;
    var h := Next(s, a);
    if a.StartSweep? && s.sweeper == Resting {
      ItemsAreAccounted(s.tables, s.log);
      SweepOnAccounts(s, s.clock, Items(s.tables.pending), |s.log|);
    } else if a.SweepEditDone? && s.sweeper.Sweeping? {
      SweepOnAccounts(s, s.sweeper.nowMs, s.sweeper.rest, s.sweeper.since);
    } else {
      OtherStep(s, a);
      var more := h.log[|s.log|..];
      if s.sweeper.Sweeping? {
        AccountedGrows(s.tables, h.tables, s.sweeper.rest, s.log, more, s.sweeper.since);
      } else if s.sweeper.Raised? {
        LogGrows(s.log, more, s.sweeper.since, s.sweeper.id);
      }
    }
  }

  /** A sweep fails only if, since its snapshot, a click on that very message was answered. */
  lemma {:induction false} SweepFailure(clock: int, actions: seq<Action>)
    ensures SweepAccounted(Run(clock, actions))
    decreases |actions|
  {
    hide SweepAccounted, Next;
    if actions == [] {
      NothingSwept(clock);
    } else {
      SweepFailure(clock, actions[..|actions| - 1]);
      NextAccounts(Run(clock, actions[..|actions| - 1]), actions[|actions| - 1]);
    }
  }

  lemma NothingSwept(clock: int)
    ensures SweepAccounted(Start(clock))
  {
  }

  /** A sweep during which no click is answered does not fail, at its start or later. */
  lemma UninterruptedSweep(clock: int, actions: seq<Action>)
    ensures var s := Run(clock, actions);
            s.sweeper == Resting ==> !Next(s, StartSweep).sweeper.Raised?
    ensures var s := Run(clock, actions);
            s.sweeper.Sweeping? ==>
              && s.sweeper.since <= |s.log|
              && ((forall id :: !AnsweredSince(s.log, s.sweeper.since, id)) ==> !Next(s, SweepEditDone).sweeper.Raised?)
  {
    hide Run, Items, AfterSweep, AnsweredSince;
    var s := Run(clock, actions);
    SweepFailure(clock, actions);
    if s.sweeper.Sweeping? {
      SweepStops(s.tables, s.sweeper.nowMs, s.sweeper.rest);
    } else {
      ItemsArePending(s.tables);
      SweepStops(s.tables, s.clock, Items(s.tables.pending));
    }
  }

  lemma ItemsArePending(t: Tables)
    requires t.Valid()
    ensures forall i :: 0 <= i < |Items(t.pending)| ==> t.pending.Has(Items(t.pending)[i].id)
  {
    forall i | 0 <= i < |Items(t.pending)| ensures t.pending.Has(Items(t.pending)[i].id) {
      assert t.pending.keys[i] in t.pending.keys;
    }
  }

  // ----- what a sweep leaves pending -----

  /** Whatever has expired and is still pending is yet to be visited, or was posted meanwhile. */
  ghost predicate Pursued(t: Tables, nowMs: int, rest: seq<Item>, log: seq<Effect>, since: nat) {
    && since <= |log|
    && forall k :: t.pending.Has(k) && Expired(t.pending.vals[k].expiresAtMs, nowMs) ==>
         Item(k, t.pending.vals[k]) in rest || k in PostedIds(log[since..])
  }

  ghost predicate SweepPursues(s: System) {
    s.sweeper.Sweeping? ==> Pursued(s.tables, s.sweeper.nowMs, s.sweeper.rest, s.log, s.sweeper.since)
  }

  lemma PostsGrow(log: seq<Effect>, more: seq<Effect>, since: nat)
    requires since <= |log|
    ensures PostedIds((log + more)[since..]) == PostedIds(log[since..]) + PostedIds(more)
  {
    assert (log + more)[since..] == log[since..] + more;
  }

  lemma PursuedGrows(t: Tables, u: Tables, nowMs: int, rest: seq<Item>, log: seq<Effect>, more: seq<Effect>, since: nat)
    requires Pursued(t, nowMs, rest, log, since)
    requires forall k :: u.pending.Has(k) ==>
               (t.pending.Has(k) && u.pending.vals[k] == t.pending.vals[k]) || k in PostedIds(more)
    ensures Pursued(u, nowMs, rest, log + more, since)
  {
    hide PostedIds;
    PostsGrow(log, more, since);
  }

  lemma SweepOnPursues(s: System, nowMs: int, rest: seq<Item>, since: nat)
    requires s.tables.Valid() && Pursued(s.tables, nowMs, rest, s.log, since)
    ensures var h := SweepOn(s, nowMs, rest, since);
            && (ContinueSweep(s.tables, nowMs, rest).EditExpired? ==> SweepPursues(h))
            && (ContinueSweep(s.tables, nowMs, rest) == SweepDone ==>
                  forall k :: h.tables.pending.Has(k) && Expired(h.tables.pending.vals[k].expiresAtMs, nowMs) ==>
                    k in PostedIds(s.log[since..]))
  {
    hide Surviving, ContinueSweep, Without, PostedIds, Expired;
    var k := FirstExpired(rest, nowMs);
    SweepStops(s.tables, nowMs, rest);
    if k < |rest| && s.tables.pending.Has(rest[k].id) {
      var h := SweepOn(s, nowMs, rest, since);
      PostsGrow(s.log, [SweepEdit(rest[k].id)], since);
      forall x | h.tables.pending.Has(x) && Expired(h.tables.pending.vals[x].expiresAtMs, nowMs)
        ensures Item(x, h.tables.pending.vals[x]) in rest[k + 1..] || x in PostedIds(h.log[since..])
      {
        var item := Item(x, s.tables.pending.vals[x]);
        if item in rest {
          var m :| 0 <= m < |rest| && rest[m] == item;
          assert m > k;
          assert rest[k + 1..][m - k - 1] == item;
        }
      }
    }
  }

  lemma ItemsArePursued(t: Tables, nowMs: int, log: seq<Effect>)
    requires t.Valid()
    ensures Pursued(t, nowMs, Items(t.pending), log, |log|)
  {
    forall k | t.pending.Has(k) ensures Item(k, t.pending.vals[k]) in Items(t.pending) {
      var i :| 0 <= i < |t.pending.keys| && t.pending.keys[i] == k;
      assert Items(t.pending)[i] == Item(k, t.pending.vals[k]);
    }
  }

  lemma NextPursues(s: System, a: Action)
    requires s.tables.Valid() && SweepPursues(s)
    ensures SweepPursues(Next(s, a))
  {
    hide Pursued, Items, AfterSweep, ContinueSweep, PostedIds, Expired;
    hide Delivered, PostFinished, Decided, PublishFinished;
    var h := Next(s, a);
    if a.StartSweep? && s.sweeper == Resting {
      ItemsArePursued(s.tables, s.clock, s.log);
      SweepOnPursues(s, s.clock, Items(s.tables.pending), |s.log|);
    } else if a.SweepEditDone? && s.sweeper.Sweeping? {
      SweepOnPursues(s, s.sweeper.nowMs, s.sweeper.rest, s.sweeper.since);
    } else {
      OtherStep(s, a);
      if s.sweeper.Sweeping? {
        var more := h.log[|s.log|..];
        PursuedGrows(s.tables, h.tables, s.sweeper.nowMs, s.sweeper.rest, s.log, more, s.sweeper.since);
      }
    }
  }

  lemma {:induction false} RunPursues(clock: int, actions: seq<Action>)
    ensures SweepPursues(Run(clock, actions))
    decreases |actions|
  {
    hide Next, Pursued;
    if actions != [] {
      RunPursues(clock, actions[..|actions| - 1]);
      NextPursues(Run(clock, actions[..|actions| - 1]), actions[|actions| - 1]);
    }
  }

  /** Every pending entry of `t` that had expired at `nowMs` is among `posted`. */
  ghost predicate OnlyLive(t: Tables, nowMs: int, posted: set<Id>) {
    forall k :: t.pending.Has(k) && Expired(t.pending.vals[k].expiresAtMs, nowMs) ==> k in posted
  }

  /** When a sweep ends, nothing is pending that had expired
      when it began, but for what was posted meanwhile. */
  lemma FinishedSweep(clock: int, actions: seq<Action>)
    ensures var s := Run(clock, actions);
            s.sweeper == Resting && Next(s, StartSweep).sweeper == Resting ==>
              OnlyLive(Next(s, StartSweep).tables, s.clock, {})
    ensures var s := Run(clock, actions);
            var h := Next(s, SweepEditDone);
            s.sweeper.Sweeping? && h.sweeper == Resting ==>
              && s.sweeper.since <= |s.log|
              && OnlyLive(h.tables, s.sweeper.nowMs, PostedIds(s.log[s.sweeper.since..]))
  {
    hide Run, Items, Surviving, ContinueSweep, Expired, Without;
    var s := Run(clock, actions);
    RunPursues(clock, actions);
    UninterruptedSweep(clock, actions);
    if s.sweeper.Sweeping? {
      SweepOnPursues(s, s.sweeper.nowMs, s.sweeper.rest, s.sweeper.since);
    } else {
      ItemsArePursued(s.tables, s.clock, s.log);
      SweepOnPursues(s, s.clock, Items(s.tables.pending), |s.log|);
      assert s.log[|s.log|..] == [];
    }
  }
}
