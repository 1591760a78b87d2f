/** How far the surface's guarantees go: runs that reach their limits. */
module SurfaceLimits {
  import opened OrderedDict
  import opened Surface
  import opened SurfaceRuns
  import opened Tracking
  import opened Wrappers

  /** One expiry for every intent. */
  function Always(ms: int): Id -> int {
    (id: Id) => ms
  }

  /** Some run in which every intent expires at `ms` ends in `s`. */
  ghost predicate Reachable(ms: int, s: System) {
    exists actions :: OneExpiry(actions, Always(ms)) && Run(0, actions) == s
  }

  lemma ReachStart(ms: int)
    ensures Reachable(ms, Start(0))
  {
    assert OneExpiry([], Always(ms)) && Run(0, []) == Start(0);
  }

  lemma ReachNext(ms: int, s: System, a: Action)
    requires Reachable(ms, s) && Consistent(a, Always(ms))
    ensures s.tables.Valid() && Reachable(ms, Next(s, a))
  {
    hide Next, Consistent;
    var actions :| OneExpiry(actions, Always(ms)) && Run(0, actions) == s;
    assert (actions + [a])[..|actions|] == actions;
    assert OneExpiry(actions + [a], Always(ms)) && Run(0, actions + [a]) == Next(s, a);
  }

  lemma DeliverOne(ms: int, s: System, intent: Intent, message: Ref) returns (h: System)
    requires Reachable(ms, s) && s.consumer == Waiting
    requires intent.kind == Approval && intent.expiresAtMs == ms
    requires !s.tables.posted.Has(intent.id) && |s.tables.posted.keys| < MAX_TRACKED
    requires !Expired(intent.expiresAtMs, s.clock)
    ensures Reachable(ms, h) && h.clock == s.clock && h.consumer == Waiting
    ensures h.sweeper == s.sweeper && h.decider == s.decider && h.tables.decided == s.tables.decided
    ensures h.tables.posted == s.tables.posted.Put(intent.id, intent.expiresAtMs)
    ensures h.tables.pending == s.tables.pending.Put(intent.id, Pending(message, intent.expiresAtMs))
    ensures |h.log| == |s.log| + 3
  {
    ReachNext(ms, s, Deliver(intent));
    var s1 := Next(s, Deliver(intent));
    ReachNext(ms, s1, PostDone(message));
    var s2 := Next(s1, PostDone(message));
    ReachNext(ms, s2, CommitDone);
    h := Next(s2, CommitDone);
  }

  lemma TwoRequests() returns (s: System)
    ensures Reachable(10, s) && s.clock == 0 && s.sweeper == Resting && s.decider == Listening
    ensures s.tables.pending.keys == ["a", "b"] && !s.tables.decided.Has("b") && |s.log| == 6
    ensures s.tables.pending.vals == map["a" := Pending(1, 10), "b" := Pending(2, 10)]
  {
    hide Next, Run;
    ReachStart(10);
    var s1 := DeliverOne(10, Start(0), Intent("a", Approval, 10), 1);
    s := DeliverOne(10, s1, Intent("b", Approval, 10), 2);
  }

  lemma SweepTheFirst() returns (s: System)
    ensures Reachable(10, s) && s.clock == 10 && s.decider == Listening
    ensures !s.tables.decided.Has("b") && s.sweeper == Sweeping(10, [Item("b", Pending(2, 10))], 6)
  {
    hide Without, Newest, Surviving, Run;
    var s2 := TwoRequests();
    ReachNext(10, s2, Tick(10));
    var s3 := Next(s2, Tick(10));
    assert Items(s3.tables.pending) == [Item("a", Pending(1, 10)), Item("b", Pending(2, 10))];
    ReachNext(10, s3, StartSweep);
    s := Next(s3, StartSweep);
  }

  /** Two requests expire together; the sweep edits one, a click on the other is refused
      meanwhile, and the sweep then deletes an entry that is gone. */
  lemma SweepCanFail()
    ensures exists s :: Reachable(10, s) && s.sweeper == Raised("b", 6)
  {
    hide Without, Newest, Surviving, Run, Reachable, Items;
    var s4 := SweepTheFirst();
    var click := Decide(Decision("b", 10, None, true, "", 0, 2));
    ReachNext(10, s4, click);
    var s5 := Next(s4, click);
    assert !s5.tables.pending.Has("b") && s5.sweeper == s4.sweeper;
    ReachNext(10, s5, SweepEditDone);
    assert Next(s5, SweepEditDone).sweeper == Raised("b", 6);
  }

  function Name(n: nat): Id {
    seq(n, i => 'a')
  }

  ghost function Names(n: nat): set<Id> {
    set i | 0 <= i < n :: Name(i)
  }

  lemma NamesGrow(n: nat)
    ensures Names(n + 1) == Names(n) + {Name(n)}
  {
  }

  lemma {:induction false} NamesDiffer(n: nat)
    ensures |Names(n)| == n
    decreases n
  {
    if n == 0 {
      assert Names(0) == {};
    } else {
      NamesDiffer(n - 1);
      NamesGrow(n - 1);
      forall i | 0 <= i < n - 1 ensures Name(i) != Name(n - 1) {
        assert |Name(i)| == i && |Name(n - 1)| == n - 1;
      }
    }
  }

  lemma MarkedMore(log: seq<Effect>, e: Effect)
    ensures MarkedIds(log + [e], Answers) ==
            MarkedIds(log, Answers) + (if e.Publish? then {e.verdict.id} else {})
  {
    assert forall x :: x in log + [e] <==> x in log || x == e;
    if e.Publish? {
      assert MarkOf(e, Answers).value.id in MarkedIds(log + [e], Answers);
    }
  }

  function Click(n: nat): Decision {
    Decision(Name(n), 1, Some([]), true, "", 0, 0)
  }

  /** Only clicks so far, the newest of them remembered. */
  ghost predicate Clicks(s: System, n: nat) {
    var kept := if n < MAX_TRACKED then n else MAX_TRACKED;
    && Reachable(1, s) && s.clock == 0 && s.decider == Listening
    && s.tables.decided.Valid()
    && |s.tables.decided.keys| == kept
    && (forall i :: 0 <= i < kept ==> s.tables.decided.keys[i] == Name(n - kept + i))
    && MarkedIds(s.log, Answers) == Names(n)
    && (n == 0 ==> s.log == [])
    && (n > 0 ==> |s.log| > 0 && s.log[0].Publish? && s.log[0].verdict.id == Name(0))
  }

  lemma NotRemembered(d: Tracked, lo: nat, k: nat)
    requires d.Valid() && (forall i :: 0 <= i < |d.keys| ==> d.keys[i] == Name(lo + i))
    requires k < lo || lo + |d.keys| <= k
    ensures !d.Has(Name(k))
  {
    forall i | 0 <= i < |d.keys| ensures d.keys[i] != Name(k) {
      assert |d.keys[i]| == lo + i;
    }
  }

  lemma ClickLeaves(s: System, n: nat) returns (h: System)
    requires Clicks(s, n)
    ensures Reachable(1, h) && h.clock == 0 && h.decider == Publishing(Click(n))
    ensures h.tables == s.tables && h.log == s.log + [Publish(VerdictOf(Click(n)), 1, 0)]
    ensures MarkedIds(h.log, Answers) == Names(n + 1)
    ensures !s.tables.decided.Has(Name(n))
  {
    hide MarkedIds, Newest, Run, Name, Without, Reachable;
    var kept, d := |s.tables.decided.keys|, Click(n);
    NotRemembered(s.tables.decided, n - kept, n);
    ReachNext(1, s, Decide(d));
    h := Next(s, Decide(d));
    MarkedMore(s.log, Publish(VerdictOf(d), 1, 0));
    NamesGrow(n);
  }

  lemma ClickIsRemembered(s: System, n: nat) returns (h: System)
    requires Reachable(1, s) && s.clock == 0 && s.decider == Publishing(Click(n))
    requires s.tables.decided.Valid() && !s.tables.decided.Has(Name(n)) && |s.tables.decided.keys| <= MAX_TRACKED
    ensures Reachable(1, h) && h.clock == 0 && h.decider == Listening
    ensures h.log == s.log + [DecisionEdit(Name(n))] && MarkedIds(h.log, Answers) == MarkedIds(s.log, Answers)
    ensures h.tables.decided == Newest(s.tables.decided.Put(Name(n), 1), MAX_TRACKED)
  {
    hide MarkedIds, Newest, Run, Name, Without, Reachable;
    ReachNext(1, s, PublishDone);
    var s2 := Next(s, PublishDone);
    MarkedMore(s.log, DecisionEdit(Name(n)));
    ReachNext(1, s2, EditDone);
    h := Next(s2, EditDone);
  }

  lemma ClickOnce(s: System, n: nat) returns (h: System)
    requires Clicks(s, n)
    ensures Clicks(h, n + 1)
  {
    hide MarkedIds, Names, Newest, Run, Name, Reachable, Next, Distinct;
    var s1 := ClickLeaves(s, n);
    h := ClickIsRemembered(s1, n);
    PutThenEvict(s.tables.decided, Name(n), 1);
    NewestNames(s.tables.decided.keys, h.tables.decided.keys, n);
  }

  /** Putting the next name behind the newest names leaves the newest names. */
  lemma NewestNames(earlier: seq<Id>, later: seq<Id>, n: nat)
    requires |earlier| == (if n < MAX_TRACKED then n else MAX_TRACKED)
    requires forall i :: 0 <= i < |earlier| ==> earlier[i] == Name(n - |earlier| + i)
    requires later == (if |earlier| < MAX_TRACKED then earlier + [Name(n)] else earlier[1..] + [Name(n)])
    ensures |later| == (if n + 1 < MAX_TRACKED then n + 1 else MAX_TRACKED)
    ensures forall i :: 0 <= i < |later| ==> later[i] == Name(n + 1 - |later| + i)
  {
    hide Name;
  }

  lemma {:induction false} ManyClicks(n: nat) returns (s: System)
    ensures Clicks(s, n)
  {
    hide Clicks;
    if n == 0 {
      s := Start(0);
      ReachStart(1);
      NoClicks(s);
    } else {
      var before := ManyClicks(n - 1);
      s := ClickOnce(before, n - 1);
    }
  }

  lemma NoClicks(s: System)
    requires s == Start(0) && Reachable(1, s)
    ensures Clicks(s, 0)
  {
  }

  /** Two verdicts for one intent. */
  ghost predicate Repeats(log: seq<Effect>, i: nat, j: nat) {
    i < j < |log| && log[i].Publish? && log[j].Publish? && log[i].verdict.id == log[j].verdict.id
  }

  /** After clicks on enough intents, the first of them can be decided again. */
  lemma FirstAgain(n: nat) returns (s: System)
    requires n > MAX_TRACKED
    ensures Reachable(1, s) && MarkedIds(s.log, Answers) == Names(n)
    ensures |s.log| > 1 && Repeats(s.log, 0, |s.log| - 1) && s.log[0].verdict.id == Name(0)
  {
    hide MarkedIds, Name, Names, Run, Reachable;
    var before := ManyClicks(n);
    NotRemembered(before.tables.decided, n - MAX_TRACKED, 0);
    ReachNext(1, before, Decide(Click(0)));
    s := Next(before, Decide(Click(0)));
    assert s.log == before.log + [Publish(VerdictOf(Click(0)), 1, 0)];
    MarkedMore(before.log, Publish(VerdictOf(Click(0)), 1, 0));
    FirstName(n);
  }

  lemma FirstName(n: nat)
    requires n > 0
    ensures Names(n) + {Name(0)} == Names(n)
  {
  }

  lemma SubsetIsSmaller(a: set<Id>, b: set<Id>)
    requires a <= b
    ensures |a| <= |b|
  {
    assert b == a + (b - a);
  }

  lemma OthersAreMarked(log: seq<Effect>, i: nat, j: nat, id: Id)
    requires i < j < |log| && MarkOf(log[j], Answers).Some? && MarkOf(log[j], Answers).value.id == id
    ensures Others(log, Answers, i, j, id) <= MarkedIds(log, Answers) - {id}
    ensures id in MarkedIds(log, Answers)
  {
    assert forall e :: e in log[i + 1..j] ==> e in log;
    assert log[j] in log;
  }

  /** The bound is attained: a run in which exactly 4096 others are decided between two
      verdicts for one intent. */
  lemma CapForgetsAVerdict()
    ensures exists s :: Reachable(1, s) && |s.log| > 1 && Repeats(s.log, 0, |s.log| - 1)
                        && |Others(s.log, Answers, 0, |s.log| - 1, s.log[0].verdict.id)| == MAX_TRACKED
  {
    hide Others, MarkedIds, Name, Names, Run;
    var s := FirstAgain(MAX_TRACKED + 1);
    var last, id := |s.log| - 1, s.log[0].verdict.id;
    var actions :| OneExpiry(actions, Always(1)) && Run(0, actions) == s;
    SecondVerdict(0, actions, Always(1), 0, last);
    OthersAreMarked(s.log, 0, last, id);
    NamesDiffer(MAX_TRACKED + 1);
    SubsetIsSmaller(Others(s.log, Answers, 0, last, id), MarkedIds(s.log, Answers) - {id});
  }

  /** Some run with one expiry per intent decides exactly `n` intents, and one of them twice. */
  ghost predicate DecidesTwice(n: nat) {
    exists clock, actions, exp: Id -> int, i: nat, j: nat ::
      && OneExpiry(actions, exp)
      && |MarkedIds(Run(clock, actions).log, Answers)| == n
      && Repeats(Run(clock, actions).log, i, j)
  }

  /** A second verdict can leave exactly if more intents are decided than the table holds. */
  lemma DecidesTwiceIff(n: nat)
    ensures DecidesTwice(n) <==> n > MAX_TRACKED
  {
    hide Others, MarkedIds, Names, Run, OneExpiry;
    if DecidesTwice(n) {
      var clock, actions, exp: Id -> int, i: nat, j: nat :|
        && OneExpiry(actions, exp)
        && |MarkedIds(Run(clock, actions).log, Answers)| == n
        && Repeats(Run(clock, actions).log, i, j);
      var log := Run(clock, actions).log;
      var id := log[j].verdict.id;
      SecondVerdict(clock, actions, exp, i, j);
      OthersAreMarked(log, i, j, id);
      SubsetIsSmaller(Others(log, Answers, i, j, id), MarkedIds(log, Answers) - {id});
    }
    if n > MAX_TRACKED {
      var s := FirstAgain(n);
      NamesDiffer(n);
      var actions :| OneExpiry(actions, Always(1)) && Run(0, actions) == s;
      assert Repeats(Run(0, actions).log, 0, |s.log| - 1);
    }
  }

  /** Nothing but requests so far, all of them pending. */
  ghost predicate AllPending(s: System, n: nat) {
    && Reachable(1, s) && s.clock == 0 && s.consumer == Waiting && s.tables.Valid()
    && |s.tables.pending.keys| == n
    && (forall k :: s.tables.posted.Has(k) || s.tables.pending.Has(k) ==> |k| < n)
    && PostedIds(s.log) == Names(n)
  }

  lemma PostedMore(log: seq<Effect>, e: Effect)
    ensures PostedIds(log + [e]) == PostedIds(log) + (if e.Posted? then {e.intent.id} else {})
  {
    assert forall x :: x in log + [e] <==> x in log || x == e;
    if e.Posted? {
      assert e in log + [e];
    }
  }

  lemma AnotherPosted(log: seq<Effect>, intent: Intent, n: nat)
    requires PostedIds(log) == Names(n) && intent.id == Name(n)
    ensures PostedIds(log + [Post(intent, true)] + [Posted(intent, true), Commit(intent)]) == Names(n + 1)
  {
    hide PostedIds, Names;
    var asked, posted := log + [Post(intent, true)], Posted(intent, true);
    PostedMore(log, Post(intent, true));
    PostedMore(asked, posted);
    PostedMore(asked + [posted], Commit(intent));
    assert asked + [posted, Commit(intent)] == asked + [posted] + [Commit(intent)];
    NamesGrow(n);
  }

  lemma DeliverAnother(s: System, n: nat) returns (h: System)
    requires AllPending(s, n)
    ensures AllPending(h, n + 1)
  {
    hide Reachable, Run, Newest, Distinct, PostedIds, Names;
    var intent := Intent(Name(n), Approval, 1);
    ReachNext(1, s, Deliver(intent));
    var s1 := Next(s, Deliver(intent));
    ReachNext(1, s1, PostDone(0));
    var s2 := Next(s1, PostDone(0));
    PutIsValid(s.tables.posted, intent.id, 1);
    NewestForgets(s.tables.posted.Put(intent.id, 1), MAX_TRACKED);
    AnotherPosted(s.log, intent, n);
    ReachNext(1, s2, CommitDone);
    h := Next(s2, CommitDone);
  }

  /** Only the posted and the decided tables are capped: any number of requests can be
      pending at once. */
  lemma {:induction false} PendingIsUnbounded(n: nat) returns (s: System)
    ensures AllPending(s, n)
  {
    hide AllPending;
    if n == 0 {
      s := Start(0);
      ReachStart(1);
      NothingPending(s);
    } else {
      var before := PendingIsUnbounded(n - 1);
      s := DeliverAnother(before, n - 1);
    }
  }

  lemma NothingPending(s: System)
    requires s == Start(0) && Reachable(1, s)
    ensures AllPending(s, 0)
  {
  }

  /** Some run with one expiry per intent posts for exactly `n` intents and leaves more
      pending than the cap. */
  ghost predicate Overflows(n: nat) {
    exists clock, actions, exp: Id -> int ::
      && OneExpiry(actions, exp)
      && |PostedIds(Run(clock, actions).log)| == n
      && |Run(clock, actions).tables.pending.keys| > MAX_TRACKED
  }

  /** The pending table can outgrow the cap exactly if more requests are posted than the
      cap allows. */
  lemma OverflowsIff(n: nat)
    ensures Overflows(n) <==> n > MAX_TRACKED
  {
    hide PostedIds, Names, Run, OneExpiry, Distinct;
    if Overflows(n) {
      var clock, actions, exp: Id -> int :|
        && OneExpiry(actions, exp)
        && |PostedIds(Run(clock, actions).log)| == n
        && |Run(clock, actions).tables.pending.keys| > MAX_TRACKED;
      RunIsOrderly(clock, actions);
      DistinctSet(Run(clock, actions).tables.pending.keys, PostedIds(Run(clock, actions).log));
    }
    if n > MAX_TRACKED {
      var s := PendingIsUnbounded(n);
      NamesDiffer(n);
      var actions :| OneExpiry(actions, Always(1)) && Run(0, actions) == s;
      assert |PostedIds(Run(0, actions).log)| == n;
    }
  }
}
