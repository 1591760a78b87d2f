/** Every interleaving of the surface's three workers: can a verdict leave twice, can a
    request be committed unposted?
 */
module SurfaceRuns {
  import opened OrderedDict
  import opened Surface
  import opened Tracking
  import opened Wrappers

  // ----- the system -----

  /** What leaves the surface, in order. A post or a publish is listed when it is asked
      for; `Posted` is a post's success. */
  datatype Effect =
    | Post(intent: Intent, interactive: bool)
    | Posted(intent: Intent, interactive: bool)
    | Commit(intent: Intent)
    | Publish(verdict: Verdict, expiresAtMs: int, checkedAtMs: int)
    | DecisionEdit(id: Id)
    | Answer(id: Id)
    | SweepEdit(id: Id)

  datatype Consumer = Waiting | Posting(delivered: Intent, interactive: bool) | Committing

  /** `Broken` is the end of a worker that met a key text that is not hexadecimal. */
  datatype Decider = Listening | Publishing(decision: Decision) | Editing | Broken(id: Id)

  /** `since` is how much had left the surface when the sweep took its snapshot; `Raised`
      is the end of a sweep that found an entry gone. */
  datatype Sweeper = Resting | Sweeping(nowMs: int, rest: seq<Item>, since: nat) | Raised(id: Id, since: nat)

  datatype System = System(
    clock: int, tables: Tables, consumer: Consumer, decider: Decider, sweeper: Sweeper, log: seq<Effect>)

  datatype Action =
    | Tick(ms: nat)
    | Deliver(intent: Intent)
    | PostDone(message: Ref)
    | CommitDone
    | Decide(decision: Decision)
    | PublishDone
    | EditDone
    | StartSweep
    | SweepEditDone

  function Start(clock: int): System {
    System(clock, Tables(Empty(), Empty(), Empty()), Waiting, Listening, Resting, [])
  }

  function Delivered(s: System, intent: Intent): System {
    match StartDelivery(s.tables, intent, s.clock)
    case CommitNow => s.(consumer := Committing, log := s.log + [Commit(intent)])
    case PostFirst(interactive) =>
      s.(consumer := Posting(intent, interactive), log := s.log + [Post(intent, interactive)])
  }

  function PostFinished(s: System, message: Ref): System
    requires s.consumer.Posting? && s.tables.Valid()
  {
    var intent := s.consumer.delivered;
    s.(tables := AfterPost(s.tables, intent, s.consumer.interactive, message), consumer := Committing,
       log := s.log + [Posted(intent, s.consumer.interactive), Commit(intent)])
  }

  function Decided(s: System, d: Decision): System {
    var t := AfterDecision(s.tables, d, s.clock);
    match StartDecision(s.tables, d, s.clock)
    case AlreadyDecided => s.(decider := Editing, log := s.log + [Answer(d.id)])
    case Refused => s.(tables := t, decider := Editing, log := s.log + [DecisionEdit(d.id)])
    case NotHex => s.(decider := Broken(d.id))
    case PublishVerdict(v) =>
      s.(decider := Publishing(d), log := s.log + [Publish(v, d.expiresAtMs, s.clock)])
  }

  function PublishFinished(s: System): System
    requires s.decider.Publishing? && s.tables.Valid()
  {
    var d := s.decider.decision;
    s.(tables := AfterPublish(s.tables, d), decider := Editing, log := s.log + [DecisionEdit(d.id)])
  }

  function SweepOn(s: System, nowMs: int, rest: seq<Item>, since: nat): System
    requires s.tables.Valid()
  {
    var t := AfterSweep(s.tables, nowMs, rest);
    match ContinueSweep(s.tables, nowMs, rest)
    case SweepDone => s.(tables := t, sweeper := Resting)
    case EditExpired(item, more) =>
      s.(tables := t, sweeper := Sweeping(nowMs, more, since), log := s.log + [SweepEdit(item.id)])
    case MissingKey(id) => s.(sweeper := Raised(id, since))
  }

  /** An action that does not apply is skipped. A worker that raised takes no further step;
      the others may go on until they are cancelled, and nothing here says when that is. */
  function Next(s: System, a: Action): System
    requires s.tables.Valid()
  {
    match a
    case Tick(ms) => s.(clock := s.clock + ms)
    case Deliver(intent) => if s.consumer == Waiting then Delivered(s, intent) else s
    case PostDone(message) => if s.consumer.Posting? then PostFinished(s, message) else s
    case CommitDone => if s.consumer == Committing then s.(consumer := Waiting) else s
    case Decide(d) => if s.decider == Listening then Decided(s, d) else s
    case PublishDone => if s.decider.Publishing? then PublishFinished(s) else s
    case EditDone => if s.decider == Editing then s.(decider := Listening) else s
    case StartSweep => if s.sweeper == Resting then SweepOn(s, s.clock, Items(s.tables.pending), |s.log|) else s
    case SweepEditDone =>
      if s.sweeper.Sweeping? then SweepOn(s, s.sweeper.nowMs, s.sweeper.rest, s.sweeper.since) else s
  }

  // ----- the tables stay dictionaries -----

  lemma {:induction false} SurvivingIsValid(d: Tracked, nowMs: int)
    requires d.Valid()
    ensures Surviving(d, nowMs).Valid() && |Surviving(d, nowMs).keys| <= |d.keys|
  {
    LiveKeysAreDistinct(d.keys, d.vals, nowMs);
  }

  lemma NewestIsValid(d: Tracked, cap: nat)
    requires d.Valid()
    ensures Newest(d, cap).Valid() && |Newest(d, cap).keys| <= cap
  {
    if |d.keys| > cap {
      var kept := d.keys[|d.keys| - cap..];
      assert forall i, j :: 0 <= i < j < cap ==> kept[i] != kept[j];
    }
  }

  lemma NextIsValid(s: System, a: Action)
    requires s.tables.Valid()
    ensures Next(s, a).tables.Valid()
  {
    hide Newest, Surviving, Without, Distinct, Expired;
    var t := s.tables;
    SurvivingValid(t, s.clock);
    match a
    case PostDone(message) =>
      if s.consumer.Posting? {
        PostIsValid(t, s.consumer.delivered, s.consumer.interactive, message);
      }
    case Decide(d) =>
      DelIsValid(t.pending, d.id);
    case PublishDone =>
      if s.decider.Publishing? {
        PublishIsValid(t, s.decider.decision);
      }
    case StartSweep =>
      SweepIsValid(t, s.clock, Items(t.pending));
    case SweepEditDone =>
      if s.sweeper.Sweeping? {
        SweepIsValid(t, s.sweeper.nowMs, s.sweeper.rest);
      }
    case _ =>
  }

  lemma SurvivingValid(t: Tables, nowMs: int)
    requires t.Valid()
    ensures Surviving(t.posted, nowMs).Valid() && Surviving(t.decided, nowMs).Valid()
  {
    SurvivingIsValid(t.posted, nowMs);
    SurvivingIsValid(t.decided, nowMs);
  }

  lemma PostIsValid(t: Tables, intent: Intent, interactive: bool, message: Ref)
    requires t.Valid()
    ensures AfterPost(t, intent, interactive, message).Valid()
  {
    hide Newest;
    PutIsValid(t.posted, intent.id, intent.expiresAtMs);
    NewestIsValid(t.posted.Put(intent.id, intent.expiresAtMs), MAX_TRACKED);
    PutIsValid(t.pending, intent.id, Pending(message, intent.expiresAtMs));
  }

  lemma PublishIsValid(t: Tables, d: Decision)
    requires t.Valid()
    ensures AfterPublish(t, d).Valid()
  {
    hide Newest;
    PutIsValid(t.decided, d.id, d.expiresAtMs);
    NewestIsValid(t.decided.Put(d.id, d.expiresAtMs), MAX_TRACKED);
    DelIsValid(t.pending, d.id);
  }

  lemma SweepIsValid(t: Tables, nowMs: int, rest: seq<Item>)
    requires t.Valid()
    ensures AfterSweep(t, nowMs, rest).Valid()
  {
    hide ContinueSweep, Surviving, Distinct, Without;
    SurvivingValid(t, nowMs);
    match ContinueSweep(t, nowMs, rest)
    case SweepDone =>
    case EditExpired(item, _) => DelIsValid(t.pending, item.id);
    case MissingKey(_) =>
  }

  function Run(clock: int, actions: seq<Action>): (s: System)
    ensures s.tables.Valid()
  {
    if actions == [] then Start(clock)
    else
      var before, last := Run(clock, actions[..|actions| - 1]), actions[|actions| - 1];
      NextIsValid(before, last);
      Next(before, last)
  }

  // ----- what each guard has let through -----

  datatype Channel = Requests | Answers

  /** An approval request posted, or a verdict published; a request is live if it carries buttons. */
  function MarkOf(e: Effect, c: Channel): Option<Mark> {
    match c
    case Requests => if e.Post? then Some(Mark(e.intent.id, e.interactive)) else None
    case Answers => if e.Publish? then Some(Mark(e.verdict.id, true)) else None
  }

  function Marks(log: seq<Effect>, c: Channel): seq<Mark> {
    if log == [] then []
    else
      var init, last := Marks(log[..|log| - 1], c), MarkOf(log[|log| - 1], c);
      if last.Some? then init + [last.value] else init
  }

  function Posts(s: System): Guard {
    Guard(s.tables.posted, Marks(s.log, Requests), if s.consumer.Posting? then Some(s.consumer.delivered.id) else None)
  }

  function Verdicts(s: System): Guard {
    Guard(s.tables.decided, Marks(s.log, Answers), if s.decider.Publishing? then Some(s.decider.decision.id) else None)
  }

  /** Every intent id has one expiry, on its deliveries and in the clicks on its message. */
  ghost predicate OneExpiry(actions: seq<Action>, exp: Id -> int) {
    forall i :: 0 <= i < |actions| ==> Consistent(actions[i], exp)
  }

  predicate Consistent(a: Action, exp: Id -> int) {
    && (a.Deliver? ==> a.intent.expiresAtMs == exp(a.intent.id))
    && (a.Decide? ==> a.decision.expiresAtMs == exp(a.decision.id))
  }

  ghost predicate InFlightConsistent(s: System, exp: Id -> int) {
    && (s.consumer.Posting? ==> s.consumer.delivered.expiresAtMs == exp(s.consumer.delivered.id))
    && (s.decider.Publishing? ==> s.decider.decision.expiresAtMs == exp(s.decider.decision.id))
    && (s.sweeper.Sweeping? ==> s.sweeper.nowMs <= s.clock)
  }

  ghost predicate Guarded(s: System, exp: Id -> int) {
    && GuardInv(Posts(s), exp, s.clock)
    && GuardInv(Verdicts(s), exp, s.clock)
    && InFlightConsistent(s, exp)
  }

  lemma MarksAppend(log: seq<Effect>, e: Effect)
    ensures forall c :: Marks(log + [e], c) == Marks(log, c) + (if MarkOf(e, c).Some? then [MarkOf(e, c).value] else [])
  {
    assert (log + [e])[..|log|] == log;
  }

  /** A step of the system is, for each guard, a step of it. */
  ghost predicate BothStep(s: System, h: System, exp: Id -> int) {
    Steps(Posts(s), Posts(h), exp, s.clock) && Steps(Verdicts(s), Verdicts(h), exp, s.clock)
  }

  lemma DeliverSteps(s: System, exp: Id -> int, intent: Intent)
    requires s.tables.Valid() && s.consumer == Waiting && intent.expiresAtMs == exp(intent.id)
    ensures BothStep(s, Delivered(s, intent), exp)
  {
    hide Marks, Expired, Distinct;
    var h := Delivered(s, intent);
    assert h.log == s.log + [h.log[|s.log|]];
    MarksAppend(s.log, h.log[|s.log|]);
    assert Verdicts(h) == Verdicts(s);
    match StartDelivery(s.tables, intent, s.clock)
    case CommitNow =>
      assert Posts(h) == Posts(s);
    case PostFirst(interactive) =>
      assert CanOpen(Posts(s), intent.id, interactive, exp, s.clock);
      assert Posts(h) == Opened(Posts(s), intent.id, interactive);
  }

  lemma PostSteps(s: System, exp: Id -> int, message: Ref)
    requires s.tables.Valid() && s.consumer.Posting? && s.consumer.delivered.expiresAtMs == exp(s.consumer.delivered.id)
    ensures BothStep(s, PostFinished(s, message), exp)
  {
    hide Marks, Newest, Distinct;
    var h, intent := PostFinished(s, message), s.consumer.delivered;
    var posted := Posted(intent, s.consumer.interactive);
    MarksAppend(s.log, posted);
    MarksAppend(s.log + [posted], Commit(intent));
    assert h.log == s.log + [posted] + [Commit(intent)];
    assert Posts(h) == Recorded(Posts(s), intent.expiresAtMs);
    assert Verdicts(h) == Verdicts(s);
  }

  lemma DecideSteps(s: System, exp: Id -> int, d: Decision)
    requires s.tables.Valid() && s.decider == Listening && d.expiresAtMs == exp(d.id)
    ensures BothStep(s, Decided(s, d), exp)
  {
    hide Marks, Expired, Distinct, Without;
    var h := Decided(s, d);
    if h.log != s.log {
      assert h.log == s.log + [h.log[|s.log|]];
      MarksAppend(s.log, h.log[|s.log|]);
    }
    assert Posts(h) == Posts(s);
    if StartDecision(s.tables, d, s.clock).PublishVerdict? {
      assert CanOpen(Verdicts(s), d.id, true, exp, s.clock);
      assert Verdicts(h) == Opened(Verdicts(s), d.id, true);
    } else {
      assert Verdicts(h) == Verdicts(s);
    }
  }

  lemma PublishSteps(s: System, exp: Id -> int)
    requires s.tables.Valid() && s.decider.Publishing? && s.decider.decision.expiresAtMs == exp(s.decider.decision.id)
    ensures BothStep(s, PublishFinished(s), exp)
  {
    hide Marks, Newest, Distinct, Without;
    var h, d := PublishFinished(s), s.decider.decision;
    MarksAppend(s.log, DecisionEdit(d.id));
    assert Verdicts(h) == Recorded(Verdicts(s), d.expiresAtMs);
    assert Posts(h) == Posts(s);
  }

  lemma SweepSteps(s: System, exp: Id -> int, nowMs: int, rest: seq<Item>, since: nat)
    requires s.tables.Valid() && nowMs <= s.clock
    ensures BothStep(s, SweepOn(s, nowMs, rest, since), exp)
  {
    hide Marks, Surviving, ContinueSweep, Distinct, Without;
    var h := SweepOn(s, nowMs, rest, since);
    match ContinueSweep(s.tables, nowMs, rest)
    case SweepDone =>
      assert Posts(h) == Swept(Posts(s), nowMs) && Verdicts(h) == Swept(Verdicts(s), nowMs);
    case EditExpired(item, _) =>
      MarksAppend(s.log, SweepEdit(item.id));
      assert Posts(h) == Posts(s) && Verdicts(h) == Verdicts(s);
    case MissingKey(_) =>
      assert Posts(h) == Posts(s) && Verdicts(h) == Verdicts(s);
  }

  lemma NothingSteps(s: System, h: System, exp: Id -> int)
    requires s.tables.Valid() && Posts(h) == Posts(s) && Verdicts(h) == Verdicts(s)
    ensures BothStep(s, h, exp)
  {
  }

  /** Every step of every worker is a step of both guards. */
  lemma NextSteps(s: System, exp: Id -> int, a: Action)
    requires s.tables.Valid() && InFlightConsistent(s, exp) && Consistent(a, exp)
    ensures BothStep(s, Next(s, a), exp)
  {
    hide BothStep, Marks, Delivered, PostFinished, Decided, PublishFinished, SweepOn, Items;
    if a.Deliver? && s.consumer == Waiting {
      DeliverSteps(s, exp, a.intent);
    } else if a.PostDone? && s.consumer.Posting? {
      PostSteps(s, exp, a.message);
    } else if a.Decide? && s.decider == Listening {
      DecideSteps(s, exp, a.decision);
    } else if a.PublishDone? && s.decider.Publishing? {
      PublishSteps(s, exp);
    } else if a.StartSweep? && s.sweeper == Resting {
      SweepSteps(s, exp, s.clock, Items(s.tables.pending), |s.log|);
    } else if a.SweepEditDone? && s.sweeper.Sweeping? {
      SweepSteps(s, exp, s.sweeper.nowMs, s.sweeper.rest, s.sweeper.since);
    } else {
      NothingSteps(s, Next(s, a), exp);
    }
  }

  lemma NextInFlight(s: System, exp: Id -> int, a: Action)
    requires s.tables.Valid() && InFlightConsistent(s, exp) && Consistent(a, exp)
    ensures InFlightConsistent(Next(s, a), exp) && s.clock <= Next(s, a).clock
  {
    hide Items, ContinueSweep, Surviving, Newest, Expired, Without, Distinct;
  }

  /** Hence every step keeps both guards. */
  lemma NextKeeps(s: System, exp: Id -> int, a: Action)
    requires s.tables.Valid() && Guarded(s, exp) && Consistent(a, exp)
    ensures Guarded(Next(s, a), exp)
  {
    hide GuardInv, Posts, Verdicts, Steps, Next, InFlightConsistent, Consistent;
    var h := Next(s, a);
    NextSteps(s, exp, a);
    NextInFlight(s, exp, a);
    StepKeeps(Posts(s), Posts(h), exp, s.clock);
    StepKeeps(Verdicts(s), Verdicts(h), exp, s.clock);
    TimeKeeps(Posts(h), exp, s.clock, h.clock);
    TimeKeeps(Verdicts(h), exp, s.clock, h.clock);
  }

  lemma {:induction false} RunKeeps(clock: int, actions: seq<Action>, exp: Id -> int)
    requires OneExpiry(actions, exp)
    ensures Guarded(Run(clock, actions), exp)
    decreases |actions|
  {
    hide GuardInv, Next;
    if actions == [] {
      StartIsGuarded(clock, exp);
    } else {
      var n := |actions| - 1;
      assert forall i :: 0 <= i < n ==> actions[..n][i] == actions[i];
      RunKeeps(clock, actions[..n], exp);
      assert Consistent(actions[n], exp);
      NextKeeps(Run(clock, actions[..n]), exp, actions[n]);
    }
  }

  lemma StartIsGuarded(clock: int, exp: Id -> int)
    ensures Guarded(Start(clock), exp)
  {
  }

  // ----- nothing leaves twice, short of a full table -----

  lemma {:induction false} MarksConcat(a: seq<Effect>, b: seq<Effect>, c: Channel)
    ensures Marks(a + b, c) == Marks(a, c) + Marks(b, c)
    decreases |b|
  {
    if b == [] {
      assert a + b == a;
    } else {
      var n := |b| - 1;
      MarksConcat(a, b[..n], c);
      assert (a + b)[..|a + b| - 1] == a + b[..n];
    }
  }

  ghost function MarkedIds(log: seq<Effect>, c: Channel): set<Id> {
    set e | e in log && MarkOf(e, c).Some? :: MarkOf(e, c).value.id
  }

  lemma {:induction false} MarkedIdsAre(log: seq<Effect>, c: Channel)
    ensures Ids(Marks(log, c)) == MarkedIds(log, c)
    decreases |log|
  {
    if log != [] {
      var n := |log| - 1;
      var last := MarkOf(log[n], c);
      MarkedIdsAre(log[..n], c);
      assert log == log[..n] + [log[n]];
      if last.Some? {
        assert Ids(Marks(log[..n], c) + [last.value]) == Ids(Marks(log[..n], c)) + {last.value.id};
      }
    }
  }

  /** The other ids that went out on a channel strictly between two effects. */
  ghost function Others(log: seq<Effect>, c: Channel, i: nat, j: nat, id: Id): set<Id>
    requires i < j <= |log|
  {
    MarkedIds(log[i + 1..j], c) - {id}
  }

  /** Two effects on a channel, as marks. */
  lemma MarksOf(log: seq<Effect>, c: Channel, i: nat, j: nat) returns (p: nat, q: nat)
    requires i < j < |log| && MarkOf(log[i], c).Some? && MarkOf(log[j], c).Some?
    ensures var marks := Marks(log, c);
            && p < q < |marks| && marks[p] == MarkOf(log[i], c).value && marks[q] == MarkOf(log[j], c).value
            && marks[p + 1..q] == Marks(log[i + 1..j], c)
  {
    hide Marks, MarkOf;
    var rest := log[i + 1..];
    SplitMarks(log, c, i);
    SplitMarks(rest, c, j - i - 1);
    assert rest[..j - i - 1] == log[i + 1..j] && rest[j - i - 1] == log[j];
    var before, between := Marks(log[..i], c), Marks(log[i + 1..j], c);
    Parts(before, MarkOf(log[i], c).value, between, MarkOf(log[j], c).value, Marks(rest[j - i..], c));
    p, q := |before|, |before| + 1 + |between|;
  }

  lemma Parts(before: seq<Mark>, x: Mark, between: seq<Mark>, y: Mark, after: seq<Mark>)
    ensures var all, p, q := before + [x] + (between + [y] + after), |before|, |before| + 1 + |between|;
            all[p] == x && all[q] == y && all[p + 1..q] == between
  {
  }

  lemma SeparatedInLog(log: seq<Effect>, c: Channel, i: nat, j: nat)
    requires Separated(Marks(log, c))
    requires i < j < |log| && MarkOf(log[i], c).Some? && MarkOf(log[j], c).Some?
    requires MarkOf(log[i], c).value.id == MarkOf(log[j], c).value.id && MarkOf(log[j], c).value.live
    ensures |Others(log, c, i, j, MarkOf(log[j], c).value.id)| >= MAX_TRACKED
  {
    hide Separated, Marks, MarkOf, MarkedIds, Ids;
    var p, q := MarksOf(log, c, i, j);
    MarkedIdsAre(log[i + 1..j], c);
    SeparatedAt(Marks(log, c), p, q);
  }

  lemma SeparatedAt(marks: seq<Mark>, p: nat, q: nat)
    requires Separated(marks) && p < q < |marks| && marks[p].id == marks[q].id && marks[q].live
    ensures |Between(marks, p, q)| >= MAX_TRACKED
  {
  }

  /** The marks before an effect, its own, and those after. */
  lemma SplitMarks(log: seq<Effect>, c: Channel, i: nat)
    requires i < |log| && MarkOf(log[i], c).Some?
    ensures Marks(log, c) == Marks(log[..i], c) + [MarkOf(log[i], c).value] + Marks(log[i + 1..], c)
  {
    var here := [log[i]];
    assert log == log[..i] + (here + log[i + 1..]);
    MarksConcat(log[..i], here + log[i + 1..], c);
    MarksConcat(here, log[i + 1..], c);
    assert here[..0] == [] && Marks(here, c) == [MarkOf(log[i], c).value];
  }

  /** Two verdicts for one intent are separated by verdicts for at least 4096 others: the
      sweep never re-enables a click, only the cap can. */
  lemma SecondVerdict(clock: int, actions: seq<Action>, exp: Id -> int, i: nat, j: nat)
    requires OneExpiry(actions, exp)
    requires i < j < |Run(clock, actions).log|
    requires var log := Run(clock, actions).log;
             log[i].Publish? && log[j].Publish? && log[i].verdict.id == log[j].verdict.id
    ensures var log := Run(clock, actions).log;
            |Others(log, Answers, i, j, log[j].verdict.id)| >= MAX_TRACKED
  {
    hide Separated, Run, AllSettled, Others;
    RunKeeps(clock, actions, exp);
    SeparatedInLog(Run(clock, actions).log, Answers, i, j);
  }

  /** Likewise a second message with buttons for one intent. */
  lemma SecondRequest(clock: int, actions: seq<Action>, exp: Id -> int, i: nat, j: nat)
    requires OneExpiry(actions, exp)
    requires i < j < |Run(clock, actions).log|
    requires var log := Run(clock, actions).log;
             log[i].Post? && log[j].Post? && log[j].interactive && log[i].intent.id == log[j].intent.id
    ensures var log := Run(clock, actions).log;
            |Others(log, Requests, i, j, log[j].intent.id)| >= MAX_TRACKED
  {
    hide Separated, Run, AllSettled, Others;
    RunKeeps(clock, actions, exp);
    SeparatedInLog(Run(clock, actions).log, Requests, i, j);
  }

  // ----- what may leave, and when -----

  ghost function PostedIds(log: seq<Effect>): set<Id> {
    set e | e in log && e.Posted? :: e.intent.id
  }

  /** Passed the expiry gate, or is about an approval. */
  predicate Proper(e: Effect) {
    && (e.Publish? ==> 0 < e.expiresAtMs && e.checkedAtMs < e.expiresAtMs)
    && (e.Post? || e.Posted? ==> e.intent.kind == Approval)
  }

  /** Every approval is committed after a post for its id succeeded. */
  ghost predicate CommittedAfterPost(log: seq<Effect>) {
    forall j :: 0 <= j < |log| && log[j].Commit? && log[j].intent.kind == Approval ==>
      log[j].intent.id in PostedIds(log[..j])
  }

  ghost predicate Orderly(s: System) {
    && (forall e :: e in s.log ==> Proper(e))
    && CommittedAfterPost(s.log)
    && (forall k :: s.tables.posted.Has(k) || s.tables.pending.Has(k) ==> k in PostedIds(s.log))
    && (s.consumer.Posting? ==> s.consumer.delivered.kind == Approval)
    && |s.tables.posted.keys| <= MAX_TRACKED && |s.tables.decided.keys| <= MAX_TRACKED
  }

  lemma CommitOne(log: seq<Effect>, e: Effect)
    requires CommittedAfterPost(log)
    requires e.Commit? && e.intent.kind == Approval ==> e.intent.id in PostedIds(log)
    ensures CommittedAfterPost(log + [e])
    ensures PostedIds(log + [e]) == PostedIds(log) + (if e.Posted? then {e.intent.id} else {})
  {
    var more := log + [e];
    forall j | 0 <= j < |more| && more[j].Commit? && more[j].intent.kind == Approval
      ensures more[j].intent.id in PostedIds(more[..j])
    {
      assert more[..j] == log[..j];
      assert log[..|log|] == log;
    }
  }

  lemma OrderlyDelivery(s: System, intent: Intent)
    requires Orderly(s)
    ensures Orderly(Delivered(s, intent))
  {
    hide PostedIds, CommittedAfterPost, Expired;
    var h := Delivered(s, intent);
    assert h.log == s.log + [h.log[|s.log|]];
    CommitOne(s.log, h.log[|s.log|]);
  }

  lemma OrderlyPost(s: System, message: Ref)
    requires s.tables.Valid() && Orderly(s) && s.consumer.Posting?
    ensures Orderly(PostFinished(s, message))
  {
    hide PostedIds, CommittedAfterPost, Newest;
    var h, intent := PostFinished(s, message), s.consumer.delivered;
    var posted := Posted(intent, s.consumer.interactive);
    CommitOne(s.log, posted);
    CommitOne(s.log + [posted], Commit(intent));
    assert h.log == s.log + [posted] + [Commit(intent)];
    PutIsValid(s.tables.posted, intent.id, intent.expiresAtMs);
    NewestIsValid(s.tables.posted.Put(intent.id, intent.expiresAtMs), MAX_TRACKED);
    NewestForgets(s.tables.posted.Put(intent.id, intent.expiresAtMs), MAX_TRACKED);
  }

  lemma NewestForgets(d: Tracked, cap: nat)
    requires d.Valid()
    ensures forall k :: Newest(d, cap).Has(k) ==> d.Has(k)
  {
  }

  lemma SurvivingForgets(d: Tracked, nowMs: int)
    requires d.Valid()
    ensures forall k :: Surviving(d, nowMs).Has(k) ==> d.Has(k)
  {
  }

  lemma OrderlyDecision(s: System, d: Decision)
    requires s.tables.Valid() && Orderly(s)
    ensures Orderly(Decided(s, d))
  {
    hide PostedIds, CommittedAfterPost, Without;
    var h := Decided(s, d);
    if h.log != s.log {
      assert h.log == s.log + [h.log[|s.log|]];
      CommitOne(s.log, h.log[|s.log|]);
    }
  }

  lemma OrderlyPublish(s: System)
    requires s.tables.Valid() && Orderly(s) && s.decider.Publishing?
    ensures Orderly(PublishFinished(s))
  {
    hide PostedIds, CommittedAfterPost, Newest, Without;
    var d := s.decider.decision;
    CommitOne(s.log, DecisionEdit(d.id));
    PutIsValid(s.tables.decided, d.id, d.expiresAtMs);
    NewestIsValid(s.tables.decided.Put(d.id, d.expiresAtMs), MAX_TRACKED);
  }

  lemma OrderlySweep(s: System, nowMs: int, rest: seq<Item>, since: nat)
    requires s.tables.Valid() && Orderly(s)
    ensures Orderly(SweepOn(s, nowMs, rest, since))
  {
    hide PostedIds, CommittedAfterPost, Surviving, ContinueSweep, Without;
    match ContinueSweep(s.tables, nowMs, rest)
    case SweepDone =>
      SurvivingIsValid(s.tables.posted, nowMs);
      SurvivingIsValid(s.tables.decided, nowMs);
      SurvivingForgets(s.tables.posted, nowMs);
    case EditExpired(item, _) =>
      CommitOne(s.log, SweepEdit(item.id));
    case MissingKey(_) =>
  }

  lemma {:induction false} RunIsOrderly(clock: int, actions: seq<Action>)
    ensures Orderly(Run(clock, actions))
    decreases |actions|
  {
    hide Orderly, Delivered, PostFinished, Decided, PublishFinished, SweepOn, Items;
    if actions == [] {
      StartIsOrderly(clock);
    } else {
      var s, a := Run(clock, actions[..|actions| - 1]), actions[|actions| - 1];
      RunIsOrderly(clock, actions[..|actions| - 1]);
      match a
      case Deliver(intent) => OrderlyDelivery(s, intent);
      case PostDone(message) => if s.consumer.Posting? { OrderlyPost(s, message); }
      case Decide(d) => OrderlyDecision(s, d);
      case PublishDone => if s.decider.Publishing? { OrderlyPublish(s); }
      case StartSweep => OrderlySweep(s, s.clock, Items(s.tables.pending), |s.log|);
      case SweepEditDone =>
        if s.sweeper.Sweeping? { OrderlySweep(s, s.sweeper.nowMs, s.sweeper.rest, s.sweeper.since); }
      case _ => OrderlyIgnores(s, Next(s, a));
    }
  }

  lemma StartIsOrderly(clock: int)
    ensures Orderly(Start(clock))
  {
  }

  lemma OrderlyIgnores(s: System, h: System)
    requires Orderly(s) && h.log == s.log && h.tables == s.tables && (h.consumer == s.consumer || h.consumer == Waiting)
    ensures Orderly(h)
  {
  }

  // ----- every verdict was clicked -----

  ghost predicate Clicked(e: Effect, actions: seq<Action>) {
    e.Publish? ==>
      exists k :: 0 <= k < |actions| && ClickOf(actions[k], e)
  }

  /** The verdict is the click's: its key, its answer, its approver, its time, its expiry. */
  predicate ClickOf(a: Action, e: Effect) {
    && e.Publish? && a.Decide? && a.decision.entityKey == Some(e.verdict.entityKey)
    && e.verdict.id == a.decision.id
    && e.verdict.approved == a.decision.approved
    && e.verdict.approver == a.decision.approver
    && e.verdict.decidedAtMs == a.decision.decidedAtMs && e.verdict.eventTimeMs == a.decision.decidedAtMs
    && e.expiresAtMs == a.decision.expiresAtMs
  }

  lemma NewEffects(s: System, a: Action)
    requires s.tables.Valid()
    ensures |s.log| <= |Next(s, a).log| && Next(s, a).log[..|s.log|] == s.log
    ensures forall e :: e in Next(s, a).log[|s.log|..] && e.Publish? ==> ClickOf(a, e)
  {
    hide Items, Surviving, Newest, Without, Expired;
  }

  /** What each action makes leave, case by case. */
  lemma WhatLeaves(s: System, a: Action)
    requires s.tables.Valid()
    ensures var t, more := s.tables, Next(s, a).log[|s.log|..];
            match a
            case Deliver(i) =>
              if s.consumer != Waiting then more == []
              else if i.kind != Approval || i.id in t.posted.vals then more == [Commit(i)]
              else more == [Post(i, 0 < i.expiresAtMs && s.clock < i.expiresAtMs)]
            case PostDone(_) =>
              more == if s.consumer.Posting?
                      then [Posted(s.consumer.delivered, s.consumer.interactive), Commit(s.consumer.delivered)]
                      else []
            case Decide(d) =>
              if s.decider != Listening then more == []
              else if d.id in t.decided.vals then more == [Answer(d.id)]
              else if d.expiresAtMs <= 0 || d.expiresAtMs <= s.clock then more == [DecisionEdit(d.id)]
              else if d.entityKey == None then more == []
              else |more| == 1 && ClickOf(a, more[0]) && more[0].checkedAtMs == s.clock
            case PublishDone => more == if s.decider.Publishing? then [DecisionEdit(s.decider.decision.id)] else []
            case StartSweep => |more| <= 1 && forall e :: e in more ==> e.SweepEdit?
            case SweepEditDone => |more| <= 1 && forall e :: e in more ==> e.SweepEdit?
            case _ => more == []
  {
    hide Items, Surviving, Newest, Without, ContinueSweep;
  }

  /** Every verdict that leaves repeats a click: its key, its answer, its approver, its expiry. */
  lemma {:induction false} VerdictsAreClicked(clock: int, actions: seq<Action>, e: Effect)
    requires e in Run(clock, actions).log
    ensures Clicked(e, actions)
    decreases |actions|
  {
    hide Next, ClickOf;
    if actions != [] {
      var n := |actions| - 1;
      var s := Run(clock, actions[..n]);
      NewEffects(s, actions[n]);
      var log := Next(s, actions[n]).log;
      assert log == log[..|s.log|] + log[|s.log|..];
      if e in s.log {
        VerdictsAreClicked(clock, actions[..n], e);
        if e.Publish? {
          var k :| 0 <= k < n && ClickOf(actions[..n][k], e);
          assert ClickOf(actions[k], e);
        }
      }
    }
  }
}
