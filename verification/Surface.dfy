/** The approval surface: deliveries become messages, clicks become verdicts, and a
    sweep retires what has expired.

    Each coroutine of the service runs without interruption from one `await` to the
    next; the class has one method per such segment.
 */
module Surface {
  import opened OrderedDict
  import opened Tracking
  import Varint
  import opened Wrappers

  type Ref = nat

  datatype Kind = Unspecified | Tool | Approval

  datatype Intent = Intent(id: Id, kind: Kind, expiresAtMs: int)

  /** A click. `entityKey` is None when the text it carries is not hexadecimal. */
  datatype Decision = Decision(
    id: Id, expiresAtMs: int, entityKey: Option<seq<Varint.Byte>>, approved: bool, approver: string, decidedAtMs: int,
    message: Ref)

  /** The envelope published for a verdict, keyed by the entity it answers. */
  datatype Verdict = Verdict(
    entityKey: seq<Varint.Byte>, eventTimeMs: int, id: Id, approved: bool, approver: string, decidedAtMs: int)

  datatype Pending = Pending(message: Ref, expiresAtMs: int)

  datatype Item = Item(id: Id, pending: Pending)

  datatype Tables = Tables(posted: Tracked, pending: Dict<Id, Pending>, decided: Tracked) {
    ghost predicate Valid() {
      posted.Valid() && pending.Valid() && decided.Valid()
    }
  }

  // ----- consume, then post -----

  datatype DeliveryStep = CommitNow | PostFirst(interactive: bool)

  function StartDelivery(t: Tables, intent: Intent, nowMs: int): DeliveryStep {
    if intent.kind != Approval || t.posted.Has(intent.id) then CommitNow
    else PostFirst(!Expired(intent.expiresAtMs, nowMs))
  }

  function AfterPost(t: Tables, intent: Intent, interactive: bool, message: Ref): Tables
    requires t.Valid()
  {
    PutIsValid(t.posted, intent.id, intent.expiresAtMs);
    t.(posted := Newest(t.posted.Put(intent.id, intent.expiresAtMs), MAX_TRACKED),
       pending := if interactive then t.pending.Put(intent.id, Pending(message, intent.expiresAtMs)) else t.pending)
  }

  // ----- decide, then publish -----

  datatype DecisionStep = AlreadyDecided | Refused | NotHex | PublishVerdict(verdict: Verdict)

  function VerdictOf(d: Decision): Verdict
    requires d.entityKey.Some?
  {
    Verdict(d.entityKey.value, d.decidedAtMs, d.id, d.approved, d.approver, d.decidedAtMs)
  }

  function StartDecision(t: Tables, d: Decision, nowMs: int): DecisionStep {
    if t.decided.Has(d.id) then AlreadyDecided
    else if Expired(d.expiresAtMs, nowMs) then Refused
    else if d.entityKey.None? then NotHex
    else PublishVerdict(VerdictOf(d))
  }

  function AfterDecision(t: Tables, d: Decision, nowMs: int): Tables {
    if StartDecision(t, d, nowMs) == Refused then t.(pending := t.pending.Del(d.id)) else t
  }

  function AfterPublish(t: Tables, d: Decision): Tables
    requires t.Valid()
  {
    PutIsValid(t.decided, d.id, d.expiresAtMs);
    t.(decided := Newest(t.decided.Put(d.id, d.expiresAtMs), MAX_TRACKED), pending := t.pending.Del(d.id))
  }

  // ----- the sweep -----

  function Items(pending: Dict<Id, Pending>): seq<Item>
    requires pending.Valid()
  {
    seq(|pending.keys|, i requires 0 <= i < |pending.keys| =>
      assert pending.keys[i] in pending.keys;
      Item(pending.keys[i], pending.vals[pending.keys[i]]))
  }

  datatype SweepStep = SweepDone | EditExpired(item: Item, rest: seq<Item>) | MissingKey(id: Id)

  /** From one item of the snapshot to the next one edited. */
  function ContinueSweep(t: Tables, nowMs: int, rest: seq<Item>): SweepStep {
    if rest == [] then SweepDone
    else if !Expired(rest[0].pending.expiresAtMs, nowMs) then ContinueSweep(t, nowMs, rest[1..])
    else if !t.pending.Has(rest[0].id) then MissingKey(rest[0].id)
    else EditExpired(rest[0], rest[1..])
  }

  function AfterSweep(t: Tables, nowMs: int, rest: seq<Item>): Tables
    requires t.Valid()
  {
    match ContinueSweep(t, nowMs, rest)
    case SweepDone => t.(posted := Surviving(t.posted, nowMs), decided := Surviving(t.decided, nowMs))
    case EditExpired(item, _) => t.(pending := t.pending.Del(item.id))
    case MissingKey(_) => t
  }

  /** A finished sweep has forgotten exactly what is past its retention. */
  lemma SweepForgets(t: Tables, nowMs: int, rest: seq<Item>, k: Id)
    requires t.Valid() && ContinueSweep(t, nowMs, rest) == SweepDone
    ensures var r := AfterSweep(t, nowMs, rest);
            && (k in r.posted.vals <==> k in t.posted.vals && nowMs < t.posted.vals[k] + 3_600_000)
            && (k in r.decided.vals <==> k in t.decided.vals && nowMs < t.decided.vals[k] + 3_600_000)
            && (k in r.posted.vals ==> r.posted.vals[k] == t.posted.vals[k])
            && (k in r.decided.vals ==> r.decided.vals[k] == t.decided.vals[k])
            && r.pending == t.pending
  {
    assert t.posted.Has(k) <==> k in t.posted.keys;
    assert t.decided.Has(k) <==> k in t.decided.keys;
  }

  // ----- the object -----

  /** `kept` is the newest 4096 entries of `all`, in order, or all of them. */
  ghost predicate Retains(kept: Tracked, all: Tracked) {
    && kept.keys == (if |all.keys| <= 4096 then all.keys else all.keys[|all.keys| - 4096..])
    && forall k :: k in kept.keys ==> k in kept.vals && k in all.vals && kept.vals[k] == all.vals[k]
  }

  class ApprovalSurface {
    var posted: Tracked
    var pending: Dict<Id, Pending>
    var decided: Tracked

    function State(): Tables
      reads this
    {
      Tables(posted, pending, decided)
    }

    constructor ()
      ensures State() == Tables(Empty(), Empty(), Empty()) && State().Valid()
    {
      posted, pending, decided := Empty(), Empty(), Empty();
    }

    /** A delivery up to its first `await`. */
    method BeginDelivery(intent: Intent, nowMs: int) returns (step: DeliveryStep)
      ensures step == StartDelivery(State(), intent, nowMs)
      ensures step.PostFirst? <==> intent.kind == Approval && intent.id !in posted.vals
      ensures step.PostFirst? ==> (step.interactive <==> 0 < intent.expiresAtMs && nowMs < intent.expiresAtMs)
    {
      if intent.kind != Approval {
        return CommitNow;
      }
      if posted.Has(intent.id) {
        return CommitNow;
      }
      if Expired(intent.expiresAtMs, nowMs) {
        step := PostFirst(false);
      } else {
        step := PostFirst(true);
      }
    }

    method TrackPosted(intent: Intent)
      requires State().Valid()
      modifies this`posted
      ensures State().posted == AfterPost(old(State()), intent, false, 0).posted
    {
      PutIsValid(posted, intent.id, intent.expiresAtMs);
      posted := posted.Put(intent.id, intent.expiresAtMs);
      posted := EvictOldest(posted, MAX_TRACKED);
    }

    /** From the post to the commit. */
    method FinishPost(intent: Intent, interactive: bool, message: Ref)
      requires State().Valid()
      modifies this
      ensures State() == AfterPost(old(State()), intent, interactive, message)
      ensures Retains(posted, old(posted.Put(intent.id, intent.expiresAtMs)))
      ensures pending == if interactive then old(pending.Put(intent.id, Pending(message, intent.expiresAtMs)))
                         else old(pending)
      ensures decided == old(decided)
    {
      TrackPosted(intent);
      if interactive {
        pending := pending.Put(intent.id, Pending(message, intent.expiresAtMs));
      }
    }

    /** A click up to its first `await`. */
    method BeginDecision(d: Decision, nowMs: int) returns (step: DecisionStep)
      requires State().Valid()
      modifies this`pending
      ensures step == StartDecision(old(State()), d, nowMs)
      ensures State() == AfterDecision(old(State()), d, nowMs)
      ensures step == AlreadyDecided <==> d.id in decided.vals
      ensures step == Refused <==> d.id !in decided.vals && (d.expiresAtMs <= 0 || d.expiresAtMs <= nowMs)
      ensures step == NotHex <==>
                d.id !in decided.vals && 0 < d.expiresAtMs && nowMs < d.expiresAtMs && d.entityKey == None
      ensures step.PublishVerdict? ==>
                && Some(step.verdict.entityKey) == d.entityKey && step.verdict.eventTimeMs == d.decidedAtMs
                && step.verdict.id == d.id && step.verdict.approved == d.approved
                && step.verdict.approver == d.approver && step.verdict.decidedAtMs == d.decidedAtMs
      ensures pending.vals == if step == Refused then old(pending.vals) - {d.id} else old(pending.vals)
    {
      if decided.Has(d.id) {
        return AlreadyDecided;
      }
      if Expired(d.expiresAtMs, nowMs) {
        pending := pending.Del(d.id);
        return Refused;
      }
      if d.entityKey.None? {
        return NotHex;
      }
      step := PublishVerdict(Verdict(d.entityKey.value, d.decidedAtMs, d.id, d.approved, d.approver, d.decidedAtMs));
    }

    /** From the publish to the edit. */
    method FinishPublish(d: Decision)
      requires State().Valid()
      modifies this
      ensures State() == AfterPublish(old(State()), d)
      ensures Retains(decided, old(decided.Put(d.id, d.expiresAtMs)))
      ensures pending.vals == old(pending.vals) - {d.id} && posted == old(posted)
    {
      PutIsValid(decided, d.id, d.expiresAtMs);
      decided := decided.Put(d.id, d.expiresAtMs);
      decided := EvictOldest(decided, MAX_TRACKED);
      pending := pending.Del(d.id);
    }

    /** The sweep from one edit to the next, or to its end. */
    method ResumeSweep(nowMs: int, rest: seq<Item>) returns (step: SweepStep)
      requires State().Valid()
      modifies this
      ensures step == ContinueSweep(old(State()), nowMs, rest)
      ensures State() == AfterSweep(old(State()), nowMs, rest)
    {
      hide Surviving;
      for i := 0 to |rest|
        invariant State() == old(State())
        invariant ContinueSweep(State(), nowMs, rest) == ContinueSweep(State(), nowMs, rest[i..])
      {
        assert rest[i..][0] == rest[i] && rest[i..][1..] == rest[i + 1..];
        if Expired(rest[i].pending.expiresAtMs, nowMs) {
          if !pending.Has(rest[i].id) {
            return MissingKey(rest[i].id);
          }
          pending := pending.Del(rest[i].id);
          return EditExpired(rest[i], rest[i + 1..]);
        }
      }
      posted := ForgetLongDead(posted, nowMs);
      decided := ForgetLongDead(decided, nowMs);
      step := SweepDone;
    }
  }
}
