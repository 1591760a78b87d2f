/** One subscriber under every interleaving of publishers, deferred callbacks, the
    reader, loop shutdown and release, and what holds after every run.
 */
module MailboxRuns {
  import opened Broadcaster
  import opened Wrappers

  /** The reader is between pulls, or has been told there is nothing and waits on
      its flag, or has ended. */
  datatype Reader = Running | Waiting | Ended

  datatype State = State(
    box: Box, loop: nat, registered: bool, loopOpen: bool, reader: Reader,
    offered: seq<LiveEvent>, delivered: seq<Delivery>)

  /** `running` is the event loop of the publishing thread, if it has one. */
  datatype Action =
    | Publish(event: LiveEvent, running: Option<nat>)
    | Callback
    | ReaderTurn
    | CloseLoop
    | Unsubscribe

  function Start(depth: nat, loop: nat): State {
    State(EmptyBox(depth), loop, true, true, Running, [], [])
  }

  function WakeFor(s: State, running: Option<nat>): Wake {
    if !s.loopOpen then LoopClosed
    else if running == Some(s.loop) then SetNow
    else Scheduled
  }

  /** A step that is not enabled changes nothing. */
  function Next(s: State, a: Action): State {
    match a
    case Publish(event, running) =>
      if !s.registered then s
      else s.(box := Offered(s.box, event, WakeFor(s, running)), offered := s.offered + [event])
    case Callback =>
      if !s.loopOpen || s.box.callbacks == 0 then s
      else s.(box := s.box.(callbacks := s.box.callbacks - 1, flag := true))
    case ReaderTurn =>
      if !ReaderEnabled(s) then s
      else
        var taken := Take(s.box);
        (match taken.delivery
         case None => s.(box := taken.box, reader := Waiting)
         case Some(d) => s.(box := taken.box, reader := Running, delivered := s.delivered + [d]))
    case CloseLoop => s.(loopOpen := false)
    case Unsubscribe => s.(registered := false, reader := Ended, box := s.box.(queue := []))
  }

  /** What each action does to a mailbox. An event that is queued sets the reader's flag at
      once from the reader's own loop, by a later callback from anywhere else, and not at
      all once that loop has closed; one that is dropped wakes nobody. */
  lemma StepIs(s: State, a: Action)
    ensures var h, fits := Next(s, a), s.registered && |s.box.queue| < s.box.depth;
            match a
            case Publish(event, running) =>
              && h.box.queue == (if fits then s.box.queue + [event] else s.box.queue)
              && h.box.dropped == (if s.registered && !fits then s.box.dropped + 1 else s.box.dropped)
              && h.box.flag == (s.box.flag || (fits && s.loopOpen && running == Some(s.loop)))
              && h.box.callbacks == s.box.callbacks + (if fits && s.loopOpen && running != Some(s.loop) then 1 else 0)
              && h.offered == (if s.registered then s.offered + [event] else s.offered)
            case Callback =>
              && h.box.flag == (s.box.flag || (s.loopOpen && s.box.callbacks > 0))
              && h.box.callbacks == (if s.loopOpen && s.box.callbacks > 0 then s.box.callbacks - 1 else s.box.callbacks)
              && h.box.queue == s.box.queue && h.box.dropped == s.box.dropped
            case ReaderTurn =>
              if !s.loopOpen || s.reader == Ended || (s.reader == Waiting && !s.box.flag) then h == s
              else if s.box.dropped > 0 then
                && h.delivered == s.delivered + [Lagged(s.box.dropped)]
                && h.box == s.box.(dropped := 0) && h.reader == Running
              else if s.box.queue != [] then
                && h.delivered == s.delivered + [Event(s.box.queue[0])]
                && h.box == s.box.(queue := s.box.queue[1..]) && h.reader == Running
              else h.delivered == s.delivered && h.box == s.box.(flag := false) && h.reader == Waiting
            case CloseLoop => h == s.(loopOpen := false)
            case Unsubscribe => !h.registered && h.reader == Ended && h.box.queue == [] && h.delivered == s.delivered
  {
  }

  /** A subscriber is registered from the start, with nothing queued and nobody to wake. */
  lemma StartIs(depth: nat, loop: nat)
    ensures var s := Start(depth, loop);
            && s.registered && s.loopOpen && s.reader == Running && s.loop == loop
            && s.box == Box(depth, 0, [], false, 0) && s.offered == [] && s.delivered == []
  {
  }

  predicate ReaderEnabled(s: State) {
    s.loopOpen && s.reader != Ended && (s.reader == Waiting ==> s.box.flag)
  }

  function Run(s: State, actions: seq<Action>): State {
    if actions == [] then s
    else Next(Run(s, actions[..|actions| - 1]), actions[|actions| - 1])
  }

  function EventsIn(ds: seq<Delivery>): seq<LiveEvent> {
    if ds == [] then []
    else
      EventsIn(ds[..|ds| - 1]) +
      match ds[|ds| - 1] case Event(e) => [e] case Lagged(_) => []
  }

  function LagReported(ds: seq<Delivery>): nat {
    if ds == [] then 0
    else
      LagReported(ds[..|ds| - 1]) +
      match ds[|ds| - 1] case Event(_) => 0 case Lagged(n) => n
  }

  ghost predicate Subsequence<T>(a: seq<T>, b: seq<T>) {
    || a == []
    || (b != [] && Subsequence(a, b[..|b| - 1]))
    || (b != [] && a[|a| - 1] == b[|b| - 1] && Subsequence(a[..|a| - 1], b[..|b| - 1]))
  }

  /** The events this subscriber has been or will be handed, in order. */
  function Kept(s: State): seq<LiveEvent> {
    EventsIn(s.delivered) + s.box.queue
  }

  /** What every run keeps while the subscriber is registered. The unreported drops
      are the newest events offered: nothing is accepted behind an unreported gap. */
  ghost predicate Inv(s: State) {
    && s.box.depth >= 1
    && (s.registered ==>
          && s.reader != Ended
          && |s.box.queue| <= s.box.depth
          && (s.box.dropped > 0 ==> |s.box.queue| == s.box.depth)
          && s.box.dropped <= |s.offered|
          && |s.offered| - s.box.dropped == |Kept(s)| + LagReported(s.delivered)
          && Subsequence(Kept(s), s.offered[..|s.offered| - s.box.dropped])
          && (s.loopOpen && s.reader == Waiting && s.box.queue != [] ==> s.box.flag || s.box.callbacks > 0))
  }

  lemma SubsequenceBoth<T>(a: seq<T>, b: seq<T>, x: T)
    requires Subsequence(a, b)
    ensures Subsequence(a + [x], b + [x])
  {
    assert (a + [x])[..|a|] == a && (b + [x])[..|b|] == b;
  }

  lemma PublishKeepsInv(s: State, event: LiveEvent, running: Option<nat>)
    requires Inv(s) && s.registered
    ensures Inv(Next(s, Publish(event, running)))
  {
    hide EventsIn, LagReported, Subsequence;
    var s' := Next(s, Publish(event, running));
    if |s.box.queue| >= s.box.depth {
      assert s'.offered[..|s'.offered| - s'.box.dropped] == s.offered[..|s.offered| - s.box.dropped];
    } else {
      assert s.box.dropped == 0 && s'.box.dropped == 0 && s'.box.queue == s.box.queue + [event];
      assert s.offered[..|s.offered| - 0] == s.offered && s'.offered[..|s'.offered| - 0] == s'.offered;
      assert Kept(s') == Kept(s) + [event];
      SubsequenceBoth(Kept(s), s.offered, event);
    }
  }

  lemma DeliveredMore(ds: seq<Delivery>, d: Delivery)
    ensures EventsIn(ds + [d]) == EventsIn(ds) + (match d case Event(e) => [e] case Lagged(_) => [])
    ensures LagReported(ds + [d]) == LagReported(ds) + (match d case Event(_) => 0 case Lagged(n) => n)
  {
    assert (ds + [d])[..|ds|] == ds;
  }

  lemma ReaderKeepsInv(s: State)
    requires Inv(s) && s.registered && ReaderEnabled(s)
    ensures Inv(Next(s, ReaderTurn))
  {
    hide EventsIn, LagReported, Subsequence;
    var s', taken := Next(s, ReaderTurn), Take(s.box);
    if taken.delivery.Some? {
      DeliveredMore(s.delivered, taken.delivery.value);
      if s.box.dropped > 0 {
        assert Kept(s') == Kept(s);
        SubsequenceOfMore(Kept(s), s.offered, |s.offered| - s.box.dropped);
        assert s.offered[..|s.offered|] == s.offered;
      } else {
        assert s.box.queue == [s.box.queue[0]] + s.box.queue[1..];
        assert Kept(s') == Kept(s);
      }
    }
  }

  lemma {:induction false} SubsequenceOfMore<T>(a: seq<T>, b: seq<T>, n: nat)
    requires n <= |b| && Subsequence(a, b[..n])
    ensures Subsequence(a, b)
    decreases |b| - n
  {
    if n == |b| {
      assert b[..n] == b;
    } else {
      assert b[..n + 1][..n] == b[..n];
      SubsequenceOfMore(a, b, n + 1);
    }
  }

  lemma NextKeepsInv(s: State, a: Action)
    requires Inv(s)
    ensures Inv(Next(s, a))
  {
    hide EventsIn, LagReported, Subsequence;
    if s.registered {
      match a
      case Publish(event, running) => PublishKeepsInv(s, event, running);
      case ReaderTurn =>
        if ReaderEnabled(s) {
          ReaderKeepsInv(s);
        }
      case _ =>
    }
  }

  lemma {:induction false} RunKeepsInv(depth: nat, loop: nat, actions: seq<Action>)
    requires depth >= 1
    ensures Inv(Run(Start(depth, loop), actions))
    decreases |actions|
  {
    if actions == [] {
      assert Start(depth, loop).offered[..0] == [];
    } else {
      hide Inv, Next;
      RunKeepsInv(depth, loop, actions[..|actions| - 1]);
      NextKeepsInv(Run(Start(depth, loop), actions[..|actions| - 1]), actions[|actions| - 1]);
    }
  }

  /** No lost wake-up: after every run, a registered reader that is blocked with
      its flag clear and no callback in flight has nothing to be told. */
  lemma NoLostWakeup(depth: nat, loop: nat, actions: seq<Action>)
    requires depth >= 1
    ensures var s := Run(Start(depth, loop), actions);
            s.registered && s.loopOpen && s.reader == Waiting && !s.box.flag && s.box.callbacks == 0 ==>
              s.box.queue == [] && s.box.dropped == 0
  {
    RunKeepsInv(depth, loop, actions);
  }

  /** Conservation: every event offered was delivered, is queued, or is counted as
      dropped, reported or not; what is kept keeps its order. */
  lemma Conservation(depth: nat, loop: nat, actions: seq<Action>)
    requires depth >= 1
    ensures var s := Run(Start(depth, loop), actions);
            s.registered ==>
              && |s.offered| == |EventsIn(s.delivered)| + |s.box.queue| + s.box.dropped + LagReported(s.delivered)
              && |s.box.queue| <= depth
              && Subsequence(Kept(s), s.offered[..|s.offered| - s.box.dropped])
  {
    RunKeepsInv(depth, loop, actions);
    DepthIsFixed(Start(depth, loop), actions);
  }

  lemma {:induction false} DepthIsFixed(s: State, actions: seq<Action>)
    ensures Run(s, actions).box.depth == s.box.depth && Run(s, actions).loop == s.loop
    decreases |actions|
  {
    hide Next;
    if actions != [] {
      DepthIsFixed(s, actions[..|actions| - 1]);
      NextKeepsDepth(Run(s, actions[..|actions| - 1]), actions[|actions| - 1]);
    }
  }

  lemma NextKeepsDepth(s: State, a: Action)
    ensures Next(s, a).box.depth == s.box.depth && Next(s, a).loop == s.loop
  {
  }

  /** Whatever is pending can reach the reader: at most one callback away, its next
      turn delivers. */
  lemma PendingIsDeliverable(depth: nat, loop: nat, actions: seq<Action>)
    requires depth >= 1
    ensures var s := Run(Start(depth, loop), actions);
            s.registered && s.loopOpen && (s.box.queue != [] || s.box.dropped > 0) ==>
              || |Next(s, ReaderTurn).delivered| == |s.delivered| + 1
              || |Next(Next(s, Callback), ReaderTurn).delivered| == |s.delivered| + 1
  {
    RunKeepsInv(depth, loop, actions);
  }
}
