/** All subscribers of a feed at once: each is as if it were alone. */
module FeedRuns {
  import opened Broadcaster
  import opened MailboxRuns
  import opened Wrappers

  datatype LocalAction = RunCallback | TakeTurn | LoopCloses | Leave

  function AsAction(a: LocalAction): Action {
    match a
    case RunCallback => Callback
    case TakeTurn => ReaderTurn
    case LoopCloses => CloseLoop
    case Leave => Unsubscribe
  }

  /** A fan-out is one step per event: a batch is several of them, between which callbacks
      run. The lock that keeps readers out meanwhile is not needed for what follows. */
  datatype FeedAction =
    | FanOut(event: LiveEvent, running: Option<nat>)
    | Join(id: nat, loop: nat)
    | At(id: nat, action: LocalAction)

  function FeedNext(feed: map<nat, State>, depth: nat, a: FeedAction): map<nat, State> {
    match a
    case FanOut(event, running) => map id | id in feed :: Next(feed[id], Publish(event, running))
    case Join(id, loop) => if id in feed then feed else feed[id := Start(depth, loop)]
    case At(id, action) => if id in feed then feed[id := Next(feed[id], AsAction(action))] else feed
  }

  function FeedRun(depth: nat, actions: seq<FeedAction>): map<nat, State> {
    if actions == [] then map[]
    else FeedNext(FeedRun(depth, actions[..|actions| - 1]), depth, actions[|actions| - 1])
  }

  /** The part of a run that concerns one subscriber. */
  datatype Life = NotJoined | Joined(loop: nat, actions: seq<Action>)

  function LifeOf(id: nat, actions: seq<FeedAction>): Life {
    if actions == [] then NotJoined
    else
      var before := LifeOf(id, actions[..|actions| - 1]);
      match (before, actions[|actions| - 1])
      case (Joined(loop, own), FanOut(event, running)) => Joined(loop, own + [Publish(event, running)])
      case (Joined(loop, own), At(other, action)) =>
        if other == id then Joined(loop, own + [AsAction(action)]) else before
      case (NotJoined, Join(other, loop)) => if other == id then Joined(loop, []) else NotJoined
      case _ => before
  }

  lemma RunMore(s: State, actions: seq<Action>, a: Action)
    ensures Run(s, actions + [a]) == Next(Run(s, actions), a)
  {
    assert (actions + [a])[..|actions|] == actions;
  }

  /** A subscriber's state is the result of its own part of the run and nothing
      else: no other subscriber can influence it. */
  lemma {:induction false} NonInterference(depth: nat, id: nat, actions: seq<FeedAction>)
    ensures id in FeedRun(depth, actions) <==> LifeOf(id, actions).Joined?
    ensures LifeOf(id, actions).Joined? ==>
              FeedRun(depth, actions)[id] == Run(Start(depth, LifeOf(id, actions).loop), LifeOf(id, actions).actions)
    decreases |actions|
  {
    if actions != [] {
      var before, last := actions[..|actions| - 1], actions[|actions| - 1];
      NonInterference(depth, id, before);
      if LifeOf(id, before).Joined? {
        var Joined(loop, own) := LifeOf(id, before);
        match last
        case FanOut(event, running) => RunMore(Start(depth, loop), own, Publish(event, running));
        case At(_, action) => RunMore(Start(depth, loop), own, AsAction(action));
        case Join(_, _) =>
      }
    }
  }

  /** Hence every subscriber of every run of the whole feed keeps the invariant. */
  lemma FeedKeepsInv(depth: nat, id: nat, actions: seq<FeedAction>)
    requires depth >= 1
    ensures id in FeedRun(depth, actions) ==> Inv(FeedRun(depth, actions)[id])
  {
    NonInterference(depth, id, actions);
    if LifeOf(id, actions).Joined? {
      RunKeepsInv(depth, LifeOf(id, actions).loop, LifeOf(id, actions).actions);
    }
  }
}
