/**
 Delivery of direct UDP datagrams (protocol/direct/packet_receiver_linux.go): the
 shared epoll thread fetches and queues, one goroutine delivers, and any number of
 stoppers retire the entry. Each section under deliverMu, each send on or receive
 from the one-slot signal channel and each handler call is one step.
 */
module DirectReceiver {
  import opened Bytes
  import opened Lists

  /** Packets are numbered in the order they are fetched. */
  type Packet = nat

  datatype Producer = Fetching | Signalling   // Signalling: between unlock and send

  datatype Consumer =
    | Top                            // about to take the queue
    | Deliver(batch: seq<Packet>)    // about to load active for the next packet
    | Calling(batch: seq<Packet>)    // about to call the handler
    | Parked                         // waiting for the signal
    | Exited

  datatype State = State(
    next: Packet,
    pending: seq<Packet>,            // fetched, not queued yet
    queued: seq<Packet>,
    stopped: bool,
    active: bool,
    token: bool,                     // the signal channel is full
    producer: Producer,
    consumer: Consumer,
    stopping: Option<seq<Packet>>,   // what the first stopper still has to give back before it signals
    signalling: nat,                 // stoppers between unlock and send
    calls: seq<Packet>,              // handler calls, in order
    accepted: seq<Packet>,
    released: seq<Packet>)

  datatype Action =
    | Fetch | EnqueuePending | ProducerSends
    | TakeQueue | LoadActive | HandlerReturns(accepts: bool) | BatchEnds | WakeUp
    | Deactivate | StopLocks | StopReleases | StopReleased | StopSends

  ghost predicate Enabled(s: State, a: Action) {
    match a
    case Fetch => s.producer.Fetching?
    case EnqueuePending => s.producer.Fetching? && s.pending != []
    case ProducerSends => s.producer.Signalling?
    case TakeQueue => s.consumer.Top?
    case LoadActive => s.consumer.Deliver? && s.consumer.batch != []
    case HandlerReturns(_) => s.consumer.Calling? && s.consumer.batch != []
    case BatchEnds => s.consumer.Deliver? && s.consumer.batch == []
    case WakeUp => s.consumer.Parked? && s.token
    case Deactivate => true
    case StopLocks => true
    case StopReleases => s.stopping.Some? && s.stopping.value != []
    case StopReleased => s.stopping == Some([])
    case StopSends => s.signalling > 0
  }

  ghost function Apply(s: State, a: Action): State
    requires Enabled(s, a)
  {
    match a
    case Fetch => s.(pending := s.pending + [s.next], next := s.next + 1)
    case EnqueuePending =>
      if s.stopped then s.(pending := [], released := s.released + s.pending)
      else s.(pending := [], queued := s.queued + s.pending, producer := Signalling)
    case ProducerSends => s.(token := true, producer := Fetching)
    case TakeQueue =>
      s.(queued := [],
         consumer := if s.queued != [] then Deliver(s.queued) else if s.stopped then Exited else Parked)
    case LoadActive =>
      if s.active then s.(consumer := Calling(s.consumer.batch))
      else s.(consumer := Deliver(s.consumer.batch[1..]), released := s.released + [s.consumer.batch[0]])
    case HandlerReturns(accepts) =>
      var p := s.consumer.batch[0];
      s.(consumer := Deliver(s.consumer.batch[1..]), calls := s.calls + [p],
         accepted := if accepts then s.accepted + [p] else s.accepted,
         released := if accepts then s.released else s.released + [p])
    case BatchEnds => s.(consumer := Top)
    case WakeUp => s.(consumer := Top, token := false)
    case Deactivate => s.(active := false)
    case StopLocks =>
      if s.stopped then s.(signalling := s.signalling + 1)
      else s.(stopped := true, stopping := Some(s.queued), queued := [])
    case StopReleases =>
      s.(stopping := Some(s.stopping.value[1..]), released := s.released + [s.stopping.value[0]])
    case StopReleased => s.(stopping := None, signalling := s.signalling + 1)
    case StopSends => s.(token := true, signalling := s.signalling - 1)
  }

  ghost const INITIAL: State := State(0, [], [], false, true, false, Fetching, Top, None, 0, [], [], [])

  ghost predicate Run(s: State, actions: seq<Action>)
    decreases |actions|
  {
    actions == [] || (Enabled(s, actions[0]) && Run(Apply(s, actions[0]), actions[1..]))
  }

  ghost function Final(s: State, actions: seq<Action>): State
    requires Run(s, actions)
    decreases |actions|
  {
    if actions == [] then s else Final(Apply(s, actions[0]), actions[1..])
  }

  // --- the invariants -----------------------------------------------------------------------

  ghost function Batch(c: Consumer): seq<Packet> {
    if c.Deliver? || c.Calling? then c.batch else []
  }

  ghost function Stopping(s: State): seq<Packet> {
    if s.stopping.Some? then s.stopping.value else []
  }

  /** In how many places a packet is. */
  ghost function Places(s: State, p: Packet): nat {
    Times(s.pending, p) + Times(s.queued, p) + Times(Batch(s.consumer), p) + Times(Stopping(s), p)
    + Times(s.accepted, p) + Times(s.released, p)
  }

  ghost predicate Conserved(s: State) {
    forall p: Packet :: Places(s, p) == if p < s.next then 1 else 0
  }

  /** Calls made, then those to come: the batch in hand, the queue and the fetched rest. */
  ghost function Line(s: State): seq<Packet> {
    s.calls + Batch(s.consumer) + s.queued + s.pending
  }

  /** They are in fetch order. */
  ghost predicate InOrder(s: State) {
    Increasing(Line(s)) && Below(Line(s), s.next)
  }

  /** Whoever parks while there is work to do has been signalled, or is about to be. */
  ghost predicate NoLostWakeup(s: State) {
    && (s.stopped ==> s.queued == [])
    && (s.stopping.Some? ==> s.stopped)
    && (s.consumer.Exited? ==> s.stopped)
    && (s.consumer.Parked? && (s.queued != [] || s.stopped) ==>
          s.token || s.producer.Signalling? || s.signalling > 0 || s.stopping.Some?)
  }

  // --- every step keeps them ---------------------------------------------------------------------

  ghost predicate ConsumerActs(a: Action) {
    a.TakeQueue? || a.LoadActive? || a.HandlerReturns? || a.BatchEnds? || a.WakeUp?
  }

  lemma {:induction false} PlacesStep(s: State, a: Action, p: Packet)
    requires Enabled(s, a) && NoLostWakeup(s)
    ensures Places(Apply(s, a), p) == Places(s, p) + if a.Fetch? && p == s.next then 1 else 0
  {
    if ConsumerActs(a) {
      PlacesConsumer(s, a, p);
    } else if a.Fetch? {
      TimesSnoc(s.pending, s.next, p);
    } else if a.EnqueuePending? {
      TimesAppend(s.released, s.pending, p);
      TimesAppend(s.queued, s.pending, p);
    } else if a.StopReleases? {
      TimesSnoc(s.released, s.stopping.value[0], p);
    }
  }

  lemma {:induction false} PlacesConsumer(s: State, a: Action, p: Packet)
    requires Enabled(s, a) && ConsumerActs(a)
    ensures Places(Apply(s, a), p) == Places(s, p)
  {
    if a.LoadActive? || a.HandlerReturns? {
      TimesSnoc(s.released, s.consumer.batch[0], p);
      TimesSnoc(s.accepted, s.consumer.batch[0], p);
    }
  }

  lemma {:induction false} StepConserves(s: State, a: Action)
    requires Enabled(s, a) && Conserved(s) && NoLostWakeup(s)
    ensures Conserved(Apply(s, a))
  {
    var s' := Apply(s, a);
    forall p: Packet ensures Places(s', p) == if p < s'.next then 1 else 0 {
      assert Places(s, p) == if p < s.next then 1 else 0;
      PlacesStep(s, a, p);
    }
  }

  /** Dropping a stretch of an increasing list leaves it increasing. */
  lemma {:induction false} WithoutMiddle(a: seq<Packet>, b: seq<Packet>, c: seq<Packet>, n: Packet)
    requires Increasing(a + b + c) && Below(a + b + c, n)
    ensures Increasing(a + c) && Below(a + c, n)
  {
    assert forall i :: 0 <= i < |c| ==> (a + b + c)[|a| + |b| + i] == c[i];
    assert forall i :: 0 <= i < |a| ==> (a + b + c)[i] == a[i];
  }

  lemma {:induction false} ConsumerKeepsOrder(s: State, a: Action)
    requires Enabled(s, a) && ConsumerActs(a) && InOrder(s)
    ensures InOrder(Apply(s, a))
  {
    var s' := Apply(s, a);
    if a.LoadActive? || a.HandlerReturns? {
      var batch := s.consumer.batch;
      var head, later := [batch[0]], batch[1..] + s.queued + s.pending;
      assert batch == head + batch[1..];
      assert Line(s) == s.calls + head + later;
      WithoutMiddle(s.calls, head, later, s.next);
      if a.LoadActive? && !s.active {
        assert Line(s') == s.calls + later;
      } else {
        assert Line(s') == Line(s);
      }
    } else {
      assert Line(s') == Line(s);
    }
  }

  lemma {:induction false} StepKeepsOrder(s: State, a: Action)
    requires Enabled(s, a) && InOrder(s)
    ensures InOrder(Apply(s, a))
  {
    var s' := Apply(s, a);
    var front := s.calls + Batch(s.consumer);
    if ConsumerActs(a) {
      ConsumerKeepsOrder(s, a);
    } else if a.Fetch? {
      assert Line(s') == Line(s) + [s.next];
    } else if a.EnqueuePending? && s.stopped {
      assert Line(s) == front + s.queued + s.pending + [] && Line(s') == front + s.queued + [];
      WithoutMiddle(front + s.queued, s.pending, [], s.next);
    } else if a.StopLocks? && !s.stopped {
      assert Line(s') == front + s.pending;
      WithoutMiddle(front, s.queued, s.pending, s.next);
    } else {
      assert Line(s') == Line(s);
    }
  }

  lemma {:induction false} StepKeepsWakeup(s: State, a: Action)
    requires Enabled(s, a) && NoLostWakeup(s)
    ensures NoLostWakeup(Apply(s, a))
  {
  }

  // --- whole runs ------------------------------------------------------------------------------------

  ghost predicate Invariant(s: State) {
    Conserved(s) && InOrder(s) && NoLostWakeup(s)
  }

  lemma {:induction false} InvariantHoldsThroughout(s: State, actions: seq<Action>)
    requires Invariant(s) && Run(s, actions)
    ensures Invariant(Final(s, actions))
    decreases |actions|
  {
    if actions != [] {
      StepConserves(s, actions[0]);
      StepKeepsOrder(s, actions[0]);
      StepKeepsWakeup(s, actions[0]);
      InvariantHoldsThroughout(Apply(s, actions[0]), actions[1..]);
    }
  }

  lemma {:induction false} InitialInvariant()
    ensures Invariant(INITIAL)
  {
  }

  /** In every run a parked consumer with work to do has a wakeup pending or on its way. */
  lemma {:induction false} WakeupsAreNotLost(actions: seq<Action>)
    requires Run(INITIAL, actions)
    ensures var s := Final(INITIAL, actions);
            s.consumer.Parked? && (s.queued != [] || s.stopped) ==>
              s.token || s.producer.Signalling? || s.signalling > 0 || s.stopping.Some?
  {
    InitialInvariant();
    InvariantHoldsThroughout(INITIAL, actions);
  }

  lemma {:induction false} FrontIncreases(a: seq<Packet>, b: seq<Packet>, c: seq<Packet>, d: seq<Packet>)
    requires Increasing(a + b + c + d)
    ensures Increasing(a)
  {
    assert forall i :: 0 <= i < |a| ==> (a + b + c + d)[i] == a[i];
  }

  /** In every run each fetched packet is in exactly one place, and the handler is called in fetch order. */
  lemma {:induction false} PacketsAreConservedInOrder(actions: seq<Action>)
    requires Run(INITIAL, actions)
    ensures var s := Final(INITIAL, actions);
            && (forall p: Packet :: Places(s, p) == if p < s.next then 1 else 0)
            && Increasing(s.calls)
  {
    InitialInvariant();
    InvariantHoldsThroughout(INITIAL, actions);
    var s := Final(INITIAL, actions);
    FrontIncreases(s.calls, Batch(s.consumer), s.queued, s.pending);
  }

  /** Once the loop has exited and everybody else is done, every fetched packet was accepted or given back. */
  lemma {:induction false} AllAccountedForAtExit(actions: seq<Action>, p: Packet)
    requires Run(INITIAL, actions)
    ensures var s := Final(INITIAL, actions);
            s.consumer.Exited? && s.pending == [] && s.stopping.None? && p < s.next ==>
              Times(s.accepted, p) + Times(s.released, p) == 1
  {
    InitialInvariant();
    InvariantHoldsThroughout(INITIAL, actions);
    var s := Final(INITIAL, actions);
    assert Places(s, p) == if p < s.next then 1 else 0;
  }

  // --- without a stop ------------------------------------------------------------------------------

  ghost predicate Undisturbed(actions: seq<Action>) {
    forall i :: 0 <= i < |actions| ==> !actions[i].Deactivate? && !actions[i].StopLocks?
  }

  ghost predicate Running(s: State) {
    s.active && !s.stopped && s.stopping.None? && s.signalling == 0 && !s.consumer.Exited?
  }

  ghost function Upto(n: nat): seq<Packet> {
    seq(n, (i: nat) => i)
  }

  lemma {:induction false} StepKeepsLine(s: State, a: Action)
    requires Enabled(s, a) && Running(s) && !a.Deactivate? && !a.StopLocks? && Line(s) == Upto(s.next)
    ensures Running(Apply(s, a)) && Line(Apply(s, a)) == Upto(Apply(s, a).next)
  {
    var s' := Apply(s, a);
    if a.Fetch? {
      assert Line(s') == Line(s) + [s.next];
      assert Upto(s.next + 1) == Upto(s.next) + [s.next];
    } else if a.HandlerReturns? {
      assert s.consumer.batch == [s.consumer.batch[0]] + s.consumer.batch[1..];
      assert Line(s') == Line(s);
    } else {
      assert Line(s') == Line(s);
    }
  }

  lemma {:induction false} LineThroughout(s: State, actions: seq<Action>)
    requires Run(s, actions) && Running(s) && Undisturbed(actions) && Line(s) == Upto(s.next)
    ensures Running(Final(s, actions)) && Line(Final(s, actions)) == Upto(Final(s, actions).next)
    decreases |actions|
  {
    if actions != [] {
      StepKeepsLine(s, actions[0]);
      LineThroughout(Apply(s, actions[0]), actions[1..]);
    }
  }

  /**
   Only a stop or a deactivation costs a packet its handler call: in every run without either,
   the calls made and those still to come are for all packets fetched, in order.
   */
  lemma {:induction false} EveryPacketHasItsCall(actions: seq<Action>)
    requires Run(INITIAL, actions) && Undisturbed(actions)
    ensures Line(Final(INITIAL, actions)) == Upto(Final(INITIAL, actions).next)
  {
    LineThroughout(INITIAL, actions);
  }

  ghost predicate Refuses(a: Action) {
    a.HandlerReturns? && !a.accepts
  }

  lemma {:induction false} StepReleases(s: State, a: Action)
    requires Enabled(s, a) && Running(s) && !a.Deactivate? && !a.StopLocks? && !Refuses(a)
    requires s.released == [] && s.accepted == s.calls
    ensures Running(Apply(s, a)) && Apply(s, a).released == [] && Apply(s, a).accepted == Apply(s, a).calls
  {
  }

  /** Nor is a packet given back then, unless its handler refuses it. */
  lemma {:induction false} GivenBackOnlyIfRefused(s: State, actions: seq<Action>)
    requires Run(s, actions) && Running(s) && Undisturbed(actions)
    requires forall i :: 0 <= i < |actions| ==> !Refuses(actions[i])
    requires s.released == [] && s.accepted == s.calls
    ensures Final(s, actions).released == [] && Final(s, actions).accepted == Final(s, actions).calls
    decreases |actions|
  {
    if actions != [] {
      StepReleases(s, actions[0]);
      GivenBackOnlyIfRefused(Apply(s, actions[0]), actions[1..]);
    }
  }

  /** How much there is to do until everything fetched has been delivered. */
  ghost function Work(s: State): nat {
    20 * |s.pending| + 10 * |s.queued| + 5 * |Batch(s.consumer)| + (if s.producer.Signalling? then 1 else 0)
    + match s.consumer
      case Top => if s.queued != [] then 2 else 1
      case Deliver(_) => 4
      case Calling(_) => 3
      case Parked => if s.queued != [] then 3 else 0
      case Exited => 0
  }

  ghost function NextStep(s: State): Action {
    if s.producer.Signalling? then ProducerSends
    else if s.pending != [] then EnqueuePending
    else
      match s.consumer
      case Top => TakeQueue
      case Deliver(batch) => if batch == [] then BatchEnds else LoadActive
      case Calling(_) => HandlerReturns(true)
      case _ => WakeUp
  }

  ghost predicate AllDelivered(s: State) {
    s.pending == [] && s.queued == [] && s.consumer.Parked? && !s.producer.Signalling?
  }

  ghost predicate CallsHaveBatch(s: State) {
    s.consumer.Calling? ==> s.consumer.batch != []
  }

  lemma {:induction false} WorkGoesDown(s: State)
    requires NoLostWakeup(s) && Running(s) && CallsHaveBatch(s) && !AllDelivered(s)
    ensures Enabled(s, NextStep(s)) && Work(Apply(s, NextStep(s))) < Work(s) && CallsHaveBatch(Apply(s, NextStep(s)))
    ensures !NextStep(s).Fetch? && !NextStep(s).Deactivate? && !NextStep(s).StopLocks?
  {
  }

  lemma {:induction false} CallsHaveBatchThroughout(s: State, actions: seq<Action>)
    requires Run(s, actions) && CallsHaveBatch(s)
    ensures CallsHaveBatch(Final(s, actions))
    decreases |actions|
  {
    if actions != [] {
      CallsHaveBatchThroughout(Apply(s, actions[0]), actions[1..]);
    }
  }

  lemma {:induction false} RestCanBeDelivered(s: State) returns (more: seq<Action>)
    requires NoLostWakeup(s) && Running(s) && CallsHaveBatch(s) && Line(s) == Upto(s.next)
    ensures Run(s, more) && Final(s, more).next == s.next && Final(s, more).calls == Upto(s.next)
    decreases Work(s)
  {
    if AllDelivered(s) {
      more := [];
      assert Line(s) == s.calls;
    } else {
      var a := NextStep(s);
      WorkGoesDown(s);
      StepKeepsLine(s, a);
      StepKeepsWakeup(s, a);
      var rest := RestCanBeDelivered(Apply(s, a));
      more := [a] + rest;
      assert more[1..] == rest;
    }
  }

  /**
   At every moment of such a run the steps already due suffice to call the handler for every
   packet fetched, in order: no packet waits for a further fetch, and no wakeup is missing.
   */
  lemma {:induction false} CanAlwaysDeliver(actions: seq<Action>) returns (more: seq<Action>)
    requires Run(INITIAL, actions) && Undisturbed(actions)
    ensures var s := Final(INITIAL, actions);
            Run(s, more) && Final(s, more).next == s.next && Final(s, more).calls == Upto(s.next)
  {
    InitialInvariant();
    InvariantHoldsThroughout(INITIAL, actions);
    LineThroughout(INITIAL, actions);
    CallsHaveBatchThroughout(INITIAL, actions);
    more := RestCanBeDelivered(Final(INITIAL, actions));
  }
}
