/**
 The receive queue of protocol/tuic/packet.go as small steps at lock granularity:
 a bounded queue that switches between polling and pushed delivery. PushBack and
 registerPacketHandler hold deliverMu throughout, so one of them runs at a time;
 Close, unregistering and PopFrontBlock interleave with it freely.
 */
module TuicQueue {
  import opened Bytes
  import opened Lists

  const PACKET_CHAN_CAP: nat := 2048

  /** Packets are numbered in the order PushBack takes deliverMu; receivers in the order they register. */
  type Packet = nat
  type Receiver = nat

  /** Who holds deliverMu, and where they are. */
  datatype Section =
    | Free
    | PushCheck(packet: Packet)                  // about to look at closed and receiver under mu
    | PushLoad(packet: Packet, to: Receiver)     // about to load receiver.active
    | PushHand(packet: Packet, to: Receiver)     // about to call the handler
    | PushRelease(packet: Packet)                // about to give the packet back
    | RegisterCheck(who: Receiver)
    | Drain(queued: seq<Packet>, who: Receiver)   // about to load active for the next drained packet
    | DrainHand(queued: seq<Packet>, who: Receiver)
    | DrainRelease(queued: seq<Packet>, who: Receiver)

  datatype State = State(
    closed: bool,
    receiver: Option<Receiver>,
    active: set<Receiver>,
    queue: seq<Packet>,
    section: Section,
    next: Packet,              // how many packets have been pushed
    nextReceiver: Receiver,    // how many registrations have been attempted
    taken: seq<Packet>,        // by PopFrontBlock
    handed: seq<Packet>,       // to handlers
    released: seq<Packet>,
    excused: bool)             // a packet may be given back: closed, an overflow, or a deactivated receiver

  datatype Action =
    | PushLock | PushUnderMu | PushLoads | PushCalls | PushGivesBack
    | RegisterLock | RegisterUnderMu | DrainLoads | DrainCalls | DrainGivesBack | DrainEnds
    | Deactivate(r: Receiver) | Unregister(r: Receiver)
    | Pop
    | Close

  ghost predicate Enabled(s: State, a: Action) {
    match a
    case PushLock => s.section.Free?
    case PushUnderMu => s.section.PushCheck?
    case PushLoads => s.section.PushLoad?
    case PushCalls => s.section.PushHand?
    case PushGivesBack => s.section.PushRelease?
    case RegisterLock => s.section.Free?
    case RegisterUnderMu => s.section.RegisterCheck?
    case DrainLoads => s.section.Drain? && s.section.queued != []
    case DrainCalls => s.section.DrainHand? && s.section.queued != []
    case DrainGivesBack => s.section.DrainRelease? && s.section.queued != []
    case DrainEnds => s.section.Drain? && s.section.queued == []
    case Deactivate(r) => r < s.nextReceiver
    case Unregister(r) => r < s.nextReceiver && r !in s.active
    case Pop => !s.closed && s.queue != []
    case Close => !s.closed
  }

  ghost function Apply(s: State, a: Action): State
    requires Enabled(s, a)
  {
    match a
    case PushLock => s.(section := PushCheck(s.next), next := s.next + 1)
    case PushUnderMu => PushedUnderMu(s, s.section.packet)
    case PushLoads =>
      s.(section := if s.section.to in s.active then PushHand(s.section.packet, s.section.to)
                    else PushRelease(s.section.packet))
    case PushCalls => s.(section := Free, handed := s.handed + [s.section.packet])
    case PushGivesBack => s.(section := Free, released := s.released + [s.section.packet])
    case RegisterLock => s.(section := RegisterCheck(s.nextReceiver), nextReceiver := s.nextReceiver + 1)
    case RegisterUnderMu =>
      if s.closed || s.receiver.Some? then s.(section := Free)
      else s.(receiver := Some(s.section.who), active := s.active + {s.section.who},
              queue := [], section := Drain(s.queue, s.section.who))
    case DrainLoads =>
      s.(section := if s.section.who in s.active then DrainHand(s.section.queued, s.section.who)
                    else DrainRelease(s.section.queued, s.section.who))
    case DrainCalls =>
      s.(section := Drain(s.section.queued[1..], s.section.who), handed := s.handed + [s.section.queued[0]])
    case DrainGivesBack =>
      s.(section := Drain(s.section.queued[1..], s.section.who), released := s.released + [s.section.queued[0]])
    case DrainEnds => s.(section := Free)
    case Deactivate(r) => s.(active := s.active - {r}, excused := true)
    case Unregister(r) => s.(receiver := if s.receiver == Some(r) then None else s.receiver)
    case Pop => s.(queue := s.queue[1..], taken := s.taken + [s.queue[0]])
    case Close =>
      s.(closed := true, excused := true, receiver := None, queue := [], released := s.released + s.queue,
         active := if s.receiver.Some? then s.active - {s.receiver.value} else s.active)
  }

  /** The part of PushBack that runs under mu. */
  ghost function PushedUnderMu(s: State, p: Packet): State {
    if s.closed then s.(section := PushRelease(p))
    else if s.receiver.Some? then s.(section := PushLoad(p, s.receiver.value))
    else if |s.queue| < PACKET_CHAN_CAP then s.(queue := s.queue + [p], section := Free)
    else s.(section := Free, released := s.released + [p], excused := true)
  }

  ghost const INITIAL: State := State(false, None, {}, [], Free, 0, 0, [], [], [], false)

  ghost predicate Run(s: State, actions: seq<Action>)
    decreases |actions|
  {
    actions == [] || (Enabled(s, actions[0]) && Run(Apply(s, actions[0]), actions[1..]))
  }

  ghost function Final(s: State, actions: seq<Action>): State
    requires Run(s, actions)
    decreases |actions|
  {
    if actions == [] then s else Final(Apply(s, actions[0]), actions[1..])
  }

  // --- the invariant -----------------------------------------------------------------------

  /** Packets in the hands of whoever holds deliverMu. */
  ghost function InHand(c: Section): seq<Packet> {
    match c
    case Free | RegisterCheck(_) => []
    case PushCheck(p) => [p]
    case PushLoad(p, _) => [p]
    case PushHand(p, _) => [p]
    case PushRelease(p) => [p]
    case Drain(q, _) => q
    case DrainHand(q, _) => q
    case DrainRelease(q, _) => q
  }

  /** In how many places a packet is. */
  ghost function Places(s: State, p: Packet): nat {
    Times(s.queue, p) + Times(s.taken, p) + Times(s.handed, p) + Times(s.released, p) + Times(InHand(s.section), p)
  }

  ghost predicate Conserved(s: State) {
    forall p: Packet :: Places(s, p) == if p < s.next then 1 else 0
  }

  ghost predicate InOrder(s: State) {
    && Increasing(s.queue) && Increasing(s.handed) && Increasing(s.taken) && Increasing(InHand(s.section))
    && Before(s.handed, s.queue) && Before(s.handed, InHand(s.section)) && Before(s.taken, s.queue)
    && Below(s.queue, s.next) && Below(s.handed, s.next) && Below(s.taken, s.next) && Below(InHand(s.section), s.next)
    && (s.section.PushCheck? ==> Before(s.queue, InHand(s.section)) && Before(s.taken, InHand(s.section)))
  }

  ghost predicate Registered(s: State) {
    && (s.receiver.Some? || s.closed ==> s.queue == [])
    // whoever is about to hand packets over has seen the queue empty, and nobody else can fill it
    && (InHand(s.section) != [] && !s.section.PushCheck? ==> s.queue == [])
    && (s.closed ==> s.receiver.None? && s.excused)
    && (s.receiver.Some? && s.receiver.value !in s.active ==> s.excused)
    && (s.section.RegisterCheck? ==> s.section.who < s.nextReceiver)
    && (s.receiver.Some? ==> s.receiver.value < s.nextReceiver)
    && (s.section.PushLoad? && s.section.to !in s.active ==> s.excused)
    && ((s.section.Drain? || s.section.DrainHand?) && s.section.who !in s.active ==> s.excused)
    && (s.section.PushRelease? || s.section.DrainRelease? ==> s.excused)
    && (s.released != [] ==> s.excused)
  }

  // --- every step keeps it -----------------------------------------------------------------------

  /** A packet is never duplicated or lost. */
  lemma {:induction false} StepConserves(s: State, a: Action)
    requires Enabled(s, a) && Conserved(s) && Registered(s)
    ensures Conserved(Apply(s, a))
  {
    var s' := Apply(s, a);
    forall p: Packet ensures Places(s', p) == if p < s'.next then 1 else 0 {
      assert Places(s, p) == if p < s.next then 1 else 0;
      PlacesStep(s, a, p);
    }
  }

  ghost predicate PushActs(a: Action) {
    a.PushLock? || a.PushUnderMu? || a.PushLoads? || a.PushCalls? || a.PushGivesBack?
  }

  ghost predicate RegisterActs(a: Action) {
    a.RegisterLock? || a.RegisterUnderMu? || a.DrainLoads? || a.DrainCalls? || a.DrainGivesBack? || a.DrainEnds?
  }

  lemma {:induction false} PlacesStep(s: State, a: Action, p: Packet)
    requires Enabled(s, a)
    ensures Places(Apply(s, a), p) == Places(s, p) + if a.PushLock? && p == s.next then 1 else 0
  {
    if PushActs(a) {
      PlacesPush(s, a, p);
    } else if RegisterActs(a) {
      PlacesRegister(s, a, p);
    } else if a.Pop? {
      TimesSnoc(s.taken, s.queue[0], p);
    } else if a.Close? {
      TimesAppend(s.released, s.queue, p);
    }
  }

  lemma {:induction false} PlacesPush(s: State, a: Action, p: Packet)
    requires Enabled(s, a) && PushActs(a)
    ensures Places(Apply(s, a), p) == Places(s, p) + if a.PushLock? && p == s.next then 1 else 0
  {
    var held := InHand(s.section);
    if a.PushLock? {
      TimesSnoc([], s.next, p);
      assert [] + [s.next] == [s.next];
    } else if a.PushUnderMu? {
      TimesAppend(s.queue, held, p);
      TimesAppend(s.released, held, p);
    } else if a.PushCalls? {
      TimesAppend(s.handed, held, p);
    } else if a.PushGivesBack? {
      TimesAppend(s.released, held, p);
    }
  }

  lemma {:induction false} PlacesRegister(s: State, a: Action, p: Packet)
    requires Enabled(s, a) && RegisterActs(a)
    ensures Places(Apply(s, a), p) == Places(s, p)
  {
    if a.DrainCalls? {
      TimesSnoc(s.handed, s.section.queued[0], p);
    } else if a.DrainGivesBack? {
      TimesSnoc(s.released, s.section.queued[0], p);
    }
  }

  /** Nobody reorders packets. */
  lemma {:induction false} StepKeepsOrder(s: State, a: Action)
    requires Enabled(s, a) && InOrder(s) && Registered(s)
    ensures InOrder(Apply(s, a))
  {
    if PushActs(a) {
      PushKeepsOrder(s, a);
    } else if RegisterActs(a) {
      RegisterKeepsOrder(s, a);
    } else if a.Pop? {
      HeadMoves(s.taken, s.queue, s.next);
      TailStays(s.handed, s.queue, s.next);
    }
  }

  lemma {:induction false} PushKeepsOrder(s: State, a: Action)
    requires Enabled(s, a) && PushActs(a) && InOrder(s) && Registered(s)
    ensures InOrder(Apply(s, a))
  {
    if a.PushLock? {
      assert InHand(Apply(s, a).section) == [s.next];
    } else if a.PushUnderMu? {
      UnderMuKeepsOrder(s);
    } else if a.PushCalls? {
      OneMoves(s.handed, s.section.packet, s.next);
    }
  }

  lemma {:induction false} UnderMuKeepsOrder(s: State)
    requires s.section.PushCheck? && InOrder(s) && Registered(s)
    ensures InOrder(PushedUnderMu(s, s.section.packet))
  {
    var p := s.section.packet;
    assert InHand(s.section) == [p];
    OneMoves(s.queue, p, s.next);
    assert Before(s.handed, s.queue + [p]) && Before(s.taken, s.queue + [p]);
  }

  lemma {:induction false} OneMoves(a: seq<Packet>, p: Packet, n: Packet)
    requires Increasing(a) && Below(a, n) && Before(a, [p]) && Below([p], n)
    ensures Increasing(a + [p]) && Below(a + [p], n)
  {
    assert [p][0] == p;
  }

  lemma {:induction false} DrainKeepsOrder(s: State, a: Action)
    requires Enabled(s, a) && (a.DrainCalls? || a.DrainGivesBack?) && InOrder(s) && Registered(s)
    ensures InOrder(Apply(s, a))
  {
    var queued := s.section.queued;
    assert InHand(s.section) == queued && InHand(Apply(s, a).section) == queued[1..];
    HeadMoves(s.handed, queued, s.next);
    TailStays(s.handed, queued, s.next);
  }

  lemma {:induction false} RegisterKeepsOrder(s: State, a: Action)
    requires Enabled(s, a) && RegisterActs(a) && InOrder(s) && Registered(s)
    ensures InOrder(Apply(s, a))
  {
    if a.DrainCalls? || a.DrainGivesBack? {
      DrainKeepsOrder(s, a);
    }
  }

  /** The head of a list moves to the end of what came before it. */
  lemma {:induction false} HeadMoves(a: seq<Packet>, q: seq<Packet>, n: Packet)
    requires q != [] && Increasing(a) && Increasing(q) && Before(a, q) && Below(a, n) && Below(q, n)
    ensures Increasing(a + [q[0]]) && Increasing(q[1..]) && Before(a + [q[0]], q[1..])
    ensures Below(a + [q[0]], n) && Below(q[1..], n)
  {
  }

  lemma {:induction false} TailStays(a: seq<Packet>, q: seq<Packet>, n: Packet)
    requires q != [] && Increasing(q) && Before(a, q) && Below(q, n)
    ensures Increasing(q[1..]) && Before(a, q[1..]) && Below(q[1..], n)
  {
  }

  lemma {:induction false} StepKeepsRegistered(s: State, a: Action)
    requires Enabled(s, a) && Registered(s)
    ensures Registered(Apply(s, a))
  {
  }

  // --- whole runs ------------------------------------------------------------------------------------

  ghost predicate Invariant(s: State) {
    Conserved(s) && InOrder(s) && Registered(s)
  }

  lemma {:induction false} InvariantHoldsThroughout(s: State, actions: seq<Action>)
    requires Invariant(s) && Run(s, actions)
    ensures Invariant(Final(s, actions))
    decreases |actions|
  {
    if actions != [] {
      StepConserves(s, actions[0]);
      StepKeepsOrder(s, actions[0]);
      StepKeepsRegistered(s, actions[0]);
      InvariantHoldsThroughout(Apply(s, actions[0]), actions[1..]);
    }
  }

  lemma {:induction false} InitialInvariant()
    ensures Invariant(INITIAL)
  {
  }

  /**
   In every run: a pushed packet is in exactly one place, which is the queue, the
   hands of a poller, a handler or the pool once no delivery is under way; while a
   receiver is registered the queue is empty; handlers, and pollers, see packets in
   push order.
   */
  lemma {:induction false} PacketsAreConservedInOrder(actions: seq<Action>)
    requires Run(INITIAL, actions)
    ensures var s := Final(INITIAL, actions);
            && (forall p: Packet :: Places(s, p) == if p < s.next then 1 else 0)
            && (s.section.Free? ==> InHand(s.section) == [])
            && (s.receiver.Some? || s.closed ==> s.queue == [])
            && Increasing(s.handed) && Increasing(s.taken) && Before(s.handed, s.queue) && Before(s.taken, s.queue)
  {
    InitialInvariant();
    InvariantHoldsThroughout(INITIAL, actions);
  }

  /** What may cost a packet: a close, a receiver deactivated, or a push that finds 2048 packets waiting. */
  ghost predicate IsCause(s: State, a: Action) {
    a.Close? || a.Deactivate? || (a.PushUnderMu? && |s.queue| >= 2048)
  }

  ghost predicate HasCause(s: State, actions: seq<Action>)
    requires Run(s, actions)
    decreases |actions|
  {
    actions != [] && (IsCause(s, actions[0]) || HasCause(Apply(s, actions[0]), actions[1..]))
  }

  lemma {:induction false} ExcusedHasCause(s: State, actions: seq<Action>)
    requires Run(s, actions) && !s.excused && Final(s, actions).excused
    ensures HasCause(s, actions)
    decreases |actions|
  {
    if !IsCause(s, actions[0]) {
      ExcusedHasCause(Apply(s, actions[0]), actions[1..]);
    }
  }

  /** Packets are given back only after a close, an overflow or a deactivated receiver. */
  lemma {:induction false} NothingGivenBackWithoutCause(actions: seq<Action>)
    requires Run(INITIAL, actions)
    ensures Final(INITIAL, actions).released != [] ==> HasCause(INITIAL, actions)
  {
    InitialInvariant();
    InvariantHoldsThroughout(INITIAL, actions);
    if Final(INITIAL, actions).released != [] {
      ExcusedHasCause(INITIAL, actions);
    }
  }

  /** Without such a cause every packet is waiting, taken, handed over, or in the hands of the delivery under way. */
  lemma {:induction false} NothingLostWithoutCause(actions: seq<Action>, p: Packet)
    requires Run(INITIAL, actions) && !HasCause(INITIAL, actions) && p < Final(INITIAL, actions).next
    ensures var s := Final(INITIAL, actions);
            Times(s.queue + s.taken + s.handed + InHand(s.section), p) == 1
  {
    InitialInvariant();
    InvariantHoldsThroughout(INITIAL, actions);
    NothingGivenBackWithoutCause(actions);
    var s := Final(INITIAL, actions);
    assert Places(s, p) == 1;
    TimesAppend(s.queue, s.taken, p);
    TimesAppend(s.queue + s.taken, s.handed, p);
    TimesAppend(s.queue + s.taken + s.handed, InHand(s.section), p);
  }

  // --- after a close -----------------------------------------------------------------------------

  /** Only the registered receiver is ever active. */
  ghost predicate OnlyReceiverActive(s: State) {
    forall r :: r in s.active ==> s.receiver == Some(r)
  }

  lemma {:induction false} StepKeepsActive(s: State, a: Action)
    requires Enabled(s, a) && OnlyReceiverActive(s)
    ensures OnlyReceiverActive(Apply(s, a))
  {
  }

  lemma {:induction false} OnlyReceiverActiveThroughout(s: State, actions: seq<Action>)
    requires Run(s, actions) && OnlyReceiverActive(s)
    ensures OnlyReceiverActive(Final(s, actions))
    decreases |actions|
  {
    if actions != [] {
      StepKeepsActive(s, actions[0]);
      OnlyReceiverActiveThroughout(Apply(s, actions[0]), actions[1..]);
    }
  }

  ghost predicate Shut(s: State) {
    s.closed && s.receiver.None? && s.queue == [] && OnlyReceiverActive(s)
  }

  /** A handler call already decided on. */
  ghost predicate Handing(c: Section) {
    c.PushHand? || (c.DrainHand? && c.queued != [])
  }

  lemma {:induction false} StepAfterClose(s: State, a: Action)
    requires Enabled(s, a) && Shut(s)
    ensures var s' := Apply(s, a);
            && Shut(s') && s'.taken == s.taken
            && (Handing(s'.section) ==> Handing(s.section) && s'.section == s.section && s'.handed == s.handed)
            && (s'.handed == s.handed || (Handing(s.section) && s'.handed == s.handed + [InHand(s.section)[0]]))
  {
    StepKeepsActive(s, a);
  }

  lemma {:induction false} RestAfterClose(s: State, actions: seq<Action>)
    requires Run(s, actions) && Shut(s)
    ensures var s' := Final(s, actions);
            && s'.taken == s.taken
            && (s'.handed == s.handed || (Handing(s.section) && s'.handed == s.handed + [InHand(s.section)[0]]))
    decreases |actions|
  {
    if actions != [] {
      StepAfterClose(s, actions[0]);
      RestAfterClose(Apply(s, actions[0]), actions[1..]);
    }
  }

  /**
   Whatever has happened before a close and whatever happens after it, nobody is given a
   packet any more, except the one a delivery had already decided to hand over; the rest
   goes back.
   */
  lemma {:induction false} CloseStopsDelivery(before: seq<Action>, after: seq<Action>)
    requires Run(INITIAL, before) && Final(INITIAL, before).closed && Run(Final(INITIAL, before), after)
    ensures var s := Final(INITIAL, before);
            var s' := Final(s, after);
            && s'.taken == s.taken
            && (s'.handed == s.handed || (Handing(s.section) && s'.handed == s.handed + [InHand(s.section)[0]]))
  {
    InitialInvariant();
    InvariantHoldsThroughout(INITIAL, before);
    OnlyReceiverActiveThroughout(INITIAL, before);
    RestAfterClose(Final(INITIAL, before), after);
  }

  // --- nobody is stuck -------------------------------------------------------------------------------

  ghost predicate HandsSomething(s: State) {
    s.section.DrainHand? || s.section.DrainRelease? ==> s.section.queued != []
  }

  lemma {:induction false} HandsSomethingThroughout(s: State, actions: seq<Action>)
    requires HandsSomething(s) && Run(s, actions)
    ensures HandsSomething(Final(s, actions))
    decreases |actions|
  {
    if actions != [] {
      HandsSomethingThroughout(Apply(s, actions[0]), actions[1..]);
    }
  }

  /** At most so many steps from giving up deliverMu. */
  ghost function StepsLeft(s: State): nat {
    match s.section
    case Free => 0
    case PushHand(_, _) | PushRelease(_) => 1
    case PushLoad(_, _) => 2
    case PushCheck(_) => 3
    case RegisterCheck(_) => 2 * |s.queue| + 2
    case Drain(q, _) => 2 * |q| + 1
    case DrainHand(q, _) => 2 * |q|
    case DrainRelease(q, _) => 2 * |q|
  }

  ghost function NextOfHolder(c: Section): Action {
    match c
    case Free => PushLock
    case PushCheck(_) => PushUnderMu
    case PushLoad(_, _) => PushLoads
    case PushHand(_, _) => PushCalls
    case PushRelease(_) => PushGivesBack
    case RegisterCheck(_) => RegisterUnderMu
    case Drain(q, _) => if q == [] then DrainEnds else DrainLoads
    case DrainHand(_, _) => DrainCalls
    case DrainRelease(_, _) => DrainGivesBack
  }

  lemma {:induction false} HolderAdvances(s: State)
    requires HandsSomething(s) && !s.section.Free?
    ensures Enabled(s, NextOfHolder(s.section))
    ensures var s' := Apply(s, NextOfHolder(s.section)); StepsLeft(s') < StepsLeft(s) && HandsSomething(s')
  {
  }

  /** From every state of every run whoever holds deliverMu can give it up, by their own steps. */
  lemma {:induction false} CanAlwaysSettle(s: State) returns (more: seq<Action>)
    requires HandsSomething(s)
    ensures Run(s, more) && Final(s, more).section.Free?
    decreases StepsLeft(s)
  {
    more := [];
    if !s.section.Free? {
      HolderAdvances(s);
      var rest := CanAlwaysSettle(Apply(s, NextOfHolder(s.section)));
      more := [NextOfHolder(s.section)] + rest;
      assert more[1..] == rest;
    }
  }

  lemma {:induction false} TwoSteps(s: State, a: Action, b: Action)
    requires Enabled(s, a) && Enabled(Apply(s, a), b)
    ensures Run(s, [a, b]) && Final(s, [a, b]) == Apply(Apply(s, a), b)
  {
    assert [a, b][1..] == [b] && [b][1..] == [];
    assert Run(Apply(s, a), [b]) && Final(Apply(s, a), [b]) == Apply(Apply(s, a), b);
  }

  /**
   A registration succeeds if and only if the queue is open and has no receiver; it then takes
   over everything that waits.
   */
  lemma {:induction false} RegistersWhenFree(actions: seq<Action>)
    requires Run(INITIAL, actions) && Final(INITIAL, actions).section.Free?
    ensures var s := Final(INITIAL, actions);
            && Run(s, [RegisterLock, RegisterUnderMu])
            && var t, who := Final(s, [RegisterLock, RegisterUnderMu]), s.nextReceiver;
               if s.closed || s.receiver.Some? then t.receiver == s.receiver && t.queue == s.queue && t.section.Free?
               else t.receiver == Some(who) && who in t.active && t.queue == [] && t.section == Drain(s.queue, who)
  {
    TwoSteps(Final(INITIAL, actions), RegisterLock, RegisterUnderMu);
  }

  /** Unregistering a receiver makes room for the next. */
  lemma {:induction false} UnregisterMakesRoom(actions: seq<Action>, r: Receiver)
    requires Run(INITIAL, actions) && Final(INITIAL, actions).receiver == Some(r)
    ensures var s := Final(INITIAL, actions);
            Run(s, [Deactivate(r), Unregister(r)]) && Final(s, [Deactivate(r), Unregister(r)]).receiver == None
  {
    InitialInvariant();
    InvariantHoldsThroughout(INITIAL, actions);
    TwoSteps(Final(INITIAL, actions), Deactivate(r), Unregister(r));
  }

  /** At most 2048 packets wait. */
  lemma {:induction false} QueueIsBounded(s: State, actions: seq<Action>)
    requires |s.queue| <= 2048 && Run(s, actions)
    ensures |Final(s, actions).queue| <= 2048
    decreases |actions|
  {
    if actions != [] {
      QueueIsBounded(Apply(s, actions[0]), actions[1..]);
    }
  }

  /** Unless there is a cause to give packets back, one pushed and settled has been handed over, taken, or waits. */
  lemma {:induction false} SettledIsDelivered(actions: seq<Action>, p: Packet)
    requires Run(INITIAL, actions) && !HasCause(INITIAL, actions)
    requires var s := Final(INITIAL, actions); s.section.Free? && s.receiver.Some? && p < s.next
    ensures var s := Final(INITIAL, actions); Times(s.taken + s.handed, p) == 1
  {
    InitialInvariant();
    InvariantHoldsThroughout(INITIAL, actions);
    NothingLostWithoutCause(actions, p);
    var s := Final(INITIAL, actions);
    assert s.queue + s.taken + s.handed + InHand(s.section) == s.taken + s.handed;
  }
}
