/**
 The lazy-handshake hand-over of protocol/http/conn.go: a Write that dials a
 candidate and publishes it with compare-and-swap, racing a Close that marks the
 connection closed and takes whatever is published.

 Every atomic load, store, swap and compare-and-swap is one step. Any number of
 Write calls take part: muShake admits one at a time, so one program counter
 stands for the call holding it. Any number of Close calls take part: closeOnce
 runs the body once, so one program counter stands for that body. What a dial or
 a proxy handshake returns is up to the environment.
 */
module HttpPublish {
  import opened Bytes

  type ConnId = nat

  datatype Life = Idle | Handshaking | Ready | Closed

  datatype Writer =
    | Out                          // nobody holds muShake
    | Entered                      // about to load the published slot
    | SlotEmpty                    // about to load life
    | NotClosed                    // about to look at ctxShakeFinished
    | Begin                        // about to start the handshake, or to buffer the bytes and return
    | Started                      // life is no longer idle; about to re-check closed
    | Dialing
    | Dialed(c: ConnId)            // about to re-check closed
    | Connecting(c: ConnId)        // proxy handshake on c in progress
    | PublishCheck(c: ConnId)      // publishConn: about to check closed
    | PublishSwap(c: ConnId)       // publishConn: about to fill the slot
    | PublishReady(c: ConnId)      // publishConn: about to move life to ready
    | PublishRecheck(c: ConnId)    // publishConn: about to check closed again
    | PublishTakeBack(c: ConnId)   // publishConn: about to empty the slot
    | Discarding(c: ConnId)        // about to close c
    | Finishing(result: Outcome)   // about to cancel ctxShakeFinished and unlock

  datatype Outcome = NoCandidate | PublishedOk(c: ConnId) | Rejected(c: ConnId) | Stolen(c: ConnId)

  datatype Closer =
    | NotCalled
    | LifeStored                   // about to cancel the contexts
    | ContextsCancelled            // about to swap the slot with nil
    | Took(c: ConnId)              // about to close c
    | Done

  datatype State = State(
    life: Life,
    slot: Option<ConnId>,          // the published pointer
    shakeFinished: bool,
    writer: Writer,
    closer: Closer,
    closes: map<ConnId, nat>,      // how often each dialed connection was closed
    handed: set<ConnId>)           // candidates that reached publishConn

  datatype Action =
    | Enter | LoadSlot | LoadLife | LoadShake | ReturnEarly | StartHandshake | CheckAfterStart
    | DialFails | DialFailsWith(c: ConnId) | DialReturns(c: ConnId) | CheckAfterDial | ConnectFails | ConnectSucceeds
    | CheckBeforePublish | FillSlot | MakeReady | CheckAfterPublish | TakeBack | Discard | Leave
    | StoreClosed | CancelContexts | SwapSlot | CloseTaken

  ghost predicate Enabled(s: State, a: Action) {
    match a
    case Enter => s.writer.Out?
    case LoadSlot => s.writer.Entered?
    case LoadLife => s.writer.SlotEmpty?
    case LoadShake => s.writer.NotClosed?
    case ReturnEarly => s.writer.Begin?
    case StartHandshake => s.writer.Begin?
    case CheckAfterStart => s.writer.Started?
    case DialFails => s.writer.Dialing?
    case DialFailsWith(c) => s.writer.Dialing? && c !in s.closes     // an error, and a connection all the same
    case DialReturns(c) => s.writer.Dialing? && c !in s.closes
    case CheckAfterDial => s.writer.Dialed?
    case ConnectFails => s.writer.Connecting?
    case ConnectSucceeds => s.writer.Connecting?
    case CheckBeforePublish => s.writer.PublishCheck?
    case FillSlot => s.writer.PublishSwap?
    case MakeReady => s.writer.PublishReady?
    case CheckAfterPublish => s.writer.PublishRecheck?
    case TakeBack => s.writer.PublishTakeBack?
    case Discard => s.writer.Discarding? && s.writer.c in s.closes
    case Leave => s.writer.Finishing?
    case StoreClosed => s.closer.NotCalled?
    case CancelContexts => s.closer.LifeStored?
    case SwapSlot => s.closer.ContextsCancelled?
    case CloseTaken => s.closer.Took? && s.closer.c in s.closes
  }

  ghost function CloseOnce(closes: map<ConnId, nat>, c: ConnId): map<ConnId, nat>
    requires c in closes
  {
    closes[c := closes[c] + 1]
  }

  ghost function Apply(s: State, a: Action): State
    requires Enabled(s, a)
  {
    match a
    case Enter => s.(writer := Entered)
    case LoadSlot => s.(writer := if s.slot.Some? then Out else SlotEmpty)
    case LoadLife => s.(writer := if s.life.Closed? then Out else NotClosed)
    case LoadShake => s.(writer := if s.shakeFinished then Out else Begin)
    case ReturnEarly => s.(writer := Out)
    case StartHandshake => s.(life := if s.life.Idle? then Handshaking else s.life, writer := Started)
    case CheckAfterStart => s.(writer := if s.life.Closed? then Finishing(NoCandidate) else Dialing)
    case DialFails => s.(writer := Finishing(NoCandidate))
    case DialFailsWith(c) => s.(writer := Discarding(c), closes := s.closes[c := 0])
    case DialReturns(c) => s.(writer := Dialed(c), closes := s.closes[c := 0])
    case CheckAfterDial => s.(writer := if s.life.Closed? then Discarding(s.writer.c) else Connecting(s.writer.c))
    case ConnectFails => s.(writer := Discarding(s.writer.c))
    case ConnectSucceeds => s.(writer := PublishCheck(s.writer.c), handed := s.handed + {s.writer.c})
    case CheckBeforePublish =>
      s.(writer := if s.life.Closed? then Discarding(s.writer.c) else PublishSwap(s.writer.c))
    case FillSlot =>
      if s.slot.None? then s.(slot := Some(s.writer.c), writer := PublishReady(s.writer.c))
      else s.(writer := Discarding(s.writer.c))
    case MakeReady => s.(life := if s.life.Handshaking? then Ready else s.life, writer := PublishRecheck(s.writer.c))
    case CheckAfterPublish =>
      s.(writer := if !s.life.Closed? then Finishing(PublishedOk(s.writer.c)) else PublishTakeBack(s.writer.c))
    case TakeBack =>
      if s.slot == Some(s.writer.c) then s.(slot := None, writer := Discarding(s.writer.c))
      else s.(writer := Finishing(Stolen(s.writer.c)))
    case Discard => s.(closes := CloseOnce(s.closes, s.writer.c), writer := Finishing(Rejected(s.writer.c)))
    case Leave => s.(shakeFinished := true, writer := Out)
    case StoreClosed => s.(life := Closed, closer := LifeStored)
    case CancelContexts => s.(shakeFinished := true, closer := ContextsCancelled)
    case SwapSlot =>
      match s.slot {
        case None => s.(closer := Done)
        case Some(c) => s.(slot := None, closer := Took(c))
      }
    case CloseTaken => s.(closes := CloseOnce(s.closes, s.closer.c), closer := Done)
  }

  ghost const INITIAL: State := State(Idle, None, false, Out, NotCalled, map[], {})

  ghost predicate Run(s: State, actions: seq<Action>)
    decreases |actions|
  {
    actions == [] || (Enabled(s, actions[0]) && Run(Apply(s, actions[0]), actions[1..]))
  }

  ghost function Final(s: State, actions: seq<Action>): State
    requires Run(s, actions)
    decreases |actions|
  {
    if actions == [] then s else Final(Apply(s, actions[0]), actions[1..])
  }

  // --- who is responsible for closing a connection ----------------------------

  ghost predicate WriterOwns(w: Writer, c: ConnId) {
    match w
    case Dialed(x) => x == c
    case Connecting(x) => x == c
    case PublishCheck(x) => x == c
    case PublishSwap(x) => x == c
    case Discarding(x) => x == c
    case _ => false
  }

  ghost predicate WriterWillRecheck(w: Writer, c: ConnId) {
    w == PublishReady(c) || w == PublishRecheck(c) || w == PublishTakeBack(c)
  }

  ghost predicate WriterRefersTo(w: Writer, c: ConnId) {
    WriterOwns(w, c) || WriterWillRecheck(w, c)
  }

  /** In how many hands is connection `c`: the writer's, the slot's, the closer's, or already closed. */
  ghost function Hands(s: State, c: ConnId): nat
    requires c in s.closes
  {
    (if WriterOwns(s.writer, c) then 1 else 0)
    + (if s.slot == Some(c) then 1 else 0)
    + (if s.closer == Took(c) then 1 else 0)
    + s.closes[c]
  }

  ghost predicate Invariant(s: State) {
    && (s.life.Closed? <==> !s.closer.NotCalled?)
    && (forall c: ConnId ::
          s.slot == Some(c) || c in s.handed || s.closer == Took(c) || WriterRefersTo(s.writer, c) ==> c in s.closes)
    && (forall c: ConnId :: c in s.closes ==> Hands(s, c) == 1)
    // once Close has emptied the slot, only a publication still to be re-checked can refill it
    && ((s.closer.Took? || s.closer.Done?) && s.slot.Some? ==> WriterWillRecheck(s.writer, s.slot.value))
    && (s.writer.PublishTakeBack? ==> s.life.Closed?)
    && (s.writer.Started? || s.writer.Dialing? ==> !s.life.Idle?)
  }

  predicate CloserActs(a: Action) {
    a.StoreClosed? || a.CancelContexts? || a.SwapSlot? || a.CloseTaken?
  }

  predicate PublishActs(a: Action) {
    a.CheckBeforePublish? || a.FillSlot? || a.MakeReady? || a.CheckAfterPublish?
  }

  predicate RetractActs(a: Action) {
    a.TakeBack? || a.Discard?
  }

  lemma {:induction false} HandshakeStepKeepsInvariant(s: State, a: Action)
    requires Invariant(s) && Enabled(s, a) && !CloserActs(a) && !PublishActs(a) && !RetractActs(a)
    ensures Invariant(Apply(s, a))
  {
    var s' := Apply(s, a);
    forall c: ConnId | c in s'.closes ensures Hands(s', c) == 1 {
      if c in s.closes {
        assert Hands(s, c) == 1;
      }
    }
  }

  lemma {:induction false} PublishStepKeepsInvariant(s: State, a: Action)
    requires Invariant(s) && Enabled(s, a) && PublishActs(a)
    ensures Invariant(Apply(s, a))
  {
    var s' := Apply(s, a);
    forall c: ConnId | c in s'.closes ensures Hands(s', c) == 1 {
      assert Hands(s, c) == 1;
    }
  }

  lemma {:induction false} RetractStepKeepsInvariant(s: State, a: Action)
    requires Invariant(s) && Enabled(s, a) && RetractActs(a)
    ensures Invariant(Apply(s, a))
  {
    var s' := Apply(s, a);
    forall c: ConnId | c in s'.closes ensures Hands(s', c) == 1 {
      assert Hands(s, c) == 1;
    }
  }

  lemma {:induction false} CloserStepKeepsInvariant(s: State, a: Action)
    requires Invariant(s) && Enabled(s, a) && CloserActs(a)
    ensures Invariant(Apply(s, a))
  {
    var s' := Apply(s, a);
    forall c: ConnId | c in s'.closes ensures Hands(s', c) == 1 {
      assert Hands(s, c) == 1;
    }
  }

  lemma {:induction false} StepKeepsInvariant(s: State, a: Action)
    requires Invariant(s) && Enabled(s, a)
    ensures Invariant(Apply(s, a))
  {
    if CloserActs(a) {
      CloserStepKeepsInvariant(s, a);
    } else if PublishActs(a) {
      PublishStepKeepsInvariant(s, a);
    } else if RetractActs(a) {
      RetractStepKeepsInvariant(s, a);
    } else {
      HandshakeStepKeepsInvariant(s, a);
    }
  }

  lemma {:induction false} InvariantHoldsThroughout(s: State, actions: seq<Action>)
    requires Invariant(s) && Run(s, actions)
    ensures Invariant(Final(s, actions))
    decreases |actions|
  {
    if actions != [] {
      StepKeepsInvariant(s, actions[0]);
      InvariantHoldsThroughout(Apply(s, actions[0]), actions[1..]);
    }
  }

  /**
   When the Close body and every Write have returned, every connection that became a
   candidate of its own has been closed exactly once, whichever side won.
   */
  lemma {:induction false} ClosedExactlyOnce(actions: seq<Action>, c: ConnId)
    requires Run(INITIAL, actions)
    requires var s := Final(INITIAL, actions); s.writer.Out? && s.closer.Done? && c in s.closes
    ensures Final(INITIAL, actions).closes[c] == 1
  {
    InvariantHoldsThroughout(INITIAL, actions);
    assert Hands(Final(INITIAL, actions), c) == 1;
  }

  /** By then nothing is published, whether anything was dialed or not. */
  lemma {:induction false} NothingStaysPublished(actions: seq<Action>)
    requires Run(INITIAL, actions)
    requires var s := Final(INITIAL, actions); s.writer.Out? && s.closer.Done?
    ensures Final(INITIAL, actions).slot == None
  {
    InvariantHoldsThroughout(INITIAL, actions);
  }

  /** At no moment of any run is a connection closed twice, nor closed while it is published. */
  lemma {:induction false} NeverClosedTwice(actions: seq<Action>, c: ConnId)
    requires Run(INITIAL, actions) && c in Final(INITIAL, actions).closes
    ensures Final(INITIAL, actions).closes[c] <= 1
    ensures Final(INITIAL, actions).slot == Some(c) ==> Final(INITIAL, actions).closes[c] == 0
  {
    InvariantHoldsThroughout(INITIAL, actions);
    assert Hands(Final(INITIAL, actions), c) == 1;
  }

  /** Every candidate handed to publishConn was dialed, so the accounting above covers it. */
  lemma {:induction false} HandedIsAccountedFor(actions: seq<Action>, c: ConnId)
    requires Run(INITIAL, actions) && c in Final(INITIAL, actions).handed
    ensures c in Final(INITIAL, actions).closes
  {
    InvariantHoldsThroughout(INITIAL, actions);
  }

  /** Without a Close, what a successful Write published stays published and open. */
  lemma {:induction false} OpenUntilClose(actions: seq<Action>)
    requires Run(INITIAL, actions)
    requires var s := Final(INITIAL, actions); s.closer.NotCalled? && s.writer.Finishing? && s.writer.result.PublishedOk?
    ensures var s := Final(INITIAL, actions);
            && s.slot == Some(s.writer.result.c)
            && s.writer.result.c in s.closes && s.closes[s.writer.result.c] == 0
  {
    PublishedStaysInSlot(INITIAL, actions);
    InvariantHoldsThroughout(INITIAL, actions);
    var s := Final(INITIAL, actions);
    assert Hands(s, s.writer.result.c) == 1;
  }

  /** While Close has not been called, a publication in progress or just finished is in the slot. */
  ghost predicate PublicationInSlot(s: State) {
    s.closer.NotCalled? ==>
      match s.writer
      case PublishReady(c) => s.slot == Some(c)
      case PublishRecheck(c) => s.slot == Some(c)
      case Finishing(PublishedOk(c)) => s.slot == Some(c)
      case _ => true
  }

  lemma {:induction false} StepKeepsPublication(s: State, a: Action)
    requires PublicationInSlot(s) && Enabled(s, a)
    requires s.life.Closed? ==> !s.closer.NotCalled?
    ensures PublicationInSlot(Apply(s, a))
  {
  }

  lemma {:induction false} PublishedStaysInSlot(s: State, actions: seq<Action>)
    requires Invariant(s) && PublicationInSlot(s) && Run(s, actions)
    ensures PublicationInSlot(Final(s, actions))
    decreases |actions|
  {
    if actions != [] {
      StepKeepsInvariant(s, actions[0]);
      StepKeepsPublication(s, actions[0]);
      PublishedStaysInSlot(Apply(s, actions[0]), actions[1..]);
    }
  }

  // --- without a Close --------------------------------------------------------------

  ghost predicate NoClose(actions: seq<Action>) {
    forall i :: 0 <= i < |actions| ==> !actions[i].StoreClosed?
  }

  /** The writer found the slot empty and has not filled it. */
  ghost predicate MayFill(w: Writer) {
    w.SlotEmpty? || w.NotClosed? || w.Begin? || w.Started? || w.Dialing? || w.Dialed? || w.Connecting? || w.PublishCheck?
    || w.PublishSwap?
  }

  /** Only the call that holds muShake fills the slot, so it finds it as empty as it left it. */
  ghost predicate SlotAwaitsWriter(s: State) {
    MayFill(s.writer) ==> s.slot == None
  }

  lemma {:induction false} StepKeepsSlotAwaiting(s: State, a: Action)
    requires SlotAwaitsWriter(s) && Enabled(s, a)
    ensures SlotAwaitsWriter(Apply(s, a))
  {
  }

  lemma {:induction false} SlotAwaitsThroughout(s: State, actions: seq<Action>)
    requires SlotAwaitsWriter(s) && Run(s, actions)
    ensures SlotAwaitsWriter(Final(s, actions))
    decreases |actions|
  {
    if actions != [] {
      StepKeepsSlotAwaiting(s, actions[0]);
      SlotAwaitsThroughout(Apply(s, actions[0]), actions[1..]);
    }
  }

  /** In every run the compare-and-swap of publishConn finds the slot empty. */
  lemma {:induction false} SlotNeverTaken(actions: seq<Action>)
    requires Run(INITIAL, actions) && Final(INITIAL, actions).writer.PublishSwap?
    ensures Final(INITIAL, actions).slot == None
  {
    SlotAwaitsThroughout(INITIAL, actions);
  }

  /** Nobody has called Close, and `c` is about to be published or is published. */
  ghost predicate BoundForSlot(s: State, c: ConnId) {
    && s.closer.NotCalled?
    && (s.slot == Some(c) || (s.slot == None && (s.writer == PublishCheck(c) || s.writer == PublishSwap(c))))
  }

  lemma {:induction false} StepKeepsBound(s: State, a: Action, c: ConnId)
    requires Invariant(s) && BoundForSlot(s, c) && Enabled(s, a) && !a.StoreClosed? && SlotAwaitsWriter(s)
    ensures BoundForSlot(Apply(s, a), c)
  {
  }

  lemma {:induction false} BoundThroughout(s: State, actions: seq<Action>, c: ConnId)
    requires Invariant(s) && SlotAwaitsWriter(s) && BoundForSlot(s, c) && Run(s, actions) && NoClose(actions)
    ensures BoundForSlot(Final(s, actions), c)
    decreases |actions|
  {
    if actions != [] {
      StepKeepsInvariant(s, actions[0]);
      StepKeepsSlotAwaiting(s, actions[0]);
      StepKeepsBound(s, actions[0], c);
      BoundThroughout(Apply(s, actions[0]), actions[1..], c);
    }
  }

  lemma {:induction false} NotCalledWithoutClose(s: State, actions: seq<Action>)
    requires s.closer.NotCalled? && Run(s, actions) && NoClose(actions)
    ensures Final(s, actions).closer.NotCalled?
    decreases |actions|
  {
    if actions != [] {
      NotCalledWithoutClose(Apply(s, actions[0]), actions[1..]);
    }
  }

  /**
   In every run without a Close, a candidate handed to publishConn is in the slot and open
   once the writer has left, and stays so whatever other writers do afterwards.
   */
  lemma {:induction false} HandedIsPublished(before: seq<Action>, after: seq<Action>, c: ConnId)
    requires Run(INITIAL, before) && NoClose(before) && Final(INITIAL, before).writer == PublishCheck(c)
    requires Run(Final(INITIAL, before), after) && NoClose(after) && Final(Final(INITIAL, before), after).writer.Out?
    ensures var s := Final(Final(INITIAL, before), after);
            s.slot == Some(c) && c in s.closes && s.closes[c] == 0
  {
    var mid := Final(INITIAL, before);
    InvariantHoldsThroughout(INITIAL, before);
    SlotAwaitsThroughout(INITIAL, before);
    NotCalledWithoutClose(INITIAL, before);
    BoundThroughout(mid, after, c);
    InvariantHoldsThroughout(mid, after);
    assert Hands(Final(mid, after), c) == 1;
  }

  /** What may cost candidate `c` its life: a Close, an error of its dial, or of its proxy handshake. */
  ghost predicate IsCause(s: State, a: Action, c: ConnId) {
    a.StoreClosed? || a == DialFailsWith(c) || (a.ConnectFails? && s.writer == Connecting(c))
  }

  ghost predicate HasCause(s: State, actions: seq<Action>, c: ConnId)
    requires Run(s, actions)
    decreases |actions|
  {
    actions != [] && (IsCause(s, actions[0], c) || HasCause(Apply(s, actions[0]), actions[1..], c))
  }

  ghost predicate Unharmed(s: State, c: ConnId) {
    s.closer.NotCalled? && s.writer != Discarding(c) && (c in s.closes ==> s.closes[c] == 0)
  }

  lemma {:induction false} StepWithoutCause(s: State, a: Action, c: ConnId)
    requires Invariant(s) && SlotAwaitsWriter(s) && Unharmed(s, c) && Enabled(s, a) && !IsCause(s, a, c)
    ensures Unharmed(Apply(s, a), c)
  {
  }

  lemma {:induction false} UnharmedWithoutCause(s: State, actions: seq<Action>, c: ConnId)
    requires Invariant(s) && SlotAwaitsWriter(s) && Unharmed(s, c) && Run(s, actions) && !HasCause(s, actions, c)
    ensures Unharmed(Final(s, actions), c)
    decreases |actions|
  {
    if actions != [] {
      StepKeepsInvariant(s, actions[0]);
      StepKeepsSlotAwaiting(s, actions[0]);
      StepWithoutCause(s, actions[0], c);
      UnharmedWithoutCause(Apply(s, actions[0]), actions[1..], c);
    }
  }

  /**
   A candidate is discarded or closed only after a Close, a failure of its own dial, or a
   failure of its own proxy handshake; never because another was published first.
   */
  lemma {:induction false} DiscardedOnlyForCause(actions: seq<Action>, c: ConnId)
    requires Run(INITIAL, actions)
    requires var s := Final(INITIAL, actions); s.writer == Discarding(c) || (c in s.closes && s.closes[c] > 0)
    ensures HasCause(INITIAL, actions, c)
  {
    if !HasCause(INITIAL, actions, c) {
      UnharmedWithoutCause(INITIAL, actions, c);
    }
  }

  /** Neither a Close, nor an error of the environment, nor a Write that only buffers its bytes. */
  ghost predicate GoesWell(a: Action) {
    !a.StoreClosed? && !a.DialFails? && !a.DialFailsWith? && !a.ConnectFails? && !a.ReturnEarly?
  }

  ghost predicate HasStarted(w: Writer) {
    w.Started? || w.Dialing? || w.Dialed? || w.Connecting? || w.PublishCheck? || w.PublishSwap?
  }

  /** Something is published, or the call that holds muShake is on its way to publish. */
  ghost predicate OnTheWay(s: State) {
    && s.closer.NotCalled?
    && (s.slot.Some? || (!s.shakeFinished && (s.writer.Entered? || MayFill(s.writer))))
    && (s.slot.Some? ==> s.life.Ready? || (s.writer.PublishReady? && s.life.Handshaking?))
    && (s.slot.None? && HasStarted(s.writer) ==> s.life.Handshaking? || s.life.Ready?)
  }

  lemma {:induction false} StepStaysOnTheWay(s: State, a: Action)
    requires Invariant(s) && SlotAwaitsWriter(s) && OnTheWay(s) && Enabled(s, a) && GoesWell(a)
    ensures OnTheWay(Apply(s, a))
  {
  }

  lemma {:induction false} StaysOnTheWay(s: State, actions: seq<Action>)
    requires Invariant(s) && SlotAwaitsWriter(s) && OnTheWay(s) && Run(s, actions)
    requires forall i :: 0 <= i < |actions| ==> GoesWell(actions[i])
    ensures OnTheWay(Final(s, actions))
    decreases |actions|
  {
    if actions != [] {
      StepKeepsInvariant(s, actions[0]);
      StepKeepsSlotAwaiting(s, actions[0]);
      StepStaysOnTheWay(s, actions[0]);
      StaysOnTheWay(Apply(s, actions[0]), actions[1..]);
    }
  }

  /** In every run that goes well, the first Write to return, and every later one, leaves an open connection published. */
  lemma {:induction false} WritePublishes(actions: seq<Action>)
    requires Run(INITIAL, actions) && actions != [] && forall i :: 0 <= i < |actions| ==> GoesWell(actions[i])
    requires Final(INITIAL, actions).writer.Out?
    ensures var s := Final(INITIAL, actions);
            s.slot.Some? && s.slot.value in s.closes && s.closes[s.slot.value] == 0 && s.life.Ready?
  {
    var s := Apply(INITIAL, actions[0]);
    StepKeepsInvariant(INITIAL, actions[0]);
    StaysOnTheWay(s, actions[1..]);
    InvariantHoldsThroughout(s, actions[1..]);
    assert forall c: ConnId :: Final(s, actions[1..]).slot == Some(c) ==> Hands(Final(s, actions[1..]), c) == 1;
  }

  // --- after a Close ---------------------------------------------------------------------

  /** The writer has not yet looked at life under muShake. */
  ghost predicate NotStarted(w: Writer) {
    w.Out? || w.Entered? || w.SlotEmpty?
  }

  lemma {:induction false} StepAfterClose(s: State, a: Action, c: ConnId)
    requires s.life.Closed? && Enabled(s, a)
    ensures var s' := Apply(s, a);
            && s'.life.Closed?
            && (NotStarted(s.writer) ==> NotStarted(s'.writer))
            && (!s.writer.Dialing? ==> !s'.writer.Dialing? && s'.closes.Keys == s.closes.Keys)
            && (s.writer != Connecting(c) && !s.writer.Dialing? ==>
                  s'.writer != Connecting(c) && (c in s'.handed ==> c in s.handed))
            && (s.slot != Some(c) && s.writer != PublishSwap(c) ==> s'.slot != Some(c) && s'.writer != PublishSwap(c))
  {
    assert a.Discard? ==> CloseOnce(s.closes, s.writer.c).Keys == s.closes.Keys;
    assert a.CloseTaken? ==> CloseOnce(s.closes, s.closer.c).Keys == s.closes.Keys;
  }

  /**
   Once the lifecycle is closed: a Write that has not passed its first checks leaves without
   starting; unless a dial is under way no connection is dialed any more, and none is handed
   to publishConn but the one whose proxy handshake is in progress; and none gets into the
   slot but the one past publishConn's check.
   */
  lemma {:induction false} NothingNewAfterClose(s: State, actions: seq<Action>, c: ConnId)
    requires s.life.Closed? && Run(s, actions)
    ensures var s' := Final(s, actions);
            && (NotStarted(s.writer) ==> NotStarted(s'.writer))
            && (!s.writer.Dialing? ==> s'.closes.Keys == s.closes.Keys)
            && (s.writer != Connecting(c) && !s.writer.Dialing? && c in s'.handed ==> c in s.handed)
            && (s.slot != Some(c) && s.writer != PublishSwap(c) ==> s'.slot != Some(c))
    decreases |actions|
  {
    if actions != [] {
      StepAfterClose(s, actions[0], c);
      NothingNewAfterClose(Apply(s, actions[0]), actions[1..], c);
    }
  }

  /** Before the check that a handshake has already finished. */
  ghost predicate BeforeShakeCheck(w: Writer) {
    NotStarted(w) || w.NotClosed?
  }

  /** A finished handshake is the only one: no later Write dials. */
  lemma {:induction false} HandshakeOnce(s: State, actions: seq<Action>)
    requires s.shakeFinished && BeforeShakeCheck(s.writer) && Run(s, actions)
    ensures Final(s, actions).closes.Keys == s.closes.Keys && BeforeShakeCheck(Final(s, actions).writer)
    decreases |actions|
  {
    if actions != [] {
      var a := actions[0];
      assert a.CloseTaken? ==> CloseOnce(s.closes, s.closer.c).Keys == s.closes.Keys;
      HandshakeOnce(Apply(s, a), actions[1..]);
    }
  }

  // --- nobody is stuck ---------------------------------------------------------------

  /** At most so many steps from returning. */
  ghost function WriterSteps(w: Writer): nat {
    match w
    case Out => 0
    case Finishing(_) => 1
    case Discarding(_) => 2
    case PublishTakeBack(_) => 3
    case PublishRecheck(_) => 4
    case PublishReady(_) => 5
    case PublishSwap(_) => 6
    case PublishCheck(_) => 7
    case Connecting(_) => 8
    case Dialed(_) => 9
    case Dialing => 10
    case Started => 11
    case Begin => 12
    case NotClosed => 13
    case SlotEmpty => 14
    case Entered => 15
  }

  ghost function CloserSteps(c: Closer): nat {
    match c
    case NotCalled => 0
    case LifeStored => 3
    case ContextsCancelled => 2
    case Took(_) => 1
    case Done => 0
  }

  /** A step of the call in progress, if there is one, and it brings that call nearer to its end. */
  ghost function NextOfWriter(w: Writer): Action {
    match w
    case Out => Enter
    case Entered => LoadSlot
    case SlotEmpty => LoadLife
    case NotClosed => LoadShake
    case Begin => StartHandshake
    case Started => CheckAfterStart
    case Dialing => DialFails
    case Dialed(_) => CheckAfterDial
    case Connecting(_) => ConnectSucceeds
    case PublishCheck(_) => CheckBeforePublish
    case PublishSwap(_) => FillSlot
    case PublishReady(_) => MakeReady
    case PublishRecheck(_) => CheckAfterPublish
    case PublishTakeBack(_) => TakeBack
    case Discarding(_) => Discard
    case Finishing(_) => Leave
  }

  lemma {:induction false} WriterAdvances(s: State)
    requires Invariant(s) && !s.writer.Out?
    ensures Enabled(s, NextOfWriter(s.writer))
    ensures var s' := Apply(s, NextOfWriter(s.writer)); s'.closer == s.closer && WriterSteps(s'.writer) < WriterSteps(s.writer)
  {
  }

  ghost function NextOfCloser(c: Closer): Action {
    match c
    case LifeStored => CancelContexts
    case ContextsCancelled => SwapSlot
    case _ => CloseTaken
  }

  lemma {:induction false} CloserAdvances(s: State)
    requires Invariant(s) && !s.closer.NotCalled? && !s.closer.Done?
    ensures Enabled(s, NextOfCloser(s.closer))
    ensures var s' := Apply(s, NextOfCloser(s.closer)); s'.writer == s.writer && CloserSteps(s'.closer) < CloserSteps(s.closer)
  {
  }

  /**
   From every state of every run the calls in progress can return: the interleaving left no
   Write and no Close waiting for something that does not come.
   */
  lemma {:induction false} CanAlwaysReturn(s: State) returns (actions: seq<Action>)
    requires Invariant(s)
    ensures Run(s, actions) && NoClose(actions)
    ensures var t := Final(s, actions); t.writer.Out? && (t.closer.NotCalled? || t.closer.Done?)
    decreases WriterSteps(s.writer) + CloserSteps(s.closer), 1
  {
    if !s.writer.Out? {
      WriterAdvances(s);
      actions := Onward(s, NextOfWriter(s.writer));
    } else if !s.closer.NotCalled? && !s.closer.Done? {
      CloserAdvances(s);
      actions := Onward(s, NextOfCloser(s.closer));
    } else {
      actions := [];
    }
  }

  lemma {:induction false} Onward(s: State, a: Action) returns (actions: seq<Action>)
    requires Invariant(s) && Enabled(s, a) && !a.StoreClosed?
    requires var s' := Apply(s, a);
             WriterSteps(s'.writer) + CloserSteps(s'.closer) < WriterSteps(s.writer) + CloserSteps(s.closer)
    ensures Run(s, actions) && NoClose(actions)
    ensures var t := Final(s, actions); t.writer.Out? && (t.closer.NotCalled? || t.closer.Done?)
    decreases WriterSteps(s.writer) + CloserSteps(s.closer), 0
  {
    StepKeepsInvariant(s, a);
    var rest := CanAlwaysReturn(Apply(s, a));
    actions := [a] + rest;
    assert actions[1..] == rest;
  }

  // --- the lifecycle ------------------------------------------------------------

  ghost function Rank(l: Life): nat {
    match l
    case Idle => 0
    case Handshaking => 1
    case Ready => 2
    case Closed => 3
  }

  /** The lifecycle only moves forward; in particular closed is never left. */
  lemma {:induction false} LifeIsMonotone(s: State, actions: seq<Action>)
    requires Run(s, actions)
    ensures Rank(s.life) <= Rank(Final(s, actions).life)
    decreases |actions|
  {
    if actions != [] {
      LifeIsMonotone(Apply(s, actions[0]), actions[1..]);
    }
  }
}
