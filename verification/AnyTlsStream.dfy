/**
 Closing an AnyTLS stream (protocol/anytls/stream.go): the session's demultiplexer
 enqueues chunks, readers drain them under readMutex, and any number of remote,
 session and local closes race with both. Steps are single atomic loads, channel
 operations and lock acquisitions. Taking and releasing enqueueMu for writing, as
 readers and local closes do, is one step that waits for the enqueuer to be out.
 */
module AnyTlsStream {
  import opened Bytes
  import opened Lists

  const INBOUND_CAP: nat := 16

  /** A pooled chunk of received data. */
  datatype Chunk = Chunk(id: nat, data: seq<Byte>)

  datatype Enqueuer =
    | Idle
    | Entered(c: Chunk)      // holds enqueueMu for reading; about to load closed
    | NotClosed(c: Chunk)    // about to look at the session
    | Selecting(c: Chunk)    // waiting for room, closeCh or the session's end

  datatype Reader =
    | Out
    | Trying                 // about to take a chunk if there is one
    | LoadClosed
    | Barrier                // saw closed; about to wait for the enqueuer
    | Last                   // about to look at the queue once more
    | Waiting
    | Got(c: Chunk)
    | Copying

  datatype Holder = Free | ByReader | ByCloser(who: nat)

  datatype Closer = Marked | Passed | Draining | Done

  datatype Flags = Flags(
    closed: bool,
    closeCh: bool,
    sessionDone: bool,
    sealed: bool)            // somebody passed enqueueMu after the close

  datatype ReadSide = ReadSide(reader: Reader, mutex: Holder, buf: seq<Byte>, pb: Option<Chunk>)

  /** What has happened so far. */
  datatype Log = Log(
    next: nat,
    admitted: seq<Chunk>,
    delivered: seq<Byte>,
    returned: seq<nat>,      // ids of chunks given back to the pool
    reported: bool,          // a read returned the close error
    discarded: bool,         // a local close threw data away
    finished: bool)          // a local close ran to its end

  datatype State = State(
    flags: Flags,
    inbound: seq<Chunk>,
    enqueuer: Enqueuer,
    read: ReadSide,
    closers: map<nat, Closer>,
    log: Log)

  datatype EnqueueAct = Arrive(data: seq<Byte>) | LoadsClosed | LoadsDone | Sends | GivesUp

  datatype CloseAct = SetClosed | CloseChannel | SessionEnds

  datatype ReadAct = Locks | Tries | SeesClosed | Passes | LooksAgain | Receives | Wakes | TimesOut | Uses | Copies(n: nat)

  datatype LocalAct = LocalMarks | LocalPasses | LocalLocks | LocalDrains | LocalUnlocks

  datatype Action = Enqueue(e: EnqueueAct) | Close(c: CloseAct) | Read(r: ReadAct) | Local(who: nat, l: LocalAct)

  // --- the enqueuer ------------------------------------------------------------------------

  ghost predicate EnqueueEnabled(s: State, a: EnqueueAct) {
    match a
    case Arrive(_) => s.enqueuer.Idle?
    case LoadsClosed => s.enqueuer.Entered?
    case LoadsDone => s.enqueuer.NotClosed?
    case Sends => s.enqueuer.Selecting? && |s.inbound| < INBOUND_CAP
    case GivesUp => s.enqueuer.Selecting? && (s.flags.closeCh || s.flags.sessionDone)
  }

  ghost function Enqueued(s: State, a: EnqueueAct): State
    requires EnqueueEnabled(s, a)
  {
    match a
    case Arrive(data) => s.(enqueuer := Entered(Chunk(s.log.next, data)), log := s.log.(next := s.log.next + 1))
    case LoadsClosed => if s.flags.closed then GivenBack(s) else s.(enqueuer := NotClosed(s.enqueuer.c))
    case LoadsDone => if s.flags.sessionDone then GivenBack(s) else s.(enqueuer := Selecting(s.enqueuer.c))
    case Sends =>
      s.(inbound := s.inbound + [s.enqueuer.c], log := s.log.(admitted := s.log.admitted + [s.enqueuer.c]), enqueuer := Idle)
    case GivesUp => GivenBack(s)
  }

  ghost function GivenBack(s: State): State
    requires !s.enqueuer.Idle?
  {
    s.(enqueuer := Idle, log := Returning(s.log, s.enqueuer.c))
  }

  ghost function Returning(log: Log, c: Chunk): Log {
    log.(returned := log.returned + [c.id])
  }

  // --- closing ---------------------------------------------------------------------------------

  /** markClosed sets the flag and then closes the channel. */
  ghost predicate CloseEnabled(s: State, a: CloseAct) {
    match a
    case SetClosed => !s.flags.closed
    case CloseChannel => s.flags.closed
    case SessionEnds => true
  }

  ghost function Closing(s: State, a: CloseAct): State {
    match a
    case SetClosed => s.(flags := s.flags.(closed := true))
    case CloseChannel => s.(flags := s.flags.(closeCh := true))
    case SessionEnds => s.(flags := s.flags.(sessionDone := true))
  }

  // --- a reader ----------------------------------------------------------------------------------

  ghost predicate ReadEnabled(s: State, a: ReadAct) {
    match a
    case Locks => s.read.reader.Out? && s.read.mutex.Free?
    case Tries => s.read.reader.Trying?
    case SeesClosed => s.read.reader.LoadClosed?
    case Passes => s.read.reader.Barrier? && s.enqueuer.Idle?
    case LooksAgain => s.read.reader.Last?
    case Receives => s.read.reader.Waiting? && s.inbound != []
    case Wakes => s.read.reader.Waiting?
    case TimesOut => s.read.reader.Waiting?
    case Uses => s.read.reader.Got?
    case Copies(n) => s.read.reader.Copying? && 0 < n <= |s.read.buf|
  }

  ghost function Reading(s: State, a: ReadAct): State
    requires ReadEnabled(s, a)
  {
    match a
    case Locks => s.(read := s.read.(mutex := ByReader, reader := if s.read.buf != [] then Copying else Trying))
    case Tries => if s.inbound != [] then TakenByReader(s) else s.(read := s.read.(reader := LoadClosed))
    case SeesClosed => s.(read := s.read.(reader := if s.flags.closed then Barrier else Waiting))
    case Passes => s.(read := s.read.(reader := Last), flags := s.flags.(sealed := true))
    case LooksAgain =>
      if s.inbound != [] then TakenByReader(s)
      else s.(read := s.read.(reader := Out, mutex := Free), log := s.log.(reported := true))
    case Receives => TakenByReader(s)
    case Wakes => s.(read := s.read.(reader := Trying))
    case TimesOut => s.(read := s.read.(reader := Out, mutex := Free))
    case Uses => UsedByReader(s, s.read.reader.c)
    case Copies(n) => CopiedByReader(s, n)
  }

  ghost function TakenByReader(s: State): State
    requires s.inbound != []
  {
    s.(read := s.read.(reader := Got(s.inbound[0])), inbound := s.inbound[1..])
  }

  ghost function UsedByReader(s: State, c: Chunk): State {
    if c.data == [] then s.(read := s.read.(reader := Trying), log := Returning(s.log, c))
    else s.(read := s.read.(reader := Copying, buf := c.data, pb := Some(c)))
  }

  ghost function CopiedByReader(s: State, n: nat): State
    requires n <= |s.read.buf|
  {
    var log := s.log.(delivered := s.log.delivered + s.read.buf[..n]);
    if n == |s.read.buf| && s.read.pb.Some?
    then s.(read := ReadSide(Out, Free, [], None), log := Returning(log, s.read.pb.value))
    else s.(read := s.read.(reader := Out, mutex := Free, buf := s.read.buf[n..]), log := log)
  }

  // --- local closes ----------------------------------------------------------------------------------

  ghost predicate CloserAt(s: State, who: nat, phase: Closer) {
    who in s.closers && s.closers[who] == phase
  }

  ghost predicate LocalEnabled(s: State, w: nat, a: LocalAct) {
    match a
    case LocalMarks => w !in s.closers && s.flags.closed && s.flags.closeCh
    case LocalPasses => CloserAt(s, w, Marked) && s.enqueuer.Idle?
    case LocalLocks => CloserAt(s, w, Passed) && s.read.mutex.Free?
    case LocalDrains => CloserAt(s, w, Draining) && s.inbound != []
    case LocalUnlocks => CloserAt(s, w, Draining) && s.inbound == []
  }

  ghost function LocalClosing(s: State, w: nat, a: LocalAct): State
    requires LocalEnabled(s, w, a)
  {
    match a
    case LocalMarks => s.(closers := s.closers[w := Marked])
    case LocalPasses => s.(closers := s.closers[w := Passed], flags := s.flags.(sealed := true))
    case LocalLocks =>
      var s' := s.(closers := s.closers[w := Draining]);
      if s.read.pb.Some?
      then s'.(read := s.read.(mutex := ByCloser(w), buf := [], pb := None),
               log := Returning(s.log, s.read.pb.value).(discarded := true))
      else s'.(read := s.read.(mutex := ByCloser(w)))
    case LocalDrains => s.(inbound := s.inbound[1..], log := Returning(s.log, s.inbound[0]).(discarded := true))
    case LocalUnlocks =>
      s.(closers := s.closers[w := Done], read := s.read.(mutex := Free), log := s.log.(finished := true))
  }

  // --- runs ----------------------------------------------------------------------------------------------

  ghost predicate Enabled(s: State, a: Action) {
    match a
    case Enqueue(e) => EnqueueEnabled(s, e)
    case Close(c) => CloseEnabled(s, c)
    case Read(r) => ReadEnabled(s, r)
    case Local(w, l) => LocalEnabled(s, w, l)
  }

  ghost function Apply(s: State, a: Action): State
    requires Enabled(s, a)
  {
    match a
    case Enqueue(e) => Enqueued(s, e)
    case Close(c) => Closing(s, c)
    case Read(r) => Reading(s, r)
    case Local(w, l) => LocalClosing(s, w, l)
  }

  ghost const INITIAL: State :=
    State(Flags(false, false, false, false), [], Idle, ReadSide(Out, Free, [], None), map[],
          Log(0, [], [], [], false, false, false))

  ghost predicate Run(s: State, actions: seq<Action>)
    decreases |actions|
  {
    actions == [] || (Enabled(s, actions[0]) && Run(Apply(s, actions[0]), actions[1..]))
  }

  ghost function Final(s: State, actions: seq<Action>): State
    requires Run(s, actions)
    decreases |actions|
  {
    if actions == [] then s else Final(Apply(s, actions[0]), actions[1..])
  }

  // --- the locks --------------------------------------------------------------------------

  ghost predicate Locked(r: ReadSide, closers: map<nat, Closer>) {
    && (r.reader.Out? <==> !r.mutex.ByReader?)
    && (forall w :: w in closers && closers[w].Draining? ==> r.mutex == ByCloser(w) && r.buf == [])
    && (r.buf != [] <==> r.pb.Some?)
    && (r.reader.Copying? ==> r.buf != [])
    && (!r.reader.Out? && !r.reader.Copying? ==> r.buf == [])
  }

  /** Once sealed, no chunk can be admitted any more. */
  ghost predicate Sealed(s: State) {
    && (s.flags.closeCh ==> s.flags.closed)
    && (s.read.reader.Barrier? || s.read.reader.Last? ==> s.flags.closed)
    && (s.read.reader.Last? ==> s.flags.sealed)
    && (forall w :: w in s.closers ==> s.flags.closed && (!s.closers[w].Marked? ==> s.flags.sealed))
    && (s.flags.sealed ==> s.flags.closed && !s.enqueuer.NotClosed? && !s.enqueuer.Selecting?)
    && (s.log.reported || s.log.finished ==> s.flags.sealed && s.inbound == [] && s.read.buf == [] && !s.read.reader.Got?)
  }

  lemma {:induction false} ReaderKeepsLocks(s: State, a: ReadAct)
    requires ReadEnabled(s, a) && Locked(s.read, s.closers) && Sealed(s)
    ensures Locked(Reading(s, a).read, s.closers) && Sealed(Reading(s, a))
  {
  }

  lemma {:induction false} LocalKeepsLocks(s: State, w: nat, a: LocalAct)
    requires LocalEnabled(s, w, a) && Locked(s.read, s.closers) && Sealed(s)
    ensures var s' := LocalClosing(s, w, a); Locked(s'.read, s'.closers) && Sealed(s')
  {
  }

  lemma {:induction false} StepKeepsLocks(s: State, a: Action)
    requires Enabled(s, a) && Locked(s.read, s.closers) && Sealed(s)
    ensures var s' := Apply(s, a); Locked(s'.read, s'.closers) && Sealed(s')
  {
    match a
    case Read(r) => ReaderKeepsLocks(s, r);
    case Local(w, l) => LocalKeepsLocks(s, w, l);
    case _ =>
  }

  // --- the bytes ---------------------------------------------------------------------------

  function DataOf(chunks: seq<Chunk>): seq<Byte> {
    if chunks == [] then [] else chunks[0].data + DataOf(chunks[1..])
  }

  ghost function InReader(r: Reader): seq<Byte> {
    if r.Got? then r.c.data else []
  }

  ghost function Ahead(s: State): seq<Byte> {
    s.read.buf + InReader(s.read.reader) + DataOf(s.inbound)
  }

  /** Unless a local close threw data away, what was admitted is what was read and what is still held, in order. */
  ghost predicate Streamed(s: State) {
    !s.log.discarded ==> DataOf(s.log.admitted) == s.log.delivered + Ahead(s)
  }

  lemma {:induction false} DataOfSnoc(chunks: seq<Chunk>, c: Chunk)
    ensures DataOf(chunks + [c]) == DataOf(chunks) + c.data
  {
    if chunks == [] {
      assert chunks + [c] == [c];
    } else {
      assert (chunks + [c])[1..] == chunks[1..] + [c];
      DataOfSnoc(chunks[1..], c);
    }
  }

  lemma {:induction false} CopyKeepsStreamed(s: State, n: nat)
    requires s.read.reader.Copying? && 0 < n <= |s.read.buf| && Locked(s.read, s.closers) && Streamed(s)
    ensures Streamed(CopiedByReader(s, n))
  {
    var s' := CopiedByReader(s, n);
    var now, later := s.read.buf[..n], s.read.buf[n..];
    assert s.read.buf == now + later && s'.read.buf == later && s'.log.delivered == s.log.delivered + now;
    Regroup(s.log.delivered, now, later, DataOf(s.inbound));
    assert InReader(s.read.reader) == [] == InReader(s'.read.reader);
  }

  lemma {:induction false} Regroup(done: seq<Byte>, now: seq<Byte>, later: seq<Byte>, queue: seq<Byte>)
    ensures done + now + (later + [] + queue) == done + (now + later + [] + queue)
  {
    assert later + [] == later && now + later + [] == now + later;
  }

  lemma {:induction false} TakeKeepsAhead(s: State)
    requires s.inbound != [] && InReader(s.read.reader) == []
    ensures Ahead(TakenByReader(s)) == Ahead(s)
  {
    assert DataOf(s.inbound) == s.inbound[0].data + DataOf(s.inbound[1..]);
  }

  lemma {:induction false} ReaderKeepsStreamed(s: State, a: ReadAct)
    requires ReadEnabled(s, a) && Locked(s.read, s.closers) && Streamed(s)
    ensures Streamed(Reading(s, a))
  {
    if a.Copies? {
      CopyKeepsStreamed(s, a.n);
    } else if s.inbound != [] && (a.Tries? || a.LooksAgain? || a.Receives?) {
      TakeKeepsAhead(s);
    } else {
      assert Ahead(Reading(s, a)) == Ahead(s);
    }
  }

  lemma {:induction false} EnqueuerKeepsStreamed(s: State, a: EnqueueAct)
    requires EnqueueEnabled(s, a) && Streamed(s)
    ensures Streamed(Enqueued(s, a))
  {
    if a.Sends? {
      var c := s.enqueuer.c;
      DataOfSnoc(s.log.admitted, c);
      DataOfSnoc(s.inbound, c);
      assert Ahead(Enqueued(s, a)) == Ahead(s) + c.data;
    }
  }

  lemma {:induction false} StepKeepsStreamed(s: State, a: Action)
    requires Enabled(s, a) && Locked(s.read, s.closers) && Streamed(s)
    ensures Streamed(Apply(s, a))
  {
    match a
    case Enqueue(e) => EnqueuerKeepsStreamed(s, e);
    case Read(r) => ReaderKeepsStreamed(s, r);
    case _ =>
  }

  // --- the chunks ----------------------------------------------------------------------------

  function Ids(chunks: seq<Chunk>): seq<nat> {
    if chunks == [] then [] else [chunks[0].id] + Ids(chunks[1..])
  }

  ghost function InEnqueuer(e: Enqueuer, id: nat): nat {
    One(!e.Idle? && e.c.id == id)
  }

  ghost function InReadSide(r: ReadSide, id: nat): nat {
    One(r.reader.Got? && r.reader.c.id == id) + One(r.pb.Some? && r.pb.value.id == id)
  }

  /** In how many places a chunk is. */
  ghost function Places(s: State, id: nat): nat {
    InEnqueuer(s.enqueuer, id) + Times(Ids(s.inbound), id) + InReadSide(s.read, id) + Times(s.log.returned, id)
  }

  ghost predicate Conserved(s: State) {
    forall id: nat :: Places(s, id) == One(id < s.log.next)
  }

  lemma {:induction false} IdsSnoc(chunks: seq<Chunk>, c: Chunk)
    ensures Ids(chunks + [c]) == Ids(chunks) + [c.id]
  {
    if chunks == [] {
      assert chunks + [c] == [c];
    } else {
      assert (chunks + [c])[1..] == chunks[1..] + [c];
      IdsSnoc(chunks[1..], c);
    }
  }

  lemma {:induction false} TimesHead(chunks: seq<Chunk>, id: nat)
    requires chunks != []
    ensures Times(Ids(chunks), id) == One(chunks[0].id == id) + Times(Ids(chunks[1..]), id)
  {
    assert Ids(chunks)[1..] == Ids(chunks[1..]);
  }

  lemma {:induction false} PlacesEnqueuer(s: State, a: EnqueueAct, id: nat)
    requires EnqueueEnabled(s, a)
    ensures Places(Enqueued(s, a), id) == Places(s, id) + One(a.Arrive? && id == s.log.next)
  {
    if !s.enqueuer.Idle? {
      TimesSnoc(s.log.returned, s.enqueuer.c.id, id);
      IdsSnoc(s.inbound, s.enqueuer.c);
      TimesSnoc(Ids(s.inbound), s.enqueuer.c.id, id);
    }
  }

  lemma {:induction false} PlacesReader(s: State, a: ReadAct, id: nat)
    requires ReadEnabled(s, a) && Locked(s.read, s.closers)
    ensures Places(Reading(s, a), id) == Places(s, id)
  {
    if s.inbound != [] {
      TimesHead(s.inbound, id);
    }
    if a.Uses? {
      TimesSnoc(s.log.returned, s.read.reader.c.id, id);
    } else if a.Copies? {
      TimesSnoc(s.log.returned, s.read.pb.value.id, id);
    }
  }

  lemma {:induction false} PlacesLocal(s: State, w: nat, a: LocalAct, id: nat)
    requires LocalEnabled(s, w, a)
    ensures Places(LocalClosing(s, w, a), id) == Places(s, id)
  {
    if a.LocalDrains? {
      TimesHead(s.inbound, id);
      TimesSnoc(s.log.returned, s.inbound[0].id, id);
    } else if a.LocalLocks? && s.read.pb.Some? {
      TimesSnoc(s.log.returned, s.read.pb.value.id, id);
    }
  }

  lemma {:induction false} PlacesStep(s: State, a: Action, id: nat)
    requires Enabled(s, a) && Locked(s.read, s.closers)
    ensures Places(Apply(s, a), id) == Places(s, id) + One(a.Enqueue? && a.e.Arrive? && id == s.log.next)
    ensures Apply(s, a).log.next == s.log.next + One(a.Enqueue? && a.e.Arrive?)
  {
    match a
    case Enqueue(e) => PlacesEnqueuer(s, e, id);
    case Read(r) => PlacesReader(s, r, id);
    case Local(w, l) => PlacesLocal(s, w, l, id);
    case Close(_) =>
  }

  lemma {:induction false} StepConserves(s: State, a: Action)
    requires Enabled(s, a) && Locked(s.read, s.closers) && Conserved(s)
    ensures Conserved(Apply(s, a))
  {
    var s' := Apply(s, a);
    forall id: nat ensures Places(s', id) == One(id < s'.log.next) {
      assert Places(s, id) == One(id < s.log.next);
      PlacesStep(s, a, id);
    }
  }

  // --- whole runs ------------------------------------------------------------------------------

  ghost predicate Invariant(s: State) {
    Locked(s.read, s.closers) && Sealed(s) && Streamed(s) && Conserved(s)
  }

  lemma {:induction false} InvariantHoldsThroughout(s: State, actions: seq<Action>)
    requires Invariant(s) && Run(s, actions)
    ensures Invariant(Final(s, actions))
    decreases |actions|
  {
    if actions != [] {
      var a := actions[0];
      StepKeepsLocks(s, a);
      StepKeepsStreamed(s, a);
      StepConserves(s, a);
      InvariantHoldsThroughout(Apply(s, a), actions[1..]);
    }
  }

  lemma {:induction false} InitialInvariant()
    ensures Invariant(INITIAL)
  {
  }

  /**
   After a remote or session close, a reader that is told about it has been given
   every admitted byte, in order, and nothing is admitted any more.
   */
  lemma {:induction false} DrainedBeforeCloseError(actions: seq<Action>)
    requires Run(INITIAL, actions)
    ensures var s := Final(INITIAL, actions);
            && (s.log.reported && !s.log.discarded ==> s.log.delivered == DataOf(s.log.admitted))
            && (s.log.reported ==>
                  s.flags.closed && s.inbound == [] && !s.enqueuer.Selecting? && !s.enqueuer.NotClosed?)
  {
    InitialInvariant();
    InvariantHoldsThroughout(INITIAL, actions);
    var s := Final(INITIAL, actions);
    assert s.log.reported ==> Ahead(s) == [];
  }

  /** At every moment what has been read is a prefix of what was admitted, unless a local close discarded data. */
  lemma {:induction false} ReadsAreInOrder(actions: seq<Action>)
    requires Run(INITIAL, actions)
    ensures var s := Final(INITIAL, actions); !s.log.discarded ==> s.log.delivered <= DataOf(s.log.admitted)
  {
    InitialInvariant();
    InvariantHoldsThroughout(INITIAL, actions);
  }

  /**
   Once a local close has run to its end the queue is empty for good, and every chunk
   except one still in the enqueuer's hands has been given back exactly once.
   */
  lemma {:induction false} AllReturnedAfterLocalClose(actions: seq<Action>, id: nat)
    requires Run(INITIAL, actions)
    ensures var s := Final(INITIAL, actions);
            s.log.finished ==>
              && s.inbound == [] && s.read.pb.None? && !s.read.reader.Got?
              && Times(s.log.returned, id) == One(id < s.log.next) - InEnqueuer(s.enqueuer, id)
  {
    InitialInvariant();
    InvariantHoldsThroughout(INITIAL, actions);
    var s := Final(INITIAL, actions);
    assert Places(s, id) == One(id < s.log.next);
  }

  /** Only local closes discard data. */
  lemma {:induction false} OnlyLocalDiscards(s: State, actions: seq<Action>)
    requires Run(s, actions) && !s.log.discarded && forall i :: 0 <= i < |actions| ==> !actions[i].Local?
    ensures !Final(s, actions).log.discarded
    decreases |actions|
  {
    if actions != [] {
      OnlyLocalDiscards(Apply(s, actions[0]), actions[1..]);
    }
  }

  // --- without a close -------------------------------------------------------------------------

  /** Nobody closes the stream and the session does not end. */
  ghost predicate StaysOpen(actions: seq<Action>) {
    forall i :: 0 <= i < |actions| ==> !actions[i].Close?
  }

  ghost function Brought(a: Action): seq<Byte> {
    if a.Enqueue? && a.e.Arrive? then a.e.data else []
  }

  /** The bytes of all chunks that arrived. */
  ghost function Arrived(actions: seq<Action>): seq<Byte> {
    if actions == [] then []
    else Brought(actions[0]) + Arrived(actions[1..])
  }

  ghost function WithEnqueuer(e: Enqueuer): seq<Byte> {
    if e.Idle? then [] else e.c.data
  }

  ghost predicate IsOpen(s: State) {
    && !s.flags.closed && !s.flags.closeCh && !s.flags.sessionDone
    && s.closers == map[] && !s.log.discarded && !s.read.mutex.ByCloser?
  }

  /** The bytes that were admitted or are about to be. */
  ghost function Taken(s: State): seq<Byte> {
    DataOf(s.log.admitted) + WithEnqueuer(s.enqueuer)
  }

  lemma {:induction false} EnqueuerTakes(s: State, a: EnqueueAct)
    requires IsOpen(s) && EnqueueEnabled(s, a)
    ensures IsOpen(Enqueued(s, a)) && Taken(Enqueued(s, a)) == Taken(s) + if a.Arrive? then a.data else []
  {
    if a.Sends? {
      DataOfSnoc(s.log.admitted, s.enqueuer.c);
      assert Taken(Enqueued(s, a)) == DataOf(s.log.admitted) + s.enqueuer.c.data + [];
    }
  }

  lemma {:induction false} StepTakes(s: State, a: Action)
    requires IsOpen(s) && Enabled(s, a) && !a.Close?
    ensures IsOpen(Apply(s, a)) && Taken(Apply(s, a)) == Taken(s) + Brought(a)
  {
    if a.Enqueue? {
      EnqueuerTakes(s, a.e);
    } else {
      var s' := Apply(s, a);
      assert s'.log.admitted == s.log.admitted && s'.enqueuer == s.enqueuer;
      assert Taken(s) + [] == Taken(s);
    }
  }

  lemma {:induction false} AllTaken(s: State, actions: seq<Action>)
    requires IsOpen(s) && Run(s, actions) && StaysOpen(actions)
    ensures IsOpen(Final(s, actions)) && Taken(Final(s, actions)) == Taken(s) + Arrived(actions)
    decreases |actions|
  {
    if actions == [] {
      assert Taken(s) + [] == Taken(s);
    } else {
      StepTakes(s, actions[0]);
      AllTaken(Apply(s, actions[0]), actions[1..]);
      Regrouped(Taken(s), Brought(actions[0]), Arrived(actions[1..]));
    }
  }

  /**
   Only a close or the session's end loses a byte: in every run without either, all that
   arrived has been read, or is on its way to a reader, or is in the enqueuer's hands, in
   that order.
   */
  lemma {:induction false} NothingLostWithoutClose(actions: seq<Action>)
    requires Run(INITIAL, actions) && StaysOpen(actions)
    ensures var s := Final(INITIAL, actions);
            Arrived(actions) == s.log.delivered + Ahead(s) + WithEnqueuer(s.enqueuer)
  {
    InitialInvariant();
    InvariantHoldsThroughout(INITIAL, actions);
    AllTaken(INITIAL, actions);
    assert Taken(INITIAL) == [] && [] + Arrived(actions) == Arrived(actions);
  }

  /** Every chunk that arrived was admitted, in order of arrival, but for the one in the enqueuer's hands. */
  ghost predicate AllAdmitted(s: State) {
    Ids(s.log.admitted) + (if s.enqueuer.Idle? then [] else [s.enqueuer.c.id]) == Upto(s.log.next)
  }

  ghost function Upto(n: nat): seq<nat> {
    seq(n, (i: nat) => i)
  }

  lemma {:induction false} EnqueuerAdmits(s: State, a: EnqueueAct)
    requires IsOpen(s) && EnqueueEnabled(s, a) && AllAdmitted(s)
    ensures AllAdmitted(Enqueued(s, a))
  {
    if a.Sends? {
      IdsSnoc(s.log.admitted, s.enqueuer.c);
      assert Ids(Enqueued(s, a).log.admitted) + [] == Ids(s.log.admitted) + [s.enqueuer.c.id];
    } else if a.Arrive? {
      assert Upto(s.log.next + 1) == Upto(s.log.next) + [s.log.next];
    }
  }

  lemma {:induction false} StepAdmits(s: State, a: Action)
    requires IsOpen(s) && Enabled(s, a) && !a.Close? && AllAdmitted(s)
    ensures AllAdmitted(Apply(s, a))
  {
    if a.Enqueue? {
      EnqueuerAdmits(s, a.e);
    } else {
      var s' := Apply(s, a);
      assert s'.log.admitted == s.log.admitted && s'.enqueuer == s.enqueuer && s'.log.next == s.log.next;
    }
  }

  lemma {:induction false} AdmitsThroughout(s: State, actions: seq<Action>)
    requires IsOpen(s) && Run(s, actions) && StaysOpen(actions) && AllAdmitted(s)
    ensures AllAdmitted(Final(s, actions))
    decreases |actions|
  {
    if actions != [] {
      StepTakes(s, actions[0]);
      StepAdmits(s, actions[0]);
      AdmitsThroughout(Apply(s, actions[0]), actions[1..]);
    }
  }

  lemma {:induction false} ReturnedWasAdmitted(actions: seq<Action>, id: nat)
    requires Run(INITIAL, actions) && StaysOpen(actions) && id in Final(INITIAL, actions).log.returned
    ensures id in Ids(Final(INITIAL, actions).log.admitted)
  {
    InitialInvariant();
    InvariantHoldsThroughout(INITIAL, actions);
    AdmitsThroughout(INITIAL, actions);
    var s := Final(INITIAL, actions);
    var taken := Ids(s.log.admitted) + (if s.enqueuer.Idle? then [] else [s.enqueuer.c.id]);
    TimesIn(s.log.returned, id);
    assert Places(s, id) == One(id < s.log.next);
    assert taken[id] == id;
  }

  /** A chunk given back without having been admitted means that the stream was closed or the session ended. */
  lemma {:induction false} RefusedOnlyAfterClose(actions: seq<Action>, id: nat)
    requires Run(INITIAL, actions)
    requires var s := Final(INITIAL, actions); id in s.log.returned && id !in Ids(s.log.admitted)
    ensures exists i :: 0 <= i < |actions| && actions[i].Close?
  {
    if StaysOpen(actions) {
      ReturnedWasAdmitted(actions, id);
    }
  }

  lemma {:induction false} TimesIn(s: seq<nat>, x: nat)
    requires x in s
    ensures Times(s, x) > 0
  {
    if s[0] != x {
      TimesIn(s[1..], x);
    }
  }

  /** How much a reader has to do until it has handed out everything ahead of it. */
  ghost function ReadWork(s: State): nat {
    10 * |s.inbound| + (if s.read.buf != [] then 6 else 0)
    + match s.read.reader
      case Out => 5
      case Trying => 3
      case LoadClosed => 2
      case Waiting => 1
      case Got(_) => 8
      case _ => 0
  }

  ghost function NextRead(s: State): ReadAct {
    match s.read.reader
    case Out => Locks
    case Trying => Tries
    case LoadClosed => SeesClosed
    case Got(_) => Uses
    case Copying => Copies(|s.read.buf|)
    case _ => Receives
  }

  ghost predicate AllRead(s: State) {
    s.inbound == [] && s.read.buf == [] && !s.read.reader.Got?
  }

  lemma {:induction false} ReadWorkGoesDown(s: State)
    requires IsOpen(s) && Locked(s.read, s.closers) && Sealed(s) && !AllRead(s)
    ensures ReadEnabled(s, NextRead(s)) && ReadWork(Reading(s, NextRead(s))) < ReadWork(s)
  {
  }

  lemma {:induction false} RestCanBeRead(s: State) returns (more: seq<Action>)
    requires IsOpen(s) && Invariant(s)
    ensures Run(s, more) && forall i :: 0 <= i < |more| ==> more[i].Read?
    ensures var t := Final(s, more); t.log.admitted == s.log.admitted && t.log.delivered == DataOf(s.log.admitted)
    decreases ReadWork(s)
  {
    if AllRead(s) {
      more := [];
      assert Ahead(s) == [];
    } else {
      var a := Read(NextRead(s));
      ReadWorkGoesDown(s);
      StepTakes(s, a);
      StepKeepsLocks(s, a);
      StepKeepsStreamed(s, a);
      StepConserves(s, a);
      var rest := RestCanBeRead(Apply(s, a));
      more := [a] + rest;
      assert more[1..] == rest;
    }
  }

  /** While nobody closes, a reader alone can always read everything admitted so far. */
  lemma {:induction false} CanAlwaysRead(actions: seq<Action>) returns (more: seq<Action>)
    requires Run(INITIAL, actions) && StaysOpen(actions)
    ensures var s := Final(INITIAL, actions);
            && Run(s, more) && (forall i :: 0 <= i < |more| ==> more[i].Read?)
            && Final(s, more).log.delivered == DataOf(s.log.admitted)
  {
    InitialInvariant();
    InvariantHoldsThroughout(INITIAL, actions);
    AllTaken(INITIAL, actions);
    more := RestCanBeRead(Final(INITIAL, actions));
  }

  // --- after a close --------------------------------------------------------------------------------

  /** The stream is closed or the session over, and no chunk is past the checks. */
  ghost predicate Refusing(s: State) {
    && (s.flags.closed || s.flags.sessionDone)
    && !s.enqueuer.Selecting? && (s.enqueuer.NotClosed? ==> s.flags.sessionDone)
  }

  lemma {:induction false} StepRefuses(s: State, a: Action)
    requires Refusing(s) && Enabled(s, a)
    ensures Refusing(Apply(s, a)) && Apply(s, a).log.admitted == s.log.admitted
  {
  }

  lemma {:induction false} RefusesThroughout(s: State, actions: seq<Action>)
    requires Refusing(s) && Run(s, actions)
    ensures Final(s, actions).log.admitted == s.log.admitted
    decreases |actions|
  {
    if actions != [] {
      StepRefuses(s, actions[0]);
      RefusesThroughout(Apply(s, actions[0]), actions[1..]);
    }
  }

  /** A chunk that arrives after the close or the session's end is never admitted, whatever happens next. */
  lemma {:induction false} NothingAdmittedAfterClose(before: seq<Action>, after: seq<Action>)
    requires Run(INITIAL, before)
    requires var s := Final(INITIAL, before); (s.flags.closed || s.flags.sessionDone) && s.enqueuer.Idle? && Run(s, after)
    ensures Final(Final(INITIAL, before), after).log.admitted == Final(INITIAL, before).log.admitted
  {
    RefusesThroughout(Final(INITIAL, before), after);
  }

  /** At most 16 chunks wait. */
  lemma {:induction false} QueueIsBounded(s: State, actions: seq<Action>)
    requires |s.inbound| <= 16 && Run(s, actions)
    ensures |Final(s, actions).inbound| <= 16
    decreases |actions|
  {
    if actions != [] {
      QueueIsBounded(Apply(s, actions[0]), actions[1..]);
    }
  }
}
