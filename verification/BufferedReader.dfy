/**
 The lifecycle of the pooled read buffer in netproxy/buffered_reader.go, for any
 number of goroutines: every section under mu is one step, and so is each call
 into the reader, which happens outside it.
 */
module BufferedReader {
  import opened Bytes

  type Thread = nat

  /** Errors that end the read side, as IsTerminalReadErr classifies them. */
  datatype Terminal = Eof | ErrClosed | Canceled

  /** A Read after it raised the count; a panic leaves reader.Read like a non-terminal error. */
  datatype Phase =
    | Inside                          // inside reader.Read
    | Returned(err: Option<Terminal>) // about to record a terminal error
    | Exiting                         // about to run exitRead

  datatype State = State(
    flight: map<Thread, Phase>,
    readers: int,
    released: bool,
    termErr: Option<Terminal>,
    buffered: nat,
    puts: nat,         // how often the buffer went back to the pool
    misused: bool)     // somebody touched the reader after that

  datatype Action =
    | Enter(t: Thread)
    | ReaderMoves(t: Thread, buffered: nat)                         // reader.Read changes its window
    | ReaderReturns(t: Thread, err: Option<Terminal>, buffered: nat)
    | Record(t: Thread)
    | Exit(t: Thread)
    | Close
    | ReadBuffered

  ghost predicate Enabled(s: State, a: Action) {
    match a
    case Enter(t) => t !in s.flight
    case ReaderMoves(t, _) => t in s.flight && s.flight[t].Inside?
    case ReaderReturns(t, _, _) => t in s.flight && s.flight[t].Inside?
    case Record(t) => t in s.flight && s.flight[t].Returned?
    case Exit(t) => t in s.flight && s.flight[t].Exiting?
    case Close => true
    case ReadBuffered => true
  }

  /** releaseIfDrainedLocked. */
  ghost function Gate(s: State): State {
    if s.released || s.readers != 0 || s.termErr.None? || s.buffered != 0 then s
    else s.(released := true, puts := s.puts + 1)
  }

  ghost function Apply(s: State, a: Action): State
    requires Enabled(s, a)
  {
    match a
    case Enter(t) => if s.released then s else s.(readers := s.readers + 1, flight := s.flight[t := Inside])
    case ReaderMoves(_, n) => s.(buffered := n, misused := s.misused || s.released)
    case ReaderReturns(t, err, n) =>
      s.(buffered := n, misused := s.misused || s.released, flight := s.flight[t := Returned(err)])
    case Record(t) =>
      s.(termErr := if s.termErr.None? then s.flight[t].err else s.termErr, flight := s.flight[t := Exiting])
    case Exit(t) => Gate(s.(readers := s.readers - 1, flight := s.flight - {t}))
    case Close => Gate(s.(termErr := if s.termErr.None? then Some(ErrClosed) else s.termErr))
    case ReadBuffered => if s.released || s.readers != 0 then s else s.(misused := s.misused || s.released)
  }

  ghost const INITIAL: State := State(map[], 0, false, None, 0, 0, false)

  ghost predicate Run(s: State, actions: seq<Action>)
    decreases |actions|
  {
    actions == [] || (Enabled(s, actions[0]) && Run(Apply(s, actions[0]), actions[1..]))
  }

  ghost function Final(s: State, actions: seq<Action>): State
    requires Run(s, actions)
    decreases |actions|
  {
    if actions == [] then s else Final(Apply(s, actions[0]), actions[1..])
  }

  /** Released exactly when the stream is over, nobody reads and nothing is buffered. */
  ghost predicate Invariant(s: State) {
    && s.readers == |s.flight|
    && (s.released <==> s.termErr.Some? && s.flight == map[] && s.buffered == 0)
    && s.puts == (if s.released then 1 else 0)
    && !s.misused
  }

  lemma {:induction false} CountAfterEnter(flight: map<Thread, Phase>, t: Thread, p: Phase)
    ensures |flight[t := p]| == |flight| + if t in flight then 0 else 1
  {
    if t in flight {
      assert flight[t := p].Keys == flight.Keys;
    } else {
      assert flight[t := p].Keys == flight.Keys + {t};
    }
    assert |flight| == |flight.Keys| && |flight[t := p]| == |flight[t := p].Keys|;
  }

  lemma {:induction false} CountAfterExit(flight: map<Thread, Phase>, t: Thread)
    requires t in flight
    ensures |flight - {t}| == |flight| - 1
  {
    assert (flight - {t}).Keys == flight.Keys - {t};
    assert |flight| == |flight.Keys| && |flight - {t}| == |(flight - {t}).Keys|;
  }

  lemma {:induction false} NoneInFlight(flight: map<Thread, Phase>)
    ensures |flight| == 0 <==> flight == map[]
  {
    assert |flight| == |flight.Keys|;
    if |flight| == 0 {
      assert flight.Keys == {};
    }
  }

  lemma {:induction false} StepKeepsInvariant(s: State, a: Action)
    requires Invariant(s) && Enabled(s, a)
    ensures Invariant(Apply(s, a))
  {
    var s' := Apply(s, a);
    NoneInFlight(s.flight);
    NoneInFlight(s'.flight);
    match a
    case Enter(t) => CountAfterEnter(s.flight, t, Inside);
    case ReaderReturns(t, err, _) => CountAfterEnter(s.flight, t, Returned(err));
    case Record(t) => CountAfterEnter(s.flight, t, Exiting);
    case Exit(t) => CountAfterExit(s.flight, t);
    case _ =>
  }

  lemma {:induction false} InvariantHoldsThroughout(s: State, actions: seq<Action>)
    requires Invariant(s) && Run(s, actions)
    ensures Invariant(Final(s, actions))
    decreases |actions|
  {
    if actions != [] {
      StepKeepsInvariant(s, actions[0]);
      InvariantHoldsThroughout(Apply(s, actions[0]), actions[1..]);
    }
  }

  /**
   In every interleaving of readers and closers the buffer is in the pool exactly
   when the read side is over, no read is in flight and no readable byte is
   buffered; it went there at most once, and nobody touched the reader afterwards.
   */
  lemma {:induction false} ReleasedExactlyWhenDone(actions: seq<Action>)
    requires Run(INITIAL, actions)
    ensures var s := Final(INITIAL, actions);
            && (s.released <==> s.termErr.Some? && s.flight == map[] && s.buffered == 0)
            && s.puts == (if s.released then 1 else 0)
            && !s.misused
  {
    InvariantHoldsThroughout(INITIAL, actions);
  }

  /** A release is final, and so is the first terminal error: later reads keep reporting it. */
  lemma {:induction false} ReleaseIsFinal(s: State, actions: seq<Action>)
    requires Invariant(s) && Run(s, actions)
    ensures s.termErr.Some? ==> Final(s, actions).termErr == s.termErr
    ensures s.released ==> Final(s, actions).released && Final(s, actions).puts == s.puts
    decreases |actions|
  {
    if actions != [] {
      StepKeepsInvariant(s, actions[0]);
      ReleaseIsFinal(Apply(s, actions[0]), actions[1..]);
    }
  }

  /** The first error a run records: that of a Read which returned one, or of a Close. */
  ghost function FirstError(s: State, actions: seq<Action>): Option<Terminal>
    requires Run(s, actions)
    decreases |actions|
  {
    if actions == [] then None
    else if actions[0].Close? then Some(ErrClosed)
    else if actions[0].Record? && s.flight[actions[0].t].err.Some? then s.flight[actions[0].t].err
    else FirstError(Apply(s, actions[0]), actions[1..])
  }

  lemma {:induction false} ErrorIsFirst(s: State, actions: seq<Action>)
    requires Run(s, actions)
    ensures Final(s, actions).termErr == if s.termErr.Some? then s.termErr else FirstError(s, actions)
    decreases |actions|
  {
    if actions != [] {
      ErrorIsFirst(Apply(s, actions[0]), actions[1..]);
    }
  }

  /**
   The terminal error is the first one recorded; and after any run a Read of a new thread is
   let in if and only if there is none yet, or another Read is in flight, or bytes are left.
   */
  lemma {:induction false} LetInUntilDone(actions: seq<Action>, t: Thread)
    requires Run(INITIAL, actions) && t !in Final(INITIAL, actions).flight
    ensures var s := Final(INITIAL, actions);
            && s.termErr == FirstError(INITIAL, actions)
            && Run(s, [Enter(t)])
            && (t in Final(s, [Enter(t)]).flight <==>
                  FirstError(INITIAL, actions).None? || s.flight != map[] || s.buffered > 0)
  {
    InvariantHoldsThroughout(INITIAL, actions);
    ErrorIsFirst(INITIAL, actions);
    var s := Final(INITIAL, actions);
    assert [Enter(t)][1..] == [];
    assert Final(s, [Enter(t)]) == Apply(s, Enter(t));
  }
}
