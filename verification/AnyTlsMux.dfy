/**
 What arrives over an AnyTLS connection is what was written: any interleaving of
 locked writes, under any padding, parses back to the frames written, and each
 stream gets its own bytes in order. Also the session's own parse loop.
 */
module AnyTlsMux {
  import opened Bytes
  import opened AnyTlsWire
  import opened Cutting

  /** One locked write: its frames, and the waste its padding rules added. */
  datatype Burst = Burst(frames: seq<Frame>, lens: seq<nat>)

  ghost predicate ValidBurst(b: Burst) {
    AllEncodable(b.frames) && SmallLens(b.lens) && forall i :: 0 <= i < |b.frames| ==> b.frames[i].cmd != CMD_WASTE
  }

  ghost predicate ValidBursts(h: seq<Burst>) {
    forall i :: 0 <= i < |h| ==> ValidBurst(h[i])
  }

  /** The bytes on the connection. */
  ghost function WireOf(h: seq<Burst>): seq<Byte>
    requires ValidBursts(h)
  {
    if h == [] then [] else EncodeAll(h[0].frames) + WasteBytes(h[0].lens) + WireOf(h[1..])
  }

  /** The frames written, in the order the lock was taken. */
  ghost function FramesOf(h: seq<Burst>): seq<Frame> {
    if h == [] then [] else h[0].frames + FramesOf(h[1..])
  }

  function NoWaste(frames: seq<Frame>): seq<Frame> {
    if frames == [] then []
    else (if frames[0].cmd == CMD_WASTE then [] else [frames[0]]) + NoWaste(frames[1..])
  }

  lemma {:induction false} NoWasteAppend(a: seq<Frame>, b: seq<Frame>)
    ensures NoWaste(a + b) == NoWaste(a) + NoWaste(b)
  {
    if a == [] {
      assert a + b == b;
    } else {
      assert (a + b)[1..] == a[1..] + b;
      NoWasteAppend(a[1..], b);
    }
  }

  lemma {:induction false} NoWasteKeeps(frames: seq<Frame>)
    requires forall i :: 0 <= i < |frames| ==> frames[i].cmd != CMD_WASTE
    ensures NoWaste(frames) == frames
  {
    if frames != [] {
      NoWasteKeeps(frames[1..]);
    }
  }

  lemma {:induction false} NoWasteDrops(frames: seq<Frame>)
    requires forall i :: 0 <= i < |frames| ==> frames[i].cmd == CMD_WASTE
    ensures NoWaste(frames) == []
  {
    if frames != [] {
      NoWasteDrops(frames[1..]);
    }
  }

  lemma {:induction false} FramesReadBack(frames: seq<Frame>, rest: seq<Byte>, wire: seq<Byte>)
    requires AllEncodable(frames) && wire == EncodeAll(frames) + rest
    ensures NoWaste(ReadAll(wire)) == NoWaste(frames) + NoWaste(ReadAll(rest))
  {
    ReadUndoesEncodeAll(frames, rest, wire);
    NoWasteAppend(frames, ReadAll(rest));
  }

  /** One burst at the front of the wire. */
  lemma {:induction false} BurstReadsBack(b: Burst, rest: seq<Byte>, wire: seq<Byte>)
    requires ValidBurst(b) && wire == EncodeAll(b.frames) + WasteBytes(b.lens) + rest
    ensures NoWaste(ReadAll(wire)) == b.frames + NoWaste(ReadAll(rest))
  {
    var waste, tail := WasteBytes(b.lens), WasteBytes(b.lens) + rest;
    Regrouped(EncodeAll(b.frames), waste, rest);
    FramesReadBack(b.frames, tail, wire);
    NoWasteKeeps(b.frames);
    WasteReadsBack(b.lens, rest, tail);
  }

  lemma {:induction false} WasteReadsBack(lens: seq<nat>, rest: seq<Byte>, wire: seq<Byte>)
    requires SmallLens(lens) && wire == WasteBytes(lens) + rest
    ensures NoWaste(ReadAll(wire)) == NoWaste(ReadAll(rest))
  {
    WasteEncodable(lens);
    FramesReadBack(Wastes(lens), rest, wire);
    NoWasteDrops(Wastes(lens));
  }

  /** Parsing the wire and dropping waste frames gives exactly the frames written. */
  lemma {:induction false} WireCarriesFrames(h: seq<Burst>)
    requires ValidBursts(h)
    ensures NoWaste(ReadAll(WireOf(h))) == FramesOf(h)
  {
    if h != [] {
      WireCarriesFrames(h[1..]);
      BurstReadsBack(h[0], WireOf(h[1..]), WireOf(h));
    }
  }

  // --- streams -----------------------------------------------------------------------------

  /** The data pushed to one stream. */
  function PshOf(sid: U32, frames: seq<Frame>): seq<Byte> {
    if frames == [] then []
    else (if frames[0].cmd == CMD_PSH && frames[0].sid == sid then frames[0].data else []) + PshOf(sid, frames[1..])
  }

  lemma {:induction false} PshOfAppend(sid: U32, a: seq<Frame>, b: seq<Frame>)
    ensures PshOf(sid, a + b) == PshOf(sid, a) + PshOf(sid, b)
  {
    if a == [] {
      assert a + b == b;
    } else {
      assert (a + b)[1..] == a[1..] + b;
      PshOfAppend(sid, a[1..], b);
    }
  }

  lemma {:induction false} FramesOfSnoc(h: seq<Burst>, b: Burst)
    ensures FramesOf(h + [b]) == FramesOf(h) + b.frames
  {
    if h == [] {
      assert h + [b] == [b] && [b][1..] == [];
    } else {
      assert (h + [b])[1..] == h[1..] + [b];
      FramesOfSnoc(h[1..], b);
    }
  }

  /** One PSH frame for each piece. */
  function PshFrames(sid: U32, pieces: seq<seq<Byte>>): (fs: seq<Frame>)
    requires forall k :: 0 <= k < |pieces| ==> |pieces[k]| <= MAX_PAYLOAD
    ensures forall k :: 0 <= k < |fs| ==> Encodable(fs[k]) && fs[k].cmd == CMD_PSH && fs[k].sid == sid
  {
    if pieces == [] then [] else [Frame(CMD_PSH, sid, pieces[0])] + PshFrames(sid, pieces[1..])
  }

  lemma {:induction false} PshFramesCarry(sid: U32, pieces: seq<seq<Byte>>, other: U32)
    requires forall k :: 0 <= k < |pieces| ==> |pieces[k]| <= MAX_PAYLOAD
    ensures PshOf(other, PshFrames(sid, pieces)) == if other == sid then Flatten(pieces) else []
  {
    if pieces != [] {
      PshFramesCarry(sid, pieces[1..], other);
    }
  }

  /** The PSH frames of one stream's data from byte `i` on, cut at the payload limit. */
  function DataFrames(sid: U32, data: seq<Byte>, i: nat): (fs: seq<Frame>)
    requires i <= |data|
    ensures forall k :: 0 <= k < |fs| ==> Encodable(fs[k]) && fs[k].cmd == CMD_PSH && fs[k].sid == sid
  {
    PshFrames(sid, Pieces(data, MAX_PAYLOAD, i))
  }

  lemma {:induction false} DataFramesCarry(sid: U32, data: seq<Byte>, other: U32)
    ensures PshOf(other, DataFrames(sid, data, 0)) == if other == sid then data else []
  {
    PshFramesCarry(sid, Pieces(data, MAX_PAYLOAD, 0), other);
    PiecesJoin(data, MAX_PAYLOAD, 0);
    assert data[0..] == data;
  }

  lemma {:induction false} FirstDataFrame(sid: U32, data: seq<Byte>, i: nat, end: nat)
    requires i < |data| && end == i + Min(MAX_PAYLOAD, |data| - i)
    ensures DataFrames(sid, data, i) == [Frame(CMD_PSH, sid, data[i..end])] + DataFrames(sid, data, end)
  {
    FirstPiece(data, MAX_PAYLOAD, i, end - i);
    var later := Pieces(data, MAX_PAYLOAD, end);
    assert ([data[i..end]] + later)[1..] == later;
  }

  /** What a batch of datagrams is written as. */
  function BatchFrames(sid: U32, datas: seq<seq<Byte>>): (fs: seq<Frame>)
    ensures forall k :: 0 <= k < |fs| ==> Encodable(fs[k]) && fs[k].cmd == CMD_PSH && fs[k].sid == sid
  {
    if datas == [] then [] else DataFrames(sid, datas[0], 0) + BatchFrames(sid, datas[1..])
  }

  lemma {:induction false} BatchFramesCarry(sid: U32, datas: seq<seq<Byte>>, other: U32)
    ensures PshOf(other, BatchFrames(sid, datas)) == if other == sid then Flatten(datas) else []
  {
    if datas != [] {
      BatchFramesCarry(sid, datas[1..], other);
      DataFramesCarry(sid, datas[0], other);
      PshOfAppend(other, DataFrames(sid, datas[0], 0), BatchFrames(sid, datas[1..]));
    }
  }

  // --- interleaved writers ----------------------------------------------------------------------

  /** `pending` is what a stream's current Write has still to send, `written` everything given to it so far. */
  datatype State = State(history: seq<Burst>, pending: map<U32, seq<Byte>>, written: map<U32, seq<Byte>>)

  datatype Action =
    | StartWrite(sid: U32, data: seq<Byte>)
    | SendPiece(sid: U32, lens: seq<nat>)                              // one frame of a Write
    | SendBatch(sid: U32, datas: seq<seq<Byte>>, lens: seq<nat>)       // a WriteBatch
    | SendControl(frames: seq<Frame>, lens: seq<nat>)                  // SYN, FIN, settings, heartbeats

  ghost function Of(m: map<U32, seq<Byte>>, sid: U32): seq<Byte> {
    if sid in m then m[sid] else []
  }

  ghost predicate Enabled(s: State, a: Action) {
    match a
    case StartWrite(sid, _) => Of(s.pending, sid) == []      // a stream's writes are serialized
    case SendPiece(sid, lens) => Of(s.pending, sid) != [] && SmallLens(lens)
    case SendBatch(sid, _, lens) => Of(s.pending, sid) == [] && SmallLens(lens)
    case SendControl(frames, lens) =>
      ValidBurst(Burst(frames, lens)) && forall i :: 0 <= i < |frames| ==> frames[i].cmd != CMD_PSH
  }

  function PieceLen(data: seq<Byte>): nat {
    Min(MAX_PAYLOAD, |data|)
  }

  ghost function Apply(s: State, a: Action): State
    requires Enabled(s, a)
  {
    match a
    case StartWrite(sid, data) =>
      s.(pending := s.pending[sid := data], written := s.written[sid := Of(s.written, sid) + data])
    case SendPiece(sid, lens) =>
      var data := s.pending[sid];
      s.(history := s.history + [Burst([Frame(CMD_PSH, sid, data[..PieceLen(data)])], lens)],
         pending := s.pending[sid := data[PieceLen(data)..]])
    case SendBatch(sid, datas, lens) =>
      var frames := BatchFrames(sid, datas);                 // nothing is written for no frames
      s.(history := if frames == [] then s.history else s.history + [Burst(frames, lens)],
         written := s.written[sid := Of(s.written, sid) + Flatten(datas)])
    case SendControl(frames, lens) => s.(history := s.history + [Burst(frames, lens)])
  }

  ghost const INITIAL: State := State([], map[], map[])

  ghost predicate Run(s: State, actions: seq<Action>)
    decreases |actions|
  {
    actions == [] || (Enabled(s, actions[0]) && Run(Apply(s, actions[0]), actions[1..]))
  }

  ghost function Final(s: State, actions: seq<Action>): State
    requires Run(s, actions)
    decreases |actions|
  {
    if actions == [] then s else Final(Apply(s, actions[0]), actions[1..])
  }

  ghost predicate Invariant(s: State) {
    && ValidBursts(s.history)
    && forall sid: U32 :: Carried(s, sid)
  }

  lemma {:induction false} NoPsh(sid: U32, frames: seq<Frame>)
    requires forall i :: 0 <= i < |frames| ==> frames[i].cmd != CMD_PSH
    ensures PshOf(sid, frames) == []
  {
    if frames != [] {
      NoPsh(sid, frames[1..]);
    }
  }

  /** What one more burst adds to a stream. */
  lemma {:induction false} BurstAdds(h: seq<Burst>, b: Burst, sid: U32)
    ensures PshOf(sid, FramesOf(h + [b])) == PshOf(sid, FramesOf(h)) + PshOf(sid, b.frames)
  {
    FramesOfSnoc(h, b);
    PshOfAppend(sid, FramesOf(h), b.frames);
  }

  /** What one more frame adds to a stream. */
  lemma {:induction false} FrameAdds(h: seq<Burst>, f: Frame, lens: seq<nat>, sid: U32)
    requires f.cmd == CMD_PSH
    ensures PshOf(sid, FramesOf(h + [Burst([f], lens)]))
         == PshOf(sid, FramesOf(h)) + if f.sid == sid then f.data else []
  {
    BurstAdds(h, Burst([f], lens), sid);
    assert PshOf(sid, [f][1..]) == [];
  }

  /** Sent, to be sent and written so far agree. */
  ghost predicate Carried(s: State, sid: U32) {
    PshOf(sid, FramesOf(s.history)) + Of(s.pending, sid) == Of(s.written, sid)
  }

  lemma {:induction false} StartCarries(s: State, w: U32, data: seq<Byte>, sid: U32)
    requires Enabled(s, StartWrite(w, data)) && Carried(s, sid)
    ensures Carried(Apply(s, StartWrite(w, data)), sid)
  {
    if w == sid {
      var before := PshOf(sid, FramesOf(s.history));
      assert before + [] == before;
    }
  }

  lemma {:induction false} PieceCarries(s: State, w: U32, lens: seq<nat>, sid: U32)
    requires Enabled(s, SendPiece(w, lens)) && Carried(s, sid)
    ensures Carried(Apply(s, SendPiece(w, lens)), sid)
  {
    var data := s.pending[w];
    var now, later := data[..PieceLen(data)], data[PieceLen(data)..];
    var before := PshOf(sid, FramesOf(s.history));
    FrameAdds(s.history, Frame(CMD_PSH, w, now), lens, sid);
    if w == sid {
      assert data == now + later;
      Regrouped(before, now, later);
    } else {
      assert before + [] == before;
    }
  }

  lemma {:induction false} BatchCarries(s: State, w: U32, datas: seq<seq<Byte>>, lens: seq<nat>, sid: U32)
    requires Enabled(s, SendBatch(w, datas, lens)) && Carried(s, sid)
    ensures Carried(Apply(s, SendBatch(w, datas, lens)), sid)
  {
    var before, all := PshOf(sid, FramesOf(s.history)), Flatten(datas);
    BatchFramesCarry(w, datas, sid);
    if BatchFrames(w, datas) != [] {
      BurstAdds(s.history, Burst(BatchFrames(w, datas), lens), sid);
    }
    if w == sid {
      assert before + [] == before && before + all + [] == before + all;
    } else {
      assert before + [] == before;
    }
  }

  lemma {:induction false} ControlCarries(s: State, frames: seq<Frame>, lens: seq<nat>, sid: U32)
    requires Enabled(s, SendControl(frames, lens)) && Carried(s, sid)
    ensures Carried(Apply(s, SendControl(frames, lens)), sid)
  {
    var before := PshOf(sid, FramesOf(s.history));
    BurstAdds(s.history, Burst(frames, lens), sid);
    NoPsh(sid, frames);
    assert before + [] == before;
  }

  lemma {:induction false} StepCarries(s: State, a: Action, sid: U32)
    requires Enabled(s, a) && Carried(s, sid)
    ensures Carried(Apply(s, a), sid)
  {
    match a
    case StartWrite(w, data) => StartCarries(s, w, data, sid);
    case SendPiece(w, lens) => PieceCarries(s, w, lens, sid);
    case SendBatch(w, datas, lens) => BatchCarries(s, w, datas, lens, sid);
    case SendControl(frames, lens) => ControlCarries(s, frames, lens, sid);
  }

  lemma {:induction false} StepKeepsInvariant(s: State, a: Action)
    requires Invariant(s) && Enabled(s, a)
    ensures Invariant(Apply(s, a))
  {
    var s' := Apply(s, a);
    forall sid: U32 ensures Carried(s', sid) {
      StepCarries(s, a, sid);
    }
  }

  lemma {:induction false} InvariantHoldsThroughout(s: State, actions: seq<Action>)
    requires Invariant(s) && Run(s, actions)
    ensures Invariant(Final(s, actions))
    decreases |actions|
  {
    if actions != [] {
      StepKeepsInvariant(s, actions[0]);
      InvariantHoldsThroughout(Apply(s, actions[0]), actions[1..]);
    }
  }

  /** What one action gives stream `sid` to send. */
  ghost function GivenBy(sid: U32, a: Action): seq<Byte> {
    if a.StartWrite? && a.sid == sid then a.data
    else if a.SendBatch? && a.sid == sid then Flatten(a.datas)
    else []
  }

  /** Everything the calls of a run gave stream `sid` to send, in order. */
  ghost function Given(sid: U32, actions: seq<Action>): seq<Byte> {
    if actions == [] then [] else GivenBy(sid, actions[0]) + Given(sid, actions[1..])
  }

  lemma {:induction false} WrittenIsGiven(s: State, actions: seq<Action>, sid: U32)
    requires Run(s, actions)
    ensures Of(Final(s, actions).written, sid) == Of(s.written, sid) + Given(sid, actions)
    decreases |actions|
  {
    if actions == [] {
      assert Of(s.written, sid) + [] == Of(s.written, sid);
    } else {
      var a := actions[0];
      WrittenIsGiven(Apply(s, a), actions[1..], sid);
      assert Of(Apply(s, a).written, sid) == Of(s.written, sid) + GivenBy(sid, a);
      Regrouped(Of(s.written, sid), GivenBy(sid, a), Given(sid, actions[1..]));
    }
  }

  /**
   However the writes of all streams interleave and whatever padding each is given,
   the bytes parse back so that each stream has received what was written to it, up
   to what its current Write has still to send.
   */
  lemma {:induction false} StreamsAreCarried(actions: seq<Action>, sid: U32)
    requires Run(INITIAL, actions)
    ensures var s := Final(INITIAL, actions);
            && ValidBursts(s.history)
            && PshOf(sid, NoWaste(ReadAll(WireOf(s.history)))) + Of(s.pending, sid) == Given(sid, actions)
  {
    InvariantHoldsThroughout(INITIAL, actions);
    WrittenIsGiven(INITIAL, actions, sid);
    assert Carried(Final(INITIAL, actions), sid);
    assert [] + Given(sid, actions) == Given(sid, actions);
    WireCarriesFrames(Final(INITIAL, actions).history);
  }

  /** A Write in progress can always be finished, by its own frames alone. */
  lemma {:induction false} CanAlwaysFinish(s: State, sid: U32) returns (more: seq<Action>)
    ensures Run(s, more) && Of(Final(s, more).pending, sid) == []
    ensures forall i :: 0 <= i < |more| ==> more[i] == SendPiece(sid, [])
    decreases |Of(s.pending, sid)|
  {
    more := [];
    if Of(s.pending, sid) != [] {
      var a := SendPiece(sid, []);
      var rest := CanAlwaysFinish(Apply(s, a), sid);
      more := [a] + rest;
      assert more[1..] == rest;
    }
  }

  lemma {:induction false} WireOfSnoc(h: seq<Burst>, b: Burst)
    requires ValidBursts(h) && ValidBurst(b)
    ensures ValidBursts(h + [b]) && WireOf(h + [b]) == WireOf(h) + (EncodeAll(b.frames) + WasteBytes(b.lens))
  {
    var last := EncodeAll(b.frames) + WasteBytes(b.lens);
    if h == [] {
      assert h + [b] == [b] && [b][1..] == [];
      assert last + [] == [] + last;
    } else {
      assert (h + [b])[1..] == h[1..] + [b];
      WireOfSnoc(h[1..], b);
      Regrouped(EncodeAll(h[0].frames) + WasteBytes(h[0].lens), WireOf(h[1..]), last);
    }
  }

  /** One locked write per frame, from padding state `p` on; `rule(k)` is the padding in force for the k-th. */
  function Bursts(p: PadState, frames: seq<Frame>, rule: nat -> Padding, k: nat): seq<Burst>
    requires AllEncodable(frames) && forall i: nat :: ValidSizes(rule(i).sizes)
    decreases |frames|
  {
    if frames == [] then []
    else [OneBurst(p, frames[0], rule(k))] + Bursts(AfterWrite(p, rule(k)), frames[1..], rule, k + 1)
  }

  function OneBurst(p: PadState, f: Frame, padding: Padding): Burst
    requires Encodable(f) && ValidSizes(padding.sizes)
  {
    Burst([f], WasteFor(p, HEADER_SIZE + |f.data|, padding))
  }

  lemma {:induction false} BurstMoves(h: seq<Burst>, p: PadState, f: Frame, later: seq<Frame>, rule: nat -> Padding, k: nat)
    requires Encodable(f) && AllEncodable(later) && forall i: nat :: ValidSizes(rule(i).sizes)
    ensures AllEncodable([f] + later)
    ensures h + Bursts(p, [f] + later, rule, k)
         == h + [OneBurst(p, f, rule(k))] + Bursts(AfterWrite(p, rule(k)), later, rule, k + 1)
  {
    assert ([f] + later)[1..] == later && ([f] + later)[0] == f;
    var rest := Bursts(AfterWrite(p, rule(k)), later, rule, k + 1);
    assert h + ([OneBurst(p, f, rule(k))] + rest) == h + [OneBurst(p, f, rule(k))] + rest;
  }

  /**
   A stream's Write with nobody else writing: one locked write per frame. `rule` gives
   the padding in force for each. Returns how much was accepted.
   */
  method WriteDataFrames(s: Session, sid: U32, data: seq<Byte>, rule: nat -> Padding)
    returns (written: nat, err: Option<WriteError>, ghost h: seq<Burst>)
    requires forall k: nat :: ValidSizes(rule(k).sizes)
    modifies s`records, s`sendPadding, s`pktCounter
    ensures ValidBursts(h) && s.Wire() == old(s.Wire()) + WireOf(h)
    ensures if s.closed && data != [] then written == 0 && err == Some(Closed) && h == []
            else written == |data| && err == None && h == Bursts(old(s.Padded()), DataFrames(sid, data, 0), rule, 0)
    ensures FramesOf(h) == if s.closed then [] else DataFrames(sid, data, 0)
  {
    written, err, h := 0, None, [];
    var k: nat := 0;
    ghost var all := Bursts(s.Padded(), DataFrames(sid, data, 0), rule, 0);
    assert s.Wire() == s.Wire() + [];
    while written < |data|
      invariant written <= |data| && (s.closed ==> written == 0) && err == None
      invariant ValidBursts(h) && s.Wire() == old(s.Wire()) + WireOf(h) && (written == 0 ==> h == [])
      invariant h + Bursts(s.Padded(), DataFrames(sid, data, written), rule, k) == all
    {
      var end := if |data| - written > MAX_PAYLOAD then written + MAX_PAYLOAD else |data|;
      var frame := Frame(CMD_PSH, sid, data[written..end]);
      FirstDataFrame(sid, data, written, end);
      BurstMoves(h, s.Padded(), frame, DataFrames(sid, data, end), rule, k);
      var sent, burst := WriteFrame(s, frame, rule(k));
      if sent.Err? {
        return written, Some(sent.error), h;
      }
      WireOfSnoc(h, burst);
      Regrouped(old(s.Wire()), WireOf(h), EncodeAll(burst.frames) + WasteBytes(burst.lens));
      h := h + [burst];
      written := end;
      k := k + 1;
    }
    BurstsCarry(old(s.Padded()), DataFrames(sid, data, 0), rule, 0);
    assert h + [] == h;
  }

  lemma {:induction false} BurstsCarry(p: PadState, frames: seq<Frame>, rule: nat -> Padding, k: nat)
    requires AllEncodable(frames) && forall i: nat :: ValidSizes(rule(i).sizes)
    ensures FramesOf(Bursts(p, frames, rule, k)) == frames
    decreases |frames|
  {
    if frames != [] {
      var first, later := OneBurst(p, frames[0], rule(k)), Bursts(AfterWrite(p, rule(k)), frames[1..], rule, k + 1);
      BurstsCarry(AfterWrite(p, rule(k)), frames[1..], rule, k + 1);
      assert ([first] + later)[1..] == later;
      assert frames == [frames[0]] + frames[1..];
    }
  }

  /** One frame as one locked write. */
  method WriteFrame(s: Session, f: Frame, padding: Padding) returns (r: Result<nat, WriteError>, ghost b: Burst)
    requires ValidSizes(padding.sizes) && Encodable(f) && f.cmd != CMD_WASTE
    modifies s`records, s`sendPadding, s`pktCounter
    ensures r == if s.closed then Err(Closed) else Ok(|f.data|)
    ensures b == OneBurst(old(s.Padded()), f, padding) && ValidBurst(b)
    ensures s.Padded() == if s.closed then old(s.Padded()) else AfterWrite(old(s.Padded()), padding)
    ensures s.Wire() == if s.closed then old(s.Wire()) else old(s.Wire()) + (EncodeAll(b.frames) + WasteBytes(b.lens))
  {
    EncodeAllOne(f);
    ghost var bytes := EncodeAll([f]);
    b := OneBurst(s.Padded(), f, padding);
    Regrouped(s.Wire(), bytes, WasteBytes(b.lens));
    r := s.WriteFrames([f], padding);
    assert TotalData([f], 0) == |f.data|;
  }

  // --- the session's parse loop --------------------------------------------------------------------

  datatype Event =
    | Data(sid: U32, bytes: seq<Byte>) | Fin(sid: U32) | Alert(bytes: seq<Byte>) | NewPadding(bytes: seq<Byte>)
    | SynAck(sid: U32, bytes: seq<Byte>) | HeartRequest(sid: U32) | HeartResponse

  datatype Stop = EndOfInput | InvalidLength | InvalidCommand

  datatype Parsed = Parsed(events: seq<Event>, stop: Stop)

  predicate TakesNoPayload(cmd: Byte) {
    cmd == CMD_FIN || cmd == CMD_HEART_REQUEST || cmd == CMD_HEART_RESPONSE
  }

  predicate Known(cmd: Byte) {
    || cmd == CMD_WASTE || cmd == CMD_PSH || cmd == CMD_ALERT || cmd == CMD_FIN || cmd == CMD_UPDATE_PADDING
    || cmd == CMD_SYNACK || cmd == CMD_SERVER_SETTINGS || cmd == CMD_HEART_REQUEST || cmd == CMD_HEART_RESPONSE
  }

  /** What the client does with a whole frame. */
  function EventsOf(f: Frame): seq<Event> {
    if f.cmd == CMD_PSH then (if f.data == [] then [] else [Data(f.sid, f.data)])
    else if f.cmd == CMD_FIN then [Fin(f.sid)]
    else if f.cmd == CMD_ALERT then [Alert(f.data)]
    else if f.cmd == CMD_UPDATE_PADDING then (if f.data == [] then [] else [NewPadding(f.data)])
    else if f.cmd == CMD_SYNACK then (if f.data == [] then [] else [SynAck(f.sid, f.data)])
    else if f.cmd == CMD_HEART_REQUEST then [HeartRequest(f.sid)]
    else if f.cmd == CMD_HEART_RESPONSE then [HeartResponse]
    else []
  }

  predicate Acceptable(f: Frame) {
    Encodable(f) && Known(f.cmd) && (TakesNoPayload(f.cmd) ==> f.data == [])
  }

  /** The bytes the parse loop hands to one stream. */
  function DataFor(sid: U32, events: seq<Event>): seq<Byte> {
    if events == [] then []
    else (if events[0].Data? && events[0].sid == sid then events[0].bytes else []) + DataFor(sid, events[1..])
  }

  /** The frames at the front that the loop accepts, and why it stops. */
  function Parse(input: seq<Byte>): Parsed
    decreases |input|
  {
    if |input| < HEADER_SIZE then Parsed([], EndOfInput)
    else
      var cmd, len := input[0], FromBe16(input[5..7]);
      if len != 0 && TakesNoPayload(cmd) then Parsed([], InvalidLength)
      else if !Known(cmd) then Parsed([], InvalidCommand)
      else
        match ReadFrame(input)
        case None => Parsed([], EndOfInput)
        case Some(r) => var p := Parse(r.rest); Parsed(EventsOf(r.frame) + p.events, p.stop)
  }

  /** The loop itself, reading header and payload off the connection. */
  method RunLoop(input: seq<Byte>) returns (events: seq<Event>, stop: Stop)
    ensures Parsed(events, stop) == Parse(input)
  {
    events := [];
    var rest := input;
    while true
      invariant Parse(input) == Parsed(events + Parse(rest).events, Parse(rest).stop)
      decreases |rest|
    {
      if |rest| < HEADER_SIZE {
        return events, EndOfInput;
      }
      var sid, length, cmd := FromBe32(rest[1..5]), FromBe16(rest[5..7]), rest[0];
      if length != 0 && TakesNoPayload(cmd) {
        return events, InvalidLength;
      }
      if !Known(cmd) {
        return events, InvalidCommand;
      }
      var end := HEADER_SIZE + length;
      if |rest| < end {
        return events, EndOfInput;
      }
      var more := EventsOf(Frame(cmd, sid, rest[HEADER_SIZE..end]));
      ghost var later := Parse(rest[end..]).events;
      assert events + (more + later) == events + more + later;
      events, rest := events + more, rest[end..];
    }
  }

  lemma {:induction false} ParseFirst(f: Frame, rest: seq<Byte>, wire: seq<Byte>)
    requires Acceptable(f) && wire == Encode(f) + rest
    ensures Parse(wire) == Parsed(EventsOf(f) + Parse(rest).events, Parse(rest).stop)
  {
    ReadUndoesEncode(f, rest);
    HeaderFields(f.cmd, f.sid, |f.data|);
    var h := Header(f.cmd, f.sid, |f.data|);
    assert wire[..HEADER_SIZE] == h;
    assert wire[5..7] == h[5..7] && wire[0] == h[0];
  }

  lemma {:induction false} DataForAppend(sid: U32, a: seq<Event>, b: seq<Event>)
    ensures DataFor(sid, a + b) == DataFor(sid, a) + DataFor(sid, b)
  {
    if a == [] {
      assert a + b == b;
    } else {
      assert (a + b)[1..] == a[1..] + b;
      DataForAppend(sid, a[1..], b);
    }
  }

  lemma {:induction false} DataOfOne(sid: U32, f: Frame)
    ensures DataFor(sid, EventsOf(f)) == PshOf(sid, [f])
  {
    assert [f][1..] == [];
  }

  /** The parse loop hands each stream exactly the data of its PSH frames, waste or no waste. */
  lemma {:induction false} LoopDeliversData(sid: U32, frames: seq<Frame>, wire: seq<Byte>)
    requires (forall i :: 0 <= i < |frames| ==> Acceptable(frames[i])) && AllEncodable(frames) && wire == EncodeAll(frames)
    ensures DataFor(sid, Parse(wire).events) == PshOf(sid, frames) && Parse(wire).stop == EndOfInput
    decreases |frames|
  {
    if frames != [] {
      var f, later := frames[0], EncodeAll(frames[1..]);
      LoopDeliversData(sid, frames[1..], later);
      ParseFirst(f, later, wire);
      DataForAppend(sid, EventsOf(f), Parse(later).events);
      DataOfOne(sid, f);
      PshOfAppend(sid, [f], frames[1..]);
      assert frames == [f] + frames[1..];
    }
  }

  /** What a frame means to the client, by the numbers of the commands. */
  lemma {:induction false} EventsByCommand(f: Frame)
    ensures EventsOf(f) ==
            if f.cmd == 2 && f.data != [] then [Data(f.sid, f.data)]
            else if f.cmd == 3 then [Fin(f.sid)]
            else if f.cmd == 5 then [Alert(f.data)]
            else if f.cmd == 6 && f.data != [] then [NewPadding(f.data)]
            else if f.cmd == 7 && f.data != [] then [SynAck(f.sid, f.data)]
            else if f.cmd == 8 then [HeartRequest(f.sid)]
            else if f.cmd == 9 then [HeartResponse]
            else []
  {
  }

  /**
   One turn of the loop, on raw bytes: a payload on a command that takes none is refused, then
   an unknown command, both before the payload is read; a frame cut short ends the loop.
   */
  lemma {:induction false} TurnOnBytes(input: seq<Byte>)
    requires |input| >= 7
    ensures var cmd, n := input[0], input[5] as int * 256 + input[6];
            && (n > 0 && cmd in {3, 8, 9} ==> Parse(input) == Parsed([], InvalidLength))
            && ((n == 0 || cmd !in {3, 8, 9}) && cmd !in {0, 2, 3, 5, 6, 7, 8, 9, 10} ==>
                  Parse(input) == Parsed([], InvalidCommand))
            && ((n == 0 || cmd !in {3, 8, 9}) && cmd in {0, 2, 3, 5, 6, 7, 8, 9, 10} ==>
                  if |input| < 7 + n then Parse(input) == Parsed([], EndOfInput)
                  else
                    var f, later := Frame(cmd, FromBe32(input[1..5]), input[7..7 + n]), Parse(input[7 + n..]);
                    Parse(input) == Parsed(EventsOf(f) + later.events, later.stop))
  {
    assert input[5..7] == [input[5], input[6]];
  }
}
