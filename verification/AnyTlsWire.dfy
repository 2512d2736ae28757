/**
 The AnyTLS byte stream: frames of protocol/anytls/anytls.go, the padding that
 writeConnLocked of protocol/anytls/session.go puts around them, and the parse loop
 on the other side. The connection is the sequence of bytes written to it.
 */
module AnyTlsWire {
  import opened Bytes

  const CMD_WASTE: Byte := 0
  const CMD_PSH: Byte := 2
  const CMD_FIN: Byte := 3
  const CMD_ALERT: Byte := 5
  const CMD_UPDATE_PADDING: Byte := 6
  const CMD_SYNACK: Byte := 7
  const CMD_HEART_REQUEST: Byte := 8
  const CMD_HEART_RESPONSE: Byte := 9
  const CMD_SERVER_SETTINGS: Byte := 10

  const HEADER_SIZE: nat := 7
  const MAX_PAYLOAD: nat := 32768
  const CHECK_MARK: int := -1

  datatype Frame = Frame(cmd: Byte, sid: U32, data: seq<Byte>)

  function Header(cmd: Byte, sid: U32, len: U16): (h: seq<Byte>)
    ensures |h| == HEADER_SIZE
  {
    [cmd] + Be32(sid) + Be16(len)
  }

  /** Frames the length check lets through. */
  predicate Encodable(f: Frame) {
    |f.data| <= MAX_PAYLOAD
  }

  function Encode(f: Frame): seq<Byte>
    requires Encodable(f)
  {
    Header(f.cmd, f.sid, |f.data|) + f.data
  }

  ghost predicate AllEncodable(frames: seq<Frame>) {
    forall i :: 0 <= i < |frames| ==> Encodable(frames[i])
  }

  ghost function EncodeAll(frames: seq<Frame>): seq<Byte>
    requires AllEncodable(frames)
  {
    if frames == [] then [] else Encode(frames[0]) + EncodeAll(frames[1..])
  }

  lemma {:induction false} EncodeAllAppend(a: seq<Frame>, b: seq<Frame>)
    requires AllEncodable(a) && AllEncodable(b)
    ensures AllEncodable(a + b) && EncodeAll(a + b) == EncodeAll(a) + EncodeAll(b)
  {
    if a == [] {
      assert a + b == b;
    } else {
      assert (a + b)[1..] == a[1..] + b;
      EncodeAllAppend(a[1..], b);
      Regrouped(Encode(a[0]), EncodeAll(a[1..]), EncodeAll(b));
    }
  }

  lemma {:induction false} EncodeAllOne(f: Frame)
    requires Encodable(f)
    ensures AllEncodable([f]) && EncodeAll([f]) == Encode(f)
  {
    assert [f][1..] == [];
  }

  // --- reading frames back -----------------------------------------------------------------

  datatype FrameRead = FrameRead(frame: Frame, rest: seq<Byte>)

  function ReadFrame(wire: seq<Byte>): (r: Option<FrameRead>)
    ensures r.Some? ==> |r.value.rest| < |wire|
  {
    if |wire| < HEADER_SIZE then None
    else
      var end := HEADER_SIZE + FromBe16(wire[5..7]);
      if |wire| < end then None
      else Some(FrameRead(Frame(wire[0], FromBe32(wire[1..5]), wire[HEADER_SIZE..end]), wire[end..]))
  }

  /** All whole frames at the front of the wire. */
  function ReadAll(wire: seq<Byte>): seq<Frame>
    decreases |wire|
  {
    match ReadFrame(wire)
    case None => []
    case Some(r) => [r.frame] + ReadAll(r.rest)
  }

  lemma {:induction false} HeaderFields(cmd: Byte, sid: U32, len: U16)
    ensures var h := Header(cmd, sid, len);
            h[0] == cmd && FromBe32(h[1..5]) == sid && FromBe16(h[5..7]) == len
  {
    var h := Header(cmd, sid, len);
    assert h[1..5] == Be32(sid) && h[5..7] == Be16(len);
    Be32RoundTrip(sid);
    Be16RoundTrip(len);
  }

  /** Where the fields of a frame are: command, stream in four bytes, length in two, payload. */
  lemma {:induction false} FrameLayout(f: Frame)
    requires Encodable(f)
    ensures var w := Encode(f);
            && |w| == 7 + |f.data| && w[0] == f.cmd
            && w[1] as int * 0x100_0000 + w[2] as int * 0x1_0000 + w[3] as int * 0x100 + w[4] == f.sid
            && w[5] as int * 256 + w[6] == |f.data| && w[7..] == f.data
  {
    var w, h := Encode(f), Header(f.cmd, f.sid, |f.data|);
    HeaderFields(f.cmd, f.sid, |f.data|);
    assert w[..7] == h && h[1..5] == [w[1], w[2], w[3], w[4]] && h[5..7] == [w[5], w[6]];
    BigEndian(w[1], w[2], w[3], w[4]);
  }

  lemma {:induction false} ReadUndoesEncode(f: Frame, rest: seq<Byte>)
    requires Encodable(f)
    ensures ReadFrame(Encode(f) + rest) == Some(FrameRead(f, rest))
  {
    var wire, h := Encode(f) + rest, Header(f.cmd, f.sid, |f.data|);
    HeaderFields(f.cmd, f.sid, |f.data|);
    assert wire[..HEADER_SIZE] == h;
    assert wire[1..5] == h[1..5] && wire[5..7] == h[5..7] && wire[0] == h[0];
    var end := HEADER_SIZE + |f.data|;
    assert wire[HEADER_SIZE..end] == f.data && wire[end..] == rest;
  }

  lemma {:induction false} Cons(f: Frame, a: seq<Frame>, b: seq<Frame>)
    ensures [f] + (a + b) == [f] + a + b
  {
  }

  lemma {:induction false} ReadFirst(f: Frame, rest: seq<Byte>, wire: seq<Byte>)
    requires Encodable(f) && wire == Encode(f) + rest
    ensures ReadAll(wire) == [f] + ReadAll(rest)
  {
    ReadUndoesEncode(f, rest);
  }

  lemma {:induction false} ReadUndoesEncodeAll(frames: seq<Frame>, rest: seq<Byte>, wire: seq<Byte>)
    requires AllEncodable(frames) && wire == EncodeAll(frames) + rest
    ensures ReadAll(wire) == frames + ReadAll(rest)
    decreases |frames|
  {
    if frames == [] {
      assert wire == rest;
    } else {
      var first, later := frames[0], EncodeAll(frames[1..]);
      assert wire == Encode(first) + (later + rest);
      ReadUndoesEncodeAll(frames[1..], rest, later + rest);
      ReadFirst(first, later + rest, wire);
      var all := ReadAll(rest);
      assert frames == [first] + frames[1..];
      Cons(first, frames[1..], all);
    }
  }

  // --- padding ---------------------------------------------------------------------------------

  function WasteFrame(n: nat): Frame {
    Frame(CMD_WASTE, 0, Zeros(n))
  }

  /** The waste frames of the given payload lengths. */
  function Wastes(lens: seq<nat>): (fs: seq<Frame>)
    ensures |fs| == |lens| && forall i :: 0 <= i < |fs| ==> fs[i] == WasteFrame(lens[i])
  {
    if lens == [] then [] else [WasteFrame(lens[0])] + Wastes(lens[1..])
  }

  predicate SmallLens(lens: seq<nat>) {
    forall i :: 0 <= i < |lens| ==> lens[i] <= MAX_PAYLOAD
  }

  function Capped(n: nat): nat {
    if n > MAX_PAYLOAD then MAX_PAYLOAD else n
  }

  /** A size list as a padding rule generates it: positive sizes and check marks. */
  predicate ValidSizes(sizes: seq<int>) {
    forall i :: 0 <= i < |sizes| ==> sizes[i] > 0 || sizes[i] == CHECK_MARK
  }

  /** One compiled element of a padding rule. */
  datatype PaddingRange = Fixed(size: int) | Between(lo: int, hi: int) | Mark

  predicate Compiled(r: PaddingRange) {
    match r
    case Fixed(size) => size > 0
    case Between(lo, hi) => 0 < lo < hi
    case Mark => true
  }

  /** A parsed "min-max" element, in either order; one that is not positive is dropped. */
  function CompileRange(a: int, b: int): (r: Option<PaddingRange>)
    ensures r.Some? <==> a > 0 && b > 0
    ensures r.Some? ==> Compiled(r.value)
    ensures r.Some? && a == b ==> r.value == Fixed(a)
    ensures r.Some? && a != b ==> r.value.Between? && {r.value.lo, r.value.hi} == {a, b}
  {
    var lo, hi := if a <= b then a else b, if a <= b then b else a;
    if lo <= 0 || hi <= 0 then None else if lo == hi then Some(Fixed(lo)) else Some(Between(lo, hi))
  }

  /** A size drawn for a range: the fixed one, or the pick above the lower bound and below the upper, or a check mark. */
  predicate Drawn(r: PaddingRange, pick: nat, size: int) {
    match r
    case Fixed(n) => size == n
    case Between(lo, hi) => size == lo + pick < hi
    case Mark => size == CHECK_MARK
  }

  /** The sizes for one write; `picks` are the random numbers, each below the width of its range. */
  method GenerateRecordPayloadSizes(ranges: seq<PaddingRange>, picks: seq<nat>) returns (sizes: seq<int>)
    requires |picks| == |ranges| && forall i :: 0 <= i < |ranges| ==> Compiled(ranges[i])
    requires forall i :: 0 <= i < |ranges| && ranges[i].Between? ==> picks[i] < ranges[i].hi - ranges[i].lo
    ensures |sizes| == |ranges| && ValidSizes(sizes)
    ensures forall i :: 0 <= i < |ranges| ==> Drawn(ranges[i], picks[i], sizes[i])
  {
    sizes := [];
    for i := 0 to |ranges|
      invariant |sizes| == i && ValidSizes(sizes)
      invariant forall k :: 0 <= k < i ==> Drawn(ranges[k], picks[k], sizes[k])
    {
      var size := match ranges[i]
        case Fixed(size) => size
        case Between(lo, _) => lo + picks[i]
        case Mark => CHECK_MARK;
      sizes := sizes + [size];
    }
  }

  /** The waste one size adds to `remain` payload bytes. */
  function OneWaste(remain: nat, l: nat): (lens: seq<nat>)
    ensures SmallLens(lens)
  {
    if remain > l then []
    else if remain == 0 then [Capped(l)]
    else if l - remain > HEADER_SIZE then [Capped(l - remain - HEADER_SIZE)]
    else []
  }

  /** The waste a size list adds from its element `i` on when `remain` payload bytes are still to be written. */
  function WasteLens(remain: nat, sizes: seq<int>, i: nat): (lens: seq<nat>)
    requires ValidSizes(sizes) && i <= |sizes|
    ensures SmallLens(lens)
    decreases |sizes| - i
  {
    if i == |sizes| || (sizes[i] == CHECK_MARK && remain == 0) then []
    else if sizes[i] == CHECK_MARK then WasteLens(remain, sizes, i + 1)
    else OneWaste(remain, sizes[i]) + WasteLens(if remain > sizes[i] then remain - sizes[i] else 0, sizes, i + 1)
  }

  lemma {:induction false} WasteEncodable(lens: seq<nat>)
    requires SmallLens(lens)
    ensures AllEncodable(Wastes(lens))
  {
  }

  ghost function WasteBytes(lens: seq<nat>): seq<Byte>
    requires SmallLens(lens)
  {
    WasteEncodable(lens);
    EncodeAll(Wastes(lens))
  }

  lemma {:induction false} WasteAppend(a: seq<nat>, b: seq<nat>)
    requires SmallLens(a) && SmallLens(b)
    ensures SmallLens(a + b) && WasteBytes(a + b) == WasteBytes(a) + WasteBytes(b)
  {
    WasteEncodable(a);
    WasteEncodable(b);
    WastesAppend(a, b);
    EncodeAllAppend(Wastes(a), Wastes(b));
  }

  lemma {:induction false} WastesAppend(a: seq<nat>, b: seq<nat>)
    ensures Wastes(a + b) == Wastes(a) + Wastes(b)
  {
    var all, parts := Wastes(a + b), Wastes(a) + Wastes(b);
    assert forall i :: 0 <= i < |all| ==> all[i] == parts[i];
  }

  // --- the records one write is cut into ---------------------------------------------------------

  /** The record one size gives: payload as long as there is more than that, else its end and what waste fits. */
  function Record(rest: seq<Byte>, l: nat): (r: seq<Byte>) {
    if |rest| > l then rest[..l]
    else if rest == [] then Encode(WasteFrame(Capped(l)))
    else if l - |rest| > HEADER_SIZE then rest + Encode(WasteFrame(Capped(l - |rest| - HEADER_SIZE)))
    else rest
  }

  /** The records of the payload `rest` under the sizes from element `i` on. */
  function Records(rest: seq<Byte>, sizes: seq<int>, i: nat): (r: seq<seq<Byte>>)
    requires ValidSizes(sizes) && i <= |sizes|
    decreases |sizes| - i
  {
    if i == |sizes| then if rest == [] then [] else [rest]
    else if sizes[i] == CHECK_MARK then if rest == [] then [] else Records(rest, sizes, i + 1)
    else [Record(rest, sizes[i])] + Records(rest[Min(|rest|, sizes[i])..], sizes, i + 1)
  }

  lemma {:induction false} OneWasteBytes(len: nat)
    requires len <= MAX_PAYLOAD
    ensures WasteBytes([len]) == Encode(WasteFrame(len))
  {
    EncodeAllOne(WasteFrame(len));
    assert Wastes([len]) == [WasteFrame(len)];
  }

  /** One record is payload and then the waste of its size. */
  lemma {:induction false} RecordBytes(rest: seq<Byte>, l: nat)
    ensures Record(rest, l) == rest[..Min(|rest|, l)] + WasteBytes(OneWaste(|rest|, l))
  {
    var k, lens := Min(|rest|, l), OneWaste(|rest|, l);
    assert rest[..|rest|] == rest;
    if lens == [] {
      assert rest[..k] + [] == rest[..k];
    } else {
      OneWasteBytes(lens[0]);
      assert lens == [lens[0]];
      assert [] + WasteBytes(lens) == WasteBytes(lens);
    }
  }

  /** Payload, then waste after its end, then more waste. */
  lemma {:induction false} Regroup(p: seq<Byte>, v: seq<Byte>, q: seq<Byte>, w: seq<Byte>)
    requires q == [] || v == []
    ensures p + v + (q + w) == p + q + (v + w)
  {
    if q == [] {
      assert q + w == w && p + q == p;
    } else {
      assert p + v == p && v + w == w;
    }
  }

  /** Whatever the sizes, the records carry the payload whole and in order, and then only waste frames. */
  lemma {:induction false} RecordsCarryAll(rest: seq<Byte>, sizes: seq<int>, i: nat)
    requires ValidSizes(sizes) && i <= |sizes|
    ensures Flatten(Records(rest, sizes, i)) == rest + WasteBytes(WasteLens(|rest|, sizes, i))
    decreases |sizes| - i
  {
    if i == |sizes| || (sizes[i] == CHECK_MARK && rest == []) {
      assert rest != [] ==> Flatten([rest]) == rest + [];
    } else if sizes[i] == CHECK_MARK {
      RecordsCarryAll(rest, sizes, i + 1);
    } else {
      var k := Min(|rest|, sizes[i]);
      RecordsCarryAll(rest[k..], sizes, i + 1);
      FirstCarries(rest, sizes, i, k);
    }
  }

  lemma {:induction false} FirstCarries(rest: seq<Byte>, sizes: seq<int>, i: nat, k: nat)
    requires ValidSizes(sizes) && i < |sizes| && sizes[i] != CHECK_MARK && k == Min(|rest|, sizes[i])
    requires Flatten(Records(rest[k..], sizes, i + 1)) == rest[k..] + WasteBytes(WasteLens(|rest| - k, sizes, i + 1))
    ensures Flatten(Records(rest, sizes, i)) == rest + WasteBytes(WasteLens(|rest|, sizes, i))
  {
    var one, later := OneWaste(|rest|, sizes[i]), WasteLens(|rest| - k, sizes, i + 1);
    RecordBytes(rest, sizes[i]);
    WasteAppend(one, later);
    FlattenCons(Record(rest, sizes[i]), Records(rest[k..], sizes, i + 1));
    CutAt(rest, k, WasteBytes(one), WasteBytes(later));
  }

  lemma {:induction false} FlattenCons(first: seq<Byte>, others: seq<seq<Byte>>)
    ensures Flatten([first] + others) == first + Flatten(others)
  {
    assert ([first] + others)[1..] == others;
  }

  lemma {:induction false} CutAt(rest: seq<Byte>, k: nat, v: seq<Byte>, w: seq<Byte>)
    requires k <= |rest| && (k < |rest| ==> v == [])
    ensures rest[..k] + v + (rest[k..] + w) == rest + (v + w)
  {
    Regroup(rest[..k], v, rest[k..], w);
    assert rest[..k] + rest[k..] == rest;
  }

  // --- the writer -----------------------------------------------------------------------------------

  /** The padding rules in force for one write: they may change between any two. */
  datatype Padding = Padding(stop: U32, sizes: seq<int>)

  /** A waste frame filled into the cleared end of a buffer. */
  method FillWasteFrame(buffer: array<Byte>, at: nat, payloadLen: nat)
    requires buffer.Length == at + HEADER_SIZE + payloadLen && payloadLen <= MAX_PAYLOAD
    modifies buffer
    ensures buffer[..] == old(buffer[..at]) + Encode(WasteFrame(payloadLen))
  {
    forall i | at <= i < buffer.Length { buffer[i] := 0; }
    var h := Header(CMD_WASTE, 0, payloadLen);
    forall i | 0 <= i < HEADER_SIZE { buffer[at + i] := h[i]; }
    assert buffer[at..at + HEADER_SIZE] == h;
    assert buffer[at + HEADER_SIZE..] == Zeros(payloadLen);
    assert buffer[..] == buffer[..at] + (buffer[at..at + HEADER_SIZE] + buffer[at + HEADER_SIZE..]);
  }

  datatype WriteError = Closed | PayloadTooLarge

  /** Whether writes are still padded, and how many have been. */
  datatype PadState = PadState(sendPadding: bool, pktCounter: U32)

  /** The waste a write of `len` bytes adds. */
  function WasteFor(p: PadState, len: nat, padding: Padding): (lens: seq<nat>)
    requires ValidSizes(padding.sizes)
    ensures SmallLens(lens)
  {
    if p.sendPadding && (p.pktCounter + 1) % 0x1_0000_0000 < padding.stop then WasteLens(len, padding.sizes, 0) else []
  }

  /** The write counts while writes are padded, and the first one past the limit ends the padding for good. */
  function AfterWrite(p: PadState, padding: Padding): PadState {
    if !p.sendPadding then p
    else var pkt := (p.pktCounter + 1) % 0x1_0000_0000; PadState(pkt < padding.stop, pkt)
  }

  /** The records one locked write makes: cut by the size list while writes are padded, else one. */
  function RecordsFor(p: PadState, b: seq<Byte>, padding: Padding): (r: seq<seq<Byte>>)
    requires ValidSizes(padding.sizes)
  {
    if p.sendPadding && (p.pktCounter + 1) % 0x1_0000_0000 < padding.stop then Records(b, padding.sizes, 0) else [b]
  }

  lemma {:induction false} RecordsForCarryAll(p: PadState, b: seq<Byte>, padding: Padding)
    requires ValidSizes(padding.sizes)
    ensures Flatten(RecordsFor(p, b, padding)) == b + WasteBytes(WasteFor(p, |b|, padding))
  {
    RecordsCarryAll(b, padding.sizes, 0);
    assert Flatten([b]) == b + [];
  }

  lemma {:induction false} Carried(before: seq<seq<Byte>>, all: seq<seq<Byte>>, p: PadState, b: seq<Byte>, padding: Padding)
    requires ValidSizes(padding.sizes) && all == RecordsFor(p, b, padding)
    ensures Flatten(before + all) == Flatten(before) + b + WasteBytes(WasteFor(p, |b|, padding))
  {
    FlattenAppend(before, all);
    RecordsForCarryAll(p, b, padding);
    Regrouped(Flatten(before), b, WasteBytes(WasteFor(p, |b|, padding)));
  }

  lemma {:induction false} RecordMoves(before: seq<seq<Byte>>, rest: seq<Byte>, sizes: seq<int>, i: nat, k: nat)
    requires ValidSizes(sizes) && i < |sizes| && sizes[i] != CHECK_MARK && k == Min(|rest|, sizes[i])
    ensures before + Records(rest, sizes, i) == before + [Record(rest, sizes[i])] + Records(rest[k..], sizes, i + 1)
  {
  }

  class Session {
    /** What each write to the connection carried. */
    var records: seq<seq<Byte>>
    var closed: bool
    var sendPadding: bool
    var pktCounter: U32

    function Padded(): PadState
      reads this
    {
      PadState(sendPadding, pktCounter)
    }

    /** Everything written to the connection. */
    function Wire(): seq<Byte>
      reads this
    {
      Flatten(records)
    }

    /** One locked write: the payload goes out whole and in order, and padding only follows it. */
    method WriteConnLocked(b: seq<Byte>, padding: Padding) returns (n: nat)
      requires ValidSizes(padding.sizes)
      modifies this`records, this`sendPadding, this`pktCounter
      ensures n == |b| && Padded() == AfterWrite(old(Padded()), padding)
      ensures records == old(records) + RecordsFor(old(Padded()), b, padding)
      ensures var lens := WasteFor(old(Padded()), |b|, padding);
              Wire() == old(Wire()) + b + WasteBytes(lens)
    {
      ghost var all := RecordsFor(Padded(), b, padding);
      Carried(records, all, Padded(), b, padding);
      if sendPadding {
        pktCounter := (pktCounter + 1) % 0x1_0000_0000;
        if pktCounter < padding.stop {
          n := WritePadded(b, padding.sizes);
          return;
        }
        sendPadding := false;
      }
      WriteFull(b);
      n := |b|;
    }

    /** One write to the connection. */
    method WriteFull(record: seq<Byte>)
      modifies this`records
      ensures records == old(records) + [record]
    {
      records := records + [record];
    }

    /** The loop over the size list. */
    method WritePadded(b: seq<Byte>, sizes: seq<int>) returns (n: nat)
      requires ValidSizes(sizes)
      modifies this`records
      ensures n == |b| && records == old(records) + Records(b, sizes, 0)
    {
      ghost var all := old(records) + Records(b, sizes, 0);
      var rest := b;
      n := 0;
      var i := 0;
      while i < |sizes|
        invariant 0 <= i <= |sizes| && n + |rest| == |b|
        invariant records + Records(rest, sizes, i) == all
      {
        if sizes[i] == CHECK_MARK {
          if |rest| == 0 {
            break;
          }
        } else {
          ghost var before := records;
          var k := WriteOne(rest, sizes[i]);
          RecordMoves(before, rest, sizes, i, k);
          rest := rest[k..];
          n := n + k;
        }
        i := i + 1;
      }
      if |rest| != 0 {
        WriteFull(rest);
        n := n + |rest|;
      } else {
        assert records + [] == records;
      }
    }

    /** What one size of the list sends, in one write, and how much of that is payload. */
    method WriteOne(rest: seq<Byte>, l: nat) returns (k: nat)
      requires l > 0
      modifies this`records
      ensures k == Min(|rest|, l) && records == old(records) + [Record(rest, l)]
    {
      if |rest| > l {
        WriteFull(rest[..l]);
        k := l;
      } else if |rest| > 0 {
        if l - |rest| - HEADER_SIZE > 0 {
          var paddingLen := Capped(l - |rest| - HEADER_SIZE);
          var combined := new Byte[|rest| + HEADER_SIZE + paddingLen];
          forall i | 0 <= i < |rest| { combined[i] := rest[i]; }
          assert combined[..|rest|] == rest;
          FillWasteFrame(combined, |rest|, paddingLen);
          assert combined[..] == Record(rest, l);
          WriteFull(combined[..]);
        } else {
          WriteFull(rest);
        }
        k := |rest|;
      } else {
        var padding := new Byte[HEADER_SIZE + Capped(l)];
        FillWasteFrame(padding, 0, Capped(l));
        assert rest == [] && padding[..] == [] + Encode(WasteFrame(Capped(l))) == Record(rest, l);
        WriteFull(padding[..]);
        k := 0;
      }
    }

    /** Encode all frames into one buffer and send them as one locked write. */
    method WriteFrames(frames: seq<Frame>, padding: Padding) returns (r: Result<nat, WriteError>)
      requires ValidSizes(padding.sizes)
      modifies this`records, this`sendPadding, this`pktCounter
      ensures r == if !AllEncodable(frames) then Err(PayloadTooLarge)
                   else if closed then Err(Closed) else Ok(TotalData(frames, 0))
      ensures r.Err? ==> records == old(records) && Padded() == old(Padded())
      ensures r.Ok? ==>
                && Padded() == AfterWrite(old(Padded()), padding)
                && var bytes := EncodeAll(frames);
                   && records == old(records) + RecordsFor(old(Padded()), bytes, padding)
                   && Wire() == old(Wire()) + bytes + WasteBytes(WasteFor(old(Padded()), |bytes|, padding))
    {
      var totalSize, totalData := 0, 0;
      for i := 0 to |frames|
        invariant forall k :: 0 <= k < i ==> Encodable(frames[k])
        invariant totalData + TotalData(frames, i) == TotalData(frames, 0)
        invariant totalSize == i * HEADER_SIZE + totalData
      {
        if |frames[i].data| > MAX_PAYLOAD {
          return Err(PayloadTooLarge);
        }
        totalSize := totalSize + HEADER_SIZE + |frames[i].data|;
        totalData := totalData + |frames[i].data|;
      }
      if closed {
        return Err(Closed);
      }
      var buffer := EncodeFrames(frames, totalSize);
      var _ := WriteConnLocked(buffer, padding);
      r := Ok(totalData);
    }
  }

  /** Payload bytes of the frames from `i` on. */
  function TotalData(frames: seq<Frame>, i: nat): nat
    requires i <= |frames|
    decreases |frames| - i
  {
    if i == |frames| then 0 else |frames[i].data| + TotalData(frames, i + 1)
  }

  method EncodeFrame(dst: array<Byte>, at: nat, f: Frame) returns (end: nat)
    requires Encodable(f) && at + HEADER_SIZE + |f.data| <= dst.Length
    modifies dst
    ensures end == at + HEADER_SIZE + |f.data|
    ensures dst[..end] == old(dst[..at]) + Encode(f)
  {
    var bytes := Header(f.cmd, f.sid, |f.data|) + f.data;
    forall i | 0 <= i < |bytes| { dst[at + i] := bytes[i]; }
    end := at + HEADER_SIZE + |f.data|;
  }

  lemma {:induction false} EncodedSize(frames: seq<Frame>, i: nat)
    requires AllEncodable(frames) && i <= |frames|
    ensures |EncodeAll(frames[i..])| == (|frames| - i) * HEADER_SIZE + TotalData(frames, i)
    decreases |frames| - i
  {
    if i < |frames| {
      EncodedSize(frames, i + 1);
      assert frames[i..][1..] == frames[i + 1..];
    }
  }

  lemma {:induction false} NextEncoded(frames: seq<Frame>, i: nat)
    requires AllEncodable(frames) && i < |frames|
    ensures EncodeAll(frames[..i + 1]) == EncodeAll(frames[..i]) + Encode(frames[i])
  {
    assert frames[..i + 1] == frames[..i] + [frames[i]];
    EncodeAllAppend(frames[..i], [frames[i]]);
    EncodeAllOne(frames[i]);
  }

  /** The running offset fills the buffer exactly. */
  method EncodeFrames(frames: seq<Frame>, size: nat) returns (buffer: seq<Byte>)
    requires AllEncodable(frames) && size == |frames| * HEADER_SIZE + TotalData(frames, 0)
    ensures buffer == EncodeAll(frames)
  {
    var dst := new Byte[size];
    var offset := 0;
    for i := 0 to |frames|
      invariant offset + (|frames| - i) * HEADER_SIZE + TotalData(frames, i) == size
      invariant dst[..offset] == EncodeAll(frames[..i])
    {
      NextEncoded(frames, i);
      ghost var done := dst[..offset];
      offset := EncodeFrame(dst, offset, frames[i]);
      assert dst[..offset] == done + Encode(frames[i]);
    }
    assert frames[..|frames|] == frames;
    buffer := dst[..];
  }
}
