/**
 Payload padding of dialer/naive/padding.go: the first eight frames of each
 direction carry a header, the payload and random padding; after that bytes pass
 through untouched.

 The random padding sizes and how much a raw read returns are parameters.
 */
module NaivePadding {
  import opened Bytes
  import opened Streams

  const FIRST_PADDINGS: nat := 8
  const MAX_CHUNK: nat := 65535

  // --- the wire format ------------------------------------------------------------

  function Frame(data: seq<Byte>, padding: Byte): seq<Byte>
    requires |data| <= MAX_CHUNK
  {
    Be16(|data|) + [padding] + data + Zeros(padding)
  }

  /** Length of the first frame of the wire, header and padding included. */
  function FrameLen(wire: seq<Byte>): nat
    requires |wire| >= 3
  {
    3 + FromBe16(wire[..2]) + wire[2]
  }

  predicate HasFrame(wire: seq<Byte>) {
    |wire| >= 3 && FrameLen(wire) <= |wire|
  }

  function FirstPayload(wire: seq<Byte>): seq<Byte>
    requires HasFrame(wire)
  {
    wire[3..3 + FromBe16(wire[..2])]
  }

  /** After `k` frames, is the wire a run of whole frames followed, past the eighth, by raw bytes? */
  predicate Whole(k: nat, wire: seq<Byte>)
    decreases |wire|
  {
    k >= FIRST_PADDINGS || wire == [] || (HasFrame(wire) && Whole(k + 1, wire[FrameLen(wire)..]))
  }

  /** The bytes such a wire carries. */
  function Payload(k: nat, wire: seq<Byte>): seq<Byte>
    requires Whole(k, wire)
    decreases |wire|
  {
    if k >= FIRST_PADDINGS then wire
    else if wire == [] then []
    else FirstPayload(wire) + Payload(k + 1, wire[FrameLen(wire)..])
  }

  /** How many frames have gone by at its end, counting from `k`. */
  function FramesAfter(k: nat, wire: seq<Byte>): nat
    requires Whole(k, wire)
    decreases |wire|
  {
    if k >= FIRST_PADDINGS || wire == [] then k
    else FramesAfter(k + 1, wire[FrameLen(wire)..])
  }

  /** Wires concatenate: what follows is read from where the first part left the frame count. */
  lemma {:induction false} WholeConcat(k: nat, a: seq<Byte>, b: seq<Byte>)
    requires Whole(k, a) && Whole(FramesAfter(k, a), b)
    ensures Whole(k, a + b)
    ensures Payload(k, a + b) == Payload(k, a) + Payload(FramesAfter(k, a), b)
    ensures FramesAfter(k, a + b) == FramesAfter(FramesAfter(k, a), b)
    decreases |a|
  {
    if k >= FIRST_PADDINGS {
    } else if a == [] {
      assert a + b == b;
    } else {
      var rest := a[FrameLen(a)..];
      FirstFrameOfConcat(a, b);
      WholeConcat(k + 1, rest, b);
      assert Payload(k, a + b) == FirstPayload(a) + Payload(k + 1, rest + b);
      assert Payload(k, a) == FirstPayload(a) + Payload(k + 1, rest);
    }
  }

  lemma {:induction false} FirstFrameOfConcat(a: seq<Byte>, b: seq<Byte>)
    requires HasFrame(a)
    ensures HasFrame(a + b) && FrameLen(a + b) == FrameLen(a) && FirstPayload(a + b) == FirstPayload(a)
    ensures (a + b)[FrameLen(a)..] == a[FrameLen(a)..] + b
  {
    assert (a + b)[..2] == a[..2];
  }

  lemma {:induction false} FrameIsWhole(k: nat, data: seq<Byte>, padding: Byte)
    requires k < FIRST_PADDINGS && |data| <= MAX_CHUNK
    ensures var f := Frame(data, padding);
            Whole(k, f) && Payload(k, f) == data && FramesAfter(k, f) == k + 1
  {
    var f := Frame(data, padding);
    Be16RoundTrip(|data|);
    assert f[..2] == Be16(|data|);
    assert FrameLen(f) == |f| && f[|f|..] == [];
    assert FirstPayload(f) == data;
  }

  /** Where the fields of a frame are: two bytes of length, one of padding length, payload, zeros. */
  lemma {:induction false} FrameLayout(data: seq<Byte>, padding: Byte)
    requires |data| <= MAX_CHUNK
    ensures var f := Frame(data, padding);
            && |f| == 3 + |data| + padding && f[0] as int * 256 + f[1] == |data| && f[2] == padding
            && f[3..3 + |data|] == data && forall i :: 3 + |data| <= i < |f| ==> f[i] == 0
  {
    var f := Frame(data, padding);
    assert f == Be16(|data|) + [padding] + data + Zeros(padding);
    assert forall i :: 3 + |data| <= i < |f| ==> f[i] == Zeros(padding)[i - 3 - |data|];
  }

  // --- the writer --------------------------------------------------------------------

  function ChunkSize(b: seq<Byte>): nat {
    if |b| > MAX_CHUNK then MAX_CHUNK else |b|
  }

  /** What a write of `b` puts on the wire when `k` frames have gone by; `sizes(i)` pads the i-th frame. */
  function Sent(k: nat, b: seq<Byte>, sizes: nat -> Byte): seq<Byte>
    decreases |b|
  {
    if b == [] then []
    else if k >= FIRST_PADDINGS then b
    else var c := ChunkSize(b); Frame(b[..c], sizes(k)) + Sent(k + 1, b[c..], sizes)
  }

  /** Eight frames of at most 65535 payload bytes, and then the bytes as they are. */
  lemma {:induction false} EightFramesThenRaw(k: nat, b: seq<Byte>, sizes: nat -> Byte)
    ensures k >= 8 ==> Sent(k, b, sizes) == b
    ensures k < 8 && b != [] ==>
              var c := if |b| <= 65535 then |b| else 65535;
              Sent(k, b, sizes) == Frame(b[..c], sizes(k)) + Sent(k + 1, b[c..], sizes)
  {
  }

  function FramesSent(k: nat, b: seq<Byte>): nat
    decreases |b|
  {
    if b == [] || k >= FIRST_PADDINGS then k else FramesSent(k + 1, b[ChunkSize(b)..])
  }

  /** Whatever the padding, what is sent for `b` carries exactly `b`. */
  lemma {:induction false} SentCarries(k: nat, b: seq<Byte>, sizes: nat -> Byte)
    ensures Whole(k, Sent(k, b, sizes))
    ensures Payload(k, Sent(k, b, sizes)) == b
    ensures FramesAfter(k, Sent(k, b, sizes)) == FramesSent(k, b)
    decreases |b|
  {
    if b != [] && k < FIRST_PADDINGS {
      var c := ChunkSize(b);
      var head, tail := b[..c], b[c..];
      assert b == head + tail;
      SentCarries(k + 1, tail, sizes);
      FrameThenRest(k, head, sizes(k), Sent(k + 1, tail, sizes), Sent(k, b, sizes));
    }
  }

  lemma {:induction false} FrameThenRest(k: nat, data: seq<Byte>, padding: Byte, rest: seq<Byte>, wire: seq<Byte>)
    requires k < FIRST_PADDINGS && |data| <= MAX_CHUNK && Whole(k + 1, rest)
    requires wire == Frame(data, padding) + rest
    ensures Whole(k, wire)
    ensures Payload(k, wire) == data + Payload(k + 1, rest)
    ensures FramesAfter(k, wire) == FramesAfter(k + 1, rest)
  {
    FrameIsWhole(k, data, padding);
    WholeConcat(k, Frame(data, padding), rest);
  }

  /** What several writes put on the wire, and how many frames have gone by after them. */
  function SentAll(k: nat, writes: seq<seq<Byte>>, sizes: nat -> Byte): seq<Byte> {
    if writes == [] then []
    else
      var n := |writes| - 1;
      SentAll(k, writes[..n], sizes) + Sent(FramesSentAll(k, writes[..n]), writes[n], sizes)
  }

  function FramesSentAll(k: nat, writes: seq<seq<Byte>>): nat {
    if writes == [] then k else FramesSent(FramesSentAll(k, writes[..|writes| - 1]), writes[|writes| - 1])
  }

  lemma {:induction false} SentAllCarries(k: nat, writes: seq<seq<Byte>>, sizes: nat -> Byte)
    ensures Whole(k, SentAll(k, writes, sizes))
    ensures Payload(k, SentAll(k, writes, sizes)) == Flatten(writes)
    ensures FramesAfter(k, SentAll(k, writes, sizes)) == FramesSentAll(k, writes)
    decreases |writes|
  {
    if writes != [] {
      var n := |writes| - 1;
      var front := writes[..n];
      SentAllCarries(k, front, sizes);
      SentCarries(FramesSentAll(k, front), writes[n], sizes);
      WholeConcat(k, SentAll(k, front, sizes), Sent(FramesSentAll(k, front), writes[n], sizes));
      FlattenSnoc(writes, n);
      assert writes[..n + 1] == writes;
    }
  }

  class PaddedWriter {
    const enabled: bool
    var padded: nat
    /** Everything written to the underlying writer. */
    var wire: seq<Byte>

    constructor (enabled: bool)
      ensures this.enabled == enabled && padded == 0 && wire == []
    {
      this.enabled := enabled;
      padded := 0;
      wire := [];
    }

    function Frames(): nat
      reads this
    {
      if enabled then padded else FIRST_PADDINGS
    }

    method Write(b: seq<Byte>, sizes: nat -> Byte) returns (n: nat)
      modifies this
      ensures n == |b|
      ensures wire == old(wire) + Sent(old(Frames()), b, sizes)
      ensures Frames() == FramesSent(old(Frames()), b)
    {
      n := 0;
      if !enabled || padded >= FIRST_PADDINGS {
        wire := wire + b;
        return |b|;
      }
      var rest := b;
      while |rest| > 0
        invariant padded < FIRST_PADDINGS
        invariant n + |rest| == |b|
        invariant wire + Sent(padded, rest, sizes) == old(wire) + Sent(old(padded), b, sizes)
        invariant FramesSent(padded, rest) == FramesSent(old(padded), b)
      {
        var chunkSize := if |rest| > MAX_CHUNK then MAX_CHUNK else |rest|;
        ghost var before, later := wire, Sent(padded + 1, rest[chunkSize..], sizes);
        WritePadded(rest[..chunkSize], sizes(padded));
        Regrouped(before, Frame(rest[..chunkSize], sizes(padded)), later);
        n := n + chunkSize;
        rest := rest[chunkSize..];
        padded := padded + 1;
        if padded >= FIRST_PADDINGS {
          if |rest| > 0 {
            wire := wire + rest;
            n := n + |rest|;
          }
          return;
        }
      }
    }

    /** Header, payload and zero padding, as three writes. */
    method WritePadded(data: seq<Byte>, size: Byte)
      requires |data| <= MAX_CHUNK
      modifies this`wire
      ensures wire == old(wire) + Frame(data, size)
    {
      wire := wire + [|data| / 0x100, |data| % 0x100, size];
      wire := wire + data;
      if size > 0 {
        wire := wire + Zeros(size);
      }
    }
  }

  // --- the reader ----------------------------------------------------------------------

  /** Read one frame: io.ReadFull for the header and the payload, io.CopyN for the padding. */
  function OpenFrame(wire: seq<Byte>): Result<Streamed<seq<Byte>>, IoError> {
    match ReadFull(wire, 3)
    case Err(e) => Err(e)
    case Ok(header) =>
      match ReadFull(header.rest, FromBe16(header.value[..2]))
      case Err(e) => Err(e)
      case Ok(payload) =>
        if |payload.rest| < header.value[2] then Err(Eof)
        else Ok(Streamed(payload.value, payload.rest[header.value[2]..]))
  }

  /** The wire ends strictly inside its first header or strictly inside its first payload. */
  predicate EndsInside(wire: seq<Byte>) {
    0 < |wire| < 3 || (3 < |wire| && |wire| < 3 + FromBe16(wire[..2]))
  }

  /** The wire ends between its first header and a payload that is not empty, or before the padding is complete. */
  predicate EndsBetween(wire: seq<Byte>) {
    && 3 <= |wire| < FrameLen(wire)
    && (|wire| == 3 || 3 + FromBe16(wire[..2]) <= |wire|)
  }

  /** Which frames are read, and exactly which cut frames look like a clean end. */
  lemma {:induction false} FrameOutcomes(wire: seq<Byte>)
    ensures OpenFrame(wire).Ok? <==> HasFrame(wire)
    ensures HasFrame(wire) ==> OpenFrame(wire) == Ok(Streamed(FirstPayload(wire), wire[FrameLen(wire)..]))
    ensures OpenFrame(wire) == Err(UnexpectedEof) <==> EndsInside(wire)
    ensures OpenFrame(wire) == Err(Eof) <==> wire == [] || EndsBetween(wire)
  {
    if |wire| >= 3 {
      var size := FromBe16(wire[..2]);
      assert wire[..3][..2] == wire[..2];
      if 3 + size <= |wire| {
        assert wire[3..][..size] == wire[3..3 + size];
        assert wire[3..][size..] == wire[3 + size..];
      }
      if HasFrame(wire) {
        assert wire[3 + size..][wire[2]..] == wire[FrameLen(wire)..];
      }
    }
  }

  /** What reading a stream to its end hands out, and the error it ends in. */
  datatype Delivery = Delivery(data: seq<Byte>, end: IoError)

  function Delivered(k: nat, wire: seq<Byte>): Delivery
    decreases |wire|
  {
    if k >= FIRST_PADDINGS then Delivery(wire, Eof)
    else
      match OpenFrame(wire)
      case Err(e) => Delivery([], e)
      case Ok(f) => var d := Delivered(k + 1, f.rest); Delivery(f.value + d.data, d.end)
  }

  // --- a connection cut anywhere ----------------------------------------------------------

  /** Where the last frame begins of which the first `n` bytes hold a part; in raw mode all `n` count. */
  function WholeUpTo(k: nat, wire: seq<Byte>, n: nat): (m: nat)
    requires Whole(k, wire) && n <= |wire|
    ensures m <= n
    decreases |wire|
  {
    if k >= FIRST_PADDINGS then n
    else if wire == [] || n < FrameLen(wire) then 0
    else FrameLen(wire) + WholeUpTo(k + 1, wire[FrameLen(wire)..], n - FrameLen(wire))
  }

  /** Does a cut after `n` bytes fall strictly inside a header or strictly inside a payload? */
  predicate CutInside(k: nat, wire: seq<Byte>, n: nat)
    requires Whole(k, wire) && n <= |wire|
    decreases |wire|
  {
    && k < FIRST_PADDINGS && wire != []
    && if n < FrameLen(wire) then 0 < n < 3 || 3 < n < 3 + FromBe16(wire[..2])
       else CutInside(k + 1, wire[FrameLen(wire)..], n - FrameLen(wire))
  }

  /**
   A stream cut after `n` bytes hands out the payload of exactly its whole frames, and
   reports an unexpected end exactly when the cut falls strictly inside a header or a
   payload; everywhere else the cut looks like a clean end.
   */
  lemma {:induction false} CutDelivers(k: nat, wire: seq<Byte>, n: nat, m: nat)
    requires Whole(k, wire) && n <= |wire| && m == WholeUpTo(k, wire, n)
    ensures Whole(k, wire[..m])
    ensures Delivered(k, wire[..n]) == Delivery(Payload(k, wire[..m]), if CutInside(k, wire, n) then UnexpectedEof else Eof)
    decreases |wire|
  {
    if k >= FIRST_PADDINGS {
    } else if wire == [] || n < FrameLen(wire) {
      CutFirstFrame(k, wire, n);
      assert wire[..0] == [];
    } else {
      var len := FrameLen(wire);
      CutDelivers(k + 1, wire[len..], n - len, m - len);
      SliceOfTail(wire, len, n);
      SliceOfTail(wire, len, m);
      DeliveredAfterFirst(k, wire, n);
      PayloadAfterFirst(k, wire, m);
    }
  }

  lemma {:induction false} SliceOfTail(wire: seq<Byte>, len: nat, n: nat)
    requires len <= n <= |wire|
    ensures wire[len..][..n - len] == wire[len..n]
  {
  }

  /** Whatever is cut off, what is handed out is a prefix of the whole. */
  lemma {:induction false} CutDeliversPrefix(k: nat, wire: seq<Byte>, n: nat)
    requires Whole(k, wire) && n <= |wire|
    ensures Delivered(k, wire[..n]).data <= Payload(k, wire)
    decreases |wire|
  {
    if k >= FIRST_PADDINGS {
    } else if wire == [] || n < FrameLen(wire) {
      CutFirstFrame(k, wire, n);
    } else {
      var len := FrameLen(wire);
      CutDeliversPrefix(k + 1, wire[len..], n - len);
      SliceOfTail(wire, len, n);
      DeliveredAfterFirst(k, wire, n);
    }
  }

  lemma {:induction false} CutFirstFrame(k: nat, wire: seq<Byte>, n: nat)
    requires k < FIRST_PADDINGS && Whole(k, wire) && n <= |wire| && (wire == [] || n < FrameLen(wire))
    ensures Delivered(k, wire[..n]) == Delivery([], if CutInside(k, wire, n) then UnexpectedEof else Eof)
  {
    var cut := wire[..n];
    FrameOutcomes(cut);
    assert n >= 2 ==> cut[..2] == wire[..2];
  }

  lemma {:induction false} DeliveredAfterFirst(k: nat, wire: seq<Byte>, n: nat)
    requires k < FIRST_PADDINGS && HasFrame(wire) && FrameLen(wire) <= n <= |wire|
    ensures var d := Delivered(k + 1, wire[FrameLen(wire)..n]);
            Delivered(k, wire[..n]) == Delivery(FirstPayload(wire) + d.data, d.end)
  {
    FirstFrame(wire, n);
    FrameOutcomes(wire[..n]);
  }

  lemma {:induction false} PayloadAfterFirst(k: nat, wire: seq<Byte>, n: nat)
    requires k < FIRST_PADDINGS && HasFrame(wire) && FrameLen(wire) <= n <= |wire|
    requires Whole(k + 1, wire[FrameLen(wire)..n])
    ensures Whole(k, wire[..n]) && Payload(k, wire[..n]) == FirstPayload(wire) + Payload(k + 1, wire[FrameLen(wire)..n])
  {
    FirstFrame(wire, n);
  }

  /** A long enough prefix begins with the same frame. */
  lemma {:induction false} FirstFrame(wire: seq<Byte>, n: nat)
    requires HasFrame(wire) && FrameLen(wire) <= n <= |wire|
    ensures HasFrame(wire[..n]) && FrameLen(wire[..n]) == FrameLen(wire) && FirstPayload(wire[..n]) == FirstPayload(wire)
    ensures wire[..n][FrameLen(wire)..] == wire[FrameLen(wire)..n]
  {
    assert wire[..n][..2] == wire[..2];
  }

  /** Both together, for a connection cut after `n` bytes or not cut at all. */
  lemma {:induction false} CutOrWhole(k: nat, wire: seq<Byte>, n: nat, d: Delivery)
    requires Whole(k, wire) && n <= |wire| && d == Delivered(k, wire[..n])
    ensures d.data <= Payload(k, wire) && d.end == (if CutInside(k, wire, n) then UnexpectedEof else Eof)
    ensures n == |wire| ==> d == Delivery(Payload(k, wire), Eof)
  {
    CutDelivers(k, wire, n, WholeUpTo(k, wire, n));
    CutDeliversPrefix(k, wire, n);
    if n == |wire| {
      WholeToTheEnd(k, wire);
      assert wire[..n] == wire;
    }
  }

  lemma {:induction false} WholeToTheEnd(k: nat, wire: seq<Byte>)
    requires Whole(k, wire)
    ensures WholeUpTo(k, wire, |wire|) == |wire| && !CutInside(k, wire, |wire|)
    decreases |wire|
  {
    if k < FIRST_PADDINGS && wire != [] {
      WholeToTheEnd(k + 1, wire[FrameLen(wire)..]);
    }
  }

  /** A frame cut right after its header, and one cut inside its padding: both read as a clean end, with a byte lost. */
  lemma {:induction false} CleanEndsThatLoseAByte()
    ensures Frame([7], 0)[..3] == [0, 1, 0] && Delivered(0, [0, 1, 0]) == Delivery([], Eof)
    ensures Frame([7], 2)[..5] == [0, 1, 2, 7, 0] && Delivered(0, [0, 1, 2, 7, 0]) == Delivery([], Eof)
  {
    FrameOutcomes([0, 1, 0]);
    FrameOutcomes([0, 1, 2, 7, 0]);
    assert [0, 1, 0][..2] == [0, 1] && [0, 1, 2, 7, 0][..2] == [0, 1];
  }

  class PaddedReader {
    const enabled: bool
    var padded: nat
    var pending: seq<Byte>
    /** What the underlying reader still holds. */
    var input: seq<Byte>

    constructor (enabled: bool, input: seq<Byte>)
      ensures this.enabled == enabled && pending == [] && this.input == input && padded == 0
      ensures Frames() == (if enabled then 0 else FIRST_PADDINGS)
    {
      this.enabled := enabled;
      padded := 0;
      pending := [];
      this.input := input;
    }

    function Frames(): nat
      reads this
    {
      if enabled then padded else FIRST_PADDINGS
    }

    /** What is still to be handed out, and the error after it. */
    ghost function Remaining(): Delivery
      reads this
    {
      var d := Delivered(Frames(), input);
      Delivery(pending + d.data, d.end)
    }

    /**
     Fill a buffer of `size` bytes. `chunk` is how much the underlying reader is
     willing to return at once in raw mode.
     */
    method Read(size: nat, chunk: nat) returns (r: Result<seq<Byte>, IoError>)
      requires chunk > 0
      modifies this
      ensures r.Ok? ==> |r.value| <= size && old(Remaining()) == Delivery(r.value + Remaining().data, Remaining().end)
      ensures r.Err? ==> old(Remaining()) == Delivery([], r.error)
      ensures var framed := size > 0 && old(pending) == [] && old(Frames()) < FIRST_PADDINGS;
              && (r == Err(UnexpectedEof) <==> framed && EndsInside(old(input)))
              && (r == Err(Eof) && old(input) != [] <==> framed && EndsBetween(old(input)))
      ensures r.Ok? && r.value == [] ==> size == 0 || padded == old(padded) + 1
      ensures padded == old(padded) || padded == old(padded) + 1 <= FIRST_PADDINGS
    {
      if size == 0 {
        return Ok([]);
      }
      if |pending| > 0 {
        var bytes := TakePending(size);
        return Ok(bytes);
      }
      if !enabled || padded >= FIRST_PADDINGS {
        r := ReadRaw(size, chunk);
        return;
      }
      FrameOutcomes(input);
      r := ReadFrame(size);
    }

    method TakePending(size: nat) returns (bytes: seq<Byte>)
      requires size > 0 && pending != []
      modifies this`pending
      ensures 0 < |bytes| <= size && old(Remaining()) == Delivery(bytes + Remaining().data, Remaining().end)
    {
      var n := Min(size, |pending|);
      bytes := pending[..n];
      pending := pending[n..];
      assert old(pending) == bytes + pending;
      Regrouped(bytes, pending, Delivered(Frames(), input).data);
    }

    method ReadRaw(size: nat, chunk: nat) returns (r: Result<seq<Byte>, IoError>)
      requires size > 0 && chunk > 0 && pending == [] && Frames() >= FIRST_PADDINGS
      modifies this`input
      ensures r.Ok? ==> 0 < |r.value| <= size && old(Remaining()) == Delivery(r.value + Remaining().data, Remaining().end)
      ensures r.Err? ==> r == Err(Eof) && old(input) == [] && old(Remaining()) == Delivery([], Eof)
    {
      if input == [] {
        return Err(Eof);
      }
      var n := Min(Min(size, chunk), |input|);
      r := Ok(input[..n]);
      input := input[n..];
      assert old(input) == r.value + input;
    }

    /** Read one padded frame, keeping what does not fit the buffer. */
    method ReadFrame(size: nat) returns (r: Result<seq<Byte>, IoError>)
      requires enabled && padded < FIRST_PADDINGS && pending == []
      modifies this
      ensures var f := OpenFrame(old(input));
              && (f.Ok? ==>
                    && r == Ok(f.value.value[..Min(size, |f.value.value|)])
                    && r.value + pending == f.value.value
                    && padded == old(padded) + 1 && input == f.value.rest)
              && (f.Err? ==> r == Err(f.error) && padded == old(padded) && pending == [] && input == [])
      ensures r.Ok? ==> |r.value| <= size && old(Remaining()) == Delivery(r.value + Remaining().data, Remaining().end)
      ensures r.Err? ==> old(Remaining()) == Delivery([], r.error)
    {
      var frame := ReadPayload();
      if frame.Err? {
        return Err(frame.error);
      }
      var payload := frame.value;
      if |payload| <= size {
        assert payload[..|payload|] == payload;
        r := Ok(payload);
      } else {
        r := Ok(payload[..size]);
        pending := payload[size..];
      }
      Regrouped(r.value, pending, Delivered(padded, input).data);
    }

    /** The reads of one frame, in order; the frame counts only once its padding is gone too. */
    method ReadPayload() returns (r: Result<seq<Byte>, IoError>)
      modifies this`input, this`padded
      ensures var f := OpenFrame(old(input));
              && (f.Ok? ==> r == Ok(f.value.value) && padded == old(padded) + 1 && input == f.value.rest)
              && (f.Err? ==> r == Err(f.error) && padded == old(padded) && input == [])
    {
      if |input| < 3 {
        r := Err(if input == [] then Eof else UnexpectedEof);
        input := [];
        return;
      }
      var header := input[..3];
      var origSize, padSize := FromBe16(header[..2]), header[2];
      input := input[3..];
      if |input| < origSize {
        r := Err(if input == [] then Eof else UnexpectedEof);
        input := [];
        return;
      }
      r := Ok(input[..origSize]);
      input := input[origSize..];
      if |input| < padSize {
        input := [];
        return Err(Eof);
      }
      input := input[padSize..];
      padded := padded + 1;
    }
  }

  /** Any sequence of writes, with any padding sizes, puts exactly their frames on the wire. */
  method WriteAll(w: PaddedWriter, writes: seq<seq<Byte>>, sizes: nat -> Byte)
    requires w.padded == 0 && w.wire == []
    modifies w
    ensures w.wire == SentAll(Start(w.enabled), writes, sizes)
  {
    ghost var start := w.Frames();
    assert writes[..0] == [];
    for i := 0 to |writes|
      invariant w.wire == SentAll(start, writes[..i], sizes) && w.Frames() == FramesSentAll(start, writes[..i])
    {
      assert writes[..i + 1][..i] == writes[..i];
      var _ := w.Write(writes[i], sizes);
    }
    assert writes[..|writes|] == writes;
  }

  /** How many frames count as gone by at the start: without padding, all of them. */
  function Start(enabled: bool): nat {
    if enabled then 0 else FIRST_PADDINGS
  }

  /**
   Reads with any buffer sizes, each with its own raw read size, hand out the
   remaining bytes in order, and all of them before the error that ends the stream; as
   many reads with room as there are bytes and frames, and one more, reach that error.
   */
  method ReadAll(r: PaddedReader, buffers: seq<nat>, chunk: nat -> nat) returns (out: seq<Byte>, end: Option<IoError>)
    requires (forall i :: chunk(i) > 0) && r.padded <= FIRST_PADDINGS
    modifies r
    ensures out <= old(r.Remaining()).data
    ensures end.Some? ==> old(r.Remaining()) == Delivery(out, end.value)
    ensures HaveRoom(buffers) && |buffers| > |old(r.Remaining()).data| + FIRST_PADDINGS ==> end.Some?
  {
    ghost var all := r.Remaining();
    out, end := [], None;
    var i := 0;
    while i < |buffers| && end.None?
      invariant end.None? ==> all == Delivery(out + r.Remaining().data, r.Remaining().end)
      invariant end.None? && HaveRoom(buffers) ==> i <= |out| + r.padded
      invariant end.Some? ==> all == Delivery(out, end.value)
      invariant r.padded <= FIRST_PADDINGS
    {
      ghost var before := out;
      var got := r.Read(buffers[i], chunk(i));
      match got {
        case Ok(bytes) =>
          out := out + bytes;
          Regrouped(before, bytes, r.Remaining().data);
        case Err(e) => end := Some(e);
      }
      i := i + 1;
    }
  }

  /**
   A whole connection: the given writes with any padding sizes, the wire cut after
   `cut` bytes, then reads with any buffer sizes. The reader hands out a prefix of
   what was written. Enough reads reach the end, and then it is the payload of exactly
   the whole frames that arrived, everything if the wire was not cut; the end is an
   unexpected one exactly when the cut falls strictly inside a header or a payload.
   */
  method Converse(enabled: bool, writes: seq<seq<Byte>>, sizes: nat -> Byte, cut: nat, buffers: seq<nat>, chunk: nat -> nat)
    returns (out: seq<Byte>, end: Option<IoError>)
    requires forall i :: chunk(i) > 0
    ensures out <= Flatten(writes)
    ensures var k := Start(enabled);
            var wire := SentAll(k, writes, sizes);
            var n := Min(cut, |wire|);
            && Whole(k, wire) && Whole(k, wire[..WholeUpTo(k, wire, n)])
            && (end.Some? ==>
                  && out == Payload(k, wire[..WholeUpTo(k, wire, n)])
                  && end.value == (if CutInside(k, wire, n) then UnexpectedEof else Eof))
            && (end.Some? && |wire| <= cut ==> out == Flatten(writes) && end.value == Eof)
    ensures HaveRoom(buffers) && |buffers| > |Flatten(writes)| + FIRST_PADDINGS ==> end.Some?
  {
    var w := new PaddedWriter(enabled);
    WriteAll(w, writes, sizes);
    var wire := w.wire;
    ghost var k := Start(enabled);
    SentAllCarries(k, writes, sizes);
    var cutWire := wire[..Min(cut, |wire|)];
    var r := new PaddedReader(enabled, cutWire);
    ghost var d := Delivered(k, cutWire);
    CutDelivers(k, wire, Min(cut, |wire|), WholeUpTo(k, wire, Min(cut, |wire|)));
    CutOrWhole(k, wire, Min(cut, |wire|), d);
    assert r.Remaining() == d by {
      assert [] + d.data == d.data;
    }
    out, end := ReadAll(r, buffers, chunk);
  }

  /** Without padding the bytes pass as they are, in both directions; with it the count of frames starts at none. */
  lemma {:induction false} WithoutPadding(b: seq<Byte>, wire: seq<Byte>, sizes: nat -> Byte)
    ensures Start(true) == 0
    ensures Sent(Start(false), b, sizes) == b && Whole(Start(false), wire) && Payload(Start(false), wire) == wire
  {
  }
}
