/**
 A whole direction of a VMess connection: writes of any sizes on one side, reads with
 buffers of any sizes on the other, with leftovers served from the shared decryption
 buffer; and the datagram form of the same reader.
 */
module VmessStream {
  import opened Bytes
  import opened Aead
  import opened Cutting
  import opened Streams
  import opened Truncation
  import opened ChunkReading
  import opened VmessChunks
  import opened VmessConn

  // --- the reader as a value -----------------------------------------------------------------

  datatype Network = Tcp | Udp

  datatype Outcome = Got(bytes: seq<Byte>, view: View<Pos>) | Dropped(view: View<Pos>) | Failed(error: ReadError)

  function Handing(h: Handed<Pos>): Outcome {
    Got(h.bytes, h.view)
  }

  /** One read with a buffer of `size` bytes; a datagram that does not fit is dropped whole. */
  ghost function ReadStep(c: Codec, network: Network, v: View<Pos>, size: nat): Outcome
    requires ValidCodec(c)
  {
    if v.left != [] then
      if network.Udp? then Dropped(v.(left := [])) else Handing(Taken(v, size))
    else
      match OpenChunk(c, v.at, v.wire)
      case Err(e) => Failed(e)
      case Ok(o) =>
        if network.Udp? && |o.value| > size then Dropped(View(After(c, v.at), [], o.rest))
        else Handing(Taken(View(After(c, v.at), o.value, o.rest), size))
  }

  ghost function Unread(c: Codec, v: View<Pos>): seq<Byte>
    requires ValidCodec(c)
  {
    v.left + Flatten(Decoded(c, v.at, v.wire).parts)
  }

  ghost function EndOf(c: Codec, v: View<Pos>): ReadError
    requires ValidCodec(c)
  {
    Decoded(c, v.at, v.wire).end
  }

  /** Opening one chunk moves its text from the wire to the leftover. */
  lemma {:induction false} OpenedNext(c: Codec, v: View<Pos>)
    requires ValidCodec(c) && v.left == [] && OpenChunk(c, v.at, v.wire).Ok?
    ensures var o := OpenChunk(c, v.at, v.wire).value;
            var v' := View(After(c, v.at), o.value, o.rest);
            Unread(c, v') == Unread(c, v) && EndOf(c, v') == EndOf(c, v)
  {
    var o := OpenChunk(c, v.at, v.wire).value;
    var d := Decoded(c, After(c, v.at), o.rest);
    FlattenPrepended(o.value, d);
    assert [] + Flatten(Prepend(o.value, d).parts) == o.value + Flatten(d.parts);
  }

  /** A stream read hands out what comes next, and fails only at the end, with the error the stream ends in. */
  lemma {:induction false} ReadHandsOutNext(c: Codec, v: View<Pos>, size: nat)
    requires ValidCodec(c)
    ensures var r := ReadStep(c, Tcp, v, size);
            && !r.Dropped?
            && (r.Failed? ==> Unread(c, v) == [] && r.error == EndOf(c, v))
            && (r.Got? ==> |r.bytes| <= size && Unread(c, v) == r.bytes + Unread(c, r.view) && EndOf(c, r.view) == EndOf(c, v))
  {
    if v.left != [] {
      TakenThenRest(v, size, Flatten(Decoded(c, v.at, v.wire).parts));
    } else if OpenChunk(c, v.at, v.wire).Ok? {
      OpenedNext(c, v);
      var o := OpenChunk(c, v.at, v.wire).value;
      var v' := View(After(c, v.at), o.value, o.rest);
      TakenThenRest(v', size, Flatten(Decoded(c, v'.at, v'.wire).parts));
    }
  }

  /** A datagram read hands out the next datagram whole, or drops exactly that one. */
  lemma {:induction false} DatagramReadTakesOne(c: Codec, v: View<Pos>, size: nat)
    requires ValidCodec(c) && v.left == []
    ensures var r := ReadStep(c, Udp, v, size);
            var parts := Decoded(c, v.at, v.wire).parts;
            && (r.Failed? <==> parts == []) && (r.Failed? ==> r.error == EndOf(c, v))
            && (!r.Failed? ==> r.view.left == [] && Decoded(c, r.view.at, r.view.wire).parts == parts[1..])
            && (r.Got? ==> r.bytes == parts[0]) && (r.Dropped? ==> |parts[0]| > size)
  {
  }

  // --- the reader ------------------------------------------------------------------------------

  class Reader {
    const dir: Direction
    var input: seq<Byte>
    /** The buffer every chunk is decrypted into. */
    var frame: array<Byte>
    /** leftToRead is frame[..leftLen]; bytes from indexToRead on are unread. */
    var leftLen: nat
    var indexToRead: nat

    ghost predicate Valid()
      reads this, dir, frame
    {
      dir.Valid() && indexToRead <= leftLen <= frame.Length
    }

    ghost function Value(): View<Pos>
      requires Valid()
      reads this, dir, frame
    {
      View(dir.At(), frame[indexToRead..leftLen], input)
    }

    constructor (c: Codec, input: seq<Byte>)
      requires ValidCodec(c)
      ensures Valid() && fresh(dir) && fresh(frame) && dir.c == c && Value() == View(Pos(0, 0), [], input)
    {
      dir := new Direction(c);
      this.input := input;
      frame := new Byte[0];
      leftLen, indexToRead := 0, 0;
    }

    /** The padding length is drawn before the length is unmasked, as the sender does. */
    method ReadSize() returns (size: U16, padding: nat)
      requires Valid() && |input| >= SIZE_BYTES
      modifies this`input, dir
      ensures Valid() && dir.used == old(dir.used) && dir.drawn == After(dir.c, old(dir.At())).drawn
      ensures input == old(input)[2..]
      ensures padding == PadLen(dir.c, old(dir.At())) && size == Masked(dir.c, old(dir.At()), FromBe16(old(input)[..2]))
    {
      var field := FromBe16(input[..2]);
      input := input[2..];
      padding := dir.NextPaddingLen();
      size := dir.Mask(field);
    }

    method BorrowReadOpenFrame(size: nat)
      requires Valid() && leftLen == 0
      modifies this`frame
      ensures Valid() && frame.Length >= size && (frame == old(frame) || fresh(frame))
    {
      if frame.Length < size {
        frame := new Byte[size];
      }
    }

    method ReadChunk() returns (r: Result<nat, ReadError>)
      requires Valid() && leftLen == 0
      modifies this, dir, frame
      ensures frame == old(frame) || fresh(frame)
      ensures leftLen == 0 && indexToRead == 0 && dir.Valid()
      ensures match OpenChunk(dir.c, old(dir.At()), old(input)) {
                case Err(e) => r == Err(e)
                case Ok(o) =>
                  && Valid() && dir.At() == After(dir.c, old(dir.At())) && input == o.rest
                  && r == Ok(|o.value|) && |o.value| <= frame.Length && frame[..|o.value|] == o.value
              }
    {
      indexToRead := 0;
      if |input| < SIZE_BYTES {
        return Err(Io(if input == [] then Eof else UnexpectedEof));
      }
      ghost var p := dir.At();
      var size, padding := ReadSize();
      r := ReadFrame(size, padding, p);
    }

    /** The rest of a chunk once its size is known. */
    method ReadFrame(size: U16, padding: nat, ghost p: Pos) returns (r: Result<nat, ReadError>)
      requires Valid() && leftLen == 0 && indexToRead == 0
      requires padding == PadLen(dir.c, p) && dir.used == p.used && dir.drawn == After(dir.c, p).drawn
      modifies this, dir, frame
      ensures frame == old(frame) || fresh(frame)
      ensures leftLen == 0 && indexToRead == 0 && dir.Valid()
      ensures match OpenFrame(dir.c, p, size, old(input)) {
                case Err(e) => r == Err(e)
                case Ok(o) =>
                  && Valid() && dir.At() == After(dir.c, p) && input == o.rest
                  && r == Ok(|o.value|) && |o.value| <= frame.Length && frame[..|o.value|] == o.value
              }
    {
      if size == (dir.c.cipher.overhead + padding) % 0x1_0000 {
        return Err(Io(Eof));
      }
      if size < padding {
        return Err(TooSmall);
      }
      BorrowReadOpenFrame(size);
      if |input| < size {
        return Err(Io(if input == [] then Eof else UnexpectedEof));
      }
      var nonce := dir.NextNonce();
      var data := dir.c.cipher.open(nonce, input[..size][..size - padding]);
      if data.None? {
        return Err(FailAuth);
      }
      input := input[size..];
      Store(data.value);
      r := Ok(|data.value|);
    }

    method Store(text: seq<Byte>)
      requires |text| <= frame.Length
      modifies frame
      ensures frame[..|text|] == text
    {
      forall i | 0 <= i < |text| { frame[i] := text[i]; }
    }

    method TakeLeftover(size: nat) returns (bytes: seq<Byte>)
      requires Valid()
      modifies this`indexToRead, this`leftLen
      ensures Valid() && Handed(bytes, Value()) == Taken(old(Value()), size)
    {
      ghost var left := frame[indexToRead..leftLen];
      var n := Min(size, leftLen - indexToRead);
      bytes := frame[indexToRead..indexToRead + n];
      assert bytes == left[..n];
      indexToRead := indexToRead + n;
      assert frame[indexToRead..leftLen] == left[n..];
      if indexToRead >= leftLen {
        leftLen, indexToRead := 0, 0;
      }
    }

    method Read(size: nat, network: Network) returns (r: ReadResult)
      requires Valid()
      modifies this, dir, frame
      ensures frame == old(frame) || fresh(frame)
      ensures var o := ReadStep(dir.c, network, old(Value()), size);
              && (o.Failed? ==> r == Error(o.error))
              && (!o.Failed? ==> Valid() && Value() == o.view && r == if o.Got? then Bytes(o.bytes) else ShortBuffer)
    {
      if indexToRead < leftLen {
        if network.Udp? {
          leftLen, indexToRead := 0, 0;
          return ShortBuffer;
        }
      } else {
        leftLen, indexToRead := 0, 0;
        var chunk := ReadChunk();
        if chunk.Err? {
          return Error(chunk.error);
        }
        if network.Udp? && size < chunk.value {
          return ShortBuffer;
        }
        leftLen := chunk.value;
      }
      var bytes := TakeLeftover(size);
      r := Bytes(bytes);
    }
  }

  datatype ReadResult = Bytes(bytes: seq<Byte>) | ShortBuffer | Error(error: ReadError)

  // --- the writer ------------------------------------------------------------------------------

  lemma {:induction false} BatchAppend(c: Codec, random: Random, p: Pos, a: seq<seq<Byte>>, b: seq<seq<Byte>>, p': Pos)
    requires ValidCodec(c) && Enough(random) && p' == PosAfterAll(c, p, |a|)
    ensures Batch(c, random, p, a + b) == Batch(c, random, p, a) + Batch(c, random, p', b)
    ensures PosAfterAll(c, p, |a| + |b|) == PosAfterAll(c, p', |b|)
    decreases |a|
  {
    if a == [] {
      assert a + b == b;
      assert Batch(c, random, p, b) == [] + Batch(c, random, p, b);
    } else {
      var first, p1 := Chunk(c, random, p, a[0]), After(c, p);
      assert (a + b)[1..] == a[1..] + b && (a + b)[0] == a[0];
      BatchAppend(c, random, p1, a[1..], b, p');
      Regrouped(first, Batch(c, random, p1, a[1..]), Batch(c, random, p', b));
    }
  }

  /** The chunks a write is sent as: pieces of a stream, a datagram whole, and nothing but the terminal for an empty one. */
  function ChunksOf(c: Codec, network: Network, b: seq<Byte>): seq<seq<Byte>>
    requires PayloadSize(c) > 0
  {
    if b == [] then [] else if network.Tcp? then Pieces(b, PayloadSize(c), 0) else [b]
  }

  /** A full chunk carries what the cipher's overhead, the size field and the longest padding leave of 16384 bytes. */
  lemma {:induction false} FullChunk(c: Codec)
    requires ValidCodec(c)
    ensures PayloadSize(c) == 16384 - c.cipher.overhead - 2 - (if c.padding then 64 else 0) > 0
  {
  }

  /** Chunk `i` of a stream write starts `i` full chunks in and is full itself unless it is the last; none is empty. */
  lemma {:induction false} StreamChunks(c: Codec, b: seq<Byte>, i: nat, at: nat)
    requires ValidCodec(c) && i < |ChunksOf(c, Tcp, b)| && at == i * PayloadSize(c)
    ensures at < |b| && ChunksOf(c, Tcp, b)[i] == b[at..Min(at + PayloadSize(c), |b|)]
    ensures Flatten(ChunksOf(c, Tcp, b)) == b
  {
    PieceAt(b, PayloadSize(c), 0, i);
    PiecesJoin(b, PayloadSize(c), 0);
  }

  /** A datagram is one chunk, and an empty write none. */
  lemma {:induction false} WholeChunks(c: Codec, network: Network, b: seq<Byte>)
    requires ValidCodec(c)
    ensures ChunksOf(c, Udp, b) == (if b == [] then [] else [b]) && (ChunksOf(c, network, b) == [] <==> b == [])
  {
  }

  lemma {:induction false} OneMorePiece(pieces: seq<seq<Byte>>, b: seq<Byte>)
    ensures Flatten(pieces + [b]) == Flatten(pieces) + b
    ensures b != [] && NoneEmpty(pieces) ==> NoneEmpty(pieces + [b])
  {
    FlattenAppend(pieces, [b]);
    assert Flatten([b]) == b + [] == b;
  }

  lemma {:induction false} NoMorePieces(pieces: seq<seq<Byte>>)
    ensures pieces == pieces + [] && Flatten(pieces) == Flatten(pieces) + []
  {
  }

  class Writer {
    const dir: Direction
    const random: Random
    const network: Network
    /** What the first write has to send first: a server's encrypted response header. */
    const respHeader: Option<seq<Byte>>
    var initialized: bool
    var writeClosed: bool
    /** Everything written to the connection. */
    var out: seq<Byte>
    /** It is `head`, then these chunks, then the terminal one if the writer is closed. */
    ghost var head: seq<Byte>
    ghost var pieces: seq<seq<Byte>>

    ghost predicate Valid()
      reads this, dir
    {
      && dir.Valid() && Enough(random) && FitSizeField(dir.c, pieces)
      && (!initialized ==> head == [] && pieces == [] && !writeClosed)
      && Carries()
    }

    ghost predicate Carries()
      requires dir.Valid() && Enough(random)
      reads this, dir
    {
      if writeClosed then out == head + Closed(dir.c, random, Pos(0, 0), pieces)
      else out == head + Batch(dir.c, random, Pos(0, 0), pieces) && dir.At() == PosAfterAll(dir.c, Pos(0, 0), |pieces|)
    }

    constructor (c: Codec, random: Random, network: Network, respHeader: Option<seq<Byte>>)
      requires ValidCodec(c) && Enough(random)
      ensures Valid() && fresh(dir) && dir.c == c && this.random == random && this.network == network
      ensures this.respHeader == respHeader && !initialized && !writeClosed && pieces == [] && head == []
    {
      dir := new Direction(c);
      this.random, this.network, this.respHeader := random, network, respHeader;
      initialized, writeClosed, out, head, pieces := false, false, [], [], [];
    }

    /** The response header comes up once, whatever becomes of it. */
    method InitWriteOnce() returns (header: Option<seq<Byte>>)
      modifies this`initialized
      ensures initialized && header == if old(initialized) then None else respHeader
    {
      header := if initialized then None else respHeader;
      initialized := true;
    }

    /**
     An empty write closes the stream with a terminal chunk; nothing can be written after
     it. The response header goes out with the first write if that write is neither empty
     nor refused, and otherwise never.
     */
    method Write(b: seq<Byte>) returns (r: Result<nat, WriteError>)
      requires Valid()
      modifies this, dir
      ensures Valid()
      ensures r == if old(writeClosed) then Err(ErrClosed)
                   else if network.Udp? && !FitSizeField(dir.c, [b]) then Err(TooLarge) else Ok(|b|)
      ensures writeClosed == (old(writeClosed) || b == []) && initialized == (old(initialized) || !old(writeClosed))
      ensures Flatten(pieces) == Flatten(old(pieces)) + if r.Ok? then b else []
      ensures PayloadSize(dir.c) > 0
      ensures pieces == old(pieces) + if r.Ok? then ChunksOf(dir.c, network, b) else []
      ensures NoneEmpty(old(pieces)) ==> NoneEmpty(pieces)
      ensures head == if !old(initialized) && r.Ok? && b != [] then Prefix(respHeader) else old(head)
    {
      if writeClosed {
        assert Flatten(pieces) == Flatten(pieces) + [] && pieces == pieces + [];
        return Err(ErrClosed);
      }
      var header := InitWriteOnce();
      if b == [] {
        CloseStream();
        assert Flatten(pieces) == Flatten(pieces) + b && pieces == pieces + [];
        assert [b][0] == [];
        return Ok(0);
      }
      if network.Tcp? {
        WriteTcp(b, header);
        r := Ok(|b|);
      } else {
        r := WriteUdp(b, header);
      }
    }

    method CloseStream()
      requires Valid() && initialized && !writeClosed
      modifies this, dir
      ensures Valid() && initialized && writeClosed && head == old(head) && pieces == old(pieces)
    {
      writeClosed := true;
      BatchSnoc(dir.c, random, Pos(0, 0), pieces, [], dir.At());
      Regrouped(head, Batch(dir.c, random, Pos(0, 0), pieces), Chunk(dir.c, random, dir.At(), []));
      var data := SealFromPool(dir, [], random);
      out := out + data;
    }

    /** `data` holds a prefix and then exactly the chunks of `more`. */
    ghost method Append(data: seq<Byte>, prefix: seq<Byte>, more: seq<seq<Byte>>, p: Pos)
      requires dir.Valid() && Enough(random) && initialized && !writeClosed
      requires FitSizeField(dir.c, pieces) && FitSizeField(dir.c, more) && p == PosAfterAll(dir.c, Pos(0, 0), |pieces|)
      requires prefix <= data && Sent(dir.c, random, p, more, data[|prefix|..], dir.At())
      requires prefix != [] ==> head == [] && pieces == []
      requires out == head + Batch(dir.c, random, Pos(0, 0), pieces) + data
      modifies this`head, this`pieces
      ensures Valid() && pieces == old(pieces) + more && head == old(head) + prefix
    {
      var sent, added := Batch(dir.c, random, Pos(0, 0), pieces), data[|prefix|..];
      assert data == prefix + added;
      BatchAppend(dir.c, random, Pos(0, 0), pieces, more, p);
      AppendRegroups(head, sent, prefix, added);
      head := head + prefix;
      pieces := pieces + more;
    }

    method WriteTcp(b: seq<Byte>, header: Option<seq<Byte>>)
      requires Valid() && initialized && !writeClosed && b != [] && (Prefix(header) != [] ==> head == [] && pieces == [])
      modifies this, dir
      ensures Valid() && initialized && !writeClosed && head == old(head) + Prefix(header)
      ensures PayloadSize(dir.c) > 0 && pieces == old(pieces) + Pieces(b, PayloadSize(dir.c), 0)
      ensures Flatten(pieces) == Flatten(old(pieces)) + b && (NoneEmpty(old(pieces)) ==> NoneEmpty(pieces))
    {
      ghost var p, more := dir.At(), Pieces(b, PayloadSize(dir.c), 0);
      PiecesFit(dir.c, more);
      PiecesJoin(b, PayloadSize(dir.c), 0);
      assert b[0..] == b;
      FlattenAppend(pieces, more);
      var n, data := WriteStream(dir, b, header, random);
      out := out + data;
      Append(data, Prefix(header), more, p);
    }

    method WriteUdp(b: seq<Byte>, header: Option<seq<Byte>>) returns (r: Result<nat, WriteError>)
      requires Valid() && initialized && !writeClosed && b != [] && (Prefix(header) != [] ==> head == [] && pieces == [])
      modifies this, dir
      ensures Valid() && initialized && !writeClosed
      ensures r == if FitSizeField(dir.c, [b]) then Ok(|b|) else Err(TooLarge)
      ensures pieces == old(pieces) + if r.Ok? then [b] else []
      ensures Flatten(pieces) == Flatten(old(pieces)) + if r.Ok? then b else []
      ensures NoneEmpty(old(pieces)) ==> NoneEmpty(pieces)
      ensures head == if r.Ok? then old(head) + Prefix(header) else old(head)
    {
      ghost var p := dir.At();
      var data;
      r, data := WritePacket(dir, b, header, random);
      if r.Err? {
        NoMorePieces(pieces);
        return;
      }
      OneMorePiece(pieces, b);
      BatchOfOne(dir.c, random, p, b);
      out := out + data;
      Append(data, Prefix(header), [b], p);
    }

    /** Several datagrams in one write; the response header fares as in Write. */
    method WriteBatch(datas: seq<seq<Byte>>) returns (r: Result<nat, WriteError>)
      requires Valid()
      modifies this, dir
      ensures Valid()
      ensures r == if old(writeClosed) then Err(ErrClosed)
                   else if AnyTooLarge(dir.c, datas) then Err(TooLarge) else Ok(|datas|)
      ensures writeClosed == old(writeClosed) && initialized == (old(initialized) || !old(writeClosed))
      ensures pieces == old(pieces) + if r.Ok? then datas else []
      ensures head == if !old(initialized) && r.Ok? then Prefix(respHeader) else old(head)
    {
      if writeClosed {
        assert pieces == pieces + [];
        return Err(ErrClosed);
      }
      var header := InitWriteOnce();
      r := WriteMany(datas, Prefix(header));
    }

    method WriteMany(datas: seq<seq<Byte>>, prefix: seq<Byte>) returns (r: Result<nat, WriteError>)
      requires Valid() && initialized && !writeClosed && (prefix != [] ==> head == [] && pieces == [])
      modifies this, dir
      ensures Valid() && initialized && !writeClosed
      ensures r == if AnyTooLarge(dir.c, datas) then Err(TooLarge) else Ok(|datas|)
      ensures pieces == old(pieces) + if r.Ok? then datas else []
      ensures head == if r.Ok? then old(head) + prefix else old(head)
    {
      ghost var p := dir.At();
      var data;
      r, data := WritePackets(dir, datas, prefix, random);
      if r.Err? {
        assert pieces == pieces + [];
        return;
      }
      out := out + data;
      Append(data, prefix, datas, p);
    }
  }

  lemma {:induction false} AppendRegroups(head: seq<Byte>, sent: seq<Byte>, prefix: seq<Byte>, added: seq<Byte>)
    requires prefix != [] ==> head == [] && sent == []
    ensures head + sent + (prefix + added) == head + prefix + (sent + added)
  {
    if prefix == [] {
      assert prefix + added == added && head + prefix == head;
      Regrouped(head, sent, added);
    } else {
      assert head + sent + (prefix + added) == prefix + added;
      assert sent + added == added;
    }
  }

  lemma {:induction false} PiecesFit(c: Codec, more: seq<seq<Byte>>)
    requires forall i :: 0 <= i < |more| ==> 0 < |more[i]| <= PayloadSize(c)
    ensures NoneEmpty(more) && FitSizeField(c, more)
  {
  }

  lemma {:induction false} BatchOfOne(c: Codec, random: Random, p: Pos, b: seq<Byte>)
    requires ValidCodec(c) && Enough(random)
    ensures Sent(c, random, p, [b], Chunk(c, random, p, b), After(c, p))
  {
    assert [b][1..] == [];
    assert Chunk(c, random, p, b) + [] == Chunk(c, random, p, b);
    assert PosAfterAll(c, After(c, p), 0) == After(c, p);
  }

  /** A single write or a batch. */
  datatype Call = One(b: seq<Byte>) | Many(datas: seq<seq<Byte>>)

  /** Neither empty nor refused. */
  ghost predicate GoesOut(c: Codec, network: Network, call: Call) {
    match call
    case One(b) => b != [] && (network.Udp? ==> FitSizeField(c, [b]))
    case Many(datas) => !AnyTooLarge(c, datas)
  }

  /** An empty write among the calls has closed the stream. */
  predicate ClosedBy(calls: seq<Call>) {
    One([]) in calls
  }

  /** The chunks the calls are sent as: nothing for a call that is refused, and nothing after the close. */
  ghost function CallPieces(c: Codec, network: Network, calls: seq<Call>): seq<seq<Byte>>
    requires PayloadSize(c) > 0
  {
    if calls == [] then []
    else
      var n := |calls| - 1;
      CallPieces(c, network, calls[..n]) +
      if ClosedBy(calls[..n]) || !GoesOut(c, network, calls[n]) then []
      else match calls[n] case One(b) => ChunksOf(c, network, b) case Many(datas) => datas
  }

  /**
   Any calls of a server. What goes out is their chunks up to the close; and its response
   header reaches the wire if and only if the first call is neither empty nor too large,
   since no later one makes up for it.
   */
  method ServerWrites(w: Writer, calls: seq<Call>)
    requires w.Valid() && !w.initialized
    modifies w, w.dir
    ensures w.Valid() && PayloadSize(w.dir.c) > 0
    ensures w.pieces == CallPieces(w.dir.c, w.network, calls) && w.writeClosed == ClosedBy(calls)
    ensures w.head == if calls != [] && GoesOut(w.dir.c, w.network, calls[0]) then Prefix(w.respHeader) else []
  {
    ghost var c, network := w.dir.c, w.network;
    assert calls[..0] == [];
    for i := 0 to |calls|
      invariant w.Valid() && w.initialized == (i > 0)
      invariant w.pieces == CallPieces(c, network, calls[..i]) && w.writeClosed == ClosedBy(calls[..i])
      invariant w.head == if i > 0 && GoesOut(c, network, calls[0]) then Prefix(w.respHeader) else []
    {
      CallPiecesSnoc(c, network, calls, i);
      match calls[i] {
        case One(b) => var _ := w.Write(b);
        case Many(datas) => var _ := w.WriteBatch(datas);
      }
    }
    assert calls[..|calls|] == calls;
  }

  lemma {:induction false} CallPiecesSnoc(c: Codec, network: Network, calls: seq<Call>, i: nat)
    requires PayloadSize(c) > 0 && i < |calls|
    ensures ClosedBy(calls[..i + 1]) <==> ClosedBy(calls[..i]) || calls[i] == One([])
    ensures CallPieces(c, network, calls[..i + 1]) == CallPieces(c, network, calls[..i]) +
              if ClosedBy(calls[..i]) || !GoesOut(c, network, calls[i]) then []
              else match calls[i] case One(b) => ChunksOf(c, network, b) case Many(datas) => datas
  {
    assert calls[..i + 1][..i] == calls[..i] && calls[..i + 1][i] == calls[i];
    assert calls[..i + 1] == calls[..i] + [calls[i]];
  }

  /** A datagram that is too large, and then one that is not: the wire is that one's chunk, without the header. */
  method OversizedFirstLosesHeader(c: Codec, random: Random, header: seq<Byte>, next: seq<Byte>) returns (wire: seq<Byte>)
    requires ValidCodec(c) && Enough(random) && next != [] && FitSizeField(c, [next])
    ensures wire == Chunk(c, random, Pos(0, 0), next)
  {
    var w := new Writer(c, random, Udp, Some(header));
    var oversized := Zeros(0x1_0000);
    ghost var refused: seq<seq<Byte>> := [oversized];
    assert !FitSizeField(c, refused) by {
      assert |refused[0]| == 0x1_0000;
    }
    var _ := w.Write(oversized);
    assert w.pieces == [];
    var _ := w.Write(next);
    assert w.pieces == [next];
    BatchOfOne(c, random, Pos(0, 0), next);
    wire := w.out;
    assert wire == [] + Chunk(c, random, Pos(0, 0), next);
  }

  // --- both ends ---------------------------------------------------------------------------------

  lemma {:induction false} UpToEmptyIs(datas: seq<seq<Byte>>, i: nat)
    requires i <= |datas| && (forall j :: 0 <= j < i ==> datas[j] != []) && (i < |datas| ==> datas[i] == [])
    ensures UpToEmpty(datas) == datas[..i]
    decreases i
  {
    if i > 0 {
      UpToEmptyIs(datas[1..], i - 1);
      assert datas[..i] == [datas[0]] + datas[1..][..i - 1];
    }
  }

  method WriteMore(w: Writer, b: seq<Byte>)
    requires w.Valid() && !w.writeClosed && w.network.Tcp? && b != []
    modifies w, w.dir
    ensures w.Valid() && !w.writeClosed && PayloadSize(w.dir.c) > 0
    ensures w.pieces == old(w.pieces) + Pieces(b, PayloadSize(w.dir.c), 0)
    ensures w.respHeader.None? && old(w.head) == [] ==> w.head == []
  {
    var _ := w.Write(b);
  }

  /** Write everything up to the first empty write, and close. */
  method WriteAll(w: Writer, writes: seq<seq<Byte>>)
    requires w.Valid() && !w.writeClosed && w.pieces == [] && w.network.Tcp?
    modifies w, w.dir
    ensures w.Valid() && w.writeClosed && PayloadSize(w.dir.c) > 0
    ensures w.pieces == AllPieces(UpToEmpty(writes), PayloadSize(w.dir.c))
    ensures w.respHeader.None? && old(w.head) == [] ==> w.head == []
  {
    ghost var per: nat := PayloadSize(w.dir.c);
    var i := 0;
    assert writes[..0] == [];
    while i < |writes| && writes[i] != []
      invariant 0 <= i <= |writes| && w.Valid() && !w.writeClosed
      invariant forall j :: 0 <= j < i ==> writes[j] != []
      invariant w.pieces == AllPieces(writes[..i], per)
      invariant w.respHeader.None? && old(w.head) == [] ==> w.head == []
    {
      AllPiecesSnoc(writes, i, per);
      WriteMore(w, writes[i]);
      i := i + 1;
    }
    UpToEmptyIs(writes, i);
    WriteNothing(w);
  }

  /** The empty write that ends a stream. */
  method WriteNothing(w: Writer)
    requires w.Valid() && !w.writeClosed
    modifies w, w.dir
    ensures w.Valid() && w.writeClosed && w.pieces == old(w.pieces) && w.head == old(w.head)
  {
    NoMorePieces(w.pieces);
    var _ := w.Write([]);
  }

  /** `out` has been handed out, and the reader still holds the rest of `all`. */
  ghost predicate Remains(c: Codec, v: View<Pos>, out: seq<Byte>, all: Decoding<ReadError>)
    requires ValidCodec(c)
  {
    Flatten(all.parts) == out + Unread(c, v) && EndOf(c, v) == all.end
  }

  lemma {:induction false} ReadKeepsRemains(c: Codec, v: View<Pos>, size: nat, out: seq<Byte>, all: Decoding<ReadError>)
    requires ValidCodec(c) && Remains(c, v, out, all)
    ensures var r := ReadStep(c, Tcp, v, size);
            && !r.Dropped?
            && (r.Failed? ==> r.error == all.end && out == Flatten(all.parts))
            && (r.Got? ==> Remains(c, r.view, out + r.bytes, all))
  {
    ReadHandsOutNext(c, v, size);
    var r := ReadStep(c, Tcp, v, size);
    if r.Got? {
      Regrouped(out, r.bytes, Unread(c, r.view));
    }
  }

  /** No chunk still to come is empty. */
  ghost predicate Solid(c: Codec, v: View<Pos>)
    requires ValidCodec(c)
  {
    NoneEmpty(Decoded(c, v.at, v.wire).parts)
  }

  /** Then a stream read with room that does not fail hands something out. */
  lemma {:induction false} ReadMakesProgress(c: Codec, v: View<Pos>, size: nat)
    requires ValidCodec(c) && Solid(c, v)
    ensures var r := ReadStep(c, Tcp, v, size); r.Got? ==> Solid(c, r.view) && (size > 0 ==> r.bytes != [])
  {
    if v.left == [] && OpenChunk(c, v.at, v.wire).Ok? {
      var o := OpenChunk(c, v.at, v.wire).value;
      PrependedNotEmpty(o.value, Decoded(c, After(c, v.at), o.rest));
    }
  }

  /**
   Reads with any buffer sizes hand out the stream in order, and all of it before the error
   it ends in; as many reads with room as there are bytes, and one more, reach that error.
   */
  method ReadAll(r: Reader, sizes: seq<nat>, ghost all: Decoding<ReadError>) returns (out: seq<Byte>, end: Option<ReadError>)
    requires r.Valid() && Remains(r.dir.c, r.Value(), [], all) && Solid(r.dir.c, r.Value())
    modifies r, r.dir, r.frame
    ensures out <= Flatten(all.parts)
    ensures end.Some? ==> out == Flatten(all.parts) && end.value == all.end
    ensures HaveRoom(sizes) && |sizes| > |Flatten(all.parts)| ==> end.Some?
  {
    out, end := [], None;
    var i := 0;
    while i < |sizes| && end.None?
      invariant r.frame == old(r.frame) || fresh(r.frame)
      invariant end.None? ==> r.Valid() && Remains(r.dir.c, r.Value(), out, all) && Solid(r.dir.c, r.Value())
      invariant end.None? && HaveRoom(sizes) ==> i <= |out|
      invariant end.Some? ==> out == Flatten(all.parts) && end.value == all.end
    {
      ReadKeepsRemains(r.dir.c, r.Value(), sizes[i], out, all);
      ReadMakesProgress(r.dir.c, r.Value(), sizes[i]);
      var got := r.Read(sizes[i], Tcp);
      if got.Bytes? {
        out := out + got.bytes;
      } else {
        end := Some(got.error);
      }
      i := i + 1;
    }
  }

  /** What is left of a closed stream when its first `cut` bytes arrive. */
  function CutTo(c: Codec, pieces: seq<seq<Byte>>, cut: nat): Decoding<ReadError> {
    Arrived(ChunkLens(c, Pos(0, 0), pieces), SIZE_BYTES, pieces, cut, Io(Eof), Io(UnexpectedEof))
  }

  lemma {:induction false} CutToIs(c: Codec, random: Random, pieces: seq<seq<Byte>>, cut: nat, wire: seq<Byte>)
    requires ValidCodec(c) && Enough(random) && NoneEmpty(pieces) && FitSizeField(c, pieces)
    requires wire == Closed(c, random, Pos(0, 0), pieces)
    ensures Decoded(c, Pos(0, 0), wire[..Min(cut, |wire|)]) == CutTo(c, pieces, cut)
    ensures Flatten(CutTo(c, pieces, cut).parts) <= Flatten(pieces)
    ensures cut >= Sum(ChunkLens(c, Pos(0, 0), pieces)) ==> CutTo(c, pieces, cut).parts == pieces
  {
    var lens := ChunkLens(c, Pos(0, 0), pieces);
    CutStreamDecodes(c, random, Pos(0, 0), pieces, lens, Min(cut, |wire|), wire);
    PrefixFlattens(pieces, WholeCount(lens, cut));
    ClosedLength(c, random, Pos(0, 0), pieces);
    if cut >= Sum(lens) {
      AllArrived(lens, SIZE_BYTES, pieces, cut, Io(Eof), Io(UnexpectedEof));
      PastAllChunks(lens, cut);
    }
    if cut > |wire| {
      AllArrived(lens, SIZE_BYTES, pieces, |wire|, Io(Eof), Io(UnexpectedEof));
      PastAllChunks(lens, |wire|);
    }
  }

  /** The chunks of a stream: those of the writes up to the first empty one. */
  function StreamPieces(c: Codec, writes: seq<seq<Byte>>): seq<seq<Byte>>
    requires PayloadSize(c) > 0
  {
    AllPieces(UpToEmpty(writes), PayloadSize(c))
  }

  /**
   A whole direction. Whatever the options, the write sizes, the read sizes and the point
   at which the connection is cut, what is read is a prefix of what was written. Enough
   reads reach the end, and then it is the complete chunks of the writes, everything if no
   chunk was cut off. The end is a clean one exactly when the closing chunk's size field
   arrived, or the cut is at a chunk boundary or just after a size field.
   */
  method Converse(c: Codec, random: Random, writes: seq<seq<Byte>>, cut: nat, sizes: seq<nat>)
    returns (out: seq<Byte>, end: Option<ReadError>)
    requires ValidCodec(c) && Enough(random)
    ensures PayloadSize(c) > 0 && out <= Flatten(UpToEmpty(writes))
    ensures var all := CutTo(c, StreamPieces(c, writes), cut);
            end.Some? ==> out == Flatten(all.parts) && end.value == all.end
    ensures end.Some? && cut >= Sum(ChunkLens(c, Pos(0, 0), StreamPieces(c, writes))) ==> out == Flatten(UpToEmpty(writes))
    ensures HaveRoom(sizes) && |sizes| > |Flatten(UpToEmpty(writes))| ==> end.Some?
  {
    var w := new Writer(c, random, Tcp, None);
    WriteAll(w, writes);
    var wire := w.out;
    assert wire == Closed(c, random, Pos(0, 0), StreamPieces(c, writes));
    ghost var all := CutTo(c, StreamPieces(c, writes), cut);
    StreamCut(c, random, writes, cut, wire, all);
    out, end := ReadCut(c, wire[..Min(cut, |wire|)], sizes, all);
  }

  lemma {:induction false} StreamCut(
    c: Codec, random: Random, writes: seq<seq<Byte>>, cut: nat, wire: seq<Byte>, all: Decoding<ReadError>)
    requires ValidCodec(c) && Enough(random) && PayloadSize(c) > 0
    requires wire == Closed(c, random, Pos(0, 0), StreamPieces(c, writes)) && all == CutTo(c, StreamPieces(c, writes), cut)
    ensures Decoded(c, Pos(0, 0), wire[..Min(cut, |wire|)]) == all && NoneEmpty(all.parts)
    ensures Flatten(all.parts) <= Flatten(UpToEmpty(writes))
    ensures cut >= Sum(ChunkLens(c, Pos(0, 0), StreamPieces(c, writes))) ==> Flatten(all.parts) == Flatten(UpToEmpty(writes))
  {
    var pieces := StreamPieces(c, writes);
    PiecesFit(c, pieces);
    AllPiecesJoin(UpToEmpty(writes), PayloadSize(c));
    CutToIs(c, random, pieces, cut, wire);
  }

  method ReadCut(c: Codec, wire: seq<Byte>, sizes: seq<nat>, ghost all: Decoding<ReadError>)
    returns (out: seq<Byte>, end: Option<ReadError>)
    requires ValidCodec(c) && Decoded(c, Pos(0, 0), wire) == all && NoneEmpty(all.parts)
    ensures out <= Flatten(all.parts)
    ensures end.Some? ==> out == Flatten(all.parts) && end.value == all.end
    ensures HaveRoom(sizes) && |sizes| > |Flatten(all.parts)| ==> end.Some?
  {
    var r := new Reader(c, wire);
    assert [] + Flatten(all.parts) == Flatten(all.parts);
    out, end := ReadAll(r, sizes, all);
  }
}
