/**
 The VMess chunk stream (protocol/vmess/conn.go, chunk_size_parser.go): a length
 field masked with a stream of 16-bit draws, a sealed payload, and padding whose
 length comes from the same draws. Nothing on the wire says how far the draws have
 got, so both sides must consume them alike.
 */
module VmessChunks {
  import opened Bytes
  import opened Aead
  import opened Streams
  import opened Truncation
  import opened ChunkReading

  const MAX_CHUNK: nat := 16384
  const SIZE_BYTES: nat := 2
  const OPTION_MASKING: nat := 4
  const OPTION_PADDING: nat := 8

  /** The fixed part of one direction: `masks` is the output of the extendable hash seeded with the IV. */
  datatype Codec = Codec(masking: bool, padding: bool, masks: nat -> U16, iv: seq<Byte>, nonceSize: nat, cipher: Cipher)

  predicate ContainOption(options: Byte, option: nat)
    requires option > 0
  {
    options / option % 2 == 1
  }

  /** Padding lengths come from the mask stream, so without masking there is no padding either. */
  function CodecFor(options: Byte, masks: nat -> U16, iv: seq<Byte>, nonceSize: nat, cipher: Cipher): Codec {
    var masking := ContainOption(options, OPTION_MASKING);
    Codec(masking, masking && ContainOption(options, OPTION_PADDING), masks, iv, nonceSize, cipher)
  }

  ghost predicate ValidCodec(c: Codec) {
    && Lawful(c.cipher) && (c.padding ==> c.masking)
    && 2 <= c.nonceSize <= |c.iv|
    && c.cipher.overhead + SIZE_BYTES + 64 < MAX_CHUNK
  }

  /** Every option byte gives a codec both sides can use. */
  lemma {:induction false} EveryOptionByteIsValid(options: Byte, masks: nat -> U16, iv: seq<Byte>, nonceSize: nat, cipher: Cipher)
    requires Lawful(cipher) && 2 <= nonceSize <= |iv| && cipher.overhead + SIZE_BYTES + 64 < MAX_CHUNK
    ensures ValidCodec(CodecFor(options, masks, iv, nonceSize, cipher))
  {
  }

  /** Masking is bit 2 of the option byte; padding is bit 3, and takes bit 2 as well. */
  lemma {:induction false} OptionBits(options: Byte, masks: nat -> U16, iv: seq<Byte>, nonceSize: nat, cipher: Cipher)
    ensures var c := CodecFor(options, masks, iv, nonceSize, cipher);
            (c.masking <==> Bit(options, 2)) && (c.padding <==> Bit(options, 2) && Bit(options, 3))
  {
    assert Bit(options, 2) == Bit(options / 2, 1) == Bit(options / 4, 0);
    assert Bit(options, 3) == Bit(options / 2, 2) == Bit(options / 4, 1) == Bit(options / 8, 0);
  }

  /** How many masks have been drawn, and how many nonces used. */
  datatype Pos = Pos(drawn: nat, used: nat)

  function MaxPadding(c: Codec): nat {
    if c.padding then 64 else 0
  }

  function PadLen(c: Codec, p: Pos): (n: nat)
    ensures n <= MaxPadding(c)
  {
    if c.padding then c.masks(p.drawn) % 64 else 0
  }

  /** Masking a length; it is its own inverse. The padding length is drawn first. */
  function Masked(c: Codec, p: Pos, size: U16): U16 {
    if c.masking then Xor16(c.masks(if c.padding then p.drawn + 1 else p.drawn), size) else size
  }

  function After(c: Codec, p: Pos): Pos {
    Pos(p.drawn + (if c.masking then 1 else 0) + (if c.padding then 1 else 0), p.used + 1)
  }

  /** The chunk counter wraps at 16 bits. */
  function Nonce(c: Codec, used: nat): seq<Byte>
    requires 2 <= c.nonceSize <= |c.iv|
  {
    Be16(used % 0x1_0000) + c.iv[2..c.nonceSize]
  }

  /** Chunk nonces are distinct for 65536 chunks, and then repeat. */
  lemma {:induction false} NonceRepeatsExactly(c: Codec, i: nat, j: nat)
    requires 2 <= c.nonceSize <= |c.iv|
    ensures Nonce(c, i) == Nonce(c, j) <==> i % 0x1_0000 == j % 0x1_0000
  {
    var a, b := Be16(i % 0x1_0000), Be16(j % 0x1_0000);
    assert Nonce(c, i)[..2] == a && Nonce(c, j)[..2] == b;
    Be16RoundTrip(i % 0x1_0000);
    Be16RoundTrip(j % 0x1_0000);
  }

  lemma {:induction false} MaskedTwice(c: Codec, p: Pos, size: U16)
    ensures Masked(c, p, Masked(c, p, size)) == size
  {
    Xor16Involutive(c.masks(if c.padding then p.drawn + 1 else p.drawn), size);
  }

  // --- chunks ----------------------------------------------------------------------------

  function ChunkSize(c: Codec, p: Pos, data: seq<Byte>): nat {
    |data| + c.cipher.overhead + PadLen(c, p)
  }

  function SealedChunk(c: Codec, p: Pos, data: seq<Byte>, pad: seq<Byte>): seq<Byte>
    requires 2 <= c.nonceSize <= |c.iv|
  {
    Be16(Masked(c, p, ChunkSize(c, p, data) % 0x1_0000)) + (c.cipher.seal(Nonce(c, p.used), data) + pad)
  }

  /**
   Chunk number `used` on the wire: two bytes of length, masked if masking is on, the payload
   sealed under the chunk number and the IV, and padding. With padding the first draw gives
   its length and the second the mask.
   */
  lemma {:induction false} ChunkLayout(c: Codec, p: Pos, data: seq<Byte>, pad: seq<Byte>)
    requires ValidCodec(c) && |pad| == PadLen(c, p)
    ensures |pad| == if c.padding then c.masks(p.drawn) % 64 else 0
    ensures var w, n := SealedChunk(c, p, data, pad), |data| + c.cipher.overhead + |pad|;
            && |w| == 2 + n && w[2 + n - |pad|..] == pad
            && w[0] as int * 256 + w[1] ==
               (if !c.masking then n % 65536 else Xor16(c.masks(if c.padding then p.drawn + 1 else p.drawn), n % 65536))
            && w[2..2 + n - |pad|] ==
               c.cipher.seal([p.used % 65536 / 256, p.used % 256] + c.iv[2..c.nonceSize], data)
  {
    var field, sealed := Be16(Masked(c, p, ChunkSize(c, p, data) % 0x1_0000)), c.cipher.seal(Nonce(c, p.used), data);
    var w := SealedChunk(c, p, data, pad);
    assert w == field + (sealed + pad);
    assert w[2..2 + |sealed|] == sealed && w[2 + |sealed|..] == pad;
    assert Nonce(c, p.used) == [p.used % 65536 / 256, p.used % 256] + c.iv[2..c.nonceSize];
  }

  /** Io(Eof) is both the end a sender announces and a connection that ends between two reads. */
  datatype ReadError = Io(io: IoError) | TooSmall | FailAuth

  function OpenFrame(c: Codec, p: Pos, size: nat, rest: seq<Byte>): Result<Streamed<seq<Byte>>, ReadError>
    requires 2 <= c.nonceSize <= |c.iv|
  {
    var padding := PadLen(c, p);
    if size == (c.cipher.overhead + padding) % 0x1_0000 then Err(Io(Eof))
    else if size < padding then Err(TooSmall)
    else
      match ReadFull(rest, size)
      case Err(e) => Err(Io(e))
      case Ok(frame) =>
        match c.cipher.open(Nonce(c, p.used), frame.value[..size - padding])
        case None => Err(FailAuth)
        case Some(data) => Ok(Streamed(data, frame.rest))
  }

  function OpenChunk(c: Codec, p: Pos, wire: seq<Byte>): (r: Result<Streamed<seq<Byte>>, ReadError>)
    requires 2 <= c.nonceSize <= |c.iv|
    ensures r.Ok? ==> |r.value.rest| < |wire|
  {
    match ReadFull(wire, SIZE_BYTES)
    case Err(e) => Err(Io(e))
    case Ok(field) => OpenFrame(c, p, Masked(c, p, FromBe16(field.value)), field.rest)
  }

  lemma {:induction false} OpenFrameUndoesSeal(c: Codec, p: Pos, data: seq<Byte>, pad: seq<Byte>, rest: seq<Byte>)
    requires ValidCodec(c) && |pad| == PadLen(c, p)
    ensures OpenFrame(c, p, ChunkSize(c, p, data), c.cipher.seal(Nonce(c, p.used), data) + pad + rest)
         == if data == [] then Err(Io(Eof)) else Ok(Streamed(data, rest))
  {
    var sealed := c.cipher.seal(Nonce(c, p.used), data);
    var all, size := sealed + pad + rest, |sealed| + |pad|;
    assert all[..size] == sealed + pad && all[size..] == rest;
    assert (sealed + pad)[..|sealed|] == sealed;
  }

  /** A size field that unmasks to `size`. */
  predicate Announces(c: Codec, p: Pos, field: seq<Byte>, size: nat) {
    |field| == SIZE_BYTES && Masked(c, p, FromBe16(field)) == size
  }

  /** The reader unmasks the size the sender masked. */
  lemma {:induction false} SealedAnnounces(c: Codec, p: Pos, data: seq<Byte>, pad: seq<Byte>) returns (field: seq<Byte>)
    requires 2 <= c.nonceSize <= |c.iv| && ChunkSize(c, p, data) < 0x1_0000
    ensures Announces(c, p, field, ChunkSize(c, p, data))
    ensures SealedChunk(c, p, data, pad) == field + (c.cipher.seal(Nonce(c, p.used), data) + pad)
  {
    var size := ChunkSize(c, p, data);
    field := Be16(Masked(c, p, size));
    Be16RoundTrip(Masked(c, p, size));
    MaskedTwice(c, p, size);
  }

  lemma {:induction false} SizeFieldReads(c: Codec, p: Pos, field: seq<Byte>, size: nat, more: seq<Byte>)
    requires 2 <= c.nonceSize <= |c.iv| && Announces(c, p, field, size)
    ensures OpenChunk(c, p, field + more) == OpenFrame(c, p, size, more)
  {
    assert (field + more)[..2] == field && (field + more)[2..] == more;
  }

  /** The reader recovers a chunk, or reports the end of the stream: exactly when the chunk is empty. */
  lemma {:induction false} OpenUndoesSeal(c: Codec, p: Pos, data: seq<Byte>, pad: seq<Byte>, rest: seq<Byte>)
    requires ValidCodec(c) && |pad| == PadLen(c, p) && ChunkSize(c, p, data) < 0x1_0000
    ensures OpenChunk(c, p, SealedChunk(c, p, data, pad) + rest) ==
            if data == [] then Err(Io(Eof)) else Ok(Streamed(data, rest))
  {
    var field := SealedAnnounces(c, p, data, pad);
    var body := c.cipher.seal(Nonce(c, p.used), data) + pad;
    Regrouped(field, body, rest);
    SizeFieldReads(c, p, field, ChunkSize(c, p, data), body + rest);
    OpenFrameUndoesSeal(c, p, data, pad, rest);
  }

  /**
   A chunk of which only the first `n` bytes arrive. The reader reports a clean end when
   the connection ends before it or right after its size field, and for an empty chunk
   as soon as that field is complete.
   */
  lemma {:induction false} CutChunk(c: Codec, p: Pos, data: seq<Byte>, pad: seq<Byte>, n: nat)
    requires ValidCodec(c) && |pad| == PadLen(c, p) && ChunkSize(c, p, data) < 0x1_0000
    requires n < |SealedChunk(c, p, data, pad)|
    ensures OpenChunk(c, p, SealedChunk(c, p, data, pad)[..n]) ==
            Err(Io(if n == 0 || n == SIZE_BYTES || (data == [] && n > SIZE_BYTES) then Eof else UnexpectedEof))
  {
    if n >= SIZE_BYTES {
      var field := SealedAnnounces(c, p, data, pad);
      var body := c.cipher.seal(Nonce(c, p.used), data) + pad;
      TakePast(field, body, n);
      SizeFieldReads(c, p, field, ChunkSize(c, p, data), body[..n - 2]);
      CutFrame(c, p, data, body[..n - 2]);
    }
  }

  lemma {:induction false} CutFrame(c: Codec, p: Pos, data: seq<Byte>, more: seq<Byte>)
    requires ValidCodec(c) && |more| < ChunkSize(c, p, data) < 0x1_0000
    ensures OpenFrame(c, p, ChunkSize(c, p, data), more) == Err(Io(if data == [] || more == [] then Eof else UnexpectedEof))
  {
  }

  /** Random bytes for the padding of each chunk. */
  type Random = nat -> seq<Byte>

  ghost predicate Enough(random: Random) {
    forall k: nat :: |random(k)| >= 64
  }

  ghost function Pad(c: Codec, p: Pos, random: Random): (pad: seq<Byte>)
    requires Enough(random)
    ensures |pad| == PadLen(c, p)
  {
    random(p.used)[..PadLen(c, p)]
  }

  /** A chunk with its padding drawn from `random`. */
  ghost function Chunk(c: Codec, random: Random, p: Pos, data: seq<Byte>): seq<Byte>
    requires ValidCodec(c) && Enough(random)
  {
    SealedChunk(c, p, data, Pad(c, p, random))
  }

  // --- decoding a whole stream ------------------------------------------------------------------

  ghost function Decoded(c: Codec, p: Pos, wire: seq<Byte>): Decoding<ReadError>
    requires ValidCodec(c)
    decreases |wire|
  {
    match OpenChunk(c, p, wire)
    case Err(e) => Decoding([], e)
    case Ok(o) => Prepend(o.value, Decoded(c, After(c, p), o.rest))
  }

  /** A non-empty chunk is read back and the reader is where the sender is; an empty one ends the stream. */
  lemma {:induction false} DecodedChunk(c: Codec, random: Random, p: Pos, data: seq<Byte>, rest: seq<Byte>, wire: seq<Byte>)
    requires ValidCodec(c) && Enough(random) && ChunkSize(c, p, data) < 0x1_0000
    requires wire == Chunk(c, random, p, data) + rest
    ensures Decoded(c, p, wire) ==
            if data == [] then Decoding([], Io(Eof))
            else Prepend(data, Decoded(c, After(c, p), rest))
  {
    OpenUndoesSeal(c, p, data, Pad(c, p, random), rest);
  }

  // --- a batch of datagrams ----------------------------------------------------------------------

  ghost function PosAfterAll(c: Codec, p: Pos, n: nat): Pos
    decreases n
  {
    if n == 0 then p else PosAfterAll(c, After(c, p), n - 1)
  }

  /** Each chunk takes one draw for its mask and one for its padding length, where those are on, and one nonce. */
  lemma {:induction false} DrawsPerChunk(c: Codec, p: Pos, n: nat)
    ensures PosAfterAll(c, p, n).used == p.used + n
    ensures PosAfterAll(c, p, n).drawn ==
            p.drawn + (if c.masking && c.padding then 2 * n else if c.masking || c.padding then n else 0)
    decreases n
  {
    if n > 0 {
      DrawsPerChunk(c, After(c, p), n - 1);
    }
  }

  ghost function Batch(c: Codec, random: Random, p: Pos, datas: seq<seq<Byte>>): seq<Byte>
    requires ValidCodec(c) && Enough(random)
    decreases |datas|
  {
    if datas == [] then [] else Chunk(c, random, p, datas[0]) + Batch(c, random, After(c, p), datas[1..])
  }

  ghost predicate FitSizeField(c: Codec, datas: seq<seq<Byte>>) {
    forall i :: 0 <= i < |datas| ==> |datas[i]| + c.cipher.overhead + MaxPadding(c) < 0x1_0000
  }

  /** The datagrams before the first empty one. */
  function UpToEmpty(datas: seq<seq<Byte>>): seq<seq<Byte>> {
    if datas == [] || datas[0] == [] then [] else [datas[0]] + UpToEmpty(datas[1..])
  }

  /** What reading gives when these datagrams come before a rest that reads as `d`. */
  ghost function Before(datas: seq<seq<Byte>>, d: Decoding<ReadError>): Decoding<ReadError> {
    if datas == [] then d
    else if datas[0] == [] then Decoding([], Io(Eof))
    else Prepend(datas[0], Before(datas[1..], d))
  }

  lemma {:induction false} BeforeIs(datas: seq<seq<Byte>>, d: Decoding<ReadError>)
    ensures Before(datas, d) ==
            if NoneEmpty(datas) then Decoding(datas + d.parts, d.end) else Decoding(UpToEmpty(datas), Io(Eof))
  {
    if datas == [] {
      assert datas + d.parts == d.parts;
    } else {
      BeforeIs(datas[1..], d);
      assert NoneEmpty(datas) <==> datas[0] != [] && NoneEmpty(datas[1..]);
      assert datas + d.parts == [datas[0]] + (datas[1..] + d.parts);
    }
  }

  /** A batch reads back datagram by datagram; an empty datagram looks like the end of the stream. */
  lemma {:induction false} BatchDecodes(
    c: Codec, random: Random, p: Pos, datas: seq<seq<Byte>>, rest: seq<Byte>, wire: seq<Byte>, d: Decoding<ReadError>)
    requires ValidCodec(c) && Enough(random) && FitSizeField(c, datas)
    requires wire == Batch(c, random, p, datas) + rest && d == Decoded(c, PosAfterAll(c, p, |datas|), rest)
    ensures Decoded(c, p, wire) == Before(datas, d)
    decreases |datas|
  {
    if datas == [] {
      assert wire == rest;
    } else {
      var p', tail, chunk := After(c, p), datas[1..], Chunk(c, random, p, datas[0]);
      var later := Batch(c, random, p', tail);
      Regrouped(chunk, later, rest);
      BatchDecodes(c, random, p', tail, rest, later + rest, d);
      DecodedChunk(c, random, p, datas[0], later + rest, wire);
    }
  }

  lemma {:induction false} UpToEmptyIsAll(datas: seq<seq<Byte>>)
    ensures UpToEmpty(datas) == datas <==> NoneEmpty(datas)
  {
    if datas != [] {
      UpToEmptyIsAll(datas[1..]);
      assert datas == [datas[0]] + datas[1..];
      assert NoneEmpty(datas) <==> datas[0] != [] && NoneEmpty(datas[1..]);
    }
  }

  /** A batch on a live stream arrives in full if and only if none of its datagrams is empty; the end looks the same. */
  lemma {:induction false} BatchArrivesExactly(c: Codec, random: Random, p: Pos, datas: seq<seq<Byte>>)
    requires ValidCodec(c) && Enough(random) && FitSizeField(c, datas)
    ensures Decoded(c, p, Batch(c, random, p, datas)).parts == datas <==> NoneEmpty(datas)
    ensures Decoded(c, p, Batch(c, random, p, datas)).end == Io(Eof)
  {
    var wire := Batch(c, random, p, datas);
    assert wire == wire + [];
    var d := Decoded(c, PosAfterAll(c, p, |datas|), []);
    BatchDecodes(c, random, p, datas, [], wire, d);
    BeforeIs(datas, d);
    UpToEmptyIsAll(datas);
    assert datas + [] == datas;
  }

  /** The smallest failing batch: a datagram after an empty one is lost. */
  lemma {:induction false} EmptyDatagramHidesTheNext(c: Codec, random: Random, p: Pos, next: seq<Byte>)
    requires ValidCodec(c) && Enough(random) && FitSizeField(c, [[], next])
    ensures Decoded(c, p, Batch(c, random, p, [[], next])) == Decoding([], Io(Eof))
  {
    var datas, wire := [[], next], Batch(c, random, p, [[], next]);
    assert wire == wire + [] && datas[0] == [];
    BatchDecodes(c, random, p, datas, [], wire, Decoded(c, PosAfterAll(c, p, |datas|), []));
  }

  // --- a closed stream cut anywhere ------------------------------------------------------------------

  const CLOSING: seq<seq<Byte>> := [[]]

  /** The chunks of a stream and the empty one that closes it. */
  ghost function Closed(c: Codec, random: Random, p: Pos, pieces: seq<seq<Byte>>): seq<Byte>
    requires ValidCodec(c) && Enough(random)
  {
    Batch(c, random, p, pieces + CLOSING)
  }

  /** The lengths of the chunks on the wire. */
  function ChunkLens(c: Codec, p: Pos, pieces: seq<seq<Byte>>): (lens: seq<nat>)
    ensures |lens| == |pieces|
    decreases |pieces|
  {
    if pieces == [] then []
    else [SIZE_BYTES + ChunkSize(c, p, pieces[0])] + ChunkLens(c, After(c, p), pieces[1..])
  }

  /**
   A closed stream of which only the first `n` bytes arrive: its complete chunks are read
   back, and then the end is reported as clean exactly when the cut is at a chunk boundary,
   just after a size field, or past the size field of the closing chunk.
   */
  lemma {:induction false} CutStreamDecodes(
    c: Codec, random: Random, p: Pos, pieces: seq<seq<Byte>>, lens: seq<nat>, n: nat, wire: seq<Byte>)
    requires ValidCodec(c) && Enough(random) && NoneEmpty(pieces) && FitSizeField(c, pieces)
    requires wire == Closed(c, random, p, pieces) && n <= |wire| && lens == ChunkLens(c, p, pieces)
    ensures Decoded(c, p, wire[..n]) == Arrived(lens, SIZE_BYTES, pieces, n, Io(Eof), Io(UnexpectedEof))
    decreases |pieces|
  {
    if pieces == [] {
      CutClosing(c, random, p, n, wire);
      ArrivedNone(lens, SIZE_BYTES, pieces, n, Io(Eof), Io(UnexpectedEof));
    } else {
      var len, p', tail := lens[0], After(c, p), pieces[1..];
      var later := Closed(c, random, p', tail);
      ClosedStep(c, random, p, pieces, later);
      if n < len {
        CutFirst(c, random, p, pieces[0], n, wire, later);
        ArrivedNone(lens, SIZE_BYTES, pieces, n, Io(Eof), Io(UnexpectedEof));
      } else {
        CutStreamDecodes(c, random, p', tail, lens[1..], n - len, later);
        PastFirst(c, random, p, pieces[0], n, wire, later);
        ArrivedStep(lens, SIZE_BYTES, pieces, n, Io(Eof), Io(UnexpectedEof));
      }
    }
  }

  lemma {:induction false} ClosedStep(c: Codec, random: Random, p: Pos, pieces: seq<seq<Byte>>, later: seq<Byte>)
    requires ValidCodec(c) && Enough(random) && pieces != [] && later == Closed(c, random, After(c, p), pieces[1..])
    ensures Closed(c, random, p, pieces) == Chunk(c, random, p, pieces[0]) + later
  {
    assert (pieces + CLOSING)[1..] == pieces[1..] + CLOSING;
  }

  lemma {:induction false} CutFirst(c: Codec, random: Random, p: Pos, data: seq<Byte>, n: nat, wire: seq<Byte>, later: seq<Byte>)
    requires ValidCodec(c) && Enough(random) && data != [] && FitSizeField(c, [data])
    requires wire == Chunk(c, random, p, data) + later && n < SIZE_BYTES + ChunkSize(c, p, data)
    ensures Decoded(c, p, wire[..n]) == Decoding([], Io(if n == 0 || n == SIZE_BYTES then Eof else UnexpectedEof))
  {
    assert |[data][0]| + c.cipher.overhead + MaxPadding(c) < 0x1_0000;
    TakeWithin(Chunk(c, random, p, data), later, n);
    CutChunk(c, p, data, Pad(c, p, random), n);
  }

  lemma {:induction false} PastFirst(c: Codec, random: Random, p: Pos, data: seq<Byte>, n: nat, wire: seq<Byte>, later: seq<Byte>)
    requires ValidCodec(c) && Enough(random) && data != [] && FitSizeField(c, [data])
    requires wire == Chunk(c, random, p, data) + later && SIZE_BYTES + ChunkSize(c, p, data) <= n <= |wire|
    ensures n - (SIZE_BYTES + ChunkSize(c, p, data)) <= |later|
    ensures Decoded(c, p, wire[..n]) == Prepend(data, Decoded(c, After(c, p), later[..n - (SIZE_BYTES + ChunkSize(c, p, data))]))
  {
    ChunkLength(c, random, p, data);
    assert |[data][0]| + c.cipher.overhead + MaxPadding(c) < 0x1_0000;
    var rest := later[..n - |Chunk(c, random, p, data)|];
    TakePast(Chunk(c, random, p, data), later, n);
    DecodedChunk(c, random, p, data, rest, wire[..n]);
  }

  lemma {:induction false} CutClosing(c: Codec, random: Random, p: Pos, n: nat, wire: seq<Byte>)
    requires ValidCodec(c) && Enough(random) && wire == Closed(c, random, p, []) && n <= |wire|
    ensures Decoded(c, p, wire[..n]) == Decoding([], Io(if n == 1 then UnexpectedEof else Eof))
  {
    var chunk := Chunk(c, random, p, []);
    assert [] + CLOSING == CLOSING && CLOSING[1..] == [];
    assert wire == chunk + [] && wire == chunk;
    if n < |chunk| {
      CutChunk(c, p, [], Pad(c, p, random), n);
    } else {
      assert wire[..n] == chunk;
      DecodedChunk(c, random, p, [], [], wire[..n]);
    }
  }

  lemma {:induction false} ClosedLength(c: Codec, random: Random, p: Pos, pieces: seq<seq<Byte>>)
    requires ValidCodec(c) && Enough(random)
    ensures |Closed(c, random, p, pieces)| >= Sum(ChunkLens(c, p, pieces)) + SIZE_BYTES
    decreases |pieces|
  {
    if pieces == [] {
      assert [] + CLOSING == CLOSING && CLOSING[1..] == [];
    } else {
      var later := Closed(c, random, After(c, p), pieces[1..]);
      ClosedStep(c, random, p, pieces, later);
      ClosedLength(c, random, After(c, p), pieces[1..]);
      ChunkLength(c, random, p, pieces[0]);
    }
  }

  lemma {:induction false} ChunkLength(c: Codec, random: Random, p: Pos, data: seq<Byte>)
    requires ValidCodec(c) && Enough(random)
    ensures |Chunk(c, random, p, data)| == SIZE_BYTES + ChunkSize(c, p, data)
  {
  }

  /** A stream of two chunks cut after the first: the second is lost, and the end looks as clean as an announced one. */
  lemma {:induction false} CutAfterFirstLooksClosed(c: Codec, random: Random, p: Pos, first: seq<Byte>, second: seq<Byte>)
    requires ValidCodec(c) && Enough(random) && first != [] && second != [] && FitSizeField(c, [first, second])
    ensures var n := |Chunk(c, random, p, first)|;
            var wire := Closed(c, random, p, [first, second]);
            n < |wire| && Decoded(c, p, wire[..n]) == Decoding([first], Io(Eof))
  {
    var wire, later := Closed(c, random, p, [first, second]), Closed(c, random, After(c, p), [second]);
    assert [first, second][1..] == [second];
    ClosedStep(c, random, p, [first, second], later);
    assert |[first, second][0]| + c.cipher.overhead + MaxPadding(c) < 0x1_0000;
    PastFirst(c, random, p, first, |Chunk(c, random, p, first)|, wire, later);
    assert later[..0] == [];
    assert OpenChunk(c, After(c, p), []) == Err(Io(Eof));
    LaterIsNotEmpty(c, random, After(c, p), second);
  }

  lemma {:induction false} LaterIsNotEmpty(c: Codec, random: Random, p: Pos, data: seq<Byte>)
    requires ValidCodec(c) && Enough(random)
    ensures Closed(c, random, p, [data]) != []
  {
    ClosedStep(c, random, p, [data], Closed(c, random, After(c, p), [data][1..]));
  }
}
