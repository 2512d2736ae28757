/**
 The two ends of a VMess chunk stream as the code runs them: codec state advanced
 in place, writes cut into chunks, and a reader that decrypts every chunk into one
 reused buffer and serves from there what a caller's buffer cannot hold.
 */
module VmessConn {
  import opened Bytes
  import opened Aead
  import opened Quotients
  import opened Cutting
  import opened VmessChunks

  /** Codec state of one direction: the mask stream's position and the 16-bit chunk counter. */
  class Direction {
    const c: Codec
    var drawn: nat
    var count: U16
    /** How many chunks there have been; the code keeps its low 16 bits, here it also picks the random padding. */
    var used: nat

    ghost predicate Valid()
      reads this
    {
      ValidCodec(c) && count == used % 0x1_0000
    }

    ghost function At(): Pos
      reads this
    {
      Pos(drawn, used)
    }

    constructor (c: Codec)
      requires ValidCodec(c)
      ensures Valid() && this.c == c && At() == Pos(0, 0)
    {
      this.c := c;
      drawn, count, used := 0, 0, 0;
    }

    /** Padding lengths are drawn from the mask stream. */
    method NextPaddingLen() returns (n: nat)
      requires Valid()
      modifies this`drawn
      ensures Valid() && n == PadLen(c, old(At())) && drawn == old(drawn) + if c.padding then 1 else 0
    {
      if c.padding {
        n := c.masks(drawn) % 64;
        drawn := drawn + 1;
      } else {
        n := 0;
      }
    }

    /** Encode and Decode both apply the next mask. */
    method Mask(size: U16) returns (r: U16)
      requires Valid()
      modifies this`drawn
      ensures Valid() && drawn == old(drawn) + if c.masking then 1 else 0
      ensures r == if c.masking then Xor16(c.masks(old(drawn)), size) else size
    {
      if c.masking {
        r := Xor16(c.masks(drawn), size);
        drawn := drawn + 1;
      } else {
        r := size;
      }
    }

    method NextNonce() returns (nonce: seq<Byte>)
      requires Valid()
      modifies this`count, this`used
      ensures Valid() && nonce == Nonce(c, old(used)) && used == old(used) + 1
    {
      nonce := Be16(count) + c.iv[2..c.nonceSize];
      count := (count + 1) % 0x1_0000;
      used := used + 1;
    }
  }

  /** Seal one chunk into a frame: the padding length is drawn before the length is masked. */
  method SealInto(d: Direction, frame: array<Byte>, at: nat, b: seq<Byte>, random: Random) returns (end: nat)
    requires d.Valid() && Enough(random)
    requires at + SIZE_BYTES + |b| + d.c.cipher.overhead + MaxPadding(d.c) <= frame.Length
    modifies d, frame
    ensures d.Valid() && d.At() == After(d.c, old(d.At()))
    ensures end <= at + SIZE_BYTES + |b| + d.c.cipher.overhead + MaxPadding(d.c)
    ensures frame[..end] == old(frame[..at]) + Chunk(d.c, random, old(d.At()), b)
  {
    ghost var p := d.At();
    var encryptedSize := |b| + d.c.cipher.overhead;
    var paddingSize := d.NextPaddingLen();
    var pad := random(d.used)[..paddingSize];
    var field := d.Mask((encryptedSize + paddingSize) % 0x1_0000);
    assert field == Masked(d.c, p, ChunkSize(d.c, p, b) % 0x1_0000);
    var nonce := d.NextNonce();
    end := Assemble(frame, at, Be16(field), d.c.cipher.seal(nonce, b), pad);
  }

  /** Length field, sealed payload and padding, one after the other. */
  method Assemble(frame: array<Byte>, at: nat, field: seq<Byte>, sealed: seq<Byte>, pad: seq<Byte>) returns (end: nat)
    requires at + |field| + |sealed| + |pad| <= frame.Length
    modifies frame
    ensures end == at + |field| + |sealed| + |pad|
    ensures frame[..end] == old(frame[..at]) + (field + (sealed + pad))
  {
    end := Put(frame, at, field);
    end := Put(frame, end, sealed);
    end := Put(frame, end, pad);
  }

  method SealFromPool(d: Direction, b: seq<Byte>, random: Random) returns (data: seq<Byte>)
    requires d.Valid() && Enough(random)
    modifies d
    ensures d.Valid() && d.At() == After(d.c, old(d.At()))
    ensures data == Chunk(d.c, random, old(d.At()), b)
  {
    var frame := new Byte[SIZE_BYTES + |b| + d.c.cipher.overhead + MaxPadding(d.c)];
    var n := SealInto(d, frame, 0, b, random);
    data := frame[..n];
    assert data == [] + Chunk(d.c, random, old(d.At()), b);
  }

  // --- writing -----------------------------------------------------------------------------

  function PayloadSize(c: Codec): int {
    MAX_CHUNK - c.cipher.overhead - SIZE_BYTES - MaxPadding(c)
  }

  /** The payload of a full chunk, and how many chunks a write takes. */
  method Chunks(c: Codec, size: nat) returns (payloadSize: nat, numChunks: nat)
    requires ValidCodec(c)
    ensures payloadSize == PayloadSize(c) > 0 && numChunks == Ceil(size, payloadSize)
  {
    payloadSize := MAX_CHUNK - c.cipher.overhead - SIZE_BYTES - MaxPadding(c);
    CeilByRemainder(size, payloadSize);
    if size % payloadSize == 0 {
      numChunks := size / payloadSize;
    } else {
      numChunks := size / payloadSize + 1;
    }
  }

  lemma {:induction false} BatchSnoc(c: Codec, random: Random, p: Pos, datas: seq<seq<Byte>>, data: seq<Byte>, p': Pos)
    requires ValidCodec(c) && Enough(random) && p' == PosAfterAll(c, p, |datas|)
    ensures Batch(c, random, p, datas + [data]) == Batch(c, random, p, datas) + Chunk(c, random, p', data)
    ensures PosAfterAll(c, p, |datas| + 1) == After(c, p')
    decreases |datas|
  {
    if datas == [] {
      assert datas + [data] == [data] && [data][1..] == [];
      assert Chunk(c, random, p, data) + [] == [] + Chunk(c, random, p, data);
    } else {
      assert (datas + [data])[1..] == datas[1..] + [data];
      BatchSnoc(c, random, After(c, p), datas[1..], data, p');
      Regrouped(Chunk(c, random, p, datas[0]), Batch(c, random, After(c, p), datas[1..]), Chunk(c, random, p', data));
    }
  }

  /** These pieces have been written from position `p` on, and the sender is now at `p'`. */
  ghost predicate Sent(c: Codec, random: Random, p: Pos, pieces: seq<seq<Byte>>, out: seq<Byte>, p': Pos)
    requires ValidCodec(c) && Enough(random)
  {
    out == Batch(c, random, p, pieces) && p' == PosAfterAll(c, p, |pieces|)
  }

  lemma {:induction false} SentOneMore(c: Codec, random: Random, p: Pos, pieces: seq<seq<Byte>>, out: seq<Byte>, p': Pos, data: seq<Byte>)
    requires ValidCodec(c) && Enough(random) && Sent(c, random, p, pieces, out, p')
    ensures Sent(c, random, p, pieces + [data], out + Chunk(c, random, p', data), After(c, p'))
  {
    BatchSnoc(c, random, p, pieces, data, p');
  }

  /** The first `i` of the pieces `all` of `b` have been sent as `sent`; the rest of `b` starts at `at`. */
  ghost predicate Progress(c: Codec, random: Random, p: Pos, b: seq<Byte>, per: nat, all: seq<seq<Byte>>,
                           i: nat, at: nat, sent: seq<Byte>, p': Pos)
    requires ValidCodec(c) && Enough(random) && per > 0
  {
    i <= |all| && all[i..] == Pieces(b, per, Min(at, |b|)) && Sent(c, random, p, all[..i], sent, p')
  }

  lemma {:induction false} ProgressEnds(c: Codec, random: Random, p: Pos, b: seq<Byte>, per: nat, all: seq<seq<Byte>>,
                     i: nat, at: nat, sent: seq<Byte>, p': Pos)
    requires ValidCodec(c) && Enough(random) && per > 0 && Progress(c, random, p, b, per, all, i, at, sent, p')
    ensures at < |b| <==> i < |all|
    ensures i == |all| ==> Sent(c, random, p, all, sent, p')
  {
    if i == |all| {
      assert all[i..] == [] && all[..i] == all;
    } else {
      assert |all[i..]| > 0;
    }
  }

  /** Seal the next piece. */
  method SealPiece(d: Direction, b: seq<Byte>, payloadSize: nat, at: nat, random: Random,
                   ghost p: Pos, ghost all: seq<seq<Byte>>, ghost i: nat, ghost sent: seq<Byte>)
    returns (chunk: seq<Byte>)
    requires d.Valid() && Enough(random) && payloadSize > 0 && at < |b|
    requires Progress(d.c, random, p, b, payloadSize, all, i, at, sent, d.At())
    modifies d
    ensures d.Valid() && Progress(d.c, random, p, b, payloadSize, all, i + 1, at + payloadSize, sent + chunk, d.At())
  {
    var data := b[at..Min(at + payloadSize, |b|)];
    FirstPiece(b, payloadSize, at, Min(payloadSize, |b| - at));
    NextPiece(all, i, data, Pieces(b, payloadSize, Min(at + payloadSize, |b|)));
    assert all[..i + 1] == all[..i] + [data];
    SentOneMore(d.c, random, p, all[..i], sent, d.At(), data);
    chunk := SealFromPool(d, data, random);
  }

  /** The bytes that go before the first chunk. */
  function Prefix(preWrite: Option<seq<Byte>>): seq<Byte> {
    if preWrite.Some? then preWrite.value else []
  }

  /** A write to a stream: after the prefix, no byte is lost, and each chunk's length fits its field. */
  method WriteStream(d: Direction, b: seq<Byte>, preWrite: Option<seq<Byte>>, random: Random) returns (n: nat, out: seq<Byte>)
    requires d.Valid() && Enough(random) && (b == [] ==> preWrite.None?)
    modifies d
    ensures n == |b| && d.Valid() && PayloadSize(d.c) > 0 && Prefix(preWrite) <= out
    ensures Sent(d.c, random, old(d.At()), Pieces(b, PayloadSize(d.c), 0), out[|Prefix(preWrite)|..], d.At())
  {
    var payloadSize, numChunks := Chunks(d.c, |b|);
    PiecesCount(b, payloadSize, 0);
    ghost var p, all, sent: seq<Byte> := d.At(), Pieces(b, payloadSize, 0), [];
    var at: nat, i: nat := 0, 0;
    out := [];
    assert all[..0] == [] && all[0..] == all;
    if preWrite.Some? {
      var data := SealPiece(d, b, payloadSize, at, random, p, all, i, sent);
      out, sent := preWrite.value + data, sent + data;
      at, i := payloadSize, 1;
    }
    while i < numChunks
      invariant d.Valid() && i <= numChunks && Progress(d.c, random, p, b, payloadSize, all, i, at, sent, d.At())
      invariant out == Prefix(preWrite) + sent
    {
      ProgressEnds(d.c, random, p, b, payloadSize, all, i, at, sent, d.At());
      var data := SealPiece(d, b, payloadSize, at, random, p, all, i, sent);
      Regrouped(Prefix(preWrite), sent, data);
      out, sent := out + data, sent + data;
      at := at + payloadSize;
      i := i + 1;
    }
    ProgressEnds(d.c, random, p, b, payloadSize, all, i, at, sent, d.At());
    assert out[|Prefix(preWrite)|..] == sent;
    n := if at > |b| then |b| else at;
  }

  datatype WriteError = TooLarge | ErrClosed

  /** One datagram of a fixed-target packet connection; one that would overflow its length field is refused. */
  method WritePacket(d: Direction, b: seq<Byte>, preWrite: Option<seq<Byte>>, random: Random)
    returns (r: Result<nat, WriteError>, out: seq<Byte>)
    requires d.Valid() && Enough(random)
    modifies d
    ensures d.Valid()
    ensures r == if FitSizeField(d.c, [b]) then Ok(|b|) else Err(TooLarge)
    ensures r.Ok? ==> out == Prefix(preWrite) + Chunk(d.c, random, old(d.At()), b) && d.At() == After(d.c, old(d.At()))
    ensures r.Err? ==> out == [] && d.At() == old(d.At())
  {
    assert FitSizeField(d.c, [b]) <==> |[b][0]| + d.c.cipher.overhead + MaxPadding(d.c) < 0x1_0000;
    if |b| + d.c.cipher.overhead + MaxPadding(d.c) > 0xFFFF {
      return Err(TooLarge), [];
    }
    out := SealFromPool(d, b, random);
    out := Prefix(preWrite) + out;
    r := Ok(|b|);
  }

  function RoomFor(c: Codec, datas: seq<seq<Byte>>, i: nat): nat
    requires i <= |datas|
    decreases |datas| - i
  {
    if i == |datas| then 0 else SIZE_BYTES + |datas[i]| + c.cipher.overhead + MaxPadding(c) + RoomFor(c, datas, i + 1)
  }

  /** Some datagram is too long for its chunk's length field, by the batch writer's count. */
  predicate AnyTooLarge(c: Codec, datas: seq<seq<Byte>>) {
    exists i :: 0 <= i < |datas| && SIZE_BYTES + |datas[i]| + c.cipher.overhead + MaxPadding(c) > 0xFFFF
  }

  /** A prefix and several datagrams sealed into one buffer; one that would overflow its length field refuses them all. */
  method WritePackets(d: Direction, datas: seq<seq<Byte>>, prefix: seq<Byte>, random: Random)
    returns (r: Result<nat, WriteError>, out: seq<Byte>)
    requires d.Valid() && Enough(random)
    modifies d
    ensures d.Valid()
    ensures r == if AnyTooLarge(d.c, datas) then Err(TooLarge) else Ok(|datas|)
    ensures r.Ok? ==> FitSizeField(d.c, datas) && prefix <= out && Sent(d.c, random, old(d.At()), datas, out[|prefix|..], d.At())
    ensures r.Err? ==> out == [] && d.At() == old(d.At())
  {
    out := [];
    var total := |prefix|;
    for i := 0 to |datas|
      invariant total + RoomFor(d.c, datas, i) == |prefix| + RoomFor(d.c, datas, 0)
      invariant forall k :: 0 <= k < i ==> SIZE_BYTES + |datas[k]| + d.c.cipher.overhead + MaxPadding(d.c) <= 0xFFFF
    {
      if SIZE_BYTES + |datas[i]| + d.c.cipher.overhead + MaxPadding(d.c) > 0xFFFF {
        return Err(TooLarge), [];
      }
      total := total + (SIZE_BYTES + |datas[i]| + d.c.cipher.overhead + MaxPadding(d.c));
    }
    out := SealAll(d, datas, prefix, random, total);
    r := Ok(|datas|);
  }

  method SealAll(d: Direction, datas: seq<seq<Byte>>, prefix: seq<Byte>, random: Random, total: nat) returns (out: seq<Byte>)
    requires d.Valid() && Enough(random) && total == |prefix| + RoomFor(d.c, datas, 0)
    modifies d
    ensures d.Valid() && prefix <= out && Sent(d.c, random, old(d.At()), datas, out[|prefix|..], d.At())
  {
    ghost var p, sent: seq<Byte> := d.At(), [];
    var buf := new Byte[total];
    var offset: nat := Put(buf, 0, prefix);
    for i := 0 to |datas|
      invariant d.Valid() && offset <= total && offset + RoomFor(d.c, datas, i) <= total
      invariant Sent(d.c, random, p, datas[..i], sent, d.At()) && buf[..offset] == prefix + sent
    {
      assert datas[..i + 1] == datas[..i] + [datas[i]];
      SentOneMore(d.c, random, p, datas[..i], sent, d.At(), datas[i]);
      Regrouped(prefix, sent, Chunk(d.c, random, d.At(), datas[i]));
      sent := sent + Chunk(d.c, random, d.At(), datas[i]);
      offset := SealInto(d, buf, offset, datas[i], random);
    }
    assert datas[..|datas|] == datas;
    out := buf[..offset];
  }
}
