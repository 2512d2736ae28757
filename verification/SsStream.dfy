/**
 The AEAD chunk stream of protocol/shadowsocks/tcp_conn.go after key setup: each
 chunk is a sealed two-byte length followed by the sealed payload, under a
 little-endian nonce counter that both sides advance in place. The reader decrypts
 every chunk into one reused buffer and serves what a caller's buffer cannot hold
 from there.
 */
module SsStream {
  import opened Bytes
  import opened Aead
  import opened Quotients
  import opened Cutting
  import opened Streams
  import opened Truncation
  import opened ChunkReading

  const CHUNK_MAX: nat := 16383

  function EncryptedPayloadLen(plainTextLen: nat, tagLen: nat): nat {
    var n := plainTextLen / CHUNK_MAX + if plainTextLen % CHUNK_MAX > 0 then 1 else 0;
    plainTextLen + n * (2 + tagLen + tagLen)
  }

  /** The nonces of a direction, in order of use. */
  type Nonces = nat -> seq<Byte>

  /** The little-endian counter of `len` bytes. */
  function Counter(len: nat): Nonces {
    (k: nat) => LeBytes(k, len)
  }

  /** One sealed chunk, using nonces number `k` and `k + 1`; the length is cut to 16 bits. */
  function SealedChunk(c: Cipher, nonces: Nonces, k: nat, data: seq<Byte>): seq<Byte> {
    c.seal(nonces(k), Be16(|data| % 0x1_0000)) + c.seal(nonces(k + 1), data)
  }

  /** One chunk: the length in two bytes under one nonce, the payload under the next. */
  lemma {:induction false} ChunkLayout(c: Cipher, len: nat, k: nat, data: seq<Byte>)
    requires Lawful(c) && |data| <= CHUNK_MAX
    ensures var w, end := SealedChunk(c, Counter(len), k, data), 2 + c.overhead;
            && |w| == end + |data| + c.overhead
            && w[..end] == c.seal(LeBytes(k, len), [|data| / 256, |data| % 256])
            && w[end..] == c.seal(LeBytes(k + 1, len), data)
  {
    var first, second := c.seal(LeBytes(k, len), [|data| / 256, |data| % 256]), c.seal(LeBytes(k + 1, len), data);
    assert SealedChunk(c, Counter(len), k, data) == first + second;
  }

  /** Pieces sealed one after the other, from nonce number `k` on. */
  function Sealed(c: Cipher, nonces: Nonces, k: nat, pieces: seq<seq<Byte>>): seq<Byte>
    decreases |pieces|
  {
    if pieces == [] then [] else SealedChunk(c, nonces, k, pieces[0]) + Sealed(c, nonces, k + 2, pieces[1..])
  }

  /** The lengths of the chunks on the wire. */
  function ChunkLens(tagLen: nat, pieces: seq<seq<Byte>>): (lens: seq<nat>)
    ensures |lens| == |pieces|
  {
    if pieces == [] then [] else [2 + tagLen + |pieces[0]| + tagLen] + ChunkLens(tagLen, pieces[1..])
  }

  lemma {:induction false} SealedChunkLength(c: Cipher, nonces: Nonces, k: nat, data: seq<Byte>)
    requires Lawful(c)
    ensures |SealedChunk(c, nonces, k, data)| == 2 + c.overhead + |data| + c.overhead
  {
  }

  lemma {:induction false} SealedLength(c: Cipher, nonces: Nonces, k: nat, pieces: seq<seq<Byte>>)
    requires Lawful(c)
    ensures |Sealed(c, nonces, k, pieces)| == Sum(ChunkLens(c.overhead, pieces))
    decreases |pieces|
  {
    if pieces != [] {
      SealedChunkLength(c, nonces, k, pieces[0]);
      SealedLength(c, nonces, k + 2, pieces[1..]);
    }
  }

  lemma {:induction false} LengthPerChunk(tagLen: nat, pieces: seq<seq<Byte>>)
    ensures Sum(ChunkLens(tagLen, pieces)) == |Flatten(pieces)| + |pieces| * (2 + tagLen + tagLen)
  {
    if pieces != [] {
      LengthPerChunk(tagLen, pieces[1..]);
      Distribute(|pieces[1..]|, 2 + tagLen + tagLen);
    }
  }

  lemma {:induction false} Distribute(n: nat, per: nat)
    ensures (1 + n) * per == per + n * per
  {
  }

  /** The up-front formula is the size the sealed chunks of a text add up to. */
  lemma {:induction false} EncryptedPayloadLenIsExact(c: Cipher, nonces: Nonces, k: nat, b: seq<Byte>)
    requires Lawful(c)
    ensures |Sealed(c, nonces, k, Pieces(b, CHUNK_MAX, 0))| == EncryptedPayloadLen(|b|, c.overhead)
  {
    var pieces := Pieces(b, CHUNK_MAX, 0);
    SealedLength(c, nonces, k, pieces);
    LengthPerChunk(c.overhead, pieces);
    PiecesJoin(b, CHUNK_MAX, 0);
    PiecesCount(b, CHUNK_MAX, 0);
    CeilByRemainder(|b|, CHUNK_MAX);
  }

  lemma {:induction false} SealedAppend(c: Cipher, nonces: Nonces, k: nat, a: seq<seq<Byte>>, b: seq<seq<Byte>>, k': nat)
    requires k' == k + 2 * |a|
    ensures Sealed(c, nonces, k, a + b) == Sealed(c, nonces, k, a) + Sealed(c, nonces, k', b)
    decreases |a|
  {
    if a == [] {
      assert a + b == b;
      assert [] + Sealed(c, nonces, k, b) == Sealed(c, nonces, k, b);
    } else {
      assert (a + b)[1..] == a[1..] + b && (a + b)[0] == a[0];
      SealedAppend(c, nonces, k + 2, a[1..], b, k');
      Regrouped(SealedChunk(c, nonces, k, a[0]), Sealed(c, nonces, k + 2, a[1..]), Sealed(c, nonces, k', b));
    }
  }

  // --- opening -------------------------------------------------------------------------

  datatype ReadError = Io(io: IoError) | FailAuth

  /** Read `n` bytes of the wire and open them. */
  function OpenPart(c: Cipher, nonce: seq<Byte>, wire: seq<Byte>, n: nat): (r: Result<Streamed<seq<Byte>>, ReadError>) {
    match ReadFull(wire, n)
    case Err(e) => Err(Io(e))
    case Ok(frame) =>
      match c.open(nonce, frame.value)
      case None => Err(FailAuth)
      case Some(text) => Ok(Streamed(text, frame.rest))
  }

  /** Open the first chunk of the wire: its length, then a payload of that length. */
  ghost function OpenChunk(c: Cipher, nonces: Nonces, k: nat, wire: seq<Byte>): (r: Result<Streamed<seq<Byte>>, ReadError>)
    requires Lawful(c)
    ensures r.Ok? ==> |r.value.rest| < |wire|
  {
    match OpenPart(c, nonces(k), wire, 2 + c.overhead)
    case Err(e) => Err(e)
    case Ok(length) => OpenPart(c, nonces(k + 1), length.rest, FromBe16(length.value) + c.overhead)
  }

  /** What a reader gets out of any wire, and the error it ends in. */
  ghost function Decoded(c: Cipher, nonces: Nonces, k: nat, wire: seq<Byte>): Decoding<ReadError>
    requires Lawful(c)
    decreases |wire|
  {
    match OpenChunk(c, nonces, k, wire)
    case Err(e) => Decoding([], e)
    case Ok(o) => Prepend(o.value, Decoded(c, nonces, k + 2, o.rest))
  }

  lemma {:induction false} OpenUndoesSealPart(c: Cipher, nonce: seq<Byte>, text: seq<Byte>, rest: seq<Byte>)
    requires Lawful(c)
    ensures OpenPart(c, nonce, c.seal(nonce, text) + rest, |text| + c.overhead) == Ok(Streamed(text, rest))
  {
    var sealed := c.seal(nonce, text);
    assert (sealed + rest)[..|sealed|] == sealed && (sealed + rest)[|sealed|..] == rest;
  }

  /** The length part opens to the length of the payload part. */
  lemma {:induction false} OpenLength(c: Cipher, nonces: Nonces, k: nat, data: seq<Byte>, more: seq<Byte>)
    requires Lawful(c) && |data| < 0x1_0000
    ensures OpenChunk(c, nonces, k, c.seal(nonces(k), Be16(|data| % 0x1_0000)) + more)
         == OpenPart(c, nonces(k + 1), more, |data| + c.overhead)
  {
    OpenUndoesSealPart(c, nonces(k), Be16(|data|), more);
    Be16RoundTrip(|data|);
  }

  /** Opening undoes sealing, chunk by chunk. */
  lemma {:induction false} OpenUndoesSeal(c: Cipher, nonces: Nonces, k: nat, data: seq<Byte>, rest: seq<Byte>)
    requires Lawful(c) && |data| < 0x1_0000
    ensures OpenChunk(c, nonces, k, SealedChunk(c, nonces, k, data) + rest) == Ok(Streamed(data, rest))
  {
    var first, second := c.seal(nonces(k), Be16(|data| % 0x1_0000)), c.seal(nonces(k + 1), data);
    Regrouped(first, second, rest);
    OpenLength(c, nonces, k, data, second + rest);
    OpenUndoesSealPart(c, nonces(k + 1), data, rest);
  }

  /** A chunk of which only the first `n` bytes arrive: a clean end before it, or right after its length part. */
  lemma {:induction false} CutChunk(c: Cipher, nonces: Nonces, k: nat, data: seq<Byte>, n: nat)
    requires Lawful(c) && |data| < 0x1_0000 && n < |SealedChunk(c, nonces, k, data)|
    ensures OpenChunk(c, nonces, k, SealedChunk(c, nonces, k, data)[..n]) ==
            Err(Io(if n == 0 || n == 2 + c.overhead then Eof else UnexpectedEof))
  {
    var first, second := c.seal(nonces(k), Be16(|data| % 0x1_0000)), c.seal(nonces(k + 1), data);
    if n >= |first| {
      TakePast(first, second, n);
      OpenLength(c, nonces, k, data, second[..n - |first|]);
    }
  }

  // --- a stream cut anywhere -----------------------------------------------------------------

  ghost predicate LengthsFit(pieces: seq<seq<Byte>>) {
    forall i :: 0 <= i < |pieces| ==> |pieces[i]| < 0x1_0000
  }

  /**
   A stream of which only the first `n` bytes arrive: its complete chunks are read back,
   and then the end is reported as clean exactly when the cut is at a chunk boundary or
   just after a length part.
   */
  lemma {:induction false} CutStreamDecodes(
    c: Cipher, nonces: Nonces, k: nat, pieces: seq<seq<Byte>>, lens: seq<nat>, n: nat, wire: seq<Byte>)
    requires Lawful(c) && LengthsFit(pieces)
    requires wire == Sealed(c, nonces, k, pieces) && n <= |wire| && lens == ChunkLens(c.overhead, pieces)
    ensures Decoded(c, nonces, k, wire[..n]) == Arrived(lens, 2 + c.overhead, pieces, n, Io(Eof), Io(UnexpectedEof))
    decreases |pieces|
  {
    if pieces == [] {
      NothingDecodes(c, nonces, k, wire[..n]);
      ArrivedNone(lens, 2 + c.overhead, pieces, n, Io(Eof), Io(UnexpectedEof));
    } else {
      var len, tail := lens[0], pieces[1..];
      var later := Sealed(c, nonces, k + 2, tail);
      if n < len {
        CutFirst(c, nonces, k, pieces[0], n, wire, later);
        ArrivedNone(lens, 2 + c.overhead, pieces, n, Io(Eof), Io(UnexpectedEof));
      } else {
        PastFirst(c, nonces, k, pieces[0], n, wire, later);
        CutStreamDecodes(c, nonces, k + 2, tail, lens[1..], n - len, later);
        ArrivedStep(lens, 2 + c.overhead, pieces, n, Io(Eof), Io(UnexpectedEof));
      }
    }
  }

  lemma {:induction false} NothingDecodes(c: Cipher, nonces: Nonces, k: nat, wire: seq<Byte>)
    requires Lawful(c) && wire == []
    ensures Decoded(c, nonces, k, wire) == Decoding([], Io(Eof))
  {
  }

  lemma {:induction false} CutFirst(c: Cipher, nonces: Nonces, k: nat, data: seq<Byte>, n: nat, wire: seq<Byte>, later: seq<Byte>)
    requires Lawful(c) && |data| < 0x1_0000 && n < 2 + c.overhead + |data| + c.overhead
    requires wire == SealedChunk(c, nonces, k, data) + later
    ensures n <= |wire|
    ensures Decoded(c, nonces, k, wire[..n]) == Decoding([], Io(if n == 0 || n == 2 + c.overhead then Eof else UnexpectedEof))
  {
    TakeWithin(SealedChunk(c, nonces, k, data), later, n);
    CutChunk(c, nonces, k, data, n);
  }

  lemma {:induction false} PastFirst(c: Cipher, nonces: Nonces, k: nat, data: seq<Byte>, n: nat, wire: seq<Byte>, later: seq<Byte>)
    requires Lawful(c) && |data| < 0x1_0000 && 2 + c.overhead + |data| + c.overhead <= n <= |wire|
    requires wire == SealedChunk(c, nonces, k, data) + later
    ensures n - (2 + c.overhead + |data| + c.overhead) <= |later|
    ensures Decoded(c, nonces, k, wire[..n]) ==
            Prepend(data, Decoded(c, nonces, k + 2, later[..n - (2 + c.overhead + |data| + c.overhead)]))
  {
    TakePast(SealedChunk(c, nonces, k, data), later, n);
    OpenUndoesSeal(c, nonces, k, data, later[..n - (2 + c.overhead + |data| + c.overhead)]);
  }

  /** A stream of two chunks cut after the first: the second is lost, and the end looks clean. */
  lemma {:induction false} CutAfterFirstLooksClean(c: Cipher, nonces: Nonces, k: nat, first: seq<Byte>, second: seq<Byte>)
    requires Lawful(c) && LengthsFit([first, second])
    ensures var n := |SealedChunk(c, nonces, k, first)|;
            var wire := Sealed(c, nonces, k, [first, second]);
            n < |wire| && Decoded(c, nonces, k, wire[..n]) == Decoding([first], Io(Eof))
  {
    var n, wire := |SealedChunk(c, nonces, k, first)|, Sealed(c, nonces, k, [first, second]);
    var later := Sealed(c, nonces, k + 2, [second]);
    assert [first, second][1..] == [second] && [second][1..] == [];
    assert |[first, second][0]| < 0x1_0000;
    PastFirst(c, nonces, k, first, n, wire, later);
    assert later[..0] == [];
    NothingDecodes(c, nonces, k + 2, []);
  }

  // --- the sending side -------------------------------------------------------------------

  method PutSealed(c: Cipher, buf: array<Byte>, at: nat, nonce: seq<Byte>, text: seq<Byte>) returns (end: nat)
    requires Lawful(c) && at + |text| + c.overhead <= buf.Length
    modifies buf
    ensures end == at + |text| + c.overhead
    ensures buf[..end] == old(buf[..at]) + c.seal(nonce, text)
  {
    var sealed := c.seal(nonce, text);
    forall i | 0 <= i < |sealed| { buf[at + i] := sealed[i]; }
    end := at + |sealed|;
  }

  /** Seal a text into a buffer that can hold it, advancing the nonce in place. */
  method Seal(c: Cipher, buf: array<Byte>, nonce: array<Byte>, b: seq<Byte>, ghost k: nat) returns (offset: nat)
    requires Lawful(c) && buf != nonce
    requires nonce[..] == Counter(nonce.Length)(k)
    requires |Sealed(c, Counter(nonce.Length), k, Pieces(b, CHUNK_MAX, 0))| <= buf.Length
    modifies buf, nonce
    ensures offset <= buf.Length && buf[..offset] == Sealed(c, Counter(nonce.Length), k, Pieces(b, CHUNK_MAX, 0))
    ensures nonce[..] == Counter(nonce.Length)(k + 2 * |Pieces(b, CHUNK_MAX, 0)|)
  {
    ghost var pieces := Pieces(b, CHUNK_MAX, 0);
    ghost var all := Sealed(c, Counter(nonce.Length), k, pieces);
    assert [] + all == all;
    offset := SealLoop(c, buf, nonce, b, k, all, k + 2 * |pieces|);
  }

  method SealLoop(c: Cipher, buf: array<Byte>, nonce: array<Byte>, b: seq<Byte>,
                  ghost k: nat, ghost all: seq<Byte>, ghost last: nat)
    returns (offset: nat)
    requires Lawful(c) && buf != nonce && |all| <= buf.Length
    requires nonce[..] == Counter(nonce.Length)(k) && Sealing(c, Counter(nonce.Length), b, 0, k, [], all, last)
    modifies buf, nonce
    ensures offset == |all| && buf[..offset] == all && nonce[..] == Counter(nonce.Length)(last)
  {
    ghost var nonces := Counter(nonce.Length);
    offset := 0;
    var i: nat := 0;
    ghost var next: nat := k;
    assert buf[..0] == [];
    while i < |b|
      invariant i <= |b| && offset <= |all| && nonce[..] == nonces(next)
      invariant Sealing(c, nonces, b, i, next, buf[..offset], all, last)
      decreases |b| - i
    {
      var l := Min(CHUNK_MAX, |b| - i);
      offset := SealNext(c, buf, nonce, offset, b, i, l, next, all, last);
      i := i + l;
      next := next + 2;
    }
    SealingDone(c, nonces, b, next, buf[..offset], all, last);
  }

  lemma {:induction false} SealingDone(c: Cipher, nonces: Nonces, b: seq<Byte>, next: nat, done: seq<Byte>, all: seq<Byte>, last: nat)
    requires Sealing(c, nonces, b, |b|, next, done, all, last)
    ensures done == all && next == last
  {
    assert done + [] == done;
  }

  /** One turn of the loop: the chunk of `l` bytes at `i`. */
  method SealNext(c: Cipher, buf: array<Byte>, nonce: array<Byte>, at: nat, b: seq<Byte>, i: nat, l: nat,
                  ghost next: nat, ghost all: seq<Byte>, ghost last: nat)
    returns (end: nat)
    requires Lawful(c) && buf != nonce && i < |b| && l == Min(CHUNK_MAX, |b| - i) && at <= |all| <= buf.Length
    requires nonce[..] == Counter(nonce.Length)(next)
    requires Sealing(c, Counter(nonce.Length), b, i, next, buf[..at], all, last)
    modifies buf, nonce
    ensures end <= |all| && nonce[..] == Counter(nonce.Length)(next + 2)
    ensures Sealing(c, Counter(nonce.Length), b, i + l, next + 2, buf[..end], all, last)
  {
    ghost var nonces, done := Counter(nonce.Length), buf[..at];
    ghost var chunk := SealedChunk(c, nonces, next, b[i..i + l]);
    SealingStep(c, nonces, b, i, l, next, done, chunk, all, last);
    end := SealChunk(c, buf, nonce, at, b[i..i + l], next);
    assert buf[..end] == done + chunk;
  }

  /** `done` holds b[..i] sealed, and the rest is still to be, from nonce number `next` on. */
  ghost predicate Sealing(c: Cipher, nonces: Nonces, b: seq<Byte>, i: nat, next: nat,
                          done: seq<Byte>, all: seq<Byte>, last: nat)
  {
    && i <= |b|
    && done + Sealed(c, nonces, next, Pieces(b, CHUNK_MAX, i)) == all
    && next + 2 * |Pieces(b, CHUNK_MAX, i)| == last
  }

  lemma {:induction false} SealingStep(c: Cipher, nonces: Nonces, b: seq<Byte>, i: nat, l: nat, next: nat,
                    done: seq<Byte>, chunk: seq<Byte>, all: seq<Byte>, last: nat)
    requires Sealing(c, nonces, b, i, next, done, all, last) && i < |b| && l == Min(CHUNK_MAX, |b| - i)
    requires chunk == SealedChunk(c, nonces, next, b[i..i + l])
    ensures Sealing(c, nonces, b, i + l, next + 2, done + chunk, all, last) && |done| + |chunk| <= |all|
  {
    var later := Pieces(b, CHUNK_MAX, i + l);
    FirstPiece(b, CHUNK_MAX, i, l);
    assert ([b[i..i + l]] + later)[1..] == later;
    Regrouped(done, chunk, Sealed(c, nonces, next + 2, later));
  }

  /** The two seals of one chunk: its length, then its payload. */
  method SealChunk(c: Cipher, buf: array<Byte>, nonce: array<Byte>, at: nat, data: seq<Byte>, ghost k: nat)
    returns (end: nat)
    requires Lawful(c) && buf != nonce && |data| <= CHUNK_MAX
    requires nonce[..] == Counter(nonce.Length)(k)
    requires at + |SealedChunk(c, Counter(nonce.Length), k, data)| <= buf.Length
    modifies buf, nonce
    ensures end == at + |SealedChunk(c, Counter(nonce.Length), k, data)|
    ensures buf[..end] == old(buf[..at]) + SealedChunk(c, Counter(nonce.Length), k, data)
    ensures nonce[..] == Counter(nonce.Length)(k + 2)
  {
    end := PutSealed(c, buf, at, nonce[..], Be16(|data|));
    IncrementCounts(k, nonce.Length);
    BytesIncLittleEndian(nonce);
    end := PutSealed(c, buf, end, nonce[..], data);
    IncrementCounts(k + 1, nonce.Length);
    BytesIncLittleEndian(nonce);
  }

  // --- the receiving side --------------------------------------------------------------------

  /** One call of Read with a buffer of `size` bytes; a position is the number of nonces used. */
  ghost function ReadStep(c: Cipher, nonces: Nonces, v: View<nat>, size: nat): Result<Handed<nat>, ReadError>
    requires Lawful(c)
  {
    if v.left != [] then Ok(Taken(v, size))
    else
      match OpenChunk(c, nonces, v.at, v.wire)
      case Err(e) => Err(e)
      case Ok(o) => Ok(Taken(View(v.at + 2, o.value, o.rest), size))
  }

  /** Plaintext not handed out yet. */
  ghost function Unread(c: Cipher, nonces: Nonces, v: View<nat>): seq<Byte>
    requires Lawful(c)
  {
    v.left + Flatten(Decoded(c, nonces, v.at, v.wire).parts)
  }

  ghost function EndOf(c: Cipher, nonces: Nonces, v: View<nat>): ReadError
    requires Lawful(c)
  {
    Decoded(c, nonces, v.at, v.wire).end
  }

  /** A read hands out what comes next, and fails only at the end, with the error the stream ends in. */
  lemma {:induction false} ReadHandsOutNext(c: Cipher, nonces: Nonces, v: View<nat>, size: nat)
    requires Lawful(c)
    ensures var r := ReadStep(c, nonces, v, size);
            && (r.Err? ==> Unread(c, nonces, v) == [] && r.error == EndOf(c, nonces, v))
            && (r.Ok? ==> |r.value.bytes| <= size && EndOf(c, nonces, r.value.view) == EndOf(c, nonces, v)
                          && Unread(c, nonces, v) == r.value.bytes + Unread(c, nonces, r.value.view))
  {
    if v.left != [] {
      TakenThenRest(v, size, Flatten(Decoded(c, nonces, v.at, v.wire).parts));
    } else if OpenChunk(c, nonces, v.at, v.wire).Ok? {
      var o := OpenChunk(c, nonces, v.at, v.wire).value;
      var d := Decoded(c, nonces, v.at + 2, o.rest);
      FlattenPrepended(o.value, d);
      assert [] + Flatten(Prepend(o.value, d).parts) == o.value + Flatten(d.parts);
      TakenThenRest(View(v.at + 2, o.value, o.rest), size, Flatten(d.parts));
    }
  }

  class Reader {
    const c: Cipher
    const nonce: array<Byte>
    /** What the connection still holds. */
    var input: seq<Byte>
    /** The buffer every chunk is decrypted into. */
    var cipherBuf: array<Byte>
    /** leftToRead is cipherBuf[..leftLen]; bytes from indexToRead on are unread. */
    var leftLen: nat
    var indexToRead: nat
    /** How many nonces have been used. */
    ghost var k: nat

    ghost predicate Valid()
      reads this, nonce, cipherBuf
    {
      && Lawful(c)
      && nonce != cipherBuf
      && nonce[..] == Counter(nonce.Length)(k)
      && indexToRead <= leftLen <= cipherBuf.Length
    }

    ghost function Value(): View<nat>
      requires Valid()
      reads this, nonce, cipherBuf
    {
      View(k, cipherBuf[indexToRead..leftLen], input)
    }

    constructor (c: Cipher, nonceLen: nat, input: seq<Byte>)
      requires Lawful(c)
      ensures Valid() && fresh(nonce) && fresh(cipherBuf)
      ensures this.c == c && nonce.Length == nonceLen && Value() == View(0, [], input)
    {
      this.c := c;
      this.input := input;
      nonce := new Byte[nonceLen](_ => 0);
      cipherBuf := new Byte[0];
      leftLen, indexToRead, k := 0, 0, 0;
      new;
      ZeroNonce(nonceLen);
      assert nonce[..] == Counter(nonceLen)(0);
    }

    method Read(size: nat) returns (r: Result<seq<Byte>, ReadError>)
      requires Valid()
      modifies this, nonce, cipherBuf
      ensures cipherBuf == old(cipherBuf) || fresh(cipherBuf)
      ensures match ReadStep(c, Counter(nonce.Length), old(Value()), size) {
                case Err(e) => r == Err(e)
                case Ok(h) => r == Ok(h.bytes) && Valid() && Value() == h.view
              }
    {
      if indexToRead >= leftLen {
        leftLen, indexToRead := 0, 0;
        var chunk := ReadChunk();
        if chunk.Err? {
          return Err(chunk.error);
        }
        leftLen := chunk.value;
      }
      var bytes := TakeLeftover(size);
      r := Ok(bytes);
    }

    /** Copy out of the decrypted chunk, and forget it once it is used up. */
    method TakeLeftover(size: nat) returns (bytes: seq<Byte>)
      requires Valid()
      modifies this`indexToRead, this`leftLen
      ensures Valid() && Handed(bytes, Value()) == Taken(old(Value()), size)
    {
      ghost var left := cipherBuf[indexToRead..leftLen];
      var n := Min(size, leftLen - indexToRead);
      bytes := cipherBuf[indexToRead..indexToRead + n];
      assert bytes == left[..n];
      indexToRead := indexToRead + n;
      assert cipherBuf[indexToRead..leftLen] == left[n..];
      if indexToRead >= leftLen {
        leftLen, indexToRead := 0, 0;
      }
    }

    /** Read and open `n` bytes; a successful opening uses up a nonce. */
    method OpenNext(n: nat) returns (r: Result<seq<Byte>, ReadError>)
      requires Valid()
      modifies this`input, this`k, nonce
      ensures match OpenPart(c, Counter(nonce.Length)(old(k)), old(input), n) {
                case Err(e) => r == Err(e)
                case Ok(o) => Valid() && k == old(k) + 1 && input == o.rest && r == Ok(o.value)
              }
    {
      if |input| < n {
        return Err(Io(if input == [] then Eof else UnexpectedEof));
      }
      var text := c.open(nonce[..], input[..n]);
      if text.None? {
        return Err(FailAuth);
      }
      input := input[n..];
      IncrementCounts(k, nonce.Length);
      BytesIncLittleEndian(nonce);
      k := k + 1;
      r := Ok(text.value);
    }

    /** Decrypt the next chunk into the shared buffer, which is replaced only when it is too small. */
    method ReadChunk() returns (r: Result<nat, ReadError>)
      requires Valid() && leftLen == 0
      modifies this, nonce, cipherBuf
      ensures cipherBuf == old(cipherBuf) || fresh(cipherBuf)
      ensures leftLen == 0 && indexToRead == 0
      ensures match OpenChunk(c, Counter(nonce.Length), old(k), old(input)) {
                case Err(e) => r == Err(e)
                case Ok(o) =>
                  && Valid() && k == old(k) + 2 && input == o.rest
                  && r == Ok(|o.value|) && |o.value| <= cipherBuf.Length && cipherBuf[..|o.value|] == o.value
              }
    {
      indexToRead := 0;
      var length := OpenNext(2 + c.overhead);
      if length.Err? {
        return Err(length.error);
      }
      r := ReadPayload(FromBe16(length.value) + c.overhead);
    }

    method ReadPayload(size: nat) returns (r: Result<nat, ReadError>)
      requires Valid() && leftLen == 0 && indexToRead == 0
      modifies this, nonce, cipherBuf
      ensures cipherBuf == old(cipherBuf) || fresh(cipherBuf)
      ensures leftLen == 0 && indexToRead == 0
      ensures match OpenPart(c, Counter(nonce.Length)(old(k)), old(input), size) {
                case Err(e) => r == Err(e)
                case Ok(o) =>
                  && Valid() && k == old(k) + 1 && input == o.rest
                  && r == Ok(|o.value|) && |o.value| <= cipherBuf.Length && cipherBuf[..|o.value|] == o.value
              }
    {
      BorrowReadCipherFrame(size);
      var payload := OpenNext(size);
      if payload.Err? {
        return Err(payload.error);
      }
      Store(payload.value);
      r := Ok(|payload.value|);
    }

    method BorrowReadCipherFrame(size: nat)
      requires Valid() && leftLen == 0
      modifies this`cipherBuf
      ensures Valid() && cipherBuf.Length >= size
      ensures cipherBuf == old(cipherBuf) || fresh(cipherBuf)
    {
      if cipherBuf.Length < size {
        cipherBuf := new Byte[size];
      }
    }

    /** The opened text replaces the start of the buffer. */
    method Store(text: seq<Byte>)
      requires |text| <= cipherBuf.Length
      modifies cipherBuf
      ensures cipherBuf[..|text|] == text
    {
      forall i | 0 <= i < |text| { cipherBuf[i] := text[i]; }
    }
  }

  lemma {:induction false} ZeroNonce(len: nat)
    ensures forall i :: 0 <= i < len ==> LeBytes(0, len)[i] == 0
  {
    if len > 0 {
      ZeroNonce(len - 1);
      assert LeBytes(0, len) == [0] + LeBytes(0, len - 1);
    }
  }

  /** `out` has been handed out, and the reader still holds the rest of `all`. */
  ghost predicate Remains(c: Cipher, nonces: Nonces, v: View<nat>, out: seq<Byte>, all: Decoding<ReadError>)
    requires Lawful(c)
  {
    Flatten(all.parts) == out + Unread(c, nonces, v) && all.end == EndOf(c, nonces, v)
  }

  lemma {:induction false} ReadKeepsRemains(
    c: Cipher, nonces: Nonces, v: View<nat>, size: nat, out: seq<Byte>, all: Decoding<ReadError>)
    requires Lawful(c) && Remains(c, nonces, v, out, all)
    ensures var r := ReadStep(c, nonces, v, size);
            if r.Err? then out == Flatten(all.parts) && r.error == all.end
            else Remains(c, nonces, r.value.view, out + r.value.bytes, all)
  {
    ReadHandsOutNext(c, nonces, v, size);
    var r := ReadStep(c, nonces, v, size);
    if r.Ok? {
      Regrouped(out, r.value.bytes, Unread(c, nonces, r.value.view));
    }
  }

  /** No chunk still to come is empty. */
  ghost predicate Solid(c: Cipher, nonces: Nonces, v: View<nat>)
    requires Lawful(c)
  {
    NoneEmpty(Decoded(c, nonces, v.at, v.wire).parts)
  }

  lemma {:induction false} OpenedIsNotEmpty(c: Cipher, nonces: Nonces, k: nat, wire: seq<Byte>, o: Streamed<seq<Byte>>)
    requires Lawful(c) && OpenChunk(c, nonces, k, wire) == Ok(o) && NoneEmpty(Decoded(c, nonces, k, wire).parts)
    ensures o.value != [] && NoneEmpty(Decoded(c, nonces, k + 2, o.rest).parts)
  {
    PrependedNotEmpty(o.value, Decoded(c, nonces, k + 2, o.rest));
  }

  /** Then a read with room that does not fail hands something out. */
  lemma {:induction false} ReadMakesProgress(c: Cipher, nonces: Nonces, v: View<nat>, size: nat)
    requires Lawful(c) && Solid(c, nonces, v)
    ensures var r := ReadStep(c, nonces, v, size);
            r.Ok? ==> Solid(c, nonces, r.value.view) && (size > 0 ==> r.value.bytes != [])
  {
    var first := OpenChunk(c, nonces, v.at, v.wire);
    if v.left == [] && first.Ok? {
      OpenedIsNotEmpty(c, nonces, v.at, v.wire, first.value);
    }
  }

  /**
   Reads with any buffer sizes hand out the stream in order, and all of it before the error
   it ends in; as many reads with room as there are bytes, and one more, reach that error.
   */
  method ReadAll(r: Reader, sizes: seq<nat>, ghost all: Decoding<ReadError>) returns (out: seq<Byte>, end: Option<ReadError>)
    requires r.Valid() && Remains(r.c, Counter(r.nonce.Length), r.Value(), [], all)
    requires Solid(r.c, Counter(r.nonce.Length), r.Value())
    modifies r, r.nonce, r.cipherBuf
    ensures out <= Flatten(all.parts)
    ensures end.Some? ==> out == Flatten(all.parts) && end.value == all.end
    ensures HaveRoom(sizes) && |sizes| > |Flatten(all.parts)| ==> end.Some?
  {
    out, end := [], None;
    var i := 0;
    while i < |sizes| && end.None?
      invariant r.cipherBuf == old(r.cipherBuf) || fresh(r.cipherBuf)
      invariant end.None? ==> r.Valid() && Remains(r.c, Counter(r.nonce.Length), r.Value(), out, all)
      invariant end.None? ==> Solid(r.c, Counter(r.nonce.Length), r.Value())
      invariant end.None? && HaveRoom(sizes) ==> i <= |out|
      invariant end.Some? ==> out == Flatten(all.parts) && end.value == all.end
    {
      ReadKeepsRemains(r.c, Counter(r.nonce.Length), r.Value(), sizes[i], out, all);
      ReadMakesProgress(r.c, Counter(r.nonce.Length), r.Value(), sizes[i]);
      var got := r.Read(sizes[i]);
      match got {
        case Ok(bytes) => out := out + bytes;
        case Err(e) => end := Some(e);
      }
      i := i + 1;
    }
  }

  /** The wire carries these writes, each cut into chunks of its own, and `k` nonces have been used. */
  ghost predicate Written(c: Cipher, nonces: Nonces, writes: seq<seq<Byte>>, wire: seq<Byte>, k: nat) {
    wire == Sealed(c, nonces, 0, AllPieces(writes, CHUNK_MAX)) && k == 2 * |AllPieces(writes, CHUNK_MAX)|
  }

  lemma {:induction false} WriteExtends(
    c: Cipher, nonces: Nonces, writes: seq<seq<Byte>>, i: nat, wire: seq<Byte>, k: nat, more: seq<seq<Byte>>)
    requires i < |writes| && Written(c, nonces, writes[..i], wire, k) && more == Pieces(writes[i], CHUNK_MAX, 0)
    ensures Written(c, nonces, writes[..i + 1], wire + Sealed(c, nonces, k, more), k + 2 * |more|)
  {
    AllPiecesSnoc(writes, i, CHUNK_MAX);
    SealedAppend(c, nonces, 0, AllPieces(writes[..i], CHUNK_MAX), more, k);
  }

  method NewNonce(len: nat) returns (nonce: array<Byte>)
    ensures fresh(nonce) && nonce.Length == len && nonce[..] == Counter(len)(0)
  {
    nonce := new Byte[len](_ => 0);
    ZeroNonce(len);
    assert nonce[..] == LeBytes(0, len);
  }

  method WriteAll(c: Cipher, nonceLen: nat, writes: seq<seq<Byte>>) returns (wire: seq<Byte>, ghost k: nat)
    requires Lawful(c)
    ensures Written(c, Counter(nonceLen), writes, wire, k)
  {
    var nonce := NewNonce(nonceLen);
    ghost var nonces := Counter(nonceLen);
    wire, k := [], 0;
    assert writes[..0] == [];
    for i := 0 to |writes|
      invariant nonce[..] == nonces(k) && Written(c, nonces, writes[..i], wire, k)
    {
      ghost var more, before := Pieces(writes[i], CHUNK_MAX, 0), k;
      WriteExtends(c, nonces, writes, i, wire, k, more);
      k := k + 2 * |more|;
      var bytes := Write(c, nonce, writes[i], before, k);
      wire := wire + bytes;
    }
    assert writes[..|writes|] == writes;
  }

  /** One Write after key setup: everything is sealed into a frame of the precomputed size. */
  method Write(c: Cipher, nonce: array<Byte>, b: seq<Byte>, ghost k: nat, ghost next: nat) returns (bytes: seq<Byte>)
    requires Lawful(c) && nonce[..] == Counter(nonce.Length)(k) && next == k + 2 * |Pieces(b, CHUNK_MAX, 0)|
    modifies nonce
    ensures bytes == Sealed(c, Counter(nonce.Length), k, Pieces(b, CHUNK_MAX, 0))
    ensures nonce[..] == Counter(nonce.Length)(next)
  {
    var buf := new Byte[EncryptedPayloadLen(|b|, c.overhead)];
    EncryptedPayloadLenIsExact(c, Counter(nonce.Length), k, b);
    var n := Seal(c, buf, nonce, b, k);
    bytes := buf[..n];
  }

  /** What is left of these writes when the first `cut` bytes of the wire arrive. */
  function CutTo(tagLen: nat, writes: seq<seq<Byte>>, cut: nat): Decoding<ReadError> {
    var pieces := AllPieces(writes, CHUNK_MAX);
    var lens := ChunkLens(tagLen, pieces);
    Arrived(lens, 2 + tagLen, pieces, Min(cut, Sum(lens)), Io(Eof), Io(UnexpectedEof))
  }

  lemma {:induction false} CutToIs(c: Cipher, nonces: Nonces, writes: seq<seq<Byte>>, cut: nat, wire: seq<Byte>, d: Decoding<ReadError>)
    requires Lawful(c) && wire == Sealed(c, nonces, 0, AllPieces(writes, CHUNK_MAX)) && d == CutTo(c.overhead, writes, cut)
    ensures Decoded(c, nonces, 0, wire[..Min(cut, |wire|)]) == d
    ensures Flatten(d.parts) <= Flatten(writes) && NoneEmpty(d.parts)
    ensures cut >= |wire| ==> Flatten(d.parts) == Flatten(writes) && d.end == Io(Eof)
  {
    var pieces := AllPieces(writes, CHUNK_MAX);
    var lens := ChunkLens(c.overhead, pieces);
    SealedLength(c, nonces, 0, pieces);
    AllPiecesJoin(writes, CHUNK_MAX);
    CutStreamDecodes(c, nonces, 0, pieces, lens, Min(cut, |wire|), wire);
    ArrivedIsPrefix(lens, 2 + c.overhead, pieces, Min(cut, |wire|), d);
  }

  /**
   A whole direction: writes sealed one after the other, the wire cut after `cut` bytes,
   then reads with any buffer sizes. What is read is a prefix of what was written. Enough
   reads reach the end, and then it is the complete chunks of the writes, everything if
   nothing was cut off; the end is a clean one exactly when the cut is at a chunk boundary
   or after a length part.
   */
  method Converse(c: Cipher, nonceLen: nat, writes: seq<seq<Byte>>, cut: nat, sizes: seq<nat>)
    returns (out: seq<Byte>, end: Option<ReadError>)
    requires Lawful(c)
    ensures out <= Flatten(writes)
    ensures end.Some? ==> out == Flatten(CutTo(c.overhead, writes, cut).parts) && end.value == CutTo(c.overhead, writes, cut).end
    ensures end.Some? && cut >= Sum(ChunkLens(c.overhead, AllPieces(writes, CHUNK_MAX))) ==>
              out == Flatten(writes) && end.value == Io(Eof)
    ensures HaveRoom(sizes) && |sizes| > |Flatten(writes)| ==> end.Some?
  {
    var wire, _ := WriteAll(c, nonceLen, writes);
    ghost var all := CutTo(c.overhead, writes, cut);
    CutToIs(c, Counter(nonceLen), writes, cut, wire, all);
    SealedLength(c, Counter(nonceLen), 0, AllPieces(writes, CHUNK_MAX));
    var r := new Reader(c, nonceLen, wire[..Min(cut, |wire|)]);
    assert [] + Flatten(all.parts) == Flatten(all.parts);
    out, end := ReadAll(r, sizes, all);
  }

  lemma {:induction false} ArrivedIsPrefix(lens: seq<nat>, header: nat, pieces: seq<seq<Byte>>, n: nat, all: Decoding<ReadError>)
    requires |lens| == |pieces| && all == Arrived(lens, header, pieces, n, Io(Eof), Io(UnexpectedEof))
    ensures Flatten(all.parts) <= Flatten(pieces)
    ensures n == Sum(lens) ==> all == Decoding(pieces, Io(Eof))
  {
    PrefixFlattens(pieces, WholeCount(lens, n));
    if n == Sum(lens) {
      AllArrived(lens, header, pieces, n, Io(Eof), Io(UnexpectedEof));
      PastAllChunks(lens, n);
    }
  }
}
