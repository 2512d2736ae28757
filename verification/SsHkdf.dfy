/**
 Subkey derivation of protocol/shadowsocks/encrypt.go: HKDF-SHA1 written out over
 pooled scratch arrays that may hold anything when they are picked up, against
 HKDF as sections 2.2 and 2.3 of RFC 5869 define it over the HMAC of section 2 of
 RFC 2104.

 SHA-1 is the parameter `sha`.
 */
module SsHkdf {
  import opened Bytes
  import opened Rfc2104

  const SHA1_SIZE: nat := 20

  type Digest = d: seq<Byte> | |d| == SHA1_SIZE witness seq(SHA1_SIZE, _ => 0)

  type Hash = seq<Byte> -> Digest

  // --- the standard -------------------------------------------------------------

  function BlockKey(h: Hash, key: seq<Byte>): (k: seq<Byte>)
    ensures |k| <= BLOCK_SIZE
  {
    Rfc2104.BlockKey((m: seq<Byte>) => h(m), key)
  }

  function HmacSha1(h: Hash, key: seq<Byte>, text: seq<Byte>): Digest {
    Rfc2104.Hmac((m: seq<Byte>) => h(m), key, text)
  }

  /** Section 2.2 of RFC 5869. */
  function Extract(h: Hash, salt: seq<Byte>, ikm: seq<Byte>): Digest {
    HmacSha1(h, salt, ikm)
  }

  /** Section 2.3 of RFC 5869: T(0) is empty, T(n) = HMAC(PRK, T(n-1) | info | n). */
  function T(h: Hash, prk: seq<Byte>, info: seq<Byte>, n: nat): seq<Byte>
    requires n < 0x100
  {
    if n == 0 then [] else HmacSha1(h, prk, T(h, prk, info, n - 1) + info + [n])
  }

  /** T(1) | T(2) | ... | T(n) */
  function Blocks(h: Hash, prk: seq<Byte>, info: seq<Byte>, n: nat): (bs: seq<Byte>)
    requires n < 0x100
    ensures |bs| == n * SHA1_SIZE
  {
    if n == 0 then [] else Blocks(h, prk, info, n - 1) + T(h, prk, info, n)
  }

  /** The first `len` bytes of T(1) | T(2) | ..., with as many blocks as that takes. */
  function Expand(h: Hash, prk: seq<Byte>, info: seq<Byte>, len: nat): (okm: seq<Byte>)
    requires len <= 255 * SHA1_SIZE
    ensures |okm| == len
  {
    var n := (len + SHA1_SIZE - 1) / SHA1_SIZE;
    Blocks(h, prk, info, n)[..len]
  }

  function Hkdf(h: Hash, masterKey: seq<Byte>, salt: seq<Byte>, info: seq<Byte>, len: nat): (okm: seq<Byte>)
    requires len <= 255 * SHA1_SIZE
    ensures |okm| == len
  {
    Expand(h, Extract(h, salt, masterKey), info, len)
  }

  // --- the code -------------------------------------------------------------------

  /** A running hash, as the hash.Hash interface gives it. */
  class Sha1 {
    const sha: Hash
    var absorbed: seq<Byte>

    constructor (sha: Hash)
      ensures this.sha == sha
    {
      this.sha := sha;
      absorbed := [];
    }

    method Reset()
      modifies this
      ensures absorbed == []
    {
      absorbed := [];
    }

    method Write(b: seq<Byte>)
      modifies this
      ensures absorbed == old(absorbed) + b
    {
      absorbed := absorbed + b;
    }

    /** Append the digest at the start of `out`. */
    method Sum(out: array<Byte>)
      requires out.Length >= SHA1_SIZE
      modifies out
      ensures out[..SHA1_SIZE] == sha(absorbed)
      ensures out[SHA1_SIZE..] == old(out[SHA1_SIZE..])
    {
      var d := sha(absorbed);
      forall i | 0 <= i < SHA1_SIZE { out[i] := d[i]; }
    }
  }

  /** Scratch of one HMAC. It comes from a pool, so nothing is ever known about its contents. */
  class HmacBuf {
    const kbuf: array<Byte>
    const ipad: array<Byte>
    const opad: array<Byte>
    const inner: array<Byte>
    const prk: array<Byte>
    const t1: array<Byte>
    const t2: array<Byte>

    ghost predicate Valid() {
      && kbuf.Length == ipad.Length == opad.Length == BLOCK_SIZE
      && inner.Length == prk.Length == t1.Length == t2.Length == SHA1_SIZE
      && kbuf != ipad && kbuf != opad && ipad != opad
      && inner != prk && inner != t1 && inner != t2 && prk != t1 && prk != t2 && t1 != t2
    }

    ghost function Parts(): set<object> {
      {kbuf, ipad, opad, inner, prk, t1, t2}
    }

    constructor ()
      ensures Valid() && fresh(Parts())
    {
      kbuf, ipad, opad := new Byte[BLOCK_SIZE], new Byte[BLOCK_SIZE], new Byte[BLOCK_SIZE];
      inner, prk := new Byte[SHA1_SIZE], new Byte[SHA1_SIZE];
      t1, t2 := new Byte[SHA1_SIZE], new Byte[SHA1_SIZE];
    }
  }

  /** Load the block-sized key into kbuf, clearing whatever the pool left behind it. */
  method LoadKey(h: Sha1, kbuf: array<Byte>, key: seq<Byte>)
    requires kbuf.Length == BLOCK_SIZE
    modifies h, kbuf
    ensures forall i :: 0 <= i < BLOCK_SIZE ==> kbuf[i] == KeyByte(BlockKey(h.sha, key), i)
  {
    if |key| > BLOCK_SIZE {
      h.Reset();
      h.Write(key);
      assert h.absorbed == key;
      h.Sum(kbuf);
      ghost var digest := h.sha(key);
      assert forall i :: 0 <= i < SHA1_SIZE ==> kbuf[i] == kbuf[..SHA1_SIZE][i] == digest[i];
      forall i | SHA1_SIZE <= i < BLOCK_SIZE { kbuf[i] := 0; }
    } else {
      forall i | 0 <= i < |key| { kbuf[i] := key[i]; }
      forall i | |key| <= i < BLOCK_SIZE { kbuf[i] := 0; }
    }
  }

  method FillPads(b: HmacBuf, ghost key: seq<Byte>)
    requires b.Valid() && |key| <= BLOCK_SIZE
    requires forall i :: 0 <= i < BLOCK_SIZE ==> b.kbuf[i] == KeyByte(key, i)
    modifies b.ipad, b.opad
    ensures b.ipad[..] == PaddedKey(key, 0x36) && b.opad[..] == PaddedKey(key, 0x5c)
  {
    for i := 0 to b.kbuf.Length
      invariant forall j :: 0 <= j < i ==> b.ipad[j] == Xor(KeyByte(key, j), 0x36)
      invariant forall j :: 0 <= j < i ==> b.opad[j] == Xor(KeyByte(key, j), 0x5c)
    {
      b.ipad[i] := Xor(b.kbuf[i], 0x36);
      b.opad[i] := Xor(b.kbuf[i], 0x5c);
    }
    PaddedKeyIs(key, 0x36, b.ipad[..]);
    PaddedKeyIs(key, 0x5c, b.opad[..]);
  }

  /** HMAC-SHA1 of up to three message parts into `out`, which may be one of the scratch arrays. */
  method HmacSha1Into(h: Sha1, b: HmacBuf, out: array<Byte>, key: seq<Byte>,
                      msg1: seq<Byte>, msg2: seq<Byte>, msg3: seq<Byte>)
    requires b.Valid() && out.Length == SHA1_SIZE && out != b.inner
    modifies h, b.kbuf, b.ipad, b.opad, b.inner, out
    ensures out[..] == HmacSha1(h.sha, key, msg1 + msg2 + msg3)
  {
    ghost var k := BlockKey(h.sha, key);
    ghost var text := msg1 + msg2 + msg3;
    LoadKey(h, b.kbuf, key);
    FillPads(b, k);
    HashParts(h, b.inner, b.ipad[..], msg1, msg2, msg3);
    assert b.inner[..] == h.sha(PaddedKey(k, 0x36) + text);
    ghost var inner := b.inner[..];
    HashParts(h, out, b.opad[..], b.inner[..], [], []);
    assert inner + [] + [] == inner;
  }

  /** Hash a pad and up to three more parts into `out`. */
  method HashParts(h: Sha1, out: array<Byte>, pad: seq<Byte>, msg1: seq<Byte>, msg2: seq<Byte>, msg3: seq<Byte>)
    requires out.Length == SHA1_SIZE
    modifies h, out
    ensures out[..] == h.sha(pad + (msg1 + msg2 + msg3))
  {
    h.Reset();
    h.Write(pad);
    if |msg1| > 0 {
      h.Write(msg1);
    }
    if |msg2| > 0 {
      h.Write(msg2);
    }
    if |msg3| > 0 {
      h.Write(msg3);
    }
    assert h.absorbed == pad + (msg1 + msg2 + msg3);
    h.Sum(out);
    assert out[..] == out[..SHA1_SIZE];
  }

  /** `copy(dst[at:], src)` */
  method CopyTo(dst: array<Byte>, at: nat, src: seq<Byte>) returns (n: nat)
    requires at <= dst.Length
    modifies dst
    ensures n == Min(|src|, dst.Length - at)
    ensures dst[..] == old(dst[..at]) + src[..n] + old(dst[at + n..])
  {
    n := Min(|src|, dst.Length - at);
    forall i | 0 <= i < n { dst[at + i] := src[i]; }
  }

  /**
   The subkey. For every length up to two blocks it is HKDF-SHA1, whatever the
   pooled scratch held before; past two blocks the rest of `dst` is left alone.
   */
  method DeriveSubKey(h: Sha1, b: HmacBuf, dst: array<Byte>, masterKey: seq<Byte>, salt: seq<Byte>, info: seq<Byte>)
    requires b.Valid() && dst !in b.Parts()
    modifies h, b.Parts(), dst
    ensures var n := Min(dst.Length, 2 * SHA1_SIZE);
            dst[..] == Hkdf(h.sha, masterKey, salt, info, n) + old(dst[n..])
  {
    ghost var before := dst[..];
    HmacSha1Into(h, b, b.prk, salt, masterKey, [], []);
    ghost var prk := Extract(h.sha, salt, masterKey);
    assert masterKey + [] + [] == masterKey;
    HmacSha1Into(h, b, b.t1, b.prk[..], info, [1], []);
    ghost var one := T(h.sha, prk, info, 1);
    FirstT(h.sha, prk, info);
    assert info + [1] + [] == info + [1];
    assert b.t1[..] == one;
    var n := CopyTo(dst, 0, b.t1[..]);
    if n == dst.Length {
      FirstBlock(h.sha, prk, info, n);
      assert dst[..] == one[..n] + before[n..];
      return;
    }
    HmacSha1Into(h, b, b.t2, b.prk[..], b.t1[..], info, [2]);
    ghost var two := T(h.sha, prk, info, 2);
    assert b.t2[..] == two;
    assert dst[..] == one + before[SHA1_SIZE..];
    var m := CopyTo(dst, n, b.t2[..]);
    assert dst[..] == one + two[..m] + before[n + m..];
    TwoBlocks(h.sha, prk, info, m);
  }

  lemma {:induction false} FirstT(h: Hash, prk: seq<Byte>, info: seq<Byte>)
    ensures T(h, prk, info, 1) == HmacSha1(h, prk, info + [1])
  {
    assert T(h, prk, info, 0) + info + [1] == info + [1];
  }

  lemma {:induction false} FirstBlock(h: Hash, prk: seq<Byte>, info: seq<Byte>, n: nat)
    requires n <= SHA1_SIZE
    ensures Expand(h, prk, info, n) == T(h, prk, info, 1)[..n]
  {
    if n > 0 {
      assert (n + SHA1_SIZE - 1) / SHA1_SIZE == 1;
      assert Blocks(h, prk, info, 1) == Blocks(h, prk, info, 0) + T(h, prk, info, 1) == T(h, prk, info, 1);
    }
  }

  lemma {:induction false} TwoBlocks(h: Hash, prk: seq<Byte>, info: seq<Byte>, m: nat)
    requires 0 < m <= SHA1_SIZE
    ensures Expand(h, prk, info, SHA1_SIZE + m) == T(h, prk, info, 1) + T(h, prk, info, 2)[..m]
  {
    assert (SHA1_SIZE + m + SHA1_SIZE - 1) / SHA1_SIZE == 2;
    assert Blocks(h, prk, info, 1) == Blocks(h, prk, info, 0) + T(h, prk, info, 1) == T(h, prk, info, 1);
    assert Blocks(h, prk, info, 2) == T(h, prk, info, 1) + T(h, prk, info, 2);
  }

  /** Byte `i` of the output is byte `i % 20` of block `i / 20 + 1` of section 2.3 of RFC 5869. */
  lemma {:induction false} OkmByte(h: Hash, masterKey: seq<Byte>, salt: seq<Byte>, info: seq<Byte>, len: nat, i: nat)
    requires len <= 255 * 20 && i < len
    ensures var block := T(h, HmacSha1(h, salt, masterKey), info, i / 20 + 1);
            |block| == 20 && Hkdf(h, masterKey, salt, info, len)[i] == block[i % 20]
  {
    BlockByte(h, Extract(h, salt, masterKey), info, (len + 19) / 20, i);
  }

  lemma {:induction false} BlockByte(h: Hash, prk: seq<Byte>, info: seq<Byte>, n: nat, i: nat)
    requires n < 0x100 && i < n * 20
    ensures var block := T(h, prk, info, i / 20 + 1);
            |block| == 20 && Blocks(h, prk, info, n)[i] == block[i % 20]
  {
    if i < (n - 1) * 20 {
      BlockByte(h, prk, info, n - 1, i);
    } else {
      assert i / 20 == n - 1 && i % 20 == i - (n - 1) * 20;
    }
  }
}
