/** HMAC as section 2 of RFC 2104 defines it, for hashes with a 64-byte block. */
module Rfc2104 {
  import opened Bytes

  const BLOCK_SIZE: nat := 64

  type Pad = p: seq<Byte> | |p| == BLOCK_SIZE witness seq(BLOCK_SIZE, _ => 0)

  function XorAll(bs: seq<Byte>, with: Byte): (r: seq<Byte>)
    ensures |r| == |bs| && forall i :: 0 <= i < |bs| ==> r[i] == Xor(bs[i], with)
  {
    if bs == [] then [] else [Xor(bs[0], with)] + XorAll(bs[1..], with)
  }

  /** The key, filled up to a block with zeros, every byte XORed with `with`. */
  function PaddedKey(key: seq<Byte>, with: Byte): Pad
    requires |key| <= BLOCK_SIZE
  {
    XorAll(key + Zeros(BLOCK_SIZE - |key|), with)
  }

  /** Keys longer than a block are hashed first. */
  function BlockKey(h: seq<Byte> -> seq<Byte>, key: seq<Byte>): (k: seq<Byte>)
    requires |h(key)| <= BLOCK_SIZE
    ensures |k| <= BLOCK_SIZE
  {
    if |key| > BLOCK_SIZE then h(key) else key
  }

  /** H(K XOR opad, H(K XOR ipad, text)) */
  function Hmac(h: seq<Byte> -> seq<Byte>, key: seq<Byte>, text: seq<Byte>): seq<Byte>
    requires |h(key)| <= BLOCK_SIZE
  {
    var k := BlockKey(h, key);
    h(PaddedKey(k, 0x5c) + h(PaddedKey(k, 0x36) + text))
  }

  /** Byte `i` of the key, zero past its end. */
  function KeyByte(k: seq<Byte>, i: nat): Byte {
    if i < |k| then k[i] else 0
  }

  lemma {:induction false} PaddedKeyIs(k: seq<Byte>, with: Byte, p: Pad)
    requires |k| <= BLOCK_SIZE
    requires forall j :: 0 <= j < BLOCK_SIZE ==> p[j] == Xor(KeyByte(k, j), with)
    ensures p == PaddedKey(k, with)
  {
    var padded := k + Zeros(BLOCK_SIZE - |k|);
    forall j | 0 <= j < BLOCK_SIZE ensures p[j] == XorAll(padded, with)[j] {
      assert padded[j] == KeyByte(k, j);
    }
  }

  /**
   Section 2 of RFC 2104, steps 1 to 7: the key, hashed if it is longer than a block and
   padded with zeros, XORed byte by byte with 0x36 and 0x5c.
   */
  lemma {:induction false} HmacSteps(h: seq<Byte> -> seq<Byte>, key: seq<Byte>, text: seq<Byte>, iPad: Pad, oPad: Pad)
    requires |h(key)| <= 64
    requires var k := if |key| > 64 then h(key) else key;
             forall i :: 0 <= i < 64 ==>
               && iPad[i] == Xor(if i < |k| then k[i] else 0, 0x36)
               && oPad[i] == Xor(if i < |k| then k[i] else 0, 0x5c)
    ensures Hmac(h, key, text) == h(oPad + h(iPad + text))
  {
    var k := BlockKey(h, key);
    PaddedKeyIs(k, 0x36, iPad);
    PaddedKeyIs(k, 0x5c, oPad);
  }
}
