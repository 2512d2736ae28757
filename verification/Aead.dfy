/** What the stream codecs need of an AEAD cipher under a fixed key, and of a nonce counter. */
module Aead {
  import opened Bytes
  import Quotients

  /** `seal` and `open` take a nonce first; additional data is never used by the streams modelled here. */
  datatype Cipher = Cipher(
    overhead: nat,
    seal: (seq<Byte>, seq<Byte>) -> seq<Byte>,
    open: (seq<Byte>, seq<Byte>) -> Option<seq<Byte>>)

  /** Sealing adds `overhead` bytes, and opening removes them and gives the text back. */
  ghost predicate Lawful(c: Cipher) {
    && (forall nonce: seq<Byte>, text: seq<Byte> ::
          |c.seal(nonce, text)| == |text| + c.overhead && c.open(nonce, c.seal(nonce, text)) == Some(text))
    && (forall nonce: seq<Byte>, sealed: seq<Byte> ::
          c.open(nonce, sealed).Some? ==> |c.open(nonce, sealed).value| + c.overhead == |sealed|)
  }

  // --- little-endian counters ------------------------------------------------------------

  function Pow256(n: nat): nat {
    if n == 0 then 1 else 256 * Pow256(n - 1)
  }

  /** The counter value `v` in `len` bytes, least significant first; higher digits are dropped. */
  function LeBytes(v: nat, len: nat): (bs: seq<Byte>)
    ensures |bs| == len
  {
    if len == 0 then [] else [v % 256] + LeBytes(v / 256, len - 1)
  }

  function LeValue(bs: seq<Byte>): nat {
    if bs == [] then 0 else bs[0] + 256 * LeValue(bs[1..])
  }

  lemma {:induction false} LeValueOfBytes(v: nat, len: nat)
    requires v < Pow256(len)
    ensures LeValue(LeBytes(v, len)) == v
  {
    if len > 0 {
      assert LeBytes(v, len)[1..] == LeBytes(v / 256, len - 1);
      LeValueOfBytes(v / 256, len - 1);
    }
  }

  /** Byte `i` of a counter is digit `i` of its value in base 256, the lowest digit first. */
  lemma {:induction false} CounterDigit(v: nat, len: nat, i: nat)
    requires i < len
    ensures Pow256(i) > 0 && LeBytes(v, len)[i] == v / Pow256(i) % 256
    decreases i
  {
    if i > 0 {
      CounterDigit(v / 256, len - 1, i - 1);
      Quotient(v, Pow256(i - 1));
    }
  }

  lemma {:induction false} Quotient(v: nat, p: nat)
    requires p > 0
    ensures v / 256 / p == v / (256 * p)
  {
    var q := v / 256 / p;
    assert v / 256 == q * p + v / 256 % p;
    assert v == 256 * q * p + 256 * (v / 256 % p) + v % 256;
    var r := 256 * (v / 256 % p) + v % 256;
    assert v == q * (256 * p) + r && 0 <= r < 256 * p;
    Quotients.QuotientUnique(v, 256 * p, q, r);
  }

  /** Below 256^len uses, no two counter values give the same nonce. */
  lemma {:induction false} NoncesAreDistinct(i: nat, j: nat, len: nat)
    requires i < Pow256(len) && j < Pow256(len) && i != j
    ensures LeBytes(i, len) != LeBytes(j, len)
  {
    LeValueOfBytes(i, len);
    LeValueOfBytes(j, len);
  }

  /** The bound is tight: after 256^len increments the nonce repeats. */
  lemma {:induction false} NonceWraps(i: nat, len: nat)
    ensures LeBytes(i + Pow256(len), len) == LeBytes(i, len)
  {
    if len > 0 {
      var p := Pow256(len - 1);
      LowDigit(i, p);
      NonceWraps(i / 256, len - 1);
      assert LeBytes(i + 256 * p, len) == [i % 256] + LeBytes(i / 256 + p, len - 1);
    }
  }

  lemma {:induction false} LowDigit(i: nat, p: nat)
    ensures (i + 256 * p) % 256 == i % 256 && (i + 256 * p) / 256 == i / 256 + p
  {
  }

  /** Increment with carry, dropping the last carry. */
  function Incremented(bs: seq<Byte>): (r: seq<Byte>)
    ensures |r| == |bs|
  {
    if bs == [] then []
    else if bs[0] == 255 then [0] + Incremented(bs[1..])
    else [bs[0] + 1] + bs[1..]
  }

  lemma {:induction false} IncrementCounts(v: nat, len: nat)
    ensures Incremented(LeBytes(v, len)) == LeBytes(v + 1, len)
  {
    if len > 0 {
      var bs := LeBytes(v, len);
      assert bs[0] == v % 256 && bs[1..] == LeBytes(v / 256, len - 1);
      if v % 256 == 255 {
        assert (v + 1) % 256 == 0 && (v + 1) / 256 == v / 256 + 1;
        IncrementCounts(v / 256, len - 1);
      } else {
        assert (v + 1) % 256 == v % 256 + 1 && (v + 1) / 256 == v / 256;
      }
    }
  }

  /** The carry runs through leading 255s and stops at position `i`. */
  lemma {:induction false} CarryStopsAt(bs: seq<Byte>, i: nat)
    requires i <= |bs| && forall k :: 0 <= k < i ==> bs[k] == 255
    ensures forall k :: 0 <= k < i ==> Incremented(bs)[k] == 0
    ensures i < |bs| && bs[i] != 255 ==>
              && Incremented(bs)[i] == bs[i] + 1
              && forall k :: i < k < |bs| ==> Incremented(bs)[k] == bs[k]
    decreases i
  {
    if i > 0 {
      CarryStopsAt(bs[1..], i - 1);
    }
  }

  /** In-place increment: bump bytes from the least significant one until there is no carry. */
  method BytesIncLittleEndian(b: array<Byte>)
    modifies b
    ensures b[..] == Incremented(old(b[..]))
  {
    var i := 0;
    while i < b.Length
      invariant 0 <= i <= b.Length
      invariant forall k :: 0 <= k < i ==> old(b[k]) == 255 && b[k] == 0
      invariant forall k :: i <= k < b.Length ==> b[k] == old(b[k])
    {
      b[i] := (b[i] as int + 1) % 256;
      if b[i] != 0 {
        break;
      }
      i := i + 1;
    }
    CarryStopsAt(old(b[..]), i);
  }
}
