/** Bytes, fixed-width unsigned integers and their big-endian layout (encoding/binary). */
module Bytes {

  type Byte = b: int | 0 <= b < 0x100

  type U16 = x: int | 0 <= x < 0x1_0000

  type U32 = x: int | 0 <= x < 0x1_0000_0000

  type U64 = x: int | 0 <= x < 0x1_0000_0000_0000_0000

  datatype Option<+T> = None | Some(value: T)

  datatype Result<+T, +E> = Ok(value: T) | Err(error: E)

  function Min(a: int, b: int): int {
    if a <= b then a else b
  }

  function Be16(x: U16): (bs: seq<Byte>)
    ensures |bs| == 2
  {
    [x / 0x100, x % 0x100]
  }

  function FromBe16(bs: seq<Byte>): U16
    requires |bs| == 2
  {
    bs[0] as int * 0x100 + bs[1]
  }

  lemma {:induction false} Be16RoundTrip(x: U16)
    ensures FromBe16(Be16(x)) == x
  {
  }

  lemma {:induction false} FromBe16RoundTrip(bs: seq<Byte>)
    requires |bs| == 2
    ensures Be16(FromBe16(bs)) == bs
  {
  }

  function Be32(x: U32): (bs: seq<Byte>)
    ensures |bs| == 4
  {
    Be16(x / 0x1_0000) + Be16(x % 0x1_0000)
  }

  function FromBe32(bs: seq<Byte>): U32
    requires |bs| == 4
  {
    FromBe16(bs[..2]) as int * 0x1_0000 + FromBe16(bs[2..])
  }

  lemma {:induction false} Be32RoundTrip(x: U32)
    ensures FromBe32(Be32(x)) == x
  {
    var bs := Be32(x);
    assert bs[..2] == Be16(x / 0x1_0000) && bs[2..] == Be16(x % 0x1_0000);
    Be16RoundTrip(x / 0x1_0000);
    Be16RoundTrip(x % 0x1_0000);
  }

  lemma {:induction false} FromBe32RoundTrip(bs: seq<Byte>)
    requires |bs| == 4
    ensures Be32(FromBe32(bs)) == bs
  {
    FromBe16RoundTrip(bs[..2]);
    FromBe16RoundTrip(bs[2..]);
    var hi, lo := FromBe16(bs[..2]), FromBe16(bs[2..]);
    assert FromBe32(bs) / 0x1_0000 == hi && FromBe32(bs) % 0x1_0000 == lo;
    assert bs == bs[..2] + bs[2..];
  }

  function Be64(x: U64): (bs: seq<Byte>)
    ensures |bs| == 8
  {
    Be32(x / 0x1_0000_0000) + Be32(x % 0x1_0000_0000)
  }

  function FromBe64(bs: seq<Byte>): U64
    requires |bs| == 8
  {
    FromBe32(bs[..4]) as int * 0x1_0000_0000 + FromBe32(bs[4..])
  }

  lemma {:induction false} Be64RoundTrip(x: U64)
    ensures FromBe64(Be64(x)) == x
  {
    var bs := Be64(x);
    assert bs[..4] == Be32(x / 0x1_0000_0000) && bs[4..] == Be32(x % 0x1_0000_0000);
    Be32RoundTrip(x / 0x1_0000_0000);
    Be32RoundTrip(x % 0x1_0000_0000);
  }

  lemma {:induction false} FromBe64RoundTrip(bs: seq<Byte>)
    requires |bs| == 8
    ensures Be64(FromBe64(bs)) == bs
  {
    FromBe32RoundTrip(bs[..4]);
    FromBe32RoundTrip(bs[4..]);
    var hi, lo := FromBe32(bs[..4]), FromBe32(bs[4..]);
    assert FromBe64(bs) / 0x1_0000_0000 == hi && FromBe64(bs) % 0x1_0000_0000 == lo;
    assert bs == bs[..4] + bs[4..];
  }

  /** The most significant byte comes first. */
  lemma {:induction false} BigEndian(a: Byte, b: Byte, c: Byte, d: Byte)
    ensures FromBe16([a, b]) == a as int * 0x100 + b
    ensures FromBe32([a, b, c, d]) == a as int * 0x100_0000 + b as int * 0x1_0000 + c as int * 0x100 + d
  {
    var bs := [a, b, c, d];
    assert bs[..2] == [a, b] && bs[2..] == [c, d];
  }

  lemma {:induction false} BigEndian64(bs: seq<Byte>)
    requires |bs| == 8
    ensures FromBe64(bs) == bs[0] as int * 0x100_0000_0000_0000 + bs[1] as int * 0x1_0000_0000_0000
                            + bs[2] as int * 0x100_0000_0000 + bs[3] as int * 0x1_0000_0000 + bs[4] as int * 0x100_0000
                            + bs[5] as int * 0x1_0000 + bs[6] as int * 0x100 + bs[7]
  {
    BigEndian(bs[0], bs[1], bs[2], bs[3]);
    BigEndian(bs[4], bs[5], bs[6], bs[7]);
    assert bs[..4] == [bs[0], bs[1], bs[2], bs[3]] && bs[4..] == [bs[4], bs[5], bs[6], bs[7]];
  }

  function Pow2(n: nat): nat {
    if n == 0 then 1 else 2 * Pow2(n - 1)
  }

  /** Exclusive or of the lowest `n` bits. */
  function XorBits(a: nat, b: nat, n: nat): (r: nat)
    ensures r < Pow2(n)
  {
    if n == 0 then 0
    else (if a % 2 == b % 2 then 0 else 1) + 2 * XorBits(a / 2, b / 2, n - 1)
  }

  lemma {:induction false} Pow2Values()
    ensures Pow2(8) == 0x100 && Pow2(16) == 0x1_0000
  {
    assert Pow2(4) == 16;
    assert Pow2(8) == 0x100;
    assert Pow2(12) == 0x1000;
  }

  function Xor(a: Byte, b: Byte): Byte {
    Pow2Values();
    XorBits(a, b, 8)
  }

  function Xor16(a: U16, b: U16): U16 {
    Pow2Values();
    XorBits(a, b, 16)
  }

  lemma {:induction false} XorBitsInvolutive(a: nat, b: nat, n: nat)
    requires b < Pow2(n)
    ensures XorBits(a, XorBits(a, b, n), n) == b
  {
    if n > 0 {
      var low, high := if a % 2 == b % 2 then 0 else 1, XorBits(a / 2, b / 2, n - 1);
      var x := XorBits(a, b, n);
      assert x == low + 2 * high && x / 2 == high && x % 2 == low;
      XorBitsInvolutive(a / 2, b / 2, n - 1);
      assert XorBits(a, x, n) == b % 2 + 2 * (b / 2);
    }
  }

  /** Bit `i` of a number, the lowest being bit 0. */
  predicate Bit(x: nat, i: nat) {
    if i == 0 then x % 2 == 1 else Bit(x / 2, i - 1)
  }

  /** Each bit of the exclusive or is set exactly when the two bits differ. */
  lemma {:induction false} XorBitsAt(a: nat, b: nat, n: nat, i: nat)
    requires i < n
    ensures Bit(XorBits(a, b, n), i) <==> Bit(a, i) != Bit(b, i)
  {
    var low, high := if a % 2 == b % 2 then 0 else 1, XorBits(a / 2, b / 2, n - 1);
    var x := XorBits(a, b, n);
    assert x == low + 2 * high && x / 2 == high && x % 2 == low;
    if i > 0 {
      XorBitsAt(a / 2, b / 2, n - 1, i - 1);
    }
  }

  /** Masking twice with the same mask gives the value back. */
  lemma {:induction false} Xor16Involutive(mask: U16, x: U16)
    ensures Xor16(mask, Xor16(mask, x)) == x
  {
    Pow2Values();
    XorBitsInvolutive(mask, x, 16);
  }

  /** The concatenation of a list of byte strings. */
  function Flatten(parts: seq<seq<Byte>>): seq<Byte> {
    if parts == [] then [] else parts[0] + Flatten(parts[1..])
  }

  lemma {:induction false} FlattenAppend(a: seq<seq<Byte>>, b: seq<seq<Byte>>)
    ensures Flatten(a + b) == Flatten(a) + Flatten(b)
  {
    if a == [] {
      assert a + b == b;
    } else {
      assert (a + b)[1..] == a[1..] + b;
      FlattenAppend(a[1..], b);
    }
  }

  lemma {:induction false} FlattenSnoc(parts: seq<seq<Byte>>, i: nat)
    requires i < |parts|
    ensures Flatten(parts[..i + 1]) == Flatten(parts[..i]) + parts[i]
  {
    assert parts[..i + 1] == parts[..i] + [parts[i]];
    FlattenAppend(parts[..i], [parts[i]]);
    assert Flatten([parts[i]]) == parts[i] + Flatten([]) == parts[i];
  }

  /** A prefix that reaches past the first part. */
  lemma {:induction false} TakePast(a: seq<Byte>, b: seq<Byte>, n: nat)
    requires |a| <= n <= |a| + |b|
    ensures (a + b)[..n] == a + b[..n - |a|]
  {
  }

  /** A prefix that does not. */
  lemma {:induction false} TakeWithin(a: seq<Byte>, b: seq<Byte>, n: nat)
    requires n <= |a|
    ensures (a + b)[..n] == a[..n]
  {
  }

  lemma {:induction false} Regrouped(a: seq<Byte>, b: seq<Byte>, c: seq<Byte>)
    ensures a + (b + c) == a + b + c
  {
  }

  function Zeros(n: nat): (z: seq<Byte>)
    ensures |z| == n && forall i :: 0 <= i < n ==> z[i] == 0
  {
    if n == 0 then [] else [0] + Zeros(n - 1)
  }

  /** Lay bytes into a buffer at an offset, leaving the rest of it alone. */
  method Put(b: array<Byte>, at: nat, bytes: seq<Byte>) returns (n: nat)
    requires at + |bytes| <= b.Length
    modifies b
    ensures n == at + |bytes|
    ensures b[..n] == old(b[..at]) + bytes
    ensures forall i :: n <= i < b.Length ==> b[i] == old(b[i])
  {
    n := at + |bytes|;
    forall i | 0 <= i < |bytes| { b[at + i] := bytes[i]; }
  }
}
