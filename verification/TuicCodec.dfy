/**
 The TUIC Packet command on the wire: the printer of protocol/tuic/protocol.go and
 the two parsers of protocol/tuic/packet_parse.go, one over a received datagram
 and one over a stream read step by step.
 */
module TuicCodec {
  import opened Bytes
  import Streams

  const PACKET_TYPE: Byte := 0x02
  const ATYP_DOMAIN: Byte := 0
  const ATYP_IPV4: Byte := 1
  const ATYP_IPV6: Byte := 2
  const ATYP_NONE: Byte := 255
  const FIXED_LEN: nat := 10

  /** For a domain, `addr` starts with its own length byte. */
  datatype Address = Address(atyp: Byte, addr: seq<Byte>, port: U16)

  datatype Packet = Packet(
    ver: Byte, assoc: U16, id: U16, total: Byte, frag: Byte, size: U16, addr: Address, data: seq<Byte>)

  // --- printing ------------------------------------------------------------------------

  function EncodeAddress(a: Address): seq<Byte> {
    if a.atyp == ATYP_NONE then [a.atyp] else [a.atyp] + a.addr + Be16(a.port)
  }

  function EncodeHead(p: Packet): (bs: seq<Byte>)
    ensures |bs| == FIXED_LEN
  {
    [p.ver, PACKET_TYPE] + Be16(p.assoc) + Be16(p.id) + [p.total, p.frag] + Be16(p.size)
  }

  function Encode(p: Packet): seq<Byte> {
    EncodeHead(p) + EncodeAddress(p.addr) + p.data
  }

  function AddressBytesLen(a: Address): nat {
    if a.atyp == ATYP_NONE then 1 else 1 + |a.addr| + 2
  }

  function BytesLen(p: Packet): nat {
    2 + 8 + AddressBytesLen(p.addr) + |p.data|
  }

  /** The length computed before encoding is the length of the encoding. */
  lemma {:induction false} BytesLenIsExact(p: Packet)
    ensures |Encode(p)| == BytesLen(p)
  {
  }

  method WriteAddressToBytes(a: Address, b: array<Byte>, at: nat) returns (n: nat)
    requires at + AddressBytesLen(a) <= b.Length
    modifies b
    ensures n == at + AddressBytesLen(a)
    ensures b[..n] == old(b[..at]) + EncodeAddress(a)
    ensures forall i :: n <= i < b.Length ==> b[i] == old(b[i])
  {
    n := Put(b, at, [a.atyp]);
    if a.atyp == ATYP_NONE {
      return;
    }
    n := Put(b, n, a.addr);
    n := Put(b, n, Be16(a.port));
  }

  /** Write the packet into a caller's buffer, which must have BytesLen bytes from `at` on. */
  method WriteToBytes(p: Packet, b: array<Byte>, at: nat) returns (n: nat)
    requires at + BytesLen(p) <= b.Length
    modifies b
    ensures n == at + BytesLen(p)
    ensures b[..n] == old(b[..at]) + Encode(p)
    ensures forall i :: n <= i < b.Length ==> b[i] == old(b[i])
  {
    n := WriteHeadToBytes(p, b, at);
    n := WriteAddressToBytes(p.addr, b, n);
    n := Put(b, n, p.data);
  }

  method WriteHeadToBytes(p: Packet, b: array<Byte>, at: nat) returns (n: nat)
    requires at + FIXED_LEN <= b.Length
    modifies b
    ensures n == at + FIXED_LEN
    ensures b[..n] == old(b[..at]) + EncodeHead(p)
    ensures forall i :: n <= i < b.Length ==> b[i] == old(b[i])
  {
    n := Put(b, at, [p.ver, PACKET_TYPE]);
    n := Put(b, n, Be16(p.assoc));
    n := Put(b, n, Be16(p.id));
    n := Put(b, n, [p.total, p.frag]);
    n := Put(b, n, Be16(p.size));
  }

  // --- parsing a datagram ------------------------------------------------------------------

  datatype Malformed =
    | TooShort | NotAPacket | AddressTypeMissing | AddressTooShort | DomainLengthMissing
    | UnknownAddressType | DataTruncated

  datatype AddressRead = AddressRead(address: Address, len: nat)

  /** An address field of `addrLen` bytes and a port, starting after the type byte. */
  function ReadAddressBody(msg: seq<Byte>, addrLen: nat): (r: Result<AddressRead, Malformed>)
    requires |msg| >= 1
  {
    if |msg| < 1 + addrLen + 2 then Err(AddressTooShort)
    else
      var end := 1 + addrLen;
      Ok(AddressRead(Address(msg[0], msg[1..end], FromBe16(msg[end..end + 2])), end + 2))
  }

  function ReadAddress(msg: seq<Byte>): (r: Result<AddressRead, Malformed>) {
    if |msg| < 1 then Err(AddressTypeMissing)
    else if msg[0] == ATYP_IPV4 then ReadAddressBody(msg, 4)
    else if msg[0] == ATYP_IPV6 then ReadAddressBody(msg, 16)
    else if msg[0] == ATYP_DOMAIN then
      if |msg| < 2 then Err(DomainLengthMissing) else ReadAddressBody(msg, 1 + msg[1] as int)
    else if msg[0] == ATYP_NONE then Ok(AddressRead(Address(ATYP_NONE, [], 0), 1))
    else Err(UnknownAddressType)
  }

  /** The data follows the address; bytes beyond SIZE are ignored. */
  function ReadData(head: seq<Byte>, a: Address, rest: seq<Byte>): (r: Result<Packet, Malformed>)
    requires |head| == FIXED_LEN
  {
    var size := FromBe16(head[8..10]);
    if |rest| < size then Err(DataTruncated)
    else Ok(Packet(head[0], FromBe16(head[2..4]), FromBe16(head[4..6]), head[6], head[7], size, a, rest[..size]))
  }

  function ReadPacket(msg: seq<Byte>): (r: Result<Packet, Malformed>) {
    if |msg| < FIXED_LEN then Err(TooShort)
    else if msg[1] != PACKET_TYPE then Err(NotAPacket)
    else
      match ReadAddress(msg[FIXED_LEN..])
      case Err(e) => Err(e)
      case Ok(a) =>
        if |msg| < FIXED_LEN + a.len then Err(DataTruncated)
        else ReadData(msg[..FIXED_LEN], a.address, msg[FIXED_LEN + a.len..])
  }

  // --- what goes on the wire and comes back ----------------------------------------------------

  /** Addresses the parser can produce. */
  predicate WellFormedAddress(a: Address) {
    || (a.atyp == ATYP_IPV4 && |a.addr| == 4)
    || (a.atyp == ATYP_IPV6 && |a.addr| == 16)
    || (a.atyp == ATYP_DOMAIN && |a.addr| >= 1 && a.addr[0] == |a.addr| - 1)
    || a == Address(ATYP_NONE, [], 0)
  }

  predicate WellFormed(p: Packet) {
    WellFormedAddress(p.addr) && p.size == |p.data|
  }

  /** A None address loses whatever its other fields held. */
  function OnWireAddress(a: Address): Address {
    if a.atyp == ATYP_NONE then Address(ATYP_NONE, [], 0) else a
  }

  function OnWire(p: Packet): Packet {
    p.(addr := OnWireAddress(p.addr))
  }

  lemma {:induction false} OnWireEncodesAlike(p: Packet)
    ensures Encode(OnWire(p)) == Encode(p)
  {
  }

  lemma {:induction false} ReadUndoesEncodeAddress(a: Address, rest: seq<Byte>)
    requires WellFormedAddress(a)
    ensures ReadAddress(EncodeAddress(a) + rest) == Ok(AddressRead(a, |EncodeAddress(a)|))
  {
    var msg := EncodeAddress(a) + rest;
    if a.atyp != ATYP_NONE {
      var end := 1 + |a.addr|;
      assert msg[1..end] == a.addr;
      assert msg[end..end + 2] == Be16(a.port);
      Be16RoundTrip(a.port);
    }
  }

  lemma {:induction false} AcceptedAddressIsEncoding(msg: seq<Byte>)
    requires ReadAddress(msg).Ok?
    ensures var r := ReadAddress(msg).value;
            WellFormedAddress(r.address) && r.len <= |msg| && msg[..r.len] == EncodeAddress(r.address)
  {
    var r := ReadAddress(msg).value;
    if msg[0] != ATYP_NONE {
      var end := r.len - 2;
      FromBe16RoundTrip(msg[end..end + 2]);
      assert msg[..r.len] == [msg[0]] + msg[1..end] + msg[end..end + 2];
    }
  }

  lemma {:induction false} HeadFields(p: Packet)
    ensures var h := EncodeHead(p);
            && h[0] == p.ver && h[1] == PACKET_TYPE && FromBe16(h[2..4]) == p.assoc && FromBe16(h[4..6]) == p.id
            && h[6] == p.total && h[7] == p.frag && FromBe16(h[8..10]) == p.size
  {
    var h := EncodeHead(p);
    assert h[2..4] == Be16(p.assoc) && h[4..6] == Be16(p.id) && h[8..10] == Be16(p.size);
    Be16RoundTrip(p.assoc);
    Be16RoundTrip(p.id);
    Be16RoundTrip(p.size);
  }

  lemma {:induction false} FieldsMakeHead(head: seq<Byte>, p: Packet)
    requires |head| == FIXED_LEN && head[0] == p.ver && head[1] == PACKET_TYPE
    requires FromBe16(head[2..4]) == p.assoc && FromBe16(head[4..6]) == p.id
    requires head[6] == p.total && head[7] == p.frag && FromBe16(head[8..10]) == p.size
    ensures EncodeHead(p) == head
  {
    FromBe16RoundTrip(head[2..4]);
    FromBe16RoundTrip(head[4..6]);
    FromBe16RoundTrip(head[8..10]);
    assert head == head[..2] + head[2..4] + head[4..6] + head[6..8] + head[8..10];
  }

  /** Parsing undoes printing, whatever trails the datagram. */
  lemma {:induction false} ReadUndoesEncode(p: Packet, trailing: seq<Byte>)
    requires WellFormed(p)
    ensures ReadPacket(Encode(p) + trailing) == Ok(p)
  {
    var msg := Encode(p) + trailing;
    var address, rest := EncodeAddress(p.addr), p.data + trailing;
    assert msg == EncodeHead(p) + (address + rest);
    assert msg[..FIXED_LEN] == EncodeHead(p) && msg[FIXED_LEN..] == address + rest;
    assert msg[FIXED_LEN + |address|..] == rest;
    HeadFields(p);
    ReadUndoesEncodeAddress(p.addr, rest);
    assert rest[..p.size] == p.data;
  }

  lemma {:induction false} AcceptedIsEncoding(msg: seq<Byte>)
    requires ReadPacket(msg).Ok?
    ensures WellFormed(ReadPacket(msg).value) && Encode(ReadPacket(msg).value) <= msg
  {
    var p := ReadPacket(msg).value;
    var tail := msg[FIXED_LEN..];
    AcceptedAddressIsEncoding(tail);
    var len := ReadAddress(tail).value.len;
    FieldsMakeHead(msg[..FIXED_LEN], p);
    ThreeParts(msg, FIXED_LEN, len, p.size);
  }

  lemma {:induction false} ThreeParts(msg: seq<Byte>, a: nat, b: nat, c: nat)
    requires a + b + c <= |msg|
    ensures msg[..a] + msg[a..][..b] + msg[a + b..][..c] == msg[..a + b + c]
  {
  }

  /** A datagram is accepted as `p` exactly when it starts with the printed form of a well-formed `p`. */
  lemma {:induction false} AcceptedExactly(msg: seq<Byte>, p: Packet)
    ensures ReadPacket(msg) == Ok(p) <==> WellFormed(p) && Encode(p) <= msg
  {
    if ReadPacket(msg) == Ok(p) {
      AcceptedIsEncoding(msg);
    }
    if WellFormed(p) && Encode(p) <= msg {
      assert msg == Encode(p) + msg[|Encode(p)|..];
      ReadUndoesEncode(p, msg[|Encode(p)|..]);
    }
  }

  /** Where every field of a printed packet is, in bytes from the front. */
  lemma {:induction false} PacketLayout(p: Packet)
    ensures var w := Encode(p);
            && |w| >= 11 && w[0] == p.ver && w[1] == 2
            && w[2] as int * 256 + w[3] == p.assoc && w[4] as int * 256 + w[5] == p.id
            && w[6] == p.total && w[7] == p.frag && w[8] as int * 256 + w[9] == p.size && w[10] == p.addr.atyp
    ensures p.addr.atyp == 255 ==> Encode(p)[11..] == p.data
    ensures p.addr.atyp != 255 ==>
              var w, end := Encode(p), 11 + |p.addr.addr|;
              && |w| >= end + 2 && w[11..end] == p.addr.addr && w[end] as int * 256 + w[end + 1] == p.addr.port
              && w[end + 2..] == p.data
  {
    var w, head, address := Encode(p), EncodeHead(p), EncodeAddress(p.addr);
    assert w == head + address + p.data;
    assert forall i :: 0 <= i < 10 ==> w[i] == head[i];
    assert forall i :: 0 <= i < |address| ==> w[10 + i] == address[i];
    assert w[10 + |address|..] == p.data;
    if p.addr.atyp != 255 {
      var end := 11 + |p.addr.addr|;
      assert w[11..end] == address[1..end - 10] == p.addr.addr;
      assert address[end - 10..] == Be16(p.addr.port);
    }
  }

  /** Which addresses the parser takes: 4 bytes for type 1, 16 for type 2, a counted name for type 0, nothing for type 255. */
  lemma {:induction false} AddressLengths(a: Address)
    ensures WellFormedAddress(a) <==>
            || (a.atyp == 1 && |a.addr| == 4)
            || (a.atyp == 2 && |a.addr| == 16)
            || (a.atyp == 0 && |a.addr| > 0 && |a.addr| == 1 + a.addr[0] as int)
            || (a.atyp == 255 && a.addr == [] && a.port == 0)
  {
  }

  // --- parsing a stream -------------------------------------------------------------------------

  datatype StreamError = Io(io: Streams.IoError) | NotPacketCommand | UnknownType

  type Streamed<+T> = Streams.Streamed<T>

  function ReadFull(s: seq<Byte>, n: nat): Result<Streamed<seq<Byte>>, StreamError> {
    match Streams.ReadFull(s, n)
    case Err(e) => Err(Io(e))
    case Ok(r) => Ok(r)
  }

  /** Address bytes and port, read together after the `prefix` already read. */
  function StreamAddressBody(s: seq<Byte>, atyp: Byte, prefix: seq<Byte>, addrLen: nat)
    : Result<Streamed<Address>, StreamError>
  {
    match ReadFull(s, addrLen + 2)
    case Err(e) => Err(e)
    case Ok(r) => Ok(Streams.Streamed(Address(atyp, prefix + r.value[..addrLen], FromBe16(r.value[addrLen..])), r.rest))
  }

  function StreamAddressOfType(s: seq<Byte>, atyp: Byte): Result<Streamed<Address>, StreamError> {
    if atyp == ATYP_IPV4 then StreamAddressBody(s, atyp, [], 4)
    else if atyp == ATYP_IPV6 then StreamAddressBody(s, atyp, [], 16)
    else if atyp == ATYP_DOMAIN then
      match ReadFull(s, 1)
      case Err(e) => Err(e)
      case Ok(l) => StreamAddressBody(l.rest, atyp, l.value, l.value[0])
    else if atyp == ATYP_NONE then Ok(Streams.Streamed(Address(ATYP_NONE, [], 0), s))
    else Err(UnknownType)
  }

  function StreamAddress(s: seq<Byte>): Result<Streamed<Address>, StreamError> {
    match ReadFull(s, 1)
    case Err(e) => Err(e)
    case Ok(t) => StreamAddressOfType(t.rest, t.value[0])
  }

  function StreamPacket(s: seq<Byte>): Result<Streamed<Packet>, StreamError> {
    match ReadFull(s, FIXED_LEN)
    case Err(e) => Err(e)
    case Ok(h) =>
      if h.value[1] != PACKET_TYPE then Err(NotPacketCommand)
      else
        match StreamAddress(h.rest)
        case Err(e) => Err(e)
        case Ok(a) => StreamData(h.value, a.value, a.rest)
  }

  function StreamData(head: seq<Byte>, a: Address, s: seq<Byte>): Result<Streamed<Packet>, StreamError>
    requires |head| == FIXED_LEN
  {
    var size := FromBe16(head[8..10]);
    match ReadFull(s, size)
    case Err(e) => Err(e)
    case Ok(d) =>
      Ok(Streams.Streamed(
        Packet(head[0], FromBe16(head[2..4]), FromBe16(head[4..6]), head[6], head[7], size, a, d.value), d.rest))
  }

  lemma {:induction false} StreamAddressBodyAgrees(msg: seq<Byte>, prefix: seq<Byte>, addrLen: nat)
    requires |msg| >= 1 + |prefix| && prefix == msg[1..1 + |prefix|]
    ensures var slice := ReadAddressBody(msg, |prefix| + addrLen);
            var stream := StreamAddressBody(msg[1 + |prefix|..], msg[0], prefix, addrLen);
            && slice.Ok? == stream.Ok?
            && (slice.Ok? ==> slice.value.len <= |msg|
                              && stream.value == Streams.Streamed(slice.value.address, msg[slice.value.len..]))
  {
    var s := msg[1 + |prefix|..];
    if |s| >= addrLen + 2 {
      var end := 1 + |prefix| + addrLen;
      assert prefix + s[..addrLen] == msg[1..end];
      assert s[..addrLen + 2][addrLen..] == msg[end..end + 2];
      assert s[..addrLen + 2][..addrLen] == s[..addrLen];
      assert s[addrLen + 2..] == msg[end + 2..];
    }
  }

  lemma {:induction false} StreamAddressAgrees(msg: seq<Byte>)
    ensures var slice := ReadAddress(msg);
            var stream := StreamAddress(msg);
            && slice.Ok? == stream.Ok?
            && (slice.Ok? ==> slice.value.len <= |msg|
                              && stream.value == Streams.Streamed(slice.value.address, msg[slice.value.len..]))
  {
    if |msg| >= 1 {
      if msg[0] == ATYP_DOMAIN && |msg| >= 2 {
        assert msg[1..][..1] == msg[1..2] && msg[1..][1..] == msg[2..];
        StreamAddressBodyAgrees(msg, msg[1..2], msg[1]);
      } else if msg[0] == ATYP_IPV4 {
        StreamAddressBodyAgrees(msg, [], 4);
      } else if msg[0] == ATYP_IPV6 {
        StreamAddressBodyAgrees(msg, [], 16);
      }
    }
  }

  /** The stream parser accepts what the datagram parser accepts, with the same packet, and leaves the rest unread. */
  lemma {:induction false} StreamAgrees(msg: seq<Byte>)
    ensures ReadPacket(msg).Ok? == StreamPacket(msg).Ok?
    ensures ReadPacket(msg).Ok? ==>
              var p := ReadPacket(msg).value;
              |Encode(p)| <= |msg| && StreamPacket(msg).value == Streams.Streamed(p, msg[|Encode(p)|..])
  {
    if |msg| >= FIXED_LEN {
      var tail := msg[FIXED_LEN..];
      StreamAddressAgrees(tail);
      if ReadAddress(tail).Ok? {
        var len := ReadAddress(tail).value.len;
        assert tail[len..] == msg[FIXED_LEN + len..];
        AcceptedAddressIsEncoding(tail);
        if ReadPacket(msg).Ok? {
          var p := ReadPacket(msg).value;
          assert |Encode(p)| == FIXED_LEN + len + p.size;
          assert msg[FIXED_LEN + len..][p.size..] == msg[|Encode(p)|..];
        }
      }
    }
  }
}
