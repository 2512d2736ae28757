/**
 Splitting an oversized TUIC packet into fragments (protocol/tuic/frag.go) and
 choosing the fragment size from the datagram limit (protocol/tuic/packet.go).
 */
module TuicFrag {
  import opened Bytes
  import opened TuicCodec
  import opened Quotients
  import opened Cutting

  const MAX_FRAGMENTS: nat := 255

  datatype FragError = InvalidSize | TooManyFragments | SendFailed

  function Count(payload: seq<Byte>, fragSize: nat): nat
    requires fragSize > 0
  {
    |Pieces(payload, fragSize, 0)|
  }

  /** The number of pieces is the rounded-up quotient the code computes first. */
  lemma {:induction false} CountIsQuotient(payload: seq<Byte>, fragSize: nat)
    requires fragSize > 0
    ensures Count(payload, fragSize) == (|payload| + fragSize - 1) / fragSize
  {
    PiecesCount(payload, fragSize, 0);
    CeilIsQuotient(|payload|, fragSize);
  }

  /** Fragment `i`: the first keeps the address, later ones carry none. */
  function FragmentAt(packet: Packet, pieces: seq<seq<Byte>>, i: nat): Packet
    requires i < |pieces| <= MAX_FRAGMENTS
  {
    packet.(
      total := |pieces|,
      frag := i,
      size := |pieces[i]| % 0x1_0000,
      addr := if i == 0 then packet.addr else packet.addr.(atyp := ATYP_NONE),
      data := pieces[i])
  }

  ghost predicate IsFragmentation(packet: Packet, pieces: seq<seq<Byte>>, frags: seq<Packet>) {
    |frags| <= |pieces| <= MAX_FRAGMENTS && forall i :: 0 <= i < |frags| ==> frags[i] == FragmentAt(packet, pieces, i)
  }

  /** Also returns the packet as the caller is left with it: FRAG_TOTAL is written back. */
  method FragmentPackets(packet: Packet, fragSize: int) returns (r: Result<seq<Packet>, FragError>, packet': Packet)
    ensures fragSize <= 0 ==> r == Err(InvalidSize) && packet' == packet
    ensures fragSize > 0 && Count(packet.data, fragSize) > MAX_FRAGMENTS ==> r == Err(TooManyFragments) && packet' == packet
    ensures fragSize > 0 && Count(packet.data, fragSize) <= MAX_FRAGMENTS ==>
              && packet' == packet.(total := Count(packet.data, fragSize))
              && r.Ok? && |r.value| == Count(packet.data, fragSize)
              && IsFragmentation(packet, Pieces(packet.data, fragSize, 0), r.value)
  {
    packet' := packet;
    if fragSize <= 0 {
      return Err(InvalidSize), packet';
    }
    var fullPayload := packet.data;
    var fragCount := (|fullPayload| + fragSize - 1) / fragSize;
    CountIsQuotient(fullPayload, fragSize);
    if fragCount > MAX_FRAGMENTS {
      return Err(TooManyFragments), packet';
    }
    packet' := packet.(total := fragCount);
    var frags := Cut(packet', fragSize);
    r := Ok(frags);
  }

  /** The cutting loop. */
  method Cut(packet: Packet, fragSize: nat) returns (frags: seq<Packet>)
    requires fragSize > 0 && packet.total == Count(packet.data, fragSize) <= MAX_FRAGMENTS
    ensures |frags| == Count(packet.data, fragSize)
    ensures IsFragmentation(packet, Pieces(packet.data, fragSize, 0), frags)
  {
    var fullPayload := packet.data;
    ghost var pieces := Pieces(fullPayload, fragSize, 0);
    frags := [];
    var off := 0;
    while off < |fullPayload|
      invariant 0 <= off <= |fullPayload| && (off == 0 <==> frags == [])
      invariant IsFragmentation(packet, pieces, frags)
      invariant pieces[|frags|..] == Pieces(fullPayload, fragSize, off)
    {
      var payloadSize := |fullPayload| - off;
      if payloadSize > fragSize {
        payloadSize := fragSize;
      }
      var data := fullPayload[off..off + payloadSize];
      ghost var rest := Pieces(fullPayload, fragSize, off + payloadSize);
      assert pieces[|frags|..] == [data] + rest;
      NextPiece(pieces, |frags|, data, rest);
      var addr := if off == 0 then packet.addr else packet.addr.(atyp := ATYP_NONE);
      var frag := packet.(addr := addr, frag := |frags|, size := payloadSize % 0x1_0000, data := data);
      OneMoreFragment(packet, pieces, frags, frag);
      frags := frags + [frag];
      off := off + payloadSize;
    }
  }

  lemma {:induction false} OneMoreFragment(packet: Packet, pieces: seq<seq<Byte>>, frags: seq<Packet>, frag: Packet)
    requires IsFragmentation(packet, pieces, frags) && |frags| < |pieces|
    requires frag == FragmentAt(packet, pieces, |frags|)
    ensures IsFragmentation(packet, pieces, frags + [frag])
  {
  }

  // --- the datagram limit -------------------------------------------------------------------

  /** The fragment size WriteTo derives from the limit a failed send reports. */
  function FragSize(packet: Packet, maxDataLen: int, relayLimit: int): int {
    var room := maxDataLen - (BytesLen(packet) - |packet.data|);
    if relayLimit > 0 && room > relayLimit then relayLimit else room
  }

  /** It is the largest size within both limits: what the header leaves of a datagram, and the relay's own if any. */
  lemma {:induction false} LargestFragSize(packet: Packet, maxDataLen: int, relayLimit: int, size: int)
    ensures size <= FragSize(packet, maxDataLen, relayLimit) <==>
            && size + (if packet.addr.atyp == 255 then 11 else 13 + |packet.addr.addr|) <= maxDataLen
            && (relayLimit > 0 ==> size <= relayLimit)
  {
  }

  /** No serialized fragment is longer than the reported limit. */
  lemma {:induction false} FragmentFits(packet: Packet, maxDataLen: int, relayLimit: int, i: nat)
    requires FragSize(packet, maxDataLen, relayLimit) > 0
    requires i < Count(packet.data, FragSize(packet, maxDataLen, relayLimit)) <= MAX_FRAGMENTS
    ensures var pieces := Pieces(packet.data, FragSize(packet, maxDataLen, relayLimit), 0);
            |Encode(FragmentAt(packet, pieces, i))| <= maxDataLen
  {
    var pieces := Pieces(packet.data, FragSize(packet, maxDataLen, relayLimit), 0);
    BytesLenIsExact(FragmentAt(packet, pieces, i));
  }

  /**
   Fragment, print each fragment and send it; `accepts` tells which datagrams the
   connection takes. The first one it refuses ends the sending.
   */
  method FragWriteNative(packet: Packet, maxDataLen: int, relayLimit: int, accepts: nat -> bool)
    returns (sent: seq<seq<Byte>>, err: Option<FragError>)
    ensures var fragSize := FragSize(packet, maxDataLen, relayLimit);
            if fragSize <= 0 || Count(packet.data, fragSize) > MAX_FRAGMENTS
            then sent == [] && err.Some? && err.value != SendFailed
            else
              var pieces := Pieces(packet.data, fragSize, 0);
              && |sent| <= |pieces| <= MAX_FRAGMENTS
              && (forall i :: 0 <= i < |sent| ==>
                    sent[i] == Encode(FragmentAt(packet, pieces, i)) && |sent[i]| <= maxDataLen && accepts(i))
              && (err.None? <==> |sent| == |pieces|)
              && (err.Some? ==> err.value == SendFailed && !accepts(|sent|))
  {
    var fragSize := FragSize(packet, maxDataLen, relayLimit);
    sent, err := [], None;
    var frags, _ := FragmentPackets(packet, fragSize);
    if frags.Err? {
      return [], Some(frags.error);
    }
    ghost var pieces := Pieces(packet.data, fragSize, 0);
    for k := 0 to |frags.value|
      invariant |sent| == k
      invariant forall i :: 0 <= i < k ==>
                  sent[i] == Encode(FragmentAt(packet, pieces, i)) && |sent[i]| <= maxDataLen && accepts(i)
    {
      var buf := new Byte[BytesLen(frags.value[k])];
      var n := WriteToBytes(frags.value[k], buf, 0);
      FragmentFits(packet, maxDataLen, relayLimit, k);
      assert buf[..n] == [] + Encode(FragmentAt(packet, pieces, k));
      if !accepts(k) {
        return sent, Some(SendFailed);
      }
      sent := sent + [buf[..n]];
    }
  }

  // --- the receiver's view of a fragment --------------------------------------------------------

  predicate IpAddress(a: Address) {
    (a.atyp == ATYP_IPV4 && |a.addr| == 4) || (a.atyp == ATYP_IPV6 && |a.addr| == 16)
  }

  /** Fragment `i` as the receiver parses it. */
  function Received(packet: Packet, pieces: seq<seq<Byte>>, i: nat): Packet
    requires i < |pieces| <= MAX_FRAGMENTS
  {
    OnWire(FragmentAt(packet, pieces, i))
  }

  /** Every sent fragment parses, to what was sent without the unused address fields. */
  lemma {:induction false} FragmentSurvivesWire(packet: Packet, fragSize: nat, i: nat, trailing: seq<Byte>)
    requires fragSize > 0 && |packet.data| < 0x1_0000 && IpAddress(packet.addr)
    requires i < Count(packet.data, fragSize) <= MAX_FRAGMENTS
    ensures var pieces := Pieces(packet.data, fragSize, 0);
            ReadPacket(Encode(FragmentAt(packet, pieces, i)) + trailing) == Ok(Received(packet, pieces, i))
  {
    var pieces := Pieces(packet.data, fragSize, 0);
    var f := FragmentAt(packet, pieces, i);
    PieceNoLonger(packet.data, fragSize, 0, i);
    OnWireEncodesAlike(f);
    ReadUndoesEncode(OnWire(f), trailing);
  }
}
