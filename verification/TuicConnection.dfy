/**
 The receive path of a whole TUIC association (protocol/tuic/packet.go): datagrams that
 are not fragmented come out at once, fragments go to the bucket of their packet ID, and a
 bucket that has run empty is dropped. Traffic under one packet ID never affects another.
 */
module TuicConnection {
  import opened Bytes
  import opened TuicCodec
  import opened TuicReassembly
  import opened TuicDelivery

  type Buckets = map<U16, seq<FragSet>>

  function BucketOf(m: Buckets, id: U16): seq<FragSet> {
    if id in m then m[id] else []
  }

  /** A datagram that was never fragmented. */
  function Whole(p: Packet, mode: Mode): Delivery {
    match mode
    case Poll(room) => Delivery(p.data[..Min(room, |p.data|)], AddrPortOf(p.addr), |p.data| > room)
    case Push => Delivery(p.data, AddrPortOf(p.addr), false)
  }

  datatype ConnStep = ConnStep(buckets: Buckets, delivery: Option<Delivery>)

  function Receive(m: Buckets, a: Arrival): ConnStep {
    var p := a.fragment.packet;
    if p.total <= 1 then ConnStep(m, Some(Whole(p, a.mode)))
    else
      var step := Arrive(BucketOf(m, p.id), a);
      var retired := step.delivery.Some? && step.sets == [];
      ConnStep(if retired then m - {p.id} else m[p.id := step.sets], step.delivery)
  }

  /** A datagram that was never fragmented comes out at once, cut to the caller's buffer and marked if it is longer. */
  lemma {:induction false} UnfragmentedComesOut(m: Buckets, a: Arrival)
    requires a.fragment.packet.total <= 1
    ensures var p, r := a.fragment.packet, Receive(m, a);
            && r.buckets == m && r.delivery.Some? && r.delivery.value.addr == AddrPortOf(p.addr)
            && (a.mode.Push? || a.mode.room >= |p.data| ==> r.delivery.value.bytes == p.data && !r.delivery.value.short)
            && (a.mode.Poll? && a.mode.room < |p.data| ==>
                  r.delivery.value.bytes == p.data[..a.mode.room] && r.delivery.value.short)
  {
    assert a.fragment.packet.data[..|a.fragment.packet.data|] == a.fragment.packet.data;
  }

  /** A bucket is dropped exactly when a datagram comes out of it and leaves it empty; other buckets stay as they are. */
  lemma {:induction false} DroppedWhenEmpty(m: Buckets, a: Arrival)
    requires a.fragment.packet.total > 1
    ensures var id, r := a.fragment.packet.id, Receive(m, a);
            && (id in r.buckets <==> r.delivery.None? || BucketOf(r.buckets, id) != [])
            && forall other: U16 :: other != id ==> BucketOf(r.buckets, other) == BucketOf(m, other)
  {
  }

  datatype ConnTrace = ConnTrace(buckets: Buckets, out: seq<Option<Delivery>>)

  function ReceiveAll(m: Buckets, arrivals: seq<Arrival>): (t: ConnTrace)
    ensures |t.out| == |arrivals|
    decreases |arrivals|
  {
    if arrivals == [] then ConnTrace(m, [])
    else
      var step := Receive(m, arrivals[0]);
      var later := ReceiveAll(step.buckets, arrivals[1..]);
      ConnTrace(later.buckets, [step.delivery] + later.out)
  }

  predicate FragmentOf(a: Arrival, id: U16) {
    a.fragment.packet.total > 1 && a.fragment.packet.id == id
  }

  /** The fragments that carry a packet ID. */
  function Fragments(arrivals: seq<Arrival>, id: U16): seq<Arrival> {
    if arrivals == [] then []
    else (if FragmentOf(arrivals[0], id) then [arrivals[0]] else []) + Fragments(arrivals[1..], id)
  }

  /** What came out with them. */
  function OutOf(arrivals: seq<Arrival>, out: seq<Option<Delivery>>, id: U16): seq<Option<Delivery>>
    requires |out| == |arrivals|
  {
    if arrivals == [] then []
    else (if FragmentOf(arrivals[0], id) then [out[0]] else []) + OutOf(arrivals[1..], out[1..], id)
  }

  /** Seen from one packet ID, a run of the association is a run of its own bucket alone. */
  lemma {:induction false} PacketIdsAreIndependent(m: Buckets, arrivals: seq<Arrival>, id: U16)
    ensures var t := ReceiveAll(m, arrivals);
            var own := ArriveAll(BucketOf(m, id), Fragments(arrivals, id));
            BucketOf(t.buckets, id) == own.sets && OutOf(arrivals, t.out, id) == own.out
    decreases |arrivals|
  {
    if arrivals != [] {
      var a, rest := arrivals[0], arrivals[1..];
      var step := Receive(m, a);
      PacketIdsAreIndependent(step.buckets, rest, id);
      OneArrival(m, a, id);
      var t := ReceiveAll(step.buckets, rest);
      assert ([step.delivery] + t.out)[1..] == t.out;
      if FragmentOf(a, id) {
        var later := Fragments(rest, id);
        assert ([a] + later)[1..] == later;
      } else {
        assert Fragments(arrivals, id) == Fragments(rest, id);
        assert OutOf(arrivals, [step.delivery] + t.out, id) == OutOf(rest, t.out, id);
      }
    }
  }

  lemma {:induction false} OneArrival(m: Buckets, a: Arrival, id: U16)
    ensures var step := Receive(m, a);
            if FragmentOf(a, id)
            then Step(BucketOf(step.buckets, id), step.delivery) == Arrive(BucketOf(m, id), a)
            else BucketOf(step.buckets, id) == BucketOf(m, id)
  {
  }

  /**
   The fragments of a message, in any order and in the midst of any traffic that does not
   use its packet ID, give the message once, with the last of them.
   */
  lemma {:induction false} DeliveredAmongOthers(s: Sent, order: seq<nat>, arrivals: seq<Arrival>)
    requires ValidSent(s) && IsOrder(s, order, Fragments(arrivals, s.packet.id))
    ensures var own := Fragments(arrivals, s.packet.id);
            var t := ReceiveAll(map[], arrivals);
            && |own| > 0
            && OnlyAtTheEnd(Trace(BucketOf(t.buckets, s.packet.id), OutOf(arrivals, t.out, s.packet.id)),
                            Expected(s, own[|own| - 1].mode))
  {
    var own := Fragments(arrivals, s.packet.id);
    AnyOrder(s, order, own);
    Renamed(arrivals, s.packet.id, ArriveAll([], own));
  }

  lemma {:induction false} Renamed(arrivals: seq<Arrival>, id: U16, own: Trace)
    requires own == ArriveAll([], Fragments(arrivals, id))
    ensures var t := ReceiveAll(map[], arrivals); Trace(BucketOf(t.buckets, id), OutOf(arrivals, t.out, id)) == own
  {
    PacketIdsAreIndependent(map[], arrivals, id);
  }
}
