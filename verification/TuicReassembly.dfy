/**
 Reassembly of TUIC fragments as functions on values: one fragment set
 (protocol/tuic/frag.go), the bucket of sets that share a packet ID, and the two
 consumers of a bucket (protocol/tuic/packet.go). Expiry is left out, so no set
 carries a time.
 */
module TuicReassembly {
  import opened Bytes
  import opened TuicCodec

  datatype AddrPort = AddrPort(ip: seq<Byte>, port: U16)

  /** The address as an IP endpoint; None stands for an invalid one. */
  function AddrPortOf(a: Address): Option<AddrPort> {
    if a.atyp == ATYP_NONE || (|a.addr| != 4 && |a.addr| != 16) then None else Some(AddrPort(a.addr, a.port))
  }

  /** A parsed fragment; the handle is the identity of its pooled payload. */
  datatype Fragment = Fragment(handle: nat, packet: Packet)

  type Slots = seq<Option<Fragment>>

  /** One message in flight. `first` is the address of fragment 0 once a valid one has been seen. */
  datatype FragSet = FragSet(id: U16, frags: Slots, count: nat, totalLen: nat, first: Option<AddrPort>)

  const NEW_SET := FragSet(0, [], 0, 0, None)

  function Vacant(n: nat): (frags: Slots)
    ensures |frags| == n && forall i :: 0 <= i < n ==> frags[i].None?
  {
    if n == 0 then [] else [None] + Vacant(n - 1)
  }

  /** How many slots from `i` on are filled. */
  function Present(frags: Slots, i: nat): nat
    requires i <= |frags|
    decreases |frags| - i
  {
    if i == |frags| then 0 else (if frags[i].Some? then 1 else 0) + Present(frags, i + 1)
  }

  function Size(frags: Slots, i: nat): nat
    requires i <= |frags|
    decreases |frags| - i
  {
    if i == |frags| then 0 else (if frags[i].Some? then |frags[i].value.packet.data| else 0) + Size(frags, i + 1)
  }

  function Joined(frags: Slots, i: nat): seq<Byte>
    requires i <= |frags|
    decreases |frags| - i
  {
    if i == |frags| then [] else (if frags[i].Some? then frags[i].value.packet.data else []) + Joined(frags, i + 1)
  }

  function Handles(frags: Slots, i: nat): seq<nat>
    requires i <= |frags|
    decreases |frags| - i
  {
    if i == |frags| then [] else (if frags[i].Some? then [frags[i].value.handle] else []) + Handles(frags, i + 1)
  }

  /** What a set keeps at all times. */
  ghost predicate ValidSet(d: FragSet) {
    d.count == Present(d.frags, 0) && d.totalLen == Size(d.frags, 0) && |d.frags| <= 255
  }

  // --- counting slots ----------------------------------------------------------------------

  lemma {:induction false} VacantIsNothing(n: nat, i: nat)
    requires i <= n
    ensures Present(Vacant(n), i) == 0 && Size(Vacant(n), i) == 0
    decreases n - i
  {
    if i < n {
      VacantIsNothing(n, i + 1);
    }
  }

  lemma {:induction false} StoringCounts(frags: Slots, k: nat, m: Fragment, i: nat)
    requires i <= |frags| && k < |frags| && frags[k].None?
    ensures Present(frags[k := Some(m)], i) == Present(frags, i) + if i <= k then 1 else 0
    ensures Size(frags[k := Some(m)], i) == Size(frags, i) + if i <= k then |m.packet.data| else 0
    decreases |frags| - i
  {
    if i < |frags| {
      StoringCounts(frags, k, m, i + 1);
    }
  }

  /** As many fragments as slots means no slot is vacant. */
  lemma {:induction false} FullCount(frags: Slots, i: nat)
    requires i <= |frags|
    ensures Present(frags, i) <= |frags| - i
    ensures Present(frags, i) == |frags| - i ==> forall k :: i <= k < |frags| ==> frags[k].Some?
    decreases |frags| - i
  {
    if i < |frags| {
      FullCount(frags, i + 1);
    }
  }

  // --- one set ---------------------------------------------------------------------------

  predicate Matches(d: FragSet, p: Packet) {
    if p.total <= 1 then false
    else if d.count == 0 then p.frag < p.total
    else if d.id != p.id || |d.frags| != p.total then false
    else if p.frag >= p.total then false
    else if p.frag == 0 then d.first.None? || (AddrPortOf(p.addr).Some? && d.first == AddrPortOf(p.addr))
    else d.frags[p.frag].None?
  }

  predicate Complete(d: FragSet) {
    d.count == |d.frags| && d.first.Some?
  }

  /** A set without fragments starts over with the message of `p`. */
  function Opened(d: FragSet, p: Packet): FragSet {
    if d.count == 0 then FragSet(p.id, Vacant(p.total), 0, 0, None) else d
  }

  function Addressed(d: FragSet, p: Packet): FragSet {
    if p.frag == 0 && AddrPortOf(p.addr).Some? then d.(first := AddrPortOf(p.addr)) else d
  }

  function Stored(d: FragSet, m: Fragment): FragSet
    requires m.packet.frag < |d.frags|
  {
    var d' := Addressed(d, m.packet);
    if d.frags[m.packet.frag].Some? then d'
    else d'.(frags := d.frags[m.packet.frag := Some(m)], count := d.count + 1, totalLen := d.totalLen + |m.packet.data|)
  }

  function Emptied(d: FragSet): FragSet {
    d.(frags := Vacant(|d.frags|), count := 0, totalLen := 0)
  }

  /** What feeding a set gives: `released` lists the handles given back to the pool. */
  datatype Fed = Fed(set': FragSet, assembled: bool, bytes: seq<Byte>, addr: Option<AddrPort>, released: seq<nat>)

  function Feed(d: FragSet, m: Fragment, room: nat): Fed {
    var p := m.packet;
    if p.total <= 1 then Fed(d, true, p.data[..Min(room, |p.data|)], AddrPortOf(p.addr), [])
    else if p.frag >= p.total then Fed(d, false, [], None, [])
    else
      var d0 := Opened(d, p);
      if |d0.frags| != p.total then Fed(d0, false, [], None, [])
      else
        var refused := if d0.frags[p.frag].Some? && d0.frags[p.frag] != Some(m) then [m.handle] else [];
        var d1 := Stored(d0, m);
        if Complete(d1) && room >= d1.totalLen then
          Fed(Emptied(d1), true, Joined(d1.frags, 0), d1.first, refused + Handles(d1.frags, 0))
        else Fed(d1, false, [], None, refused)
  }

  // --- a bucket ----------------------------------------------------------------------------

  /** The indices from `i` on of the sets a fragment could belong to. */
  function Candidates(sets: seq<FragSet>, p: Packet, i: nat): (cs: seq<nat>)
    requires i <= |sets|
    ensures forall x :: 0 <= x < |cs| ==> cs[x] < |sets|
    decreases |sets| - i
  {
    if i == |sets| then []
    else (if Matches(sets[i], p) then [i] else []) + Candidates(sets, p, i + 1)
  }

  ghost predicate Indices(sets: seq<FragSet>, cs: seq<nat>) {
    forall x :: 0 <= x < |cs| ==> cs[x] < |sets|
  }

  /** The first candidate whose first fragment came from `addr`. */
  function FirstFrom(sets: seq<FragSet>, cs: seq<nat>, addr: Option<AddrPort>): (r: Option<nat>)
    requires Indices(sets, cs)
    ensures r.Some? ==> r.value < |sets|
  {
    if cs == [] then None
    else if sets[cs[0]].first.Some? && sets[cs[0]].first == addr then Some(cs[0])
    else FirstFrom(sets, cs[1..], addr)
  }

  /** The first candidate still without its first fragment. */
  function FirstUnaddressed(sets: seq<FragSet>, cs: seq<nat>): (r: Option<nat>)
    requires Indices(sets, cs)
    ensures r.Some? ==> r.value < |sets|
  {
    if cs == [] then None
    else if sets[cs[0]].first.None? then Some(cs[0])
    else FirstUnaddressed(sets, cs[1..])
  }

  /** The candidates that have their first fragment. */
  function WithFirst(sets: seq<FragSet>, cs: seq<nat>): (r: seq<nat>)
    requires Indices(sets, cs)
    ensures Indices(sets, r)
  {
    if cs == [] then []
    else (if sets[cs[0]].first.Some? then [cs[0]] else []) + WithFirst(sets, cs[1..])
  }

  datatype Choice = Fresh | Use(index: nat) | Drop

  /** Which set a fragment goes to; an ambiguous later fragment goes nowhere. */
  function Select(sets: seq<FragSet>, p: Packet): (c: Choice)
    ensures c.Use? ==> c.index < |sets|
  {
    var cs := Candidates(sets, p, 0);
    if |cs| == 0 then Fresh
    else if |cs| == 1 then Use(cs[0])
    else if p.frag == 0 then
      var same := FirstFrom(sets, cs, AddrPortOf(p.addr));
      if same.Some? then Use(same.value)
      else
        var open := FirstUnaddressed(sets, cs);
        if open.Some? then Use(open.value) else Fresh
    else
      var known := WithFirst(sets, cs);
      if |known| == 1 then Use(known[0]) else Drop
  }

  /** Removal by moving the last element into the gap. */
  function Removed<T>(s: seq<T>, i: nat): (r: seq<T>)
    requires i < |s|
    ensures |r| == |s| - 1
  {
    s[i := s[|s| - 1]][..|s| - 1]
  }

  /** `size` is the length of a message that is complete but did not fit. */
  datatype BucketOut =
    BucketOut(sets: seq<FragSet>, assembled: bool, bytes: seq<Byte>, addr: Option<AddrPort>, size: nat, released: seq<nat>)

  function FeedAt(sets: seq<FragSet>, i: nat, m: Fragment, room: nat): BucketOut
    requires i < |sets|
  {
    var d := sets[i];
    if Complete(d) && room < d.totalLen then BucketOut(sets, false, [], None, d.totalLen, [])
    else
      var fed := Feed(d, m, room);
      if fed.assembled then BucketOut(Removed(sets, i), true, fed.bytes, fed.addr, d.totalLen, fed.released)
      else
        var size := if Complete(fed.set') then fed.set'.totalLen else 0;
        BucketOut(sets[i := fed.set'], false, [], None, size, fed.released)
  }

  function FeedBucket(sets: seq<FragSet>, m: Fragment, room: nat): BucketOut {
    if m.packet.total <= 1 || m.packet.frag >= m.packet.total then BucketOut(sets, false, [], None, 0, [m.handle])
    else
      match Select(sets, m.packet)
      case Fresh => FeedAt(sets + [NEW_SET], |sets|, m, room)
      case Use(i) => FeedAt(sets, i, m, room)
      case Drop => BucketOut(sets, false, [], None, 0, [m.handle])
  }

  function FirstPresent(frags: Slots, i: nat): Option<Fragment>
    requires i <= |frags|
    decreases |frags| - i
  {
    if i == |frags| then None else if frags[i].Some? then frags[i] else FirstPresent(frags, i + 1)
  }

  /** Feeding no packet: assemble the first complete set that fits. */
  function TakeComplete(sets: seq<FragSet>, room: nat, i: nat): BucketOut
    requires i <= |sets|
    decreases |sets| - i
  {
    if i == |sets| then BucketOut(sets, false, [], None, 0, [])
    else
      var d := sets[i];
      if !Complete(d) || room < d.totalLen then TakeComplete(sets, room, i + 1)
      else
        match FirstPresent(d.frags, 0)
        case None => BucketOut(sets, false, [], None, d.totalLen, [])
        case Some(trigger) =>
          var fed := Feed(d, trigger, room);
          if fed.assembled then BucketOut(Removed(sets, i), true, fed.bytes, fed.addr, d.totalLen, fed.released)
          else BucketOut(sets[i := fed.set'], false, [], None, d.totalLen, fed.released)
  }

  ghost predicate NoneComplete(sets: seq<FragSet>) {
    forall x :: 0 <= x < |sets| ==> !Complete(sets[x])
  }

  lemma {:induction false} TakeSkips(sets: seq<FragSet>, room: nat, j: nat, k: nat)
    requires j <= k <= |sets| && forall x :: j <= x < k ==> !Complete(sets[x])
    ensures TakeComplete(sets, room, j) == TakeComplete(sets, room, k)
    decreases k - j
  {
    if j < k {
      TakeSkips(sets, room, j + 1, k);
    }
  }

  // --- the consumers ----------------------------------------------------------------------------

  /** A caller polling with a buffer of `room` bytes, or a registered receiver. */
  datatype Mode = Poll(room: nat) | Push

  /** `slack` is how much longer than asked a pooled buffer happens to be. */
  datatype Arrival = Arrival(fragment: Fragment, mode: Mode, slack: nat)

  /** `short` marks a datagram reported as dropped because the caller's buffer was too small. */
  datatype Delivery = Delivery(bytes: seq<Byte>, addr: Option<AddrPort>, short: bool)

  datatype Step = Step(sets: seq<FragSet>, delivery: Option<Delivery>)

  /** One turn of the ReadFrom loop. */
  function PollStep(sets: seq<FragSet>, m: Fragment, room: nat, slack: nat): Step {
    var r := FeedBucket(sets, m, room);
    if r.assembled then Step(r.sets, Some(Delivery(r.bytes, r.addr, false)))
    else if r.size > room then
      var t := TakeComplete(r.sets, r.size + slack, 0);
      if t.assembled then Step(t.sets, Some(Delivery(t.bytes[..Min(room, |t.bytes|)], t.addr, |t.bytes| > room)))
      else Step(t.sets, None)
    else Step(r.sets, None)
  }

  /** deliverPacket: the first feeding has no buffer at all. */
  function PushStep(sets: seq<FragSet>, m: Fragment, slack: nat): Step {
    var r := FeedBucket(sets, m, 0);
    if !r.assembled && r.size == 0 then Step(r.sets, None)
    else
      var t := TakeComplete(r.sets, r.size + slack, 0);
      if t.assembled then Step(t.sets, Some(Delivery(t.bytes, t.addr, false))) else Step(t.sets, None)
  }

  function Arrive(sets: seq<FragSet>, a: Arrival): Step {
    match a.mode
    case Poll(room) => PollStep(sets, a.fragment, room, a.slack)
    case Push => PushStep(sets, a.fragment, a.slack)
  }

  datatype Trace = Trace(sets: seq<FragSet>, out: seq<Option<Delivery>>)

  function ArriveAll(sets: seq<FragSet>, arrivals: seq<Arrival>): (t: Trace)
    ensures |t.out| == |arrivals|
    decreases |arrivals|
  {
    if arrivals == [] then Trace(sets, [])
    else
      var step := Arrive(sets, arrivals[0]);
      var later := ArriveAll(step.sets, arrivals[1..]);
      Trace(later.sets, [step.delivery] + later.out)
  }
}
