/**
 What the TUIC receive path guarantees: any arrival order of one message's
 fragments gives the message back exactly once, and messages that share a packet
 ID never mix.
 */
module TuicDelivery {
  import opened Bytes
  import opened TuicCodec
  import opened Cutting
  import opened TuicFrag
  import opened TuicReassembly

  /** A message as its sender cut it. */
  datatype Sent = Sent(packet: Packet, fragSize: nat)

  ghost predicate ValidSent(s: Sent) {
    && s.fragSize > 0 && |s.packet.data| < 0x1_0000 && IpAddress(s.packet.addr)
    && 2 <= Count(s.packet.data, s.fragSize) <= MAX_FRAGMENTS
  }

  function PiecesOf(s: Sent): seq<seq<Byte>>
    requires s.fragSize > 0
  {
    Pieces(s.packet.data, s.fragSize, 0)
  }

  /** Fragment `i` of a message, as the receiver parses it. */
  ghost function Piece(s: Sent, i: nat): Packet
    requires ValidSent(s) && i < |PiecesOf(s)|
  {
    Received(s.packet, PiecesOf(s), i)
  }

  ghost function Source(s: Sent): AddrPort {
    AddrPort(s.packet.addr.addr, s.packet.addr.port)
  }

  /** What a consumer gets for a whole message. */
  ghost function Expected(s: Sent, mode: Mode): Delivery {
    match mode
    case Poll(room) =>
      Delivery(s.packet.data[..Min(room, |s.packet.data|)], Some(Source(s)), |s.packet.data| > room)
    case Push => Delivery(s.packet.data, Some(Source(s)), false)
  }

  lemma {:induction false} PieceFields(s: Sent, i: nat)
    requires ValidSent(s) && i < |PiecesOf(s)|
    ensures var p := Piece(s, i);
            && p.total == |PiecesOf(s)| && p.frag == i && p.id == s.packet.id && p.data == PiecesOf(s)[i]
            && AddrPortOf(p.addr) == (if i == 0 then Some(Source(s)) else None)
  {
  }

  // --- a set that holds fragments of one message -------------------------------------------------

  lemma {:induction false} JoinedIsFlat(frags: Slots, pieces: seq<seq<Byte>>, i: nat)
    requires i <= |frags| == |pieces|
    requires forall k :: i <= k < |frags| ==> frags[k].Some? && frags[k].value.packet.data == pieces[k]
    ensures Joined(frags, i) == Flatten(pieces[i..]) && Size(frags, i) == |Flatten(pieces[i..])|
    decreases |frags| - i
  {
    if i < |frags| {
      JoinedIsFlat(frags, pieces, i + 1);
      assert pieces[i..] == [pieces[i]] + pieces[i + 1..];
    }
  }

  ghost predicate Holds(s: Sent, d: FragSet)
    requires ValidSent(s)
  {
    && ValidSet(d)
    && d.id == s.packet.id && |d.frags| == |PiecesOf(s)|
    && (forall i :: 0 <= i < |d.frags| && d.frags[i].Some? ==> d.frags[i].value.packet == Piece(s, i))
    && d.first == (if d.frags[0].Some? then Some(Source(s)) else None)
  }

  lemma {:induction false} OpenedHolds(s: Sent, i: nat)
    requires ValidSent(s) && i < |PiecesOf(s)|
    ensures Holds(s, Opened(NEW_SET, Piece(s, i)))
  {
    VacantIsNothing(|PiecesOf(s)|, 0);
  }

  lemma {:induction false} StoredHolds(s: Sent, d: FragSet, m: Fragment, i: nat)
    requires ValidSent(s) && Holds(s, d) && i < |d.frags| && d.frags[i].None? && m.packet == Piece(s, i)
    ensures m.packet.frag == i && Holds(s, Stored(d, m)) && Stored(d, m).count == d.count + 1
    ensures Stored(d, m).frags == d.frags[i := Some(m)]
  {
    PieceFields(s, i);
    StoringCounts(d.frags, i, m, 0);
  }

  /** A full set joins to the message, and is complete. */
  lemma {:induction false} FullSetJoins(s: Sent, d: FragSet)
    requires ValidSent(s) && Holds(s, d) && d.count == |d.frags|
    ensures Complete(d) && d.totalLen == |s.packet.data| && Joined(d.frags, 0) == s.packet.data
    ensures forall k :: 0 <= k < |d.frags| ==> d.frags[k].Some?
  {
    FullCount(d.frags, 0);
    forall k | 0 <= k < |d.frags| ensures d.frags[k].value.packet.data == PiecesOf(s)[k] {
      PieceFields(s, k);
    }
    JoinedIsFlat(d.frags, PiecesOf(s), 0);
    PiecesJoin(s.packet.data, s.fragSize, 0);
    assert PiecesOf(s)[0..] == PiecesOf(s) && s.packet.data[0..] == s.packet.data;
  }

  /** Feeding a set the fragment it misses: it stays in flight, waits for room, or assembles. */
  lemma {:induction false} FeedMissing(s: Sent, d: FragSet, m: Fragment, i: nat, room: nat)
    requires ValidSent(s) && Holds(s, d) && d.count > 0 && i < |d.frags| && d.frags[i].None? && m.packet == Piece(s, i)
    ensures var fed := Feed(d, m, room);
            if d.count + 1 == |d.frags| && room >= |s.packet.data|
            then fed.assembled && fed.bytes == s.packet.data && fed.addr == Some(Source(s))
            else !fed.assembled && fed.set' == Stored(Opened(d, m.packet), m)
  {
    PieceFields(s, i);
    StoredHolds(s, d, m, i);
    var d' := Stored(d, m);
    if d'.count == |d'.frags| {
      FullSetJoins(s, d');
    }
  }

  /** A new set takes its first fragment and cannot be complete yet. */
  lemma {:induction false} FeedNew(s: Sent, m: Fragment, i: nat, room: nat)
    requires ValidSent(s) && i < |PiecesOf(s)| && m.packet == Piece(s, i)
    ensures var fed := Feed(NEW_SET, m, room);
            && !fed.assembled && Holds(s, fed.set') && fed.set'.count == 1
            && fed.set'.frags == Vacant(|PiecesOf(s)|)[i := Some(m)]
  {
    PieceFields(s, i);
    OpenedHolds(s, i);
    StoredHolds(s, Opened(NEW_SET, m.packet), m, i);
  }

  /** Feeding a full set its own first fragment assembles it. */
  lemma {:induction false} FeedTrigger(s: Sent, d: FragSet, room: nat)
    requires ValidSent(s) && Holds(s, d) && d.count == |d.frags| && room >= |s.packet.data|
    ensures d.frags[0].Some?
    ensures var fed := Feed(d, d.frags[0].value, room);
            fed.assembled && fed.bytes == s.packet.data && fed.addr == Some(Source(s))
  {
    FullSetJoins(s, d);
    PieceFields(s, 0);
    var m := d.frags[0].value;
    assert Opened(d, m.packet) == d;
    assert Stored(d, m) == d;
  }

  // --- one arrival at a bucket ------------------------------------------------------------------

  lemma {:induction false} NotEmpty(s: Sent)
    requires ValidSent(s)
    ensures |s.packet.data| > 0
  {
  }

  lemma {:induction false} FeedAtMissing(s: Sent, sets: seq<FragSet>, k: nat, m: Fragment, i: nat, room: nat)
    requires ValidSent(s) && k < |sets| && Holds(s, sets[k]) && sets[k].count > 0
    requires i < |sets[k].frags| && sets[k].frags[i].None? && m.packet == Piece(s, i)
    ensures m.packet.frag == i && sets[k].count < |sets[k].frags|
    ensures var r := FeedAt(sets, k, m, room);
            var full := sets[k].count + 1 == |sets[k].frags|;
            if full && room >= |s.packet.data|
            then r.assembled && r.bytes == s.packet.data && r.addr == Some(Source(s)) && r.sets == Removed(sets, k)
            else && !r.assembled && r.sets == sets[k := Stored(sets[k], m)]
                 && r.size == if full then |s.packet.data| else 0
  {
    var d := sets[k];
    PieceFields(s, i);
    FullCount(d.frags, 0);
    FeedMissing(s, d, m, i, room);
    StoredHolds(s, d, m, i);
    if d.count + 1 == |d.frags| {
      FullSetJoins(s, Stored(d, m));
    }
  }

  /** The only complete set is the one assembled. */
  lemma {:induction false} TakeOnlyComplete(s: Sent, sets: seq<FragSet>, k: nat, room: nat)
    requires ValidSent(s) && k < |sets| && Holds(s, sets[k]) && sets[k].count == |sets[k].frags|
    requires forall x :: 0 <= x < k ==> !Complete(sets[x])
    requires room >= |s.packet.data|
    ensures var t := TakeComplete(sets, room, 0);
            t.assembled && t.bytes == s.packet.data && t.addr == Some(Source(s)) && t.sets == Removed(sets, k)
  {
    TakeSkips(sets, room, 0, k);
    FullSetJoins(s, sets[k]);
    FeedTrigger(s, sets[k], room);
  }

  /** A fragment sent to a set that misses it: stored, or the message comes out and the set goes. */
  lemma {:induction false} ArriveMissing(s: Sent, sets: seq<FragSet>, k: nat, a: Arrival, i: nat)
    requires ValidSent(s) && NoneComplete(sets) && k < |sets| && Holds(s, sets[k]) && sets[k].count > 0
    requires i < |sets[k].frags| && sets[k].frags[i].None? && a.fragment.packet == Piece(s, i)
    requires Select(sets, a.fragment.packet) == Use(k)
    ensures a.fragment.packet.frag == i
    ensures Arrive(sets, a) == if sets[k].count + 1 < |sets[k].frags|
                               then Step(sets[k := Stored(sets[k], a.fragment)], None)
                               else Step(Removed(sets, k), Some(Expected(s, a.mode)))
  {
    var m := a.fragment;
    var room := if a.mode.Poll? then a.mode.room else 0;
    PieceFields(s, i);
    NotEmpty(s);
    FeedAtMissing(s, sets, k, m, i, room);
    var r := FeedAt(sets, k, m, room);
    assert FeedBucket(sets, m, room) == r;
    var data := s.packet.data;
    assert room >= |data| ==> data[..Min(room, |data|)] == data;
    if sets[k].count + 1 == |sets[k].frags| && room < |s.packet.data| {
      StoredHolds(s, sets[k], m, i);
      TakeOnlyComplete(s, r.sets, k, r.size + a.slack);
      assert Removed(r.sets, k) == Removed(sets, k);
    }
  }

  /** A fragment that opens a set of its own. */
  lemma {:induction false} ArriveFresh(s: Sent, sets: seq<FragSet>, a: Arrival, i: nat)
    requires ValidSent(s) && i < |PiecesOf(s)| && a.fragment.packet == Piece(s, i)
    requires Select(sets, a.fragment.packet) == Fresh
    ensures var d := Feed(NEW_SET, a.fragment, 0).set';
            Arrive(sets, a) == Step(sets + [d], None) && Holds(s, d) && d.count == 1
            && d.frags == Vacant(|PiecesOf(s)|)[i := Some(a.fragment)]
  {
    var m := a.fragment;
    var room := if a.mode.Poll? then a.mode.room else 0;
    PieceFields(s, i);
    FeedNew(s, m, i, 0);
    FeedNew(s, m, i, room);
    var d := Feed(NEW_SET, m, room).set';
    assert (sets + [NEW_SET])[|sets| := d] == sets + [d];
  }

  // --- one message, any order --------------------------------------------------------------------

  /** Exactly the fragments `fed` have arrived, and nothing else is in flight. */
  ghost predicate InFlight(s: Sent, sets: seq<FragSet>, fed: seq<nat>)
    requires ValidSent(s)
  {
    if fed == [] then sets == []
    else
      && |sets| == 1 && Holds(s, sets[0]) && sets[0].count == |fed|
      && forall i :: 0 <= i < |sets[0].frags| ==> (sets[0].frags[i].Some? <==> i in fed)
  }

  lemma {:induction false} ArriveInFlight(s: Sent, sets: seq<FragSet>, fed: seq<nat>, a: Arrival, i: nat)
    requires ValidSent(s) && InFlight(s, sets, fed) && i < |PiecesOf(s)| && i !in fed && a.fragment.packet == Piece(s, i)
    ensures |fed| < |PiecesOf(s)|
    ensures var step := Arrive(sets, a);
            if |fed| + 1 < |PiecesOf(s)| then step.delivery == None && InFlight(s, step.sets, fed + [i])
            else step == Step([], Some(Expected(s, a.mode)))
  {
    var m := a.fragment;
    PieceFields(s, i);
    if fed == [] {
      ArriveFresh(s, sets, a, i);
    } else {
      var d := sets[0];
      assert d.frags[i].None?;
      FullCount(d.frags, 0);
      assert Candidates(sets, m.packet, 0) == [0] + Candidates(sets, m.packet, 1);
      ArriveMissing(s, sets, 0, a, i);
      StoredHolds(s, d, m, i);
    }
  }

  /** Arrivals of all fragments of one message, each once. */
  ghost predicate IsOrder(s: Sent, order: seq<nat>, arrivals: seq<Arrival>)
    requires ValidSent(s)
  {
    && |order| == |arrivals| == |PiecesOf(s)|
    && (forall j :: 0 <= j < |order| ==> order[j] < |order| && arrivals[j].fragment.packet == Piece(s, order[j]))
    && (forall j, l :: 0 <= j < l < |order| ==> order[j] != order[l])
  }

  /** Nothing comes out before the end, one delivery comes out there, and no set is left. */
  ghost predicate OnlyAtTheEnd(t: Trace, d: Delivery) {
    && t.sets == [] && |t.out| > 0 && t.out[|t.out| - 1] == Some(d)
    && forall j :: 0 <= j < |t.out| - 1 ==> t.out[j] == None
  }

  lemma {:induction false} NothingFirst(t: Trace, d: Delivery)
    requires OnlyAtTheEnd(t, d)
    ensures OnlyAtTheEnd(Trace(t.sets, [None] + t.out), d)
  {
  }

  /** From any point on: nothing comes out before the last fragment, and the message comes out with it. */
  lemma {:induction false} RestOfMessage(s: Sent, sets: seq<FragSet>, order: seq<nat>, arrivals: seq<Arrival>, k: nat)
    requires ValidSent(s) && IsOrder(s, order, arrivals) && k < |order| && InFlight(s, sets, order[..k])
    ensures OnlyAtTheEnd(ArriveAll(sets, arrivals[k..]), Expected(s, arrivals[|order| - 1].mode))
    decreases |order| - k
  {
    var a, step, later := arrivals[k], Arrive(sets, arrivals[k]), arrivals[k + 1..];
    assert arrivals[k..] == [a] + later;
    assert order[..k + 1] == order[..k] + [order[k]];
    ArriveInFlight(s, sets, order[..k], a, order[k]);
    if k + 1 < |order| {
      RestOfMessage(s, step.sets, order, arrivals, k + 1);
      NothingFirst(ArriveAll(step.sets, later), Expected(s, arrivals[|order| - 1].mode));
    } else {
      assert later == [];
    }
  }

  lemma {:induction false} AnyOrder(s: Sent, order: seq<nat>, arrivals: seq<Arrival>)
    requires ValidSent(s) && IsOrder(s, order, arrivals)
    ensures |arrivals| > 0 && OnlyAtTheEnd(ArriveAll([], arrivals), Expected(s, arrivals[|arrivals| - 1].mode))
  {
    assert order[..0] == [] && arrivals[0..] == arrivals;
    RestOfMessage(s, [], order, arrivals, 0);
  }

  lemma {:induction false} WireGivesPiece(s: Sent, i: nat, datagram: seq<Byte>)
    requires ValidSent(s) && i < |PiecesOf(s)| && datagram == Encode(FragmentAt(s.packet, PiecesOf(s), i))
    ensures ReadPacket(datagram) == Ok(Piece(s, i))
  {
    FragmentSurvivesWire(s.packet, s.fragSize, i, []);
    assert datagram + [] == datagram;
  }

  /** These datagrams are the message's, once each, and the arrivals are what they parse to. */
  ghost predicate Carries(s: Sent, order: seq<nat>, datagrams: seq<seq<Byte>>, arrivals: seq<Arrival>)
    requires ValidSent(s)
  {
    && |order| == |datagrams| == |arrivals| == |PiecesOf(s)|
    && (forall j, l :: 0 <= j < l < |order| ==> order[j] != order[l])
    && (forall j :: 0 <= j < |order| ==>
          order[j] < |order| && datagrams[j] == Encode(FragmentAt(s.packet, PiecesOf(s), order[j])))
    && (forall j :: 0 <= j < |order| && ReadPacket(datagrams[j]).Ok? ==>
          arrivals[j].fragment.packet == ReadPacket(datagrams[j]).value)
  }

  lemma {:induction false} AllParse(s: Sent, order: seq<nat>, datagrams: seq<seq<Byte>>, arrivals: seq<Arrival>)
    requires ValidSent(s) && Carries(s, order, datagrams, arrivals)
    ensures forall j :: 0 <= j < |datagrams| ==> ReadPacket(datagrams[j]).Ok?
    ensures IsOrder(s, order, arrivals)
  {
    forall j | 0 <= j < |order|
      ensures ReadPacket(datagrams[j]).Ok? && arrivals[j].fragment.packet == Piece(s, order[j])
    {
      WireGivesPiece(s, order[j], datagrams[j]);
    }
  }

  /**
   Fragment, print, parse, reassemble: the datagrams of one message all parse, and
   received once each in any order by any mix of polling and pushing they give the
   message and its first fragment's address exactly once, with the last datagram.
   */
  lemma {:induction false} DeliveredInAnyOrder(s: Sent, order: seq<nat>, datagrams: seq<seq<Byte>>, arrivals: seq<Arrival>)
    requires ValidSent(s) && Carries(s, order, datagrams, arrivals)
    ensures forall j :: 0 <= j < |datagrams| ==> ReadPacket(datagrams[j]).Ok?
    ensures |arrivals| > 0 && OnlyAtTheEnd(ArriveAll([], arrivals), Expected(s, arrivals[|arrivals| - 1].mode))
  {
    AllParse(s, order, datagrams, arrivals);
    AnyOrder(s, order, arrivals);
  }
}
