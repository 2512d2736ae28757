/**
 The payloads of a whole run of TUIC reassembly. A consumer that feeds a fragment and then
 takes the message it completed leaves no complete set behind, so over every run each
 payload is held by one set or has been given back once. A fragment that slips in between
 the two calls of another consumer can be lost.
 */
module TuicLedger {
  import opened Bytes
  import opened Lists
  import opened TuicCodec
  import opened TuicReassembly
  import opened TuicOwnership

  /** What a bucket keeps between two arrivals. */
  ghost predicate Settled(sets: seq<FragSet>) {
    AllSound(sets) && NoneComplete(sets)
  }

  // --- one set ---------------------------------------------------------------------------

  lemma {:induction false} FeedKeepsSound(d: FragSet, m: Fragment, room: nat)
    requires ValidSet(d) && (d.count > 0 ==> Sound(d))
    requires m.packet.total > 1 && m.packet.frag < m.packet.total && |Opened(d, m.packet).frags| == m.packet.total
    ensures var fed := Feed(d, m, room); !fed.assembled ==> Sound(fed.set')
  {
    var d0 := Opened(d, m.packet);
    VacantIsNothing(m.packet.total, 0);
    if d0.frags[m.packet.frag].None? {
      StoringCounts(d0.frags, m.packet.frag, m, 0);
    }
  }

  // --- a bucket ----------------------------------------------------------------------------

  /** Everything but the set at `k` is settled, and that one is complete only with `size` bytes, too many for `room`. */
  ghost predicate AllButOne(sets: seq<FragSet>, k: nat, room: nat, size: nat) {
    && AllSound(sets)
    && (forall i :: 0 <= i < |sets| && i != k ==> !Complete(sets[i]))
    && (k < |sets| && Complete(sets[k]) ==> room < size == sets[k].totalLen)
    && (!(k < |sets| && Complete(sets[k])) ==> size == 0)
  }

  lemma {:induction false} RemovedSettled(sets: seq<FragSet>, k: nat)
    requires k < |sets|
    requires forall i :: 0 <= i < |sets| && i != k ==> Sound(sets[i]) && !Complete(sets[i])
    ensures Settled(Removed(sets, k))
  {
  }

  lemma {:induction false} FeedAtSettles(sets: seq<FragSet>, k: nat, m: Fragment, room: nat)
    requires k < |sets| && Matches(sets[k], m.packet) && ValidSet(sets[k]) && (sets[k].count > 0 ==> Sound(sets[k]))
    requires forall i :: 0 <= i < |sets| && i != k ==> Sound(sets[i])
    requires forall i :: 0 <= i < |sets| && i != k ==> !Complete(sets[i])
    requires !Complete(sets[k]) || sets[k].count == 0
    ensures var r := FeedAt(sets, k, m, room);
            (r.assembled ==> Settled(r.sets)) && (!r.assembled ==> AllButOne(r.sets, k, room, r.size))
  {
    var d := sets[k];
    FeedKeepsSound(d, m, room);
    if Feed(d, m, room).assembled {
      RemovedSettled(sets, k);
    }
  }

  lemma {:induction false} FeedSettles(sets: seq<FragSet>, m: Fragment, room: nat) returns (k: nat)
    requires Settled(sets)
    ensures var r := FeedBucket(sets, m, room);
            (r.assembled ==> Settled(r.sets)) && (!r.assembled ==> AllButOne(r.sets, k, room, r.size))
  {
    var p := m.packet;
    k := |sets|;
    if p.total > 1 && p.frag < p.total {
      SelectedMatches(sets, p);
      match Select(sets, p)
      case Drop =>
      case Use(i) =>
        k := i;
        FeedAtSettles(sets, i, m, room);
      case Fresh =>
        FeedAtSettles(sets + [NEW_SET], |sets|, m, room);
    }
  }

  /** Taking the one complete set leaves none. */
  lemma {:induction false} TakeSettles(sets: seq<FragSet>, k: nat, room: nat, size: nat, larger: nat)
    requires AllButOne(sets, k, room, size) && larger >= size
    ensures Settled(TakeComplete(sets, larger, 0).sets)
  {
    if k < |sets| && Complete(sets[k]) {
      var d := sets[k];
      TakeSkips(sets, larger, 0, k);
      TriggerIsOwn(d.frags, 0);
      FullCount(d.frags, 0);
      assert d.frags[0].Some? && FirstPresent(d.frags, 0) == d.frags[0];
      RemovedSettled(sets, k);
    } else {
      TakeSkips(sets, larger, 0, |sets|);
    }
  }

  // --- one arrival: a feeding, and often a taking ------------------------------------------

  function Fed(sets: seq<FragSet>, a: Arrival): BucketOut {
    FeedBucket(sets, a.fragment, if a.mode.Poll? then a.mode.room else 0)
  }

  /** Does the consumer come back for a message its buffer could not hold? */
  predicate ComesBack(r: BucketOut, mode: Mode) {
    if mode.Poll? then !r.assembled && r.size > mode.room else r.assembled || r.size > 0
  }

  function TakenBack(r: BucketOut, a: Arrival): BucketOut {
    TakeComplete(r.sets, r.size + a.slack, 0)
  }

  lemma {:induction false} ArriveIsFeedThenTake(sets: seq<FragSet>, a: Arrival)
    ensures var r := Fed(sets, a);
            Arrive(sets, a).sets == if ComesBack(r, a.mode) then TakenBack(r, a).sets else r.sets
  {
  }

  /** No arrival leaves a complete set behind. */
  lemma {:induction false} ArriveSettles(sets: seq<FragSet>, a: Arrival)
    requires Settled(sets)
    ensures Settled(Arrive(sets, a).sets)
  {
    var room := if a.mode.Poll? then a.mode.room else 0;
    ArriveIsFeedThenTake(sets, a);
    var k := FeedSettles(sets, a.fragment, room);
    AfterFeeding(Fed(sets, a), a, k, room);
  }

  lemma {:induction false} AfterFeeding(r: BucketOut, a: Arrival, k: nat, room: nat)
    requires room == (if a.mode.Poll? then a.mode.room else 0)
    requires (r.assembled ==> Settled(r.sets)) && (!r.assembled ==> AllButOne(r.sets, k, room, r.size))
    ensures Settled(if ComesBack(r, a.mode) then TakenBack(r, a).sets else r.sets)
  {
    if ComesBack(r, a.mode) {
      if r.assembled {
        TakeSettles(r.sets, |r.sets|, 0, 0, r.size + a.slack);
      } else {
        TakeSettles(r.sets, k, room, r.size, r.size + a.slack);
      }
    }
  }

  // --- whole runs ----------------------------------------------------------------------------

  /** The payloads one arrival gives back. */
  function Returned(sets: seq<FragSet>, a: Arrival): seq<nat> {
    var r := Fed(sets, a);
    r.released + if ComesBack(r, a.mode) then TakenBack(r, a).released else []
  }

  function ReturnedAll(sets: seq<FragSet>, arrivals: seq<Arrival>): seq<nat>
    decreases |arrivals|
  {
    if arrivals == [] then []
    else Returned(sets, arrivals[0]) + ReturnedAll(Arrive(sets, arrivals[0]).sets, arrivals[1..])
  }

  /** The payloads of all arrivals, in order. */
  function Payloads(arrivals: seq<Arrival>): seq<nat> {
    if arrivals == [] then [] else [arrivals[0].fragment.handle] + Payloads(arrivals[1..])
  }

  lemma {:induction false} NotInAnySlot(frags: Slots, i: nat, h: nat, x: nat)
    requires i <= x < |frags| && HeldBy(frags, i, h) == 0
    ensures frags[x].Some? ==> frags[x].value.handle != h
    decreases |frags| - i
  {
    if i < x {
      NotInAnySlot(frags, i + 1, h, x);
    }
  }

  lemma {:induction false} NotInAnySet(sets: seq<FragSet>, i: nat, h: nat, k: nat, x: nat)
    requires i <= k < |sets| && Held(sets, i, h) == 0 && x < |sets[k].frags|
    ensures sets[k].frags[x].Some? ==> sets[k].frags[x].value.handle != h
    decreases |sets| - i
  {
    if i < k {
      NotInAnySet(sets, i + 1, h, k, x);
    } else {
      NotInAnySlot(sets[k].frags, 0, h, x);
    }
  }

  lemma {:induction false} FreeIsNotHeld(sets: seq<FragSet>, m: Fragment)
    requires Held(sets, 0, m.handle) == 0
    ensures NotHeld(sets, m)
  {
    forall i, x | 0 <= i < |sets| && 0 <= x < |sets[i].frags| ensures sets[i].frags[x] != Some(m) {
      NotInAnySet(sets, 0, m.handle, i, x);
    }
  }

  /** In a settled bucket no set waits for room. */
  lemma {:induction false} SettledFeedConserves(sets: seq<FragSet>, m: Fragment, room: nat, h: nat)
    requires Settled(sets) && Held(sets, 0, m.handle) == 0
    ensures var r := FeedBucket(sets, m, room);
            AllSound(r.sets) && Held(r.sets, 0, h) + Times(r.released, h) == Held(sets, 0, h) + One(h == m.handle)
  {
    FreeIsNotHeld(sets, m);
    FeedConserves(sets, m, room, h);
    var _ := FeedSettles(sets, m, room);
  }

  /** One arrival: its payload is held or given back, and no other is lost or gained. */
  lemma {:induction false} ArriveConserves(sets: seq<FragSet>, a: Arrival, h: nat)
    requires Settled(sets) && Held(sets, 0, a.fragment.handle) == 0
    ensures Held(Arrive(sets, a).sets, 0, h) + Times(Returned(sets, a), h)
         == Held(sets, 0, h) + One(h == a.fragment.handle)
  {
    ArriveIsFeedThenTake(sets, a);
    SettledFeedConserves(sets, a.fragment, if a.mode.Poll? then a.mode.room else 0, h);
    TakingConserves(Fed(sets, a), a, h);
  }

  lemma {:induction false} TakingConserves(r: BucketOut, a: Arrival, h: nat)
    requires AllSound(r.sets)
    ensures Held(if ComesBack(r, a.mode) then TakenBack(r, a).sets else r.sets, 0, h)
          + Times(r.released + if ComesBack(r, a.mode) then TakenBack(r, a).released else [], h)
         == Held(r.sets, 0, h) + Times(r.released, h)
  {
    TakeConserves(r.sets, r.size + a.slack, 0, h);
    TimesAppend(r.released, TakenBack(r, a).released, h);
    assert r.released + [] == r.released;
  }

  /** Over every run each payload is held by one set or has been given back, exactly once. */
  lemma {:induction false} RunConserves(sets: seq<FragSet>, arrivals: seq<Arrival>, h: nat)
    requires Settled(sets)
    requires forall i, j :: 0 <= i < j < |arrivals| ==> arrivals[i].fragment.handle != arrivals[j].fragment.handle
    requires forall i :: 0 <= i < |arrivals| ==> Held(sets, 0, arrivals[i].fragment.handle) == 0
    ensures Settled(ArriveAll(sets, arrivals).sets)
    ensures Held(ArriveAll(sets, arrivals).sets, 0, h) + Times(ReturnedAll(sets, arrivals), h)
         == Held(sets, 0, h) + Times(Payloads(arrivals), h)
    decreases |arrivals|
  {
    if arrivals != [] {
      var a, rest := arrivals[0], arrivals[1..];
      var next := Arrive(sets, a).sets;
      ArriveSettles(sets, a);
      ArriveConserves(sets, a, h);
      forall i | 0 <= i < |rest| ensures Held(next, 0, rest[i].fragment.handle) == 0 {
        assert rest[i] == arrivals[i + 1];
        ArriveConserves(sets, a, rest[i].fragment.handle);
      }
      RunConserves(next, rest, h);
      TimesAppend(Returned(sets, a), ReturnedAll(next, rest), h);
      TimesAppend([a.fragment.handle], Payloads(rest), h);
    }
  }

  /** From an empty bucket: no payload leaks, and none is given back twice. */
  lemma {:induction false} NothingLeaks(arrivals: seq<Arrival>, i: nat)
    requires i < |arrivals|
    requires forall j, k :: 0 <= j < k < |arrivals| ==> arrivals[j].fragment.handle != arrivals[k].fragment.handle
    ensures var h := arrivals[i].fragment.handle;
            Held(ArriveAll([], arrivals).sets, 0, h) + Times(ReturnedAll([], arrivals), h) == 1
  {
    RunConserves([], arrivals, arrivals[i].fragment.handle);
    PayloadOnce(arrivals, i);
  }

  lemma {:induction false} PayloadOnce(arrivals: seq<Arrival>, i: nat)
    requires i < |arrivals|
    requires forall j, k :: 0 <= j < k < |arrivals| ==> arrivals[j].fragment.handle != arrivals[k].fragment.handle
    ensures Times(Payloads(arrivals), arrivals[i].fragment.handle) == 1
  {
    var h, rest := arrivals[i].fragment.handle, arrivals[1..];
    TimesAppend([arrivals[0].fragment.handle], Payloads(rest), h);
    if i == 0 {
      PayloadAbsent(rest, h);
    } else {
      PayloadOnce(rest, i - 1);
    }
  }

  lemma {:induction false} PayloadAbsent(arrivals: seq<Arrival>, h: nat)
    requires forall j :: 0 <= j < |arrivals| ==> arrivals[j].fragment.handle != h
    ensures Times(Payloads(arrivals), h) == 0
  {
    if arrivals != [] {
      TimesAppend([arrivals[0].fragment.handle], Payloads(arrivals[1..]), h);
      PayloadAbsent(arrivals[1..], h);
    }
  }

  /** What releasing the sets from `i` on gives back, as Close does with every bucket. */
  function ReleasedAtClose(sets: seq<FragSet>, i: nat): seq<nat>
    requires i <= |sets|
    decreases |sets| - i
  {
    if i == |sets| then [] else Handles(sets[i].frags, 0) + ReleasedAtClose(sets, i + 1)
  }

  lemma {:induction false} CloseGivesBackTheRest(sets: seq<FragSet>, i: nat, h: nat)
    requires i <= |sets|
    ensures Times(ReleasedAtClose(sets, i), h) == Held(sets, i, h)
    decreases |sets| - i
  {
    if i < |sets| {
      var first, rest := Handles(sets[i].frags, 0), ReleasedAtClose(sets, i + 1);
      CloseGivesBackTheRest(sets, i + 1, h);
      ReleasedWasHeld(sets[i].frags, 0, h);
      TimesAppend(first, rest, h);
      assert ReleasedAtClose(sets, i) == first + rest;
    }
  }

  /** After any run and a close, every payload received has been given back exactly once. */
  lemma {:induction false} AllGivenBackAtClose(arrivals: seq<Arrival>, i: nat)
    requires i < |arrivals|
    requires forall j, k :: 0 <= j < k < |arrivals| ==> arrivals[j].fragment.handle != arrivals[k].fragment.handle
    ensures var h := arrivals[i].fragment.handle;
            Times(ReturnedAll([], arrivals) + ReleasedAtClose(ArriveAll([], arrivals).sets, 0), h) == 1
  {
    var h, last := arrivals[i].fragment.handle, ArriveAll([], arrivals).sets;
    NothingLeaks(arrivals, i);
    CloseGivesBackTheRest(last, 0, h);
    TimesAppend(ReturnedAll([], arrivals), ReleasedAtClose(last, 0), h);
  }

  // --- a fragment between two calls --------------------------------------------------------

  /** A two-fragment message from an IPv4 source. */
  function Half(id: U16, frag: Byte, source: seq<Byte>, data: seq<Byte>): Packet
    requires |source| == 4 && |data| < 0x1_0000
  {
    Packet(5, 0, id, 2, frag, |data|, if frag == 0 then Address(ATYP_IPV4, source, 53) else Address(ATYP_NONE, [], 0), data)
  }

  /**
   The exception is reachable with two consumers. One feeds both halves of a message with
   too small a buffer. Before it comes back with a larger one, the other feeds a duplicate
   of the first half. The message is delivered, and the duplicate is neither held nor ever
   given back.
   */
  lemma {:induction false} DuplicateBetweenCallsLeaks(id: U16, source: seq<Byte>, a: seq<Byte>, b: seq<Byte>, room: nat)
    requires |source| == 4 && |a| < 0x1_0000 && |b| < 0x1_0000 && room < |a| + |b|
    ensures var r0 := FeedBucket([], Fragment(0, Half(id, 0, source, a)), room);
            var r1 := FeedBucket(r0.sets, Fragment(1, Half(id, 1, source, b)), room);
            var r2 := FeedBucket(r1.sets, Fragment(2, Half(id, 0, source, a)), room);
            var r3 := TakeComplete(r2.sets, r1.size, 0);
            && r1.size == |a| + |b|
            && MeetsWaiting(r1.sets, Fragment(2, Half(id, 0, source, a)), room)
            && r3.assembled && r3.bytes == a + b && r3.sets == []
            && r0.released + r1.released + r2.released + r3.released == [0, 1]
  {
    var m0, m1, m2 := Fragment(0, Half(id, 0, source, a)), Fragment(1, Half(id, 1, source, b)), Fragment(2, Half(id, 0, source, a));
    var from := Some(AddrPort(source, 53));
    assert Vacant(2) == [None, None];
    var d0 := FragSet(id, [Some(m0), None], 1, |a|, from);
    var d1 := FragSet(id, [Some(m0), Some(m1)], 2, |a| + |b|, from);
    var start: seq<FragSet> := [];
    assert start + [NEW_SET] == [NEW_SET] && Candidates(start, m0.packet, 0) == [];
    assert Stored(Opened(NEW_SET, m0.packet), m0) == d0;
    assert [NEW_SET][0 := d0] == [d0];
    var r0 := FeedBucket(start, m0, room);
    assert r0 == BucketOut([d0], false, [], None, 0, []);
    assert Candidates([d0], m1.packet, 0) == [0];
    assert Stored(Opened(d0, m1.packet), m1) == d1;
    assert [d0][0 := d1] == [d1];
    var r1 := FeedBucket([d0], m1, room);
    assert r1 == BucketOut([d1], false, [], None, |a| + |b|, []);
    assert Candidates([d1], m2.packet, 0) == [0];
    var r2 := FeedBucket([d1], m2, room);
    assert r2 == BucketOut([d1], false, [], None, |a| + |b|, []);
    BothHalves(m0, m1);
    assert Feed(d1, m0, |a| + |b|).released == [] + [0, 1];
  }

  lemma {:induction false} BothHalves(m0: Fragment, m1: Fragment)
    ensures Joined([Some(m0), Some(m1)], 0) == m0.packet.data + m1.packet.data
    ensures Handles([Some(m0), Some(m1)], 0) == [m0.handle, m1.handle]
  {
    var frags := [Some(m0), Some(m1)];
    assert Joined(frags, 2) == [] && Handles(frags, 2) == [];
    assert Joined(frags, 1) == m1.packet.data + [] && Handles(frags, 1) == [m1.handle] + [];
  }
}
