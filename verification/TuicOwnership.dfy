/**
 Pooled payloads in TUIC reassembly: every fragment fed to a bucket is held by one
 of its sets or given back, with one exact exception.
 */
module TuicOwnership {
  import opened Bytes
  import opened TuicCodec
  import opened TuicReassembly
  import opened Lists

  /** How often a payload is held by the slots from `i` on. */
  function HeldBy(frags: Slots, i: nat, h: nat): nat
    requires i <= |frags|
    decreases |frags| - i
  {
    if i == |frags| then 0
    else (if frags[i].Some? && frags[i].value.handle == h then 1 else 0) + HeldBy(frags, i + 1, h)
  }

  /** How often a payload is held by the sets from `i` on. */
  function Held(sets: seq<FragSet>, i: nat, h: nat): nat
    requires i <= |sets|
    decreases |sets| - i
  {
    if i == |sets| then 0 else HeldBy(sets[i].frags, 0, h) + Held(sets, i + 1, h)
  }

  // --- one set ---------------------------------------------------------------------------

  lemma {:induction false} NothingHeld(frags: Slots, i: nat, h: nat)
    requires i <= |frags| && Present(frags, i) == 0
    ensures HeldBy(frags, i, h) == 0
    decreases |frags| - i
  {
    if i < |frags| {
      NothingHeld(frags, i + 1, h);
    }
  }

  lemma {:induction false} StoringHolds(frags: Slots, k: nat, m: Fragment, i: nat, h: nat)
    requires i <= |frags| && k < |frags| && frags[k].None?
    ensures HeldBy(frags[k := Some(m)], i, h) == HeldBy(frags, i, h) + if i <= k && m.handle == h then 1 else 0
    decreases |frags| - i
  {
    if i < |frags| {
      StoringHolds(frags, k, m, i + 1, h);
    }
  }

  /** Releasing a set gives back what it held. */
  lemma {:induction false} ReleasedWasHeld(frags: Slots, i: nat, h: nat)
    requires i <= |frags|
    ensures Times(Handles(frags, i), h) == HeldBy(frags, i, h)
    decreases |frags| - i
  {
    if i < |frags| {
      ReleasedWasHeld(frags, i + 1, h);
      if frags[i].Some? {
        assert Handles(frags, i)[1..] == Handles(frags, i + 1);
      } else {
        assert Handles(frags, i) == Handles(frags, i + 1);
      }
    }
  }

  /** A fragment a set accepts is held or given back; assembling gives everything back. */
  lemma {:induction false} FeedSetConserves(d: FragSet, m: Fragment, room: nat, h: nat)
    requires ValidSet(d) && m.packet.total > 1 && m.packet.frag < m.packet.total
    requires |Opened(d, m.packet).frags| == m.packet.total
    ensures var fed := Feed(d, m, room);
            var own := Opened(d, m.packet).frags[m.packet.frag] == Some(m);
            && HeldBy(fed.set'.frags, 0, h) + Times(fed.released, h) == HeldBy(d.frags, 0, h) + One(!own && h == m.handle)
            && (fed.assembled ==> HeldBy(fed.set'.frags, 0, h) == 0)
  {
    var d0 := Opened(d, m.packet);
    VacantIsNothing(m.packet.total, 0);
    if d.count == 0 {
      NothingHeld(d.frags, 0, h);
      NothingHeld(d0.frags, 0, h);
    }
    var slot := d0.frags[m.packet.frag];
    if slot.None? {
      StoringHolds(d0.frags, m.packet.frag, m, 0, h);
    }
    var d1 := Stored(d0, m);
    NothingHeld(Vacant(m.packet.total), 0, h);
    ReleasedWasHeld(d1.frags, 0, h);
    TimesAppend(if slot.Some? && slot != Some(m) then [m.handle] else [], Handles(d1.frags, 0), h);
  }

  // --- a bucket ----------------------------------------------------------------------------

  lemma {:induction false} HeldUpdate(sets: seq<FragSet>, k: nat, d: FragSet, i: nat, h: nat)
    requires k < |sets| && i <= |sets|
    ensures Held(sets[k := d], i, h)
         == Held(sets, i, h) + if i <= k then HeldBy(d.frags, 0, h) - HeldBy(sets[k].frags, 0, h) else 0
    decreases |sets| - i
  {
    if i < |sets| {
      HeldUpdate(sets, k, d, i + 1, h);
    }
  }

  lemma {:induction false} HeldSnoc(sets: seq<FragSet>, d: FragSet, i: nat, h: nat)
    requires i <= |sets|
    ensures Held(sets + [d], i, h) == Held(sets, i, h) + HeldBy(d.frags, 0, h)
    decreases |sets| - i
  {
    if i < |sets| {
      HeldSnoc(sets, d, i + 1, h);
    }
  }

  lemma {:induction false} HeldRemoved(sets: seq<FragSet>, k: nat, h: nat)
    requires k < |sets|
    ensures Held(Removed(sets, k), 0, h) == Held(sets, 0, h) - HeldBy(sets[k].frags, 0, h)
  {
    var last := sets[|sets| - 1];
    HeldUpdate(sets, k, last, 0, h);
    assert sets[k := last] == Removed(sets, k) + [last];
    HeldSnoc(Removed(sets, k), last, 0, h);
  }

  ghost predicate ValidSets(sets: seq<FragSet>) {
    forall i :: 0 <= i < |sets| ==> ValidSet(sets[i])
  }

  lemma {:induction false} FeedAtConserves(sets: seq<FragSet>, i: nat, m: Fragment, room: nat, h: nat)
    requires ValidSets(sets) && i < |sets| && Matches(sets[i], m.packet)
    requires !(Complete(sets[i]) && room < sets[i].totalLen)
    ensures var r := FeedAt(sets, i, m, room);
            var own := Opened(sets[i], m.packet).frags[m.packet.frag] == Some(m);
            Held(r.sets, 0, h) + Times(r.released, h) == Held(sets, 0, h) + One(!own && h == m.handle)
  {
    FeedSetConserves(sets[i], m, room, h);
    HeldUpdate(sets, i, Feed(sets[i], m, room).set', 0, h);
    HeldRemoved(sets, i, h);
  }

  lemma {:induction false} CandidateMatches(sets: seq<FragSet>, p: Packet, i: nat)
    requires i <= |sets|
    ensures forall c :: c in Candidates(sets, p, i) ==> c < |sets| && Matches(sets[c], p)
    decreases |sets| - i
  {
    if i < |sets| {
      CandidateMatches(sets, p, i + 1);
    }
  }

  lemma {:induction false} ChosenAmong(sets: seq<FragSet>, cs: seq<nat>, addr: Option<AddrPort>)
    requires Indices(sets, cs)
    ensures FirstFrom(sets, cs, addr).Some? ==> FirstFrom(sets, cs, addr).value in cs
    ensures FirstUnaddressed(sets, cs).Some? ==> FirstUnaddressed(sets, cs).value in cs
    ensures forall c :: c in WithFirst(sets, cs) ==> c in cs
  {
    if cs != [] {
      ChosenAmong(sets, cs[1..], addr);
    }
  }

  /** A fragment is only ever sent to a set it matches. */
  lemma {:induction false} SelectedMatches(sets: seq<FragSet>, p: Packet)
    ensures Select(sets, p).Use? ==> Matches(sets[Select(sets, p).index], p)
  {
    var cs := Candidates(sets, p, 0);
    CandidateMatches(sets, p, 0);
    ChosenAmong(sets, cs, AddrPortOf(p.addr));
  }

  /** The fragment meets a complete set that is still waiting for a large enough buffer. */
  predicate MeetsWaiting(sets: seq<FragSet>, m: Fragment, room: nat) {
    && m.packet.total > 1 && m.packet.frag < m.packet.total
    && var c := Select(sets, m.packet); c.Use? && Complete(sets[c.index]) && room < sets[c.index].totalLen
  }

  ghost predicate NotHeld(sets: seq<FragSet>, m: Fragment) {
    forall i, k :: 0 <= i < |sets| && 0 <= k < |sets[i].frags| ==> sets[i].frags[k] != Some(m)
  }

  /** A fed fragment ends up held or given back once, exactly unless it meets a set that waits for room. */
  lemma {:induction false} FeedConserves(sets: seq<FragSet>, m: Fragment, room: nat, h: nat)
    requires ValidSets(sets) && NotHeld(sets, m)
    ensures var r := FeedBucket(sets, m, room);
            Held(r.sets, 0, h) + Times(r.released, h) ==
            Held(sets, 0, h) + One(h == m.handle && !MeetsWaiting(sets, m, room))
  {
    var p := m.packet;
    if p.total <= 1 || p.frag >= p.total {
      assert Times([m.handle], h) == One(h == m.handle);
    } else {
      SelectedMatches(sets, p);
      match Select(sets, p)
      case Drop => assert Times([m.handle], h) == One(h == m.handle);
      case Use(i) =>
        if !MeetsWaiting(sets, m, room) {
          FeedAtConserves(sets, i, m, room, h);
        }
      case Fresh =>
        HeldSnoc(sets, NEW_SET, 0, h);
        FeedAtConserves(sets + [NEW_SET], |sets|, m, room, h);
    }
  }

  /** A set in use: every fragment is in its slot, and there is at least one. */
  ghost predicate Sound(d: FragSet) {
    && ValidSet(d) && |d.frags| > 1 && d.count > 0
    && forall x :: 0 <= x < |d.frags| && d.frags[x].Some? ==>
         d.frags[x].value.packet.frag == x && d.frags[x].value.packet.total == |d.frags|
  }

  ghost predicate AllSound(sets: seq<FragSet>) {
    forall i :: 0 <= i < |sets| ==> Sound(sets[i])
  }

  /** Assembling a waiting set gives back exactly what it held. */
  lemma {:induction false} TakeConserves(sets: seq<FragSet>, room: nat, i: nat, h: nat)
    requires AllSound(sets) && i <= |sets|
    ensures var r := TakeComplete(sets, room, i);
            Held(r.sets, 0, h) + Times(r.released, h) == Held(sets, 0, h)
    decreases |sets| - i
  {
    if i < |sets| {
      var d := sets[i];
      assert Sound(d);
      if !Complete(d) || room < d.totalLen {
        TakeConserves(sets, room, i + 1, h);
      } else {
        TriggerIsOwn(d.frags, 0);
        var trigger := FirstPresent(d.frags, 0);
        if trigger.Some? {
          FullCount(d.frags, 0);
          FeedSetConserves(d, trigger.value, room, h);
          HeldUpdate(sets, i, Feed(d, trigger.value, room).set', 0, h);
          HeldRemoved(sets, i, h);
        }
      }
    }
  }

  lemma {:induction false} TriggerIsOwn(frags: Slots, i: nat)
    requires i <= |frags|
    ensures var t := FirstPresent(frags, i); t.Some? ==> exists x :: i <= x < |frags| && frags[x] == t
    decreases |frags| - i
  {
    if i < |frags| {
      TriggerIsOwn(frags, i + 1);
    }
  }
}
