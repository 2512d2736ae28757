/**
 The other half of sharing a packet ID: which messages come out. One comes out, with the
 last of its fragments, exactly when none of its fragments matched two sets on arrival.
 */
module TuicSharing {
  import opened Bytes
  import opened TuicCodec
  import opened TuicFrag
  import opened TuicReassembly
  import opened TuicDelivery
  import opened TuicMixing

  /** Two of the sets in flight could have this fragment. */
  ghost predicate Ambiguous(sets: seq<FragSet>, p: Packet) {
    exists x, y :: 0 <= x < y < |sets| && Matches(sets[x], p) && Matches(sets[y], p)
  }

  /** Up to the arrival numbered `k`, no later fragment of message `w` was ambiguous. */
  ghost predicate Clear(sets: seq<FragSet>, ls: seq<Labelled>, w: nat, k: nat)
    requires k < |ls|
    decreases k
  {
    && (ls[0].who == w && ls[0].i > 0 ==> !Ambiguous(sets, ls[0].arrival.fragment.packet))
    && (k > 0 ==> Clear(Arrive(sets, ls[0].arrival).sets, ls[1..], w, k - 1))
  }

  ghost predicate ArrivedBy(ls: seq<Labelled>, k: nat, w: nat, i: nat)
    requires k < |ls|
  {
    exists j :: 0 <= j <= k && ls[j].who == w && ls[j].i == i
  }

  /** Every fragment of message `w` is in `past` or among the arrivals up to the one numbered `k`. */
  ghost predicate WholeBy(sents: seq<Sent>, past: Past, ls: seq<Labelled>, w: nat, k: nat)
    requires ValidFamily(sents) && k < |ls| && w < |sents|
  {
    forall i :: 0 <= i < |PiecesOf(sents[w])| ==> (w, i) in past || ArrivedBy(ls, k, w, i)
  }

  /**
   Where the fragments of message `w` are: all in its set, or handed out with it, unless
   one was dropped (`lost`), which its set then lacks.
   */
  ghost predicate Accounted(
    sents: seq<Sent>, sets: seq<FragSet>, owners: seq<nat>, done: set<nat>, past: Past, w: nat, lost: bool)
    requires ValidFamily(sents) && |owners| == |sets| && w < |sents|
  {
    && (w in done <==> AllArrived(sents, w, past) && !lost)
    && (forall k :: 0 <= k < |owners| && owners[k] == w ==> Complete(sets[k], past, w, lost))
    && ((w, 0) !in past ==> !lost && forall i: nat :: (w, i) !in past)
  }

  /** The set has every fragment of `w` that arrived; or lacks one of them, if one was lost. */
  ghost predicate Complete(d: FragSet, past: Past, w: nat, lost: bool) {
    if lost then exists i :: 0 <= i < |d.frags| && d.frags[i].None? && (w, i) in past
    else forall i :: 0 <= i < |d.frags| && (w, i) in past ==> d.frags[i].Some?
  }

  // --- counting ------------------------------------------------------------------------------

  lemma {:induction false} AllPresent(frags: Slots, i: nat)
    requires i <= |frags| && forall k :: i <= k < |frags| ==> frags[k].Some?
    ensures Present(frags, i) == |frags| - i
    decreases |frags| - i
  {
    if i < |frags| {
      AllPresent(frags, i + 1);
    }
  }

  /** A set in flight lacks a fragment. */
  lemma {:induction false} LacksOne(sents: seq<Sent>, sets: seq<FragSet>, owners: seq<nat>, done: set<nat>, past: Past, k: nat)
    returns (i: nat)
    requires ValidFamily(sents) && Tracks(sents, sets, owners, done, past) && k < |owners|
    ensures i < |sets[k].frags| == |PiecesOf(sents[owners[k]])| && sets[k].frags[i].None?
  {
    assert OwnedBy(sents, sets[k], owners[k], past);
    if forall i :: 0 <= i < |sets[k].frags| ==> sets[k].frags[i].Some? {
      AllPresent(sets[k].frags, 0);
    }
    i :| 0 <= i < |sets[k].frags| && sets[k].frags[i].None?;
  }

  // --- one arrival ----------------------------------------------------------------------------

  /** A later fragment is ambiguous exactly when its own set has a rival. */
  lemma {:induction false} AmbiguousIsRivalled(
    sents: seq<Sent>, sets: seq<FragSet>, owners: seq<nat>, done: set<nat>, past: Past, l: Labelled, k: nat)
    requires ValidFamily(sents) && Tracks(sents, sets, owners, done, past) && IsNext(sents, past, l) && l.i > 0
    requires k < |owners| && owners[k] == l.who
    ensures Ambiguous(sets, l.arrival.fragment.packet) <==> Rivalled(sets, k, l.i)
  {
    var p := l.arrival.fragment.packet;
    PieceFields(sents[l.who], l.i);
    assert OwnedBy(sents, sets[k], owners[k], past);
    assert Matches(sets[k], p);
    RivalIsCandidate(sents, sets, owners, done, past, l, k);
    if Rivalled(sets, k, l.i) {
      var x :| 0 <= x < |sets| && x != k && Matches(sets[x], p);
      assert x < k || k < x;
    }
  }

  /** What an arrival does to the account of message `w`, and whether it brings the message out. */
  ghost predicate Reckoned(
    sents: seq<Sent>, sets: seq<FragSet>, done: set<nat>, past: Past, w: nat, lost: bool, l: Labelled,
    step: Step, owners': seq<nat>, lost': bool)
    requires ValidFamily(sents) && w < |sents| && |owners'| == |step.sets|
  {
    var past' := past + {(l.who, l.i)};
    && Accounted(sents, step.sets, owners', if step.delivery.Some? then done + {l.who} else done, past', w, lost')
    && (lost' <==> lost || (l.who == w && l.i > 0 && Ambiguous(sets, l.arrival.fragment.packet)))
    && (l.who == w ==> (step.delivery.Some? <==> AllArrived(sents, w, past') && !lost'))
  }

  /** The arrival of another message's fragment changes nothing about message `w`. */
  lemma {:induction false} OthersArrive(
    sents: seq<Sent>, sets: seq<FragSet>, owners: seq<nat>, done: set<nat>, past: Past, w: nat, lost: bool,
    l: Labelled, k: nat, step: Step, owners': seq<nat>)
    requires ValidFamily(sents) && |owners| == |sets| && w < |sents| && Accounted(sents, sets, owners, done, past, w, lost)
    requires Moves(sents, sets, owners, l, k, step, owners') && l.who != w && |owners'| == |step.sets|
    ensures Reckoned(sents, sets, done, past, w, lost, l, step, owners', lost)
  {
    var past' := past + {(l.who, l.i)};
    assert forall i: nat :: (w, i) in past' <==> (w, i) in past;
    forall x | 0 <= x < |owners'| && owners'[x] == w ensures Complete(step.sets[x], past', w, lost) {
      if step.delivery.Some? {
        RemovedAt(sets, k, x);
        RemovedAt(owners, k, x);
        assert Complete(sets[if x == k then |sets| - 1 else x], past, w, lost);
      } else if x < |sets| {
        assert step.sets[x] == sets[x];
        assert Complete(sets[x], past, w, lost);
      }
    }
  }

  /** A first fragment starts its message's set. */
  lemma {:induction false} OwnStarts(
    sents: seq<Sent>, sets: seq<FragSet>, owners: seq<nat>, done: set<nat>, past: Past, lost: bool,
    l: Labelled, step: Step, owners': seq<nat>)
    requires ValidFamily(sents) && Tracks(sents, sets, owners, done, past) && IsNext(sents, past, l) && l.i == 0
    requires Accounted(sents, sets, owners, done, past, l.who, lost) && Moves(sents, sets, owners, l, 0, step, owners')
    requires Tracks(sents, step.sets, owners', done, past + {(l.who, 0)})
    ensures Reckoned(sents, sets, done, past, l.who, lost, l, step, owners', lost)
  {
    var w, past' := l.who, past + {(l.who, 0)};
    assert !lost && forall i: nat :: (w, i) in past' <==> i == 0;
    assert OwnedBy(sents, step.sets[|sets|], owners'[|sets|], past');
    assert (w, 1) !in past';
    forall x | 0 <= x < |owners'| && owners'[x] == w ensures Complete(step.sets[x], past', w, lost) {
      assert OwnedBy(sents, step.sets[x], owners'[x], past');
    }
  }

  /** A later fragment that is dropped is one its set lacks for ever. */
  lemma {:induction false} OwnDropped(
    sents: seq<Sent>, sets: seq<FragSet>, owners: seq<nat>, done: set<nat>, past: Past, lost: bool, l: Labelled, k: nat)
    requires ValidFamily(sents) && Tracks(sents, sets, owners, done, past) && IsNext(sents, past, l) && l.i > 0
    requires k < |owners| && owners[k] == l.who && l.i < |sets[k].frags| && sets[k].frags[l.i].None?
    requires Accounted(sents, sets, owners, done, past, l.who, lost)
    ensures Accounted(sents, sets, owners, done, past + {(l.who, l.i)}, l.who, true)
  {
    var w, past' := l.who, past + {(l.who, l.i)};
    assert (w, l.i) in past' && w !in done;
    forall x | 0 <= x < |owners| && owners[x] == w ensures Complete(sets[x], past', w, true) {
      assert x == k;
    }
  }

  /** A later fragment that does not complete its set is stored there. */
  lemma {:induction false} OwnStored(
    sents: seq<Sent>, sets: seq<FragSet>, owners: seq<nat>, done: set<nat>, past: Past, lost: bool,
    l: Labelled, k: nat, step: Step, owners': seq<nat>)
    requires ValidFamily(sents) && Tracks(sents, sets, owners, done, past) && IsNext(sents, past, l) && l.i > 0
    requires Accounted(sents, sets, owners, done, past, l.who, lost) && Moves(sents, sets, owners, l, k, step, owners')
    requires !Rivalled(sets, k, l.i) && sets[k].count + 1 < |sets[k].frags|
    requires Tracks(sents, step.sets, owners', done, past + {(l.who, l.i)})
    ensures Accounted(sents, step.sets, owners', done, past + {(l.who, l.i)}, l.who, lost)
    ensures !(AllArrived(sents, l.who, past + {(l.who, l.i)}) && !lost)
  {
    var w, past' := l.who, past + {(l.who, l.i)};
    assert Complete(sets[k], past, w, lost);
    assert Complete(step.sets[k], past', w, lost) by {
      if lost {
        var i :| 0 <= i < |sets[k].frags| && sets[k].frags[i].None? && (w, i) in past;
        assert i != l.i && step.sets[k].frags[i].None? && (w, i) in past';
      }
    }
    var i := LacksOne(sents, step.sets, owners', done, past', k);
    assert !lost ==> (w, i) !in past';
    assert w !in done;
  }

  /** If one more fragment completes the count, the set lacks only that one. */
  lemma {:induction false} OnlyOneMissing(s: Sent, d: FragSet, m: Fragment, i: nat)
    requires ValidSent(s) && Holds(s, d) && i < |d.frags| && d.frags[i].None? && d.count + 1 == |d.frags|
    requires m.packet == Piece(s, i)
    ensures forall j :: 0 <= j < |d.frags| && j != i ==> d.frags[j].Some?
  {
    PieceFields(s, i);
    StoredHolds(s, d, m, i);
    FullSetJoins(s, Stored(d, m));
    assert forall j :: 0 <= j < |d.frags| && j != i ==> Stored(d, m).frags[j] == d.frags[j];
  }

  /** A later fragment that completes its set comes out with the message, of which nothing was lost. */
  lemma {:induction false} OwnFinished(
    sents: seq<Sent>, sets: seq<FragSet>, owners: seq<nat>, done: set<nat>, past: Past, lost: bool,
    l: Labelled, k: nat, step: Step, owners': seq<nat>)
    requires ValidFamily(sents) && Tracks(sents, sets, owners, done, past) && IsNext(sents, past, l) && l.i > 0
    requires Accounted(sents, sets, owners, done, past, l.who, lost) && Moves(sents, sets, owners, l, k, step, owners')
    requires !Rivalled(sets, k, l.i) && sets[k].count + 1 >= |sets[k].frags|
    requires Tracks(sents, step.sets, owners', done + {l.who}, past + {(l.who, l.i)})
    ensures Accounted(sents, step.sets, owners', done + {l.who}, past + {(l.who, l.i)}, l.who, lost) && !lost
  {
    var w := l.who;
    assert Complete(sets[k], past, w, lost) && OwnedBy(sents, sets[k], w, past);
    OnlyOneMissing(sents[w], sets[k], l.arrival.fragment, l.i);
    forall x | 0 <= x < |owners'| ensures owners'[x] != w {
      RemovedAt(owners, k, x);
    }
  }

  lemma {:induction false} OwnArrives(
    sents: seq<Sent>, sets: seq<FragSet>, owners: seq<nat>, done: set<nat>, past: Past, lost: bool,
    l: Labelled, k: nat, step: Step, owners': seq<nat>)
    returns (lost': bool)
    requires ValidFamily(sents) && Tracks(sents, sets, owners, done, past) && IsNext(sents, past, l) && l.i > 0
    requires Accounted(sents, sets, owners, done, past, l.who, lost) && Moves(sents, sets, owners, l, k, step, owners')
    requires Tracks(sents, step.sets, owners', if step.delivery.Some? then done + {l.who} else done, past + {(l.who, l.i)})
    ensures Reckoned(sents, sets, done, past, l.who, lost, l, step, owners', lost')
  {
    lost' := lost;
    AmbiguousIsRivalled(sents, sets, owners, done, past, l, k);
    if Rivalled(sets, k, l.i) {
      OwnDropped(sents, sets, owners, done, past, lost, l, k);
      lost' := true;
    } else if sets[k].count + 1 < |sets[k].frags| {
      OwnStored(sents, sets, owners, done, past, lost, l, k, step, owners');
    } else {
      OwnFinished(sents, sets, owners, done, past, lost, l, k, step, owners');
    }
  }

  /** Each arrival keeps the account, and brings its message out exactly if that is now whole. */
  lemma {:induction false} ArrivalAccounted(
    sents: seq<Sent>, sets: seq<FragSet>, owners: seq<nat>, done: set<nat>, past: Past, w: nat, lost: bool,
    l: Labelled, step: Step)
    returns (owners': seq<nat>, lost': bool)
    requires ValidFamily(sents) && Tracks(sents, sets, owners, done, past) && IsNext(sents, past, l)
    requires w < |sents| && Accounted(sents, sets, owners, done, past, w, lost) && step == Arrive(sets, l.arrival)
    ensures Tracks(sents, step.sets, owners', if step.delivery.Some? then done + {l.who} else done, past + {(l.who, l.i)})
    ensures Reckoned(sents, sets, done, past, w, lost, l, step, owners', lost')
  {
    var k;
    k, owners' := ArrivalKeepsApart(sents, sets, owners, done, past, l);
    lost' := lost;
    if l.who != w {
      OthersArrive(sents, sets, owners, done, past, w, lost, l, k, step, owners');
    } else if l.i == 0 {
      OwnStarts(sents, sets, owners, done, past, lost, l, step, owners');
    } else {
      lost' := OwnArrives(sents, sets, owners, done, past, lost, l, k, step, owners');
    }
  }

  // --- whole runs -----------------------------------------------------------------------------

  lemma {:induction false} WholeByStep(sents: seq<Sent>, past: Past, ls: seq<Labelled>, w: nat, k: nat)
    requires ValidFamily(sents) && 0 < k < |ls| && w < |sents|
    ensures WholeBy(sents, past, ls, w, k) <==> WholeBy(sents, past + {(ls[0].who, ls[0].i)}, ls[1..], w, k - 1)
  {
    var past' := past + {(ls[0].who, ls[0].i)};
    forall i: nat
      ensures (w, i) in past || ArrivedBy(ls, k, w, i) <==> (w, i) in past' || ArrivedBy(ls[1..], k - 1, w, i)
    {
      if ArrivedBy(ls, k, w, i) {
        var j :| 0 <= j <= k && ls[j].who == w && ls[j].i == i;
        assert j > 0 ==> ls[1..][j - 1] == ls[j];
      }
      if ArrivedBy(ls[1..], k - 1, w, i) {
        var j :| 0 <= j <= k - 1 && ls[1..][j].who == w && ls[1..][j].i == i;
        assert ls[j + 1] == ls[1..][j];
      }
    }
  }

  lemma {:induction false} RestComesOut(
    sents: seq<Sent>, sets: seq<FragSet>, owners: seq<nat>, done: set<nat>, past: Past, w: nat, lost: bool,
    ls: seq<Labelled>, k: nat)
    requires ValidFamily(sents) && Tracks(sents, sets, owners, done, past) && WellOrdered(sents, past, ls)
    requires w < |sents| && Accounted(sents, sets, owners, done, past, w, lost) && k < |ls| && ls[k].who == w
    ensures ArriveAll(sets, Arrivals(ls)).out[k].Some? <==>
            WholeBy(sents, past, ls, w, k) && !lost && Clear(sets, ls, w, k)
    decreases k
  {
    var l, step, past' := ls[0], Arrive(sets, ls[0].arrival), past + {(ls[0].who, ls[0].i)};
    var owners', lost' := ArrivalAccounted(sents, sets, owners, done, past, w, lost, l, step);
    OutOf(sets, ls, k, step);
    if k == 0 {
      OneArrives(sents, past, ls);
    } else {
      var done' := if step.delivery.Some? then done + {l.who} else done;
      WholeByStep(sents, past, ls, w, k);
      RestComesOut(sents, step.sets, owners', done', past', w, lost', ls[1..], k - 1);
    }
  }

  lemma {:induction false} OutOf(sets: seq<FragSet>, ls: seq<Labelled>, k: nat, step: Step)
    requires k < |ls| && step == Arrive(sets, ls[0].arrival)
    ensures ArriveAll(sets, Arrivals(ls)).out[k] ==
            if k == 0 then step.delivery else ArriveAll(step.sets, Arrivals(ls[1..])).out[k - 1]
  {
    assert Arrivals(ls)[1..] == Arrivals(ls[1..]);
  }

  lemma {:induction false} OneArrives(sents: seq<Sent>, past: Past, ls: seq<Labelled>)
    requires ValidFamily(sents) && ls != [] && ls[0].who < |sents|
    ensures WholeBy(sents, past, ls, ls[0].who, 0) <==> AllArrived(sents, ls[0].who, past + {(ls[0].who, ls[0].i)})
  {
    var w := ls[0].who;
    forall i: nat ensures ArrivedBy(ls, 0, w, i) <==> i == ls[0].i {
    }
  }

  /**
   A message comes out with the fragment that makes it whole, and exactly if none of its
   fragments found two sets in flight that could have it.
   */
  lemma {:induction false} ComesOutExactly(sents: seq<Sent>, ls: seq<Labelled>, k: nat)
    requires ValidFamily(sents) && WellOrdered(sents, {}, ls) && k < |ls| && ls[k].who < |sents|
    ensures ArriveAll([], Arrivals(ls)).out[k].Some? <==>
            && (forall i :: 0 <= i < |PiecesOf(sents[ls[k].who])| ==> ArrivedBy(ls, k, ls[k].who, i))
            && Clear([], ls, ls[k].who, k)
  {
    var w := ls[k].who;
    PieceFields(sents[w], 0);
    RestComesOut(sents, [], [], {}, {}, w, false, ls, k);
  }

  // --- messages with a total of their own ---------------------------------------------------------

  /** No other message of the family is cut into as many fragments. */
  ghost predicate OwnTotal(sents: seq<Sent>, w: nat)
    requires ValidFamily(sents)
  {
    w < |sents| && forall v :: 0 <= v < |sents| && v != w ==> |PiecesOf(sents[v])| != |PiecesOf(sents[w])|
  }

  lemma {:induction false} OwnTotalUnrivalled(
    sents: seq<Sent>, sets: seq<FragSet>, owners: seq<nat>, done: set<nat>, past: Past, l: Labelled)
    requires ValidFamily(sents) && Tracks(sents, sets, owners, done, past) && IsNext(sents, past, l)
    requires l.i > 0 && OwnTotal(sents, l.who)
    ensures !Ambiguous(sets, l.arrival.fragment.packet)
  {
    var k := OwnSetExists(sents, sets, owners, done, past, l);
    AmbiguousIsRivalled(sents, sets, owners, done, past, l, k);
    forall x | 0 <= x < |sets| && x != k ensures |sets[x].frags| != |sets[k].frags| {
      assert OwnedBy(sents, sets[x], owners[x], past) && OwnedBy(sents, sets[k], owners[k], past);
    }
  }

  lemma {:induction false} OwnTotalClear(
    sents: seq<Sent>, sets: seq<FragSet>, owners: seq<nat>, done: set<nat>, past: Past, ls: seq<Labelled>, w: nat, k: nat)
    requires ValidFamily(sents) && Tracks(sents, sets, owners, done, past) && WellOrdered(sents, past, ls)
    requires k < |ls| && OwnTotal(sents, w)
    ensures Clear(sets, ls, w, k)
    decreases k
  {
    var l, step := ls[0], Arrive(sets, ls[0].arrival);
    if l.who == w && l.i > 0 {
      OwnTotalUnrivalled(sents, sets, owners, done, past, l);
    }
    if k > 0 {
      var _, owners' := ArrivalKeepsApart(sents, sets, owners, done, past, l);
      var done' := if step.delivery.Some? then done + {l.who} else done;
      OwnTotalClear(sents, step.sets, owners', done', past + {(l.who, l.i)}, ls[1..], w, k - 1);
    }
  }

  /**
   A message no other is cut into as many fragments as loses nothing to the others: it comes
   out with the last of its fragments, whatever order the fragments of all of them come in.
   */
  lemma {:induction false} DeliveredDespiteSharing(sents: seq<Sent>, ls: seq<Labelled>, k: nat)
    requires ValidFamily(sents) && WellOrdered(sents, {}, ls) && k < |ls| && OwnTotal(sents, ls[k].who)
    ensures ArriveAll([], Arrivals(ls)).out[k].Some? <==>
            forall i :: 0 <= i < |PiecesOf(sents[ls[k].who])| ==> ArrivedBy(ls, k, ls[k].who, i)
  {
    ComesOutExactly(sents, ls, k);
    OwnTotalClear(sents, [], [], {}, {}, ls, ls[k].who, k);
  }

  // --- messages with the same total -----------------------------------------------------------------

  /** Two messages of equal totals have started, and the second fragment of the first of them arrives. */
  ghost predicate Overlap(sents: seq<Sent>, ls: seq<Labelled>)
    requires ValidFamily(sents) && |ls| >= 3
  {
    && |sents| > 1 && |PiecesOf(sents[0])| == |PiecesOf(sents[1])|
    && ls[0].who == 0 && ls[0].i == 0 && ls[1].who == 1 && ls[1].i == 0 && ls[2].who == 0 && ls[2].i == 1
  }

  lemma {:induction false} TwoStarted(sents: seq<Sent>, l0: Labelled, l1: Labelled, sets: seq<FragSet>)
    requires ValidFamily(sents) && IsNext(sents, {}, l0) && IsNext(sents, {(0, 0)}, l1)
    requires l0.who == 0 && l0.i == 0 && l1.who == 1 && l1.i == 0
    requires sets == Arrive(Arrive([], l0.arrival).sets, l1.arrival).sets
    ensures Tracks(sents, sets, [0, 1], {}, {(0, 0), (1, 0)})
  {
    var past1: Past := {(0, 0)};
    assert {} + {(0, 0)} == past1 && past1 + {(1, 0)} == {(0, 0), (1, 0)};
    FirstArrives(sents, [], [], {}, {}, l0);
    assert [] + [0] == [0] && [0] + [1] == [0, 1];
    FirstArrives(sents, Arrive([], l0.arrival).sets, [0], {}, past1, l1);
  }

  lemma {:induction false} OverlapIsAmbiguous(sents: seq<Sent>, sets: seq<FragSet>, l: Labelled)
    requires ValidFamily(sents) && |sents| > 1 && |PiecesOf(sents[0])| == |PiecesOf(sents[1])|
    requires Tracks(sents, sets, [0, 1], {}, {(0, 0), (1, 0)})
    requires IsNext(sents, {(0, 0), (1, 0)}, l) && l.who == 0 && l.i == 1
    ensures Ambiguous(sets, l.arrival.fragment.packet)
  {
    var past: Past := {(0, 0), (1, 0)};
    var owners := [0, 1];
    assert OwnedBy(sents, sets[0], owners[0], past) && OwnedBy(sents, sets[1], owners[1], past);
    assert (1, 1) !in past;
    assert Rivalled(sets, 0, 1);
    AmbiguousIsRivalled(sents, sets, owners, {}, past, l, 0);
  }

  lemma {:induction false} ThirdIsClear(
    sets: seq<FragSet>, sets1: seq<FragSet>, sets2: seq<FragSet>, ls: seq<Labelled>, w: nat, k: nat)
    requires 2 <= k < |ls| && Clear(sets, ls, w, k) && ls[2].who == w && ls[2].i > 0
    requires sets1 == Arrive(sets, ls[0].arrival).sets && sets2 == Arrive(sets1, ls[1].arrival).sets
    ensures !Ambiguous(sets2, ls[2].arrival.fragment.packet)
  {
    assert ls[1..][0] == ls[1] && ls[1..][1..][0] == ls[2];
    assert Clear(sets1, ls[1..], w, k - 1);
    assert Clear(sets2, ls[1..][1..], w, k - 2);
  }

  /** Then that message never comes out, although every one of its fragments may arrive. */
  lemma {:induction false} OverlapLoses(sents: seq<Sent>, ls: seq<Labelled>, k: nat)
    requires ValidFamily(sents) && |ls| >= 3 && WellOrdered(sents, {}, ls) && Overlap(sents, ls)
    requires k < |ls| && ls[k].who == 0
    ensures ArriveAll([], Arrivals(ls)).out[k].None?
  {
    ComesOutExactly(sents, ls, k);
    assert ls[1..][0] == ls[1] && ls[1..][1..][0] == ls[2];
    assert {} + {(0, 0)} == {(0, 0)} && {(0, 0)} + {(1, 0)} == {(0, 0), (1, 0)};
    assert WellOrdered(sents, {(0, 0)}, ls[1..]) && WellOrdered(sents, {(0, 0), (1, 0)}, ls[1..][1..]);
    if k == 0 {
      assert !ArrivedBy(ls, 0, 0, 1);
    } else {
      var sets1 := Arrive([], ls[0].arrival).sets;
      var sets2 := Arrive(sets1, ls[1].arrival).sets;
      if Clear([], ls, 0, k) {
        ThirdIsClear([], sets1, sets2, ls, 0, k);
      }
      TwoStarted(sents, ls[0], ls[1], sets2);
      OverlapIsAmbiguous(sents, sets2, ls[2]);
    }
  }
}
