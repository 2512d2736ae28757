/**
 Several TUIC messages under one recycled packet ID. A later fragment carries no
 address, so the bucket must guess its set; it never guesses wrong, because an
 ambiguous fragment is dropped.
 */
module TuicMixing {
  import opened Bytes
  import opened TuicCodec
  import opened Cutting
  import opened TuicFrag
  import opened TuicReassembly
  import opened TuicDelivery

  /** Messages with one packet ID and pairwise distinct source addresses. */
  ghost predicate ValidFamily(sents: seq<Sent>) {
    && (forall w :: 0 <= w < |sents| ==> ValidSent(sents[w]) && sents[w].packet.id == sents[0].packet.id)
    && (forall v, w :: 0 <= v < w < |sents| ==> Source(sents[v]) != Source(sents[w]))
  }

  /** Fragment `i` of message `who` arriving. */
  datatype Labelled = Labelled(who: nat, i: nat, arrival: Arrival)

  type Past = set<(nat, nat)>

  ghost predicate IsNext(sents: seq<Sent>, past: Past, l: Labelled)
    requires ValidFamily(sents)
  {
    && l.who < |sents| && l.i < |PiecesOf(sents[l.who])|
    && l.arrival.fragment.packet == Piece(sents[l.who], l.i)
    && (l.who, l.i) !in past && (l.i > 0 ==> (l.who, 0) in past)
  }

  /** No fragment arrives twice, and each first fragment precedes its siblings. */
  ghost predicate WellOrdered(sents: seq<Sent>, past: Past, ls: seq<Labelled>)
    requires ValidFamily(sents)
    decreases |ls|
  {
    ls == [] || (IsNext(sents, past, ls[0]) && WellOrdered(sents, past + {(ls[0].who, ls[0].i)}, ls[1..]))
  }

  /** A set with fragments of message `w` only, its first among them, and not all of them. */
  ghost predicate OwnedBy(sents: seq<Sent>, d: FragSet, w: nat, past: Past)
    requires ValidFamily(sents)
  {
    && w < |sents| && Holds(sents[w], d) && d.frags[0].Some? && 0 < d.count < |d.frags|
    && forall i :: 0 <= i < |d.frags| && d.frags[i].Some? ==> (w, i) in past
  }

  ghost predicate AllArrived(sents: seq<Sent>, w: nat, past: Past)
    requires ValidFamily(sents)
  {
    w < |sents| && forall i :: 0 <= i < |PiecesOf(sents[w])| ==> (w, i) in past
  }

  /** Each set has its own message; a started message has a set or has been delivered. */
  ghost predicate Tracks(sents: seq<Sent>, sets: seq<FragSet>, owners: seq<nat>, done: set<nat>, past: Past)
    requires ValidFamily(sents)
  {
    && |owners| == |sets|
    && (forall k :: 0 <= k < |sets| ==> OwnedBy(sents, sets[k], owners[k], past))
    && (forall j, k :: 0 <= j < k < |owners| ==> owners[j] != owners[k])
    && (forall w :: w in done ==> AllArrived(sents, w, past))
    && (forall w: nat :: (w, 0) in past ==> w in done || w in owners)
  }

  // --- who is a candidate ----------------------------------------------------------------

  lemma {:induction false} CandidatesExactly(sets: seq<FragSet>, p: Packet, i: nat)
    requires i <= |sets|
    ensures forall x: nat :: x in Candidates(sets, p, i) <==> i <= x < |sets| && Matches(sets[x], p)
    decreases |sets| - i
  {
    if i < |sets| {
      CandidatesExactly(sets, p, i + 1);
    }
  }

  lemma {:induction false} AllWithFirst(sets: seq<FragSet>, cs: seq<nat>)
    requires Indices(sets, cs) && forall x :: 0 <= x < |cs| ==> sets[cs[x]].first.Some?
    ensures WithFirst(sets, cs) == cs
  {
    if cs != [] {
      AllWithFirst(sets, cs[1..]);
    }
  }

  /** A first fragment matches no set: every set has another message's first fragment. */
  lemma {:induction false} FirstIsFresh(sents: seq<Sent>, sets: seq<FragSet>, owners: seq<nat>, done: set<nat>, past: Past, l: Labelled)
    requires ValidFamily(sents) && Tracks(sents, sets, owners, done, past) && IsNext(sents, past, l) && l.i == 0
    ensures Select(sets, l.arrival.fragment.packet) == Fresh && l.who !in owners
  {
    var p := l.arrival.fragment.packet;
    PieceFields(sents[l.who], 0);
    CandidatesExactly(sets, p, 0);
    var cs := Candidates(sets, p, 0);
    assert |cs| > 0 ==> cs[0] in cs;
    forall k | 0 <= k < |sets| ensures owners[k] != l.who && !Matches(sets[k], p) {
      assert OwnedBy(sents, sets[k], owners[k], past);
    }
  }

  lemma {:induction false} CandidatesIncrease(sets: seq<FragSet>, p: Packet, i: nat)
    requires i <= |sets|
    ensures forall x :: 0 <= x < |Candidates(sets, p, i)| ==> i <= Candidates(sets, p, i)[x]
    ensures forall x, y :: 0 <= x < y < |Candidates(sets, p, i)| ==> Candidates(sets, p, i)[x] < Candidates(sets, p, i)[y]
    decreases |sets| - i
  {
    if i < |sets| {
      CandidatesIncrease(sets, p, i + 1);
    }
  }

  /** Another message in flight has as many fragments and lacks the one with this number. */
  ghost predicate Rivalled(sets: seq<FragSet>, k: nat, i: nat) {
    exists x :: 0 <= x < |sets| && x != k && k < |sets| && |sets[x].frags| == |sets[k].frags| > i && sets[x].frags[i].None?
  }

  /**
   A later fragment goes to its own message's set, or nowhere; and nowhere exactly when
   another message in flight could have it too.
   */
  lemma {:induction false} LaterIsOwnOrDropped(
    sents: seq<Sent>, sets: seq<FragSet>, owners: seq<nat>, done: set<nat>, past: Past, l: Labelled, k: nat)
    requires ValidFamily(sents) && Tracks(sents, sets, owners, done, past) && IsNext(sents, past, l) && l.i > 0
    requires k < |owners| && owners[k] == l.who
    ensures Select(sets, l.arrival.fragment.packet) == if Rivalled(sets, k, l.i) then Drop else Use(k)
  {
    var p := l.arrival.fragment.packet;
    PieceFields(sents[l.who], l.i);
    assert OwnedBy(sents, sets[k], owners[k], past);
    assert Matches(sets[k], p);
    CandidatesExactly(sets, p, 0);
    CandidatesIncrease(sets, p, 0);
    var cs := Candidates(sets, p, 0);
    assert k in cs;
    forall x | 0 <= x < |cs| ensures sets[cs[x]].first.Some? {
      assert OwnedBy(sents, sets[cs[x]], owners[cs[x]], past);
    }
    AllWithFirst(sets, cs);
    RivalIsCandidate(sents, sets, owners, done, past, l, k);
    if Rivalled(sets, k, l.i) {
      TwoCandidates(sets, p, k);
    } else {
      assert forall x :: 0 <= x < |cs| ==> cs[x] in cs && cs[x] == k;
      assert |cs| == 1;
    }
  }

  lemma {:induction false} RivalIsCandidate(
    sents: seq<Sent>, sets: seq<FragSet>, owners: seq<nat>, done: set<nat>, past: Past, l: Labelled, k: nat)
    requires ValidFamily(sents) && Tracks(sents, sets, owners, done, past) && IsNext(sents, past, l) && l.i > 0
    requires k < |owners| && owners[k] == l.who
    ensures Rivalled(sets, k, l.i) <==> exists x :: 0 <= x < |sets| && x != k && Matches(sets[x], l.arrival.fragment.packet)
  {
    var p := l.arrival.fragment.packet;
    PieceFields(sents[l.who], l.i);
    assert OwnedBy(sents, sets[k], owners[k], past);
    forall x | 0 <= x < |sets|
      ensures Matches(sets[x], p) <==> |sets[x].frags| == |sets[k].frags| > l.i && sets[x].frags[l.i].None?
    {
      assert OwnedBy(sents, sets[x], owners[x], past);
    }
  }

  lemma {:induction false} TwoCandidates(sets: seq<FragSet>, p: Packet, k: nat)
    requires k < |sets| && Matches(sets[k], p) && exists x :: 0 <= x < |sets| && x != k && Matches(sets[x], p)
    ensures |Candidates(sets, p, 0)| > 1
  {
    CandidatesExactly(sets, p, 0);
    var x :| 0 <= x < |sets| && x != k && Matches(sets[x], p);
    var cs := Candidates(sets, p, 0);
    assert x in cs && k in cs;
  }

  /** The message of a later fragment still has its set. */
  lemma {:induction false} OwnSetExists(sents: seq<Sent>, sets: seq<FragSet>, owners: seq<nat>, done: set<nat>, past: Past, l: Labelled)
    returns (k: nat)
    requires ValidFamily(sents) && Tracks(sents, sets, owners, done, past) && IsNext(sents, past, l) && l.i > 0
    ensures k < |owners| && owners[k] == l.who && l.who !in done && sets[k].frags[l.i].None?
  {
    assert l.who in done ==> AllArrived(sents, l.who, past);
    k :| 0 <= k < |owners| && owners[k] == l.who;
    assert OwnedBy(sents, sets[k], owners[k], past);
  }

  // --- every arrival keeps messages apart ---------------------------------------------------------

  lemma {:induction false} PastGrows(sents: seq<Sent>, sets: seq<FragSet>, owners: seq<nat>, done: set<nat>, past: Past, w: nat, i: nat)
    requires ValidFamily(sents) && Tracks(sents, sets, owners, done, past) && (i == 0 ==> w in owners)
    ensures Tracks(sents, sets, owners, done, past + {(w, i)})
  {
    var past' := past + {(w, i)};
    forall k | 0 <= k < |sets| ensures OwnedBy(sents, sets[k], owners[k], past') {
      assert OwnedBy(sents, sets[k], owners[k], past);
    }
    forall v | v in done ensures AllArrived(sents, v, past') {
      assert AllArrived(sents, v, past);
    }
  }

  /** A first fragment starts a set of its own. */
  lemma {:induction false} FirstArrives(sents: seq<Sent>, sets: seq<FragSet>, owners: seq<nat>, done: set<nat>, past: Past, l: Labelled)
    requires ValidFamily(sents) && Tracks(sents, sets, owners, done, past) && IsNext(sents, past, l) && l.i == 0
    ensures var step := Arrive(sets, l.arrival);
            step.delivery == None && Tracks(sents, step.sets, owners + [l.who], done, past + {(l.who, 0)})
  {
    var past' := past + {(l.who, 0)};
    FirstIsFresh(sents, sets, owners, done, past, l);
    ArriveFresh(sents[l.who], sets, l.arrival, 0);
    var step := Arrive(sets, l.arrival);
    var owners' := owners + [l.who];
    forall k | 0 <= k < |step.sets| ensures OwnedBy(sents, step.sets[k], owners'[k], past') {
      if k < |sets| {
        assert OwnedBy(sents, sets[k], owners[k], past);
      }
    }
    forall w | w in done ensures AllArrived(sents, w, past') {
      assert AllArrived(sents, w, past);
    }
    forall w: nat | (w, 0) in past' ensures w in done || w in owners' {
      if w == l.who {
        assert owners'[|owners|] == w;
      } else {
        assert (w, 0) in past;
        assert forall x :: x in owners ==> x in owners';
      }
    }
  }

  lemma {:induction false} DroppedChangesNothing(sets: seq<FragSet>, a: Arrival)
    requires a.fragment.packet.total > 1 && a.fragment.packet.frag < a.fragment.packet.total
    requires Select(sets, a.fragment.packet) == Drop
    ensures Arrive(sets, a) == Step(sets, None)
  {
  }

  /** A later fragment joins its own set without completing it. */
  lemma {:induction false} LaterStored(
    sents: seq<Sent>, sets: seq<FragSet>, owners: seq<nat>, done: set<nat>, past: Past, l: Labelled, k: nat)
    requires ValidFamily(sents) && Tracks(sents, sets, owners, done, past) && IsNext(sents, past, l) && l.i > 0
    requires k < |owners| && owners[k] == l.who && sets[k].frags[l.i].None? && sets[k].count + 1 < |sets[k].frags|
    ensures l.arrival.fragment.packet.frag < |sets[k].frags|
    ensures Tracks(sents, sets[k := Stored(sets[k], l.arrival.fragment)], owners, done, past + {(l.who, l.i)})
  {
    var m := l.arrival.fragment;
    assert OwnedBy(sents, sets[k], owners[k], past);
    StoredHolds(sents[l.who], sets[k], m, l.i);
    PastGrows(sents, sets, owners, done, past, l.who, l.i);
    var sets', past' := sets[k := Stored(sets[k], m)], past + {(l.who, l.i)};
    forall x | 0 <= x < |sets'| ensures OwnedBy(sents, sets'[x], owners[x], past') {
      assert OwnedBy(sents, sets[x], owners[x], past');
    }
  }

  /** A later fragment completes its message, and the set goes. */
  lemma {:induction false} LaterCompletes(
    sents: seq<Sent>, sets: seq<FragSet>, owners: seq<nat>, done: set<nat>, past: Past, l: Labelled, k: nat)
    requires ValidFamily(sents) && Tracks(sents, sets, owners, done, past) && IsNext(sents, past, l) && l.i > 0
    requires k < |owners| && owners[k] == l.who && sets[k].frags[l.i].None? && sets[k].count + 1 == |sets[k].frags|
    ensures Tracks(sents, Removed(sets, k), Removed(owners, k), done + {l.who}, past + {(l.who, l.i)})
  {
    var m := l.arrival.fragment;
    var past' := past + {(l.who, l.i)};
    assert OwnedBy(sents, sets[k], owners[k], past);
    PastGrows(sents, sets, owners, done, past, l.who, l.i);
    assert AllArrived(sents, l.who, past') by {
      StoredHolds(sents[l.who], sets[k], m, l.i);
      FullSetJoins(sents[l.who], Stored(sets[k], m));
      forall i | 0 <= i < |PiecesOf(sents[l.who])| ensures (l.who, i) in past' {
        assert Stored(sets[k], m).frags[i].Some?;
      }
    }
    RemovedTracks(sents, sets, owners, done, past', k);
  }

  lemma {:induction false} RemovedTracks(sents: seq<Sent>, sets: seq<FragSet>, owners: seq<nat>, done: set<nat>, past: Past, k: nat)
    requires ValidFamily(sents) && Tracks(sents, sets, owners, done, past)
    requires k < |owners| && AllArrived(sents, owners[k], past)
    ensures Tracks(sents, Removed(sets, k), Removed(owners, k), done + {owners[k]}, past)
  {
    var sets', owners' := Removed(sets, k), Removed(owners, k);
    forall x | 0 <= x < |sets'| ensures OwnedBy(sents, sets'[x], owners'[x], past) {
      RemovedAt(sets, k, x);
      RemovedAt(owners, k, x);
      var y := if x == k then |sets| - 1 else x;
      assert OwnedBy(sents, sets[y], owners[y], past);
    }
    RemovedDistinct(owners, k);
    forall w: nat | (w, 0) in past ensures w in done + {owners[k]} || w in owners' {
      if w in owners && w != owners[k] {
        RemovedKeeps(owners, k, w);
      }
    }
  }

  lemma {:induction false} RemovedAt<T>(s: seq<T>, k: nat, x: nat)
    requires k < |s| && x < |s| - 1
    ensures Removed(s, k)[x] == s[if x == k then |s| - 1 else x]
  {
  }

  lemma {:induction false} RemovedDistinct(s: seq<nat>, k: nat)
    requires k < |s| && forall i, j :: 0 <= i < j < |s| ==> s[i] != s[j]
    ensures forall i, j :: 0 <= i < j < |s| - 1 ==> Removed(s, k)[i] != Removed(s, k)[j]
  {
  }

  lemma {:induction false} RemovedKeeps(s: seq<nat>, k: nat, w: nat)
    requires k < |s| && w in s && w != s[k]
    ensures w in Removed(s, k)
  {
    var x :| 0 <= x < |s| && s[x] == w;
    assert Removed(s, k)[if x == |s| - 1 then k else x] == w;
  }

  /** What an arrival does to the sets: `k` is where the message of a later fragment has its set. */
  ghost predicate Moves(
    sents: seq<Sent>, sets: seq<FragSet>, owners: seq<nat>, l: Labelled, k: nat, step: Step, owners': seq<nat>)
  {
    && l.who < |sents| && sents[l.who].fragSize > 0 && |owners| == |sets|
    && if l.i == 0 then
         && owners' == owners + [l.who] && step.delivery == None
         && |step.sets| == |sets| + 1 && step.sets[..|sets|] == sets
         && |step.sets[|sets|].frags| > 0 && step.sets[|sets|].frags[0].Some?
       else
         && k < |sets| && owners[k] == l.who && l.i < |sets[k].frags| && sets[k].frags[l.i].None?
         && l.arrival.fragment.packet.frag == l.i
         && if Rivalled(sets, k, l.i) then step == Step(sets, None) && owners' == owners
            else if sets[k].count + 1 < |sets[k].frags| then
              step == Step(sets[k := Stored(sets[k], l.arrival.fragment)], None) && owners' == owners
            else
              && step == Step(Removed(sets, k), Some(Expected(sents[l.who], l.arrival.mode)))
              && owners' == Removed(owners, k)
  }

  /** Whatever arrives next, the sets stay apart, and what comes out is the message that fragment is from. */
  lemma {:induction false} ArrivalKeepsApart(
    sents: seq<Sent>, sets: seq<FragSet>, owners: seq<nat>, done: set<nat>, past: Past, l: Labelled)
    returns (k: nat, owners': seq<nat>)
    requires ValidFamily(sents) && Tracks(sents, sets, owners, done, past) && IsNext(sents, past, l)
    ensures var step := Arrive(sets, l.arrival);
            && (step.delivery.Some? ==> step.delivery.value == Expected(sents[l.who], l.arrival.mode) && l.who !in done)
            && Tracks(sents, step.sets, owners', if step.delivery.Some? then done + {l.who} else done, past + {(l.who, l.i)})
            && Moves(sents, sets, owners, l, k, step, owners')
  {
    if l.i == 0 {
      FirstArrives(sents, sets, owners, done, past, l);
      FirstMoves(sents, sets, owners, done, past, l);
      return 0, owners + [l.who];
    }
    k := OwnSetExists(sents, sets, owners, done, past, l);
    owners' := LaterArrives(sents, sets, owners, done, past, l, k);
  }

  lemma {:induction false} FirstMoves(
    sents: seq<Sent>, sets: seq<FragSet>, owners: seq<nat>, done: set<nat>, past: Past, l: Labelled)
    requires ValidFamily(sents) && Tracks(sents, sets, owners, done, past) && IsNext(sents, past, l) && l.i == 0
    ensures Moves(sents, sets, owners, l, 0, Arrive(sets, l.arrival), owners + [l.who])
  {
    FirstIsFresh(sents, sets, owners, done, past, l);
    ArriveFresh(sents[l.who], sets, l.arrival, 0);
  }

  lemma {:induction false} LaterArrives(
    sents: seq<Sent>, sets: seq<FragSet>, owners: seq<nat>, done: set<nat>, past: Past, l: Labelled, k: nat)
    returns (owners': seq<nat>)
    requires ValidFamily(sents) && Tracks(sents, sets, owners, done, past) && IsNext(sents, past, l) && l.i > 0
    requires k < |owners| && owners[k] == l.who && l.who !in done && sets[k].frags[l.i].None?
    ensures var step := Arrive(sets, l.arrival);
            && (step.delivery.Some? ==> step.delivery.value == Expected(sents[l.who], l.arrival.mode))
            && Tracks(sents, step.sets, owners', if step.delivery.Some? then done + {l.who} else done, past + {(l.who, l.i)})
            && Moves(sents, sets, owners, l, k, step, owners')
  {
    LaterIsOwnOrDropped(sents, sets, owners, done, past, l, k);
    PieceFields(sents[l.who], l.i);
    assert OwnedBy(sents, sets[k], owners[k], past);
    owners' := owners;
    if Rivalled(sets, k, l.i) {
      DroppedChangesNothing(sets, l.arrival);
      PastGrows(sents, sets, owners, done, past, l.who, l.i);
    } else {
      forall x | 0 <= x < |sets| ensures OwnedBy(sents, sets[x], owners[x], past) {
      }
      ArriveMissing(sents[l.who], sets, k, l.arrival, l.i);
      if sets[k].count + 1 < |sets[k].frags| {
        LaterStored(sents, sets, owners, done, past, l, k);
      } else {
        LaterCompletes(sents, sets, owners, done, past, l, k);
        owners' := Removed(owners, k);
      }
    }
  }

  function Arrivals(ls: seq<Labelled>): (r: seq<Arrival>)
    ensures |r| == |ls| && forall k :: 0 <= k < |ls| ==> r[k] == ls[k].arrival
  {
    if ls == [] then [] else [ls[0].arrival] + Arrivals(ls[1..])
  }

  /** What comes out of these arrivals: whole messages, none of them in `done`, none twice. */
  ghost predicate Apart(sents: seq<Sent>, ls: seq<Labelled>, out: seq<Option<Delivery>>, done: set<nat>) {
    && |out| == |ls|
    && (forall k :: 0 <= k < |ls| && out[k].Some? ==>
          ls[k].who < |sents| && ls[k].who !in done && out[k].value == Expected(sents[ls[k].who], ls[k].arrival.mode))
    && (forall j, k :: 0 <= j < k < |ls| && out[j].Some? && out[k].Some? ==> ls[j].who != ls[k].who)
  }

  lemma {:induction false} ApartCons(sents: seq<Sent>, ls: seq<Labelled>, d: Option<Delivery>, rest: seq<Option<Delivery>>, done: set<nat>)
    requires ls != [] && ls[0].who < |sents|
    requires d.Some? ==> d.value == Expected(sents[ls[0].who], ls[0].arrival.mode) && ls[0].who !in done
    requires Apart(sents, ls[1..], rest, if d.Some? then done + {ls[0].who} else done)
    ensures Apart(sents, ls, [d] + rest, done)
  {
    var out := [d] + rest;
    assert forall k :: 1 <= k < |ls| ==> out[k] == rest[k - 1] && ls[k] == ls[1..][k - 1];
  }

  lemma {:induction false} RestNeverMixed(
    sents: seq<Sent>, sets: seq<FragSet>, owners: seq<nat>, done: set<nat>, past: Past, ls: seq<Labelled>)
    requires ValidFamily(sents) && Tracks(sents, sets, owners, done, past) && WellOrdered(sents, past, ls)
    ensures Apart(sents, ls, ArriveAll(sets, Arrivals(ls)).out, done)
    decreases |ls|
  {
    if ls != [] {
      var l, step := ls[0], Arrive(sets, ls[0].arrival);
      var _, owners' := ArrivalKeepsApart(sents, sets, owners, done, past, l);
      var done' := if step.delivery.Some? then done + {l.who} else done;
      RestNeverMixed(sents, step.sets, owners', done', past + {(l.who, l.i)}, ls[1..]);
      assert Arrivals(ls)[1..] == Arrivals(ls[1..]);
      ApartCons(sents, ls, step.delivery, ArriveAll(step.sets, Arrivals(ls[1..])).out, done);
    }
  }

  /**
   Messages that share a packet ID but not a source never mix: every datagram handed
   out is one sent message, namely that of the fragment just received, and no message
   is handed out twice.
   */
  lemma {:induction false} NeverMixed(sents: seq<Sent>, ls: seq<Labelled>)
    requires ValidFamily(sents) && WellOrdered(sents, {}, ls)
    ensures var out := ArriveAll([], Arrivals(ls)).out;
            && (forall k :: 0 <= k < |ls| && out[k].Some? ==>
                  ls[k].who < |sents| && out[k].value == Expected(sents[ls[k].who], ls[k].arrival.mode))
            && (forall j, k :: 0 <= j < k < |ls| && out[j].Some? && out[k].Some? ==> ls[j].who != ls[k].who)
  {
    RestNeverMixed(sents, [], [], {}, {}, ls);
  }
}
