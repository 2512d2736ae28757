/**
 Which of the sets in flight a fragment goes to, for any sets whatever: also with first
 fragments that come late or twice, which the theorems on whole runs leave out.
 */
module TuicSelection {
  import opened Bytes
  import opened TuicCodec
  import opened TuicReassembly
  import opened TuicMixing
  import opened TuicSharing

  ghost predicate IsMatch(sets: seq<FragSet>, p: Packet, x: nat) {
    x < |sets| && Matches(sets[x], p)
  }

  /** The set at `x` matches and no other does. */
  ghost predicate OnlyMatch(sets: seq<FragSet>, p: Packet, x: nat) {
    IsMatch(sets, p, x) && forall y: nat :: IsMatch(sets, p, y) ==> y == x
  }

  /** The set at `x` is the first match whose first fragment came from the address of `p`. */
  ghost predicate FirstOfSource(sets: seq<FragSet>, p: Packet, x: nat) {
    && IsMatch(sets, p, x) && FromSource(sets[x], p)
    && forall y: nat :: IsMatch(sets, p, y) && FromSource(sets[y], p) ==> x <= y
  }

  ghost predicate FromSource(d: FragSet, p: Packet) {
    d.first.Some? && d.first == AddrPortOf(p.addr)
  }

  /** No match came from that address, and the set at `x` is the first one still without its first fragment. */
  ghost predicate FirstUnclaimed(sets: seq<FragSet>, p: Packet, x: nat) {
    && (forall y: nat :: IsMatch(sets, p, y) ==> !FromSource(sets[y], p))
    && IsMatch(sets, p, x) && sets[x].first.None?
    && forall y: nat :: IsMatch(sets, p, y) && sets[y].first.None? ==> x <= y
  }

  /** The set at `x` is the only match that has its first fragment. */
  ghost predicate OnlyStarted(sets: seq<FragSet>, p: Packet, x: nat) {
    && IsMatch(sets, p, x) && sets[x].first.Some?
    && forall y: nat :: IsMatch(sets, p, y) && sets[y].first.Some? ==> y == x
  }

  // --- the searches ----------------------------------------------------------------------------

  ghost predicate Ascending(cs: seq<nat>) {
    forall i, j :: 0 <= i < j < |cs| ==> cs[i] < cs[j]
  }

  lemma {:induction false} FirstFromExactly(sets: seq<FragSet>, cs: seq<nat>, p: Packet)
    requires Indices(sets, cs) && Ascending(cs)
    ensures var r := FirstFrom(sets, cs, AddrPortOf(p.addr));
            && (r.None? ==> forall x :: x in cs ==> !FromSource(sets[x], p))
            && (r.Some? ==> r.value in cs && FromSource(sets[r.value], p))
            && (r.Some? ==> forall x :: x in cs && FromSource(sets[x], p) ==> r.value <= x)
  {
    if cs != [] && !FromSource(sets[cs[0]], p) {
      FirstFromExactly(sets, cs[1..], p);
      assert forall x :: x in cs ==> x == cs[0] || x in cs[1..];
    }
  }

  lemma {:induction false} FirstUnaddressedExactly(sets: seq<FragSet>, cs: seq<nat>)
    requires Indices(sets, cs) && Ascending(cs)
    ensures var r := FirstUnaddressed(sets, cs);
            && (r.None? ==> forall x :: x in cs ==> sets[x].first.Some?)
            && (r.Some? ==> r.value in cs && sets[r.value].first.None?)
            && (r.Some? ==> forall x :: x in cs && sets[x].first.None? ==> r.value <= x)
  {
    if cs != [] && sets[cs[0]].first.Some? {
      FirstUnaddressedExactly(sets, cs[1..]);
      assert forall x :: x in cs ==> x == cs[0] || x in cs[1..];
    }
  }

  lemma {:induction false} WithFirstExactly(sets: seq<FragSet>, cs: seq<nat>)
    requires Indices(sets, cs) && Ascending(cs)
    ensures Ascending(WithFirst(sets, cs))
    ensures forall x :: x in WithFirst(sets, cs) <==> x in cs && sets[x].first.Some?
  {
    if cs != [] {
      WithFirstExactly(sets, cs[1..]);
      assert forall x :: x in cs <==> x == cs[0] || x in cs[1..];
      var rest := WithFirst(sets, cs[1..]);
      assert forall j :: 0 <= j < |rest| ==> rest[j] in rest;
    }
  }

  lemma {:induction false} CandidatesAre(sets: seq<FragSet>, p: Packet)
    ensures Ascending(Candidates(sets, p, 0))
    ensures forall x: nat :: x in Candidates(sets, p, 0) <==> IsMatch(sets, p, x)
  {
    CandidatesIncrease(sets, p, 0);
    CandidatesExactly(sets, p, 0);
  }

  lemma {:induction false} IsSingle(cs: seq<nat>, x: nat)
    requires Ascending(cs)
    ensures cs == [x] <==> x in cs && forall i :: 0 <= i < |cs| ==> cs[i] == x
  {
    if |cs| > 1 {
      assert cs[0] < cs[1];
    }
  }

  // --- the choice ---------------------------------------------------------------------------------

  lemma {:induction false} HasMatch(sets: seq<FragSet>, p: Packet)
    requires Candidates(sets, p, 0) != []
    ensures exists x: nat :: IsMatch(sets, p, x)
  {
    CandidatesAre(sets, p);
    assert IsMatch(sets, p, Candidates(sets, p, 0)[0]);
  }

  lemma {:induction false} NoMatch(sets: seq<FragSet>, p: Packet)
    requires forall x: nat :: !IsMatch(sets, p, x)
    ensures Select(sets, p) == Fresh
  {
    if Candidates(sets, p, 0) != [] {
      HasMatch(sets, p);
    }
  }

  lemma {:induction false} OneMatch(sets: seq<FragSet>, p: Packet, x: nat)
    requires OnlyMatch(sets, p, x)
    ensures Select(sets, p) == Use(x)
  {
    CandidatesAre(sets, p);
    var cs := Candidates(sets, p, 0);
    forall i | 0 <= i < |cs| ensures cs[i] == x {
      assert cs[i] in cs;
    }
    IsSingle(cs, x);
  }

  lemma {:induction false} SeveralMatches(sets: seq<FragSet>, p: Packet)
    requires Ambiguous(sets, p)
    ensures |Candidates(sets, p, 0)| > 1
  {
    CandidatesAre(sets, p);
    var cs := Candidates(sets, p, 0);
    var x, y :| 0 <= x < y < |sets| && Matches(sets[x], p) && Matches(sets[y], p);
    assert IsMatch(sets, p, x) && IsMatch(sets, p, y);
    assert x in cs && y in cs;
  }

  /** A first fragment that matches several sets: its source's, else one without a first fragment, else a new one. */
  lemma {:induction false} FirstAmongSeveral(sets: seq<FragSet>, p: Packet)
    requires Ambiguous(sets, p) && p.frag == 0
    ensures forall x: nat :: Select(sets, p) == Use(x) <==> FirstOfSource(sets, p, x) || FirstUnclaimed(sets, p, x)
    ensures Select(sets, p) == Fresh <==> forall x: nat :: IsMatch(sets, p, x) ==> sets[x].first.Some? && !FromSource(sets[x], p)
  {
    SeveralMatches(sets, p);
    CandidatesAre(sets, p);
    FirstFromExactly(sets, Candidates(sets, p, 0), p);
    FirstUnaddressedExactly(sets, Candidates(sets, p, 0));
  }

  lemma {:induction false} KnownAmongSeveral(sets: seq<FragSet>, p: Packet) returns (known: seq<nat>)
    requires Ambiguous(sets, p) && p.frag > 0
    ensures Select(sets, p) == if |known| == 1 then Use(known[0]) else Drop
    ensures Ascending(known) && forall x: nat :: x in known <==> IsMatch(sets, p, x) && sets[x].first.Some?
  {
    SeveralMatches(sets, p);
    CandidatesAre(sets, p);
    known := WithFirst(sets, Candidates(sets, p, 0));
    WithFirstExactly(sets, Candidates(sets, p, 0));
  }

  lemma {:induction false} KnownIsOnlyStarted(sets: seq<FragSet>, p: Packet, known: seq<nat>, x: nat)
    requires Ascending(known) && forall y: nat :: y in known <==> IsMatch(sets, p, y) && sets[y].first.Some?
    ensures OnlyStarted(sets, p, x) <==> known == [x]
  {
    IsSingle(known, x);
    if OnlyStarted(sets, p, x) {
      forall i | 0 <= i < |known| ensures known[i] == x {
        assert known[i] in known;
      }
    }
    if known == [x] {
      assert x in known && forall y: nat :: y in known ==> y == x;
    }
  }

  /** A later fragment that matches several sets: the one of them that has its first fragment, if there is just one. */
  lemma {:induction false} LaterAmongSeveral(sets: seq<FragSet>, p: Packet)
    requires Ambiguous(sets, p) && p.frag > 0
    ensures forall x: nat :: Select(sets, p) == Use(x) <==> OnlyStarted(sets, p, x)
    ensures Select(sets, p) == Drop <==> forall x: nat :: !OnlyStarted(sets, p, x)
  {
    var known := KnownAmongSeveral(sets, p);
    forall x: nat ensures OnlyStarted(sets, p, x) <==> known == [x] {
      KnownIsOnlyStarted(sets, p, known, x);
    }
    if |known| == 1 {
      assert OnlyStarted(sets, p, known[0]);
    }
  }

  /** One of the cases above holds for any sets and any fragment. */
  lemma {:induction false} NoneOneOrSeveral(sets: seq<FragSet>, p: Packet)
    ensures (forall x: nat :: !IsMatch(sets, p, x)) || (exists x: nat :: OnlyMatch(sets, p, x)) || Ambiguous(sets, p)
  {
    if x: nat :| IsMatch(sets, p, x) && !OnlyMatch(sets, p, x) {
      var y: nat :| IsMatch(sets, p, y) && y != x;
      assert x < y || y < x;
    }
  }
}
