/**
 The replay table as the source keeps it: a map from sessions to sliding-window filters,
 a counter and a cleanup counter that the receive path updates in place
 (protocol/shadowsocks_2022/udp_conn.go). An entry holds the contents of its filter.
 */
module UdpReplay {
  import opened Bytes
  import opened SlidingWindow
  import opened ReplayTable

  datatype Entry = Entry(filter: Bitmap, lastSeen: int)

  /** The entry's bitmap records the packets the session has accepted. */
  ghost predicate Matches(e: Entry, s: Session) {
    e.lastSeen == s.lastSeen && Records(e.filter, REPLAY_WINDOW_SIZE, s.accepted)
  }

  class Conn {
    var replayWindow: map<SessionId, Entry>
    var replayCount: int
    var cleanupCounter: nat
    /** The table with every packet ID ever accepted, which the bitmaps remember only in part. */
    ghost var table: Table

    ghost predicate Valid()
      reads this
    {
      && replayWindow.Keys == table.Keys && replayCount == |table|
      && forall k :: k in table ==> Matches(replayWindow[k], table[k])
    }

    constructor ()
      ensures Valid() && table == map[] && cleanupCounter == 0
    {
      replayWindow, table := map[], map[];
      replayCount := 0;
      cleanupCounter := 0;
    }

    /** Look for the expired session seen longest ago. */
    method FindOldestExpired(now: int) returns (found: bool, oldest: SessionId)
      requires Valid()
      ensures found ==> oldest in table && Expired(table[oldest].lastSeen, now)
      ensures found ==> forall k :: k in table && Expired(table[k].lastSeen, now) ==>
                          table[oldest].lastSeen <= table[k].lastSeen
      ensures !found ==> forall k :: k in table ==> !Expired(table[k].lastSeen, now)
    {
      found, oldest := false, 0;
      var rest := replayWindow.Keys;
      while rest != {}
        invariant rest <= replayWindow.Keys
        invariant found ==> oldest in table && Expired(table[oldest].lastSeen, now)
        invariant forall k :: k in table && k !in rest && Expired(table[k].lastSeen, now) ==>
                    found && table[oldest].lastSeen <= table[k].lastSeen
        decreases |rest|
      {
        var k :| k in rest;
        rest := rest - {k};
        var seen := replayWindow[k].lastSeen;
        if now - seen > SALT_STORAGE_DURATION && (!found || seen < replayWindow[oldest].lastSeen) {
          found, oldest := true, k;
        }
      }
    }

    method Remove(k: SessionId)
      requires Valid() && k in table
      modifies this
      ensures Valid() && table == old(table) - {k} && cleanupCounter == old(cleanupCounter)
      ensures |table| == |old(table)| - 1
    {
      assert (table - {k}).Keys == table.Keys - {k};
      replayWindow := replayWindow - {k};
      table := table - {k};
      replayCount := replayCount - 1;
    }

    /** Trim the table to its cap, but only by removing sessions past their retention period. */
    method EvictOldestIfNeeded(now: int) returns (ghost gone: set<SessionId>)
      requires Valid()
      modifies this
      ensures Valid() && Evicted(old(table), table, gone, now)
      ensures cleanupCounter == old(cleanupCounter)
    {
      gone := {};
      while replayCount > MAX_TRACKED_SESSIONS
        invariant Valid() && Purged(old(table), table, gone, now)
        invariant cleanupCounter == old(cleanupCounter)
        invariant gone != {} ==> |table| >= MAX_TRACKED_SESSIONS
        invariant OldestFirst(old(table), table, gone, now)
        decreases |table|
      {
        var found, oldest := FindOldestExpired(now);
        if !found {
          break;
        }
        EvictOne(old(table), table, gone, oldest, now);
        Remove(oldest);
        gone := gone + {oldest};
      }
    }

    /** A packet of a live session: note the time, and ask its filter. */
    method Touch(sid: SessionId, pid: U64, now: int) returns (ok: bool)
      requires Valid() && sid in table
      modifies this
      ensures Valid() && cleanupCounter == old(cleanupCounter)
      ensures ok <==> Admits(REPLAY_WINDOW_SIZE, old(table)[sid].accepted, pid)
      ensures table == old(table)[sid := Session(now, Advance(REPLAY_WINDOW_SIZE, old(table)[sid].accepted, pid))]
    {
      var filter;
      ok, filter := Ask(replayWindow[sid].filter, pid, table[sid].accepted);
      Store(sid, Entry(filter, now), Session(now, Advance(REPLAY_WINDOW_SIZE, table[sid].accepted, pid)));
    }

    method Store(sid: SessionId, e: Entry, ghost s: Session)
      requires Valid() && Matches(e, s)
      modifies this`replayWindow, this`table, this`replayCount
      ensures Valid() && table == old(table)[sid := s]
    {
      if sid !in replayWindow {
        replayCount := replayCount + 1;
      } else {
        assert table[sid := s].Keys == table.Keys;
      }
      replayWindow := replayWindow[sid := e];
      table := table[sid := s];
    }

    /** A session not tracked yet gets a filter of its own. */
    method Insert(sid: SessionId, pid: U64, now: int) returns (ok: bool)
      requires Valid() && sid !in table
      modifies this
      ensures Valid() && cleanupCounter == old(cleanupCounter)
      ensures ok && table == old(table)[sid := Session(now, {pid})]
    {
      var filter := new Filter(REPLAY_WINDOW_SIZE);
      ok := filter.CheckAndUpdate(pid);
      assert Advance(REPLAY_WINDOW_SIZE, {}, pid) == {pid};
      Store(sid, Entry(filter.Contents(), now), Session(now, {pid}));
    }

    /**
     The replay check for one packet. `evictAt` is the clock reading an eviction
     pass takes on its own; `cleanup` tells whether a background sweep is started.
     */
    method CheckAndUpdateReplay(sid: SessionId, pid: U64, now: int, evictAt: int)
      returns (ok: bool, cleanup: bool, ghost gone: set<SessionId>)
      requires Valid()
      modifies this
      ensures Valid()
      ensures ok <==> Fresh(old(table), sid, pid, now)
      ensures Live(old(table), sid, now) ==>
                && table == Recorded(old(table), sid, pid, now) && gone == {}
                && !cleanup && cleanupCounter == old(cleanupCounter)
      ensures !Live(old(table), sid, now) ==>
                && Evicted(Recorded(old(table), sid, pid, now), table, gone, evictAt)
                && cleanupCounter == old(cleanupCounter) + 1
                && (cleanup <==> cleanupCounter % CLEANUP_INTERVAL == 0)
    {
      cleanup, gone := false, {};
      ghost var before := table;
      if sid in replayWindow {
        if now - replayWindow[sid].lastSeen > SALT_STORAGE_DURATION {
          Remove(sid);
        } else {
          ok := Touch(sid, pid, now);
          return;
        }
      }
      assert table[sid := Session(now, {pid})] == Recorded(before, sid, pid, now);
      ok, cleanup, gone := StartSession(sid, pid, now, evictAt);
    }

    /** The first packet of a session always gets in; now and then it starts a sweep. */
    method StartSession(sid: SessionId, pid: U64, now: int, evictAt: int)
      returns (ok: bool, cleanup: bool, ghost gone: set<SessionId>)
      requires Valid() && sid !in table
      modifies this
      ensures Valid() && ok && Evicted(old(table)[sid := Session(now, {pid})], table, gone, evictAt)
      ensures cleanupCounter == old(cleanupCounter) + 1 && (cleanup <==> cleanupCounter % CLEANUP_INTERVAL == 0)
    {
      cleanupCounter := cleanupCounter + 1;
      cleanup := cleanupCounter % CLEANUP_INTERVAL == 0;
      ok := Insert(sid, pid, now);
      gone := EvictOldestIfNeeded(evictAt);
    }

    /** One background sweep over the whole table, with the time captured when it was started. */
    method CleanupExpiredSessions(asOf: int) returns (ghost gone: set<SessionId>)
      requires Valid()
      modifies this
      ensures Valid() && Purged(old(table), table, gone, asOf) && gone == AllExpired(old(table), asOf)
      ensures forall k :: k in table ==> !Expired(table[k].lastSeen, asOf)
      ensures cleanupCounter == old(cleanupCounter)
    {
      gone := {};
      var rest := replayWindow.Keys;
      while rest != {}
        invariant Valid() && Purged(old(table), table, gone, asOf)
        invariant rest <= table.Keys && cleanupCounter == old(cleanupCounter)
        invariant forall k :: k in table && k !in rest ==> !Expired(table[k].lastSeen, asOf)
        decreases |rest|
      {
        var k :| k in rest;
        rest := rest - {k};
        assert Matches(replayWindow[k], table[k]);
        if asOf - replayWindow[k].lastSeen > SALT_STORAGE_DURATION {
          PurgeOne(old(table), table, gone, k, asOf);
          Remove(k);
          gone := gone + {k};
        }
      }
    }

    /**
     A decrypted datagram, in the order the decoder works: the payload is
     validated first and only then recorded, so a datagram that fails validation
     leaves the table untouched.
     */
    method Receive(sid: SessionId, pid: U64, payload: seq<Byte>, now: int, evictAt: int)
      returns (r: Result<(seq<Byte>, Address), DecodeError>, ghost gone: set<SessionId>)
      requires Valid()
      modifies this
      ensures Valid()
      ensures DecodePayload(payload, now).Err? ==>
                r == DecodePayload(payload, now) && table == old(table)
      ensures DecodePayload(payload, now).Ok? ==>
                && table == Recorded(old(table), sid, pid, now) - gone
                && (if Live(old(table), sid, now) then gone == {}
                    else Evicted(Recorded(old(table), sid, pid, now), table, gone, evictAt))
                && r == if Fresh(old(table), sid, pid, now) then DecodePayload(payload, now)
                        else Err(ReplayAttack)
    {
      gone := {};
      r := DecodePayload(payload, now);
      if r.Err? {
        return;
      }
      WithoutNothing(Recorded(table, sid, pid, now));
      var ok, _, g := CheckAndUpdateReplay(sid, pid, now, evictAt);
      gone := g;
      if !ok {
        r := Err(ReplayAttack);
      }
    }
  }

  /** A well-formed server datagram within thirty seconds of the clock, the first of its session, is handed out. */
  method FirstIsHandedOut(c: Conn, sid: SessionId, pid: U64, ts: U64, client: seq<Byte>, padding: seq<Byte>,
                          addr: Address, body: seq<Byte>, now: int, evictAt: int)
    returns (r: Result<(seq<Byte>, Address), DecodeError>)
    requires c.Valid() && sid !in c.table
    requires |client| == 8 && |padding| < 0x1_0000 && WellFormedAddress(addr)
    modifies c
    ensures c.Valid()
    ensures r == if now - 30_000_000_000 <= Signed64(ts) * 1_000_000_000 <= now + 30_000_000_000
                 then Ok((body, addr)) else Err(TimestampExpired)
  {
    var payload := ServerPayload(ts, client, padding, addr, body);
    ClockWindow(ts, client, padding, addr, body, now);
    var answer, _ := c.Receive(sid, pid, payload, now, evictAt);
    r := answer;
  }

  /** A filter with these contents is asked about a packet. */
  method Ask(b: Bitmap, pid: U64, ghost accepted: set<U64>) returns (ok: bool, after: Bitmap)
    requires Records(b, REPLAY_WINDOW_SIZE, accepted)
    ensures ok <==> Admits(REPLAY_WINDOW_SIZE, accepted, pid)
    ensures Records(after, REPLAY_WINDOW_SIZE, Advance(REPLAY_WINDOW_SIZE, accepted, pid))
  {
    var filter := new Filter.Holding(b, REPLAY_WINDOW_SIZE, accepted);
    ok := filter.CheckAndUpdate(pid);
    after := filter.Contents();
  }

  lemma {:induction false} WithoutNothing(t: Table)
    ensures t - {} == t
  {
  }

  /** The sessions past their retention period. */
  ghost function AllExpired(t: Table, asOf: int): set<SessionId> {
    set k | k in t && Expired(t[k].lastSeen, asOf)
  }

  ghost predicate OldestFirst(before: Table, after: Table, gone: set<SessionId>, asOf: int)
    requires gone <= before.Keys
  {
    forall k, m :: k in gone && m in after && Expired(after[m].lastSeen, asOf) ==>
      before[k].lastSeen <= after[m].lastSeen
  }

  lemma {:induction false} EvictOne(before: Table, current: Table, gone: set<SessionId>, oldest: SessionId, asOf: int)
    requires Purged(before, current, gone, asOf) && OldestFirst(before, current, gone, asOf)
    requires oldest in current && Expired(current[oldest].lastSeen, asOf)
    requires forall k :: k in current && Expired(current[k].lastSeen, asOf) ==>
               current[oldest].lastSeen <= current[k].lastSeen
    ensures Purged(before, current - {oldest}, gone + {oldest}, asOf)
    ensures OldestFirst(before, current - {oldest}, gone + {oldest}, asOf)
  {
    PurgeOne(before, current, gone, oldest, asOf);
  }

  lemma {:induction false} PurgeOne(before: Table, current: Table, gone: set<SessionId>, k: SessionId, asOf: int)
    requires Purged(before, current, gone, asOf) && k in current && Expired(current[k].lastSeen, asOf)
    ensures Purged(before, current - {k}, gone + {k}, asOf)
  {
    assert current - {k} == before - (gone + {k});
  }

  /** A `Receive` call whose payload decodes is one event of a run, followed by the purge its eviction made. */
  lemma {:induction false} ReceiveIsTwoEvents(s: State, d: Datagram, payload: seq<Byte>, now: int, evictAt: int,
                           after: Table, gone: set<SessionId>)
    requires DecodePayload(payload, now).Ok? && d.timestamp == PayloadTimestamp(payload)
    requires Purged(Recorded(s.table, d.sid, d.pid, now), after, gone, evictAt)
    ensures var events := [ReplayTable.Receive(d, now), Purge(gone, evictAt)];
            && Run(s, events)
            && Final(s, events).table == after
            && Final(s, events).delivered == s.delivered + (if Fresh(s.table, d.sid, d.pid, now) then [d] else [])
  {
    var e0, e1 := ReplayTable.Receive(d, now), Purge(gone, evictAt);
    var events := [e0, e1];
    var s1 := Apply(s, e0);
    var s2 := Apply(s1, e1);
    assert events[1..] == [e1] && [e1][1..] == [];
    assert Run(s2, []) && Final(s2, []) == s2;
    assert Run(s1, [e1]) && Final(s1, [e1]) == s2;
  }

  lemma {:induction false} RunAppend(s: State, a: seq<Event>, b: seq<Event>)
    requires Run(s, a) && Run(Final(s, a), b)
    ensures Run(s, a + b) && Final(s, a + b) == Final(Final(s, a), b)
    decreases |a|
  {
    if a == [] {
      assert a + b == b;
    } else {
      assert (a + b)[1..] == a[1..] + b;
      RunAppend(Apply(s, a[0]), a[1..], b);
    }
  }

  /** A packet with its plaintext and the clock readings its receiver takes, or a background sweep. */
  datatype Action = Packet(sid: SessionId, pid: U64, payload: seq<Byte>, now: int, evictAt: int) | Sweep(asOf: int)

  predicate Decodes(a: Action) {
    a.Packet? && DecodePayload(a.payload, a.now).Ok?
  }

  function DatagramOf(a: Action): Datagram
    requires Decodes(a)
  {
    Datagram(a.sid, a.pid, PayloadTimestamp(a.payload))
  }

  /** The events an action amounts to when it removes the sessions in `gone`. */
  function EventsOf(a: Action, gone: set<SessionId>): seq<Event> {
    if a.Sweep? then [Purge(gone, a.asOf)]
    else if Decodes(a) then [ReplayTable.Receive(DatagramOf(a), a.now), Purge(gone, a.evictAt)]
    else []
  }

  function AllEvents(actions: seq<Action>, gones: seq<set<SessionId>>): seq<Event>
    requires |gones| == |actions|
  {
    if actions == [] then []
    else
      var n := |actions| - 1;
      AllEvents(actions[..n], gones[..n]) + EventsOf(actions[n], gones[n])
  }

  /** What an action may remove: a sweep everything expired, a new session's packet what the cap calls for. */
  ghost predicate Removes(t: Table, a: Action, gone: set<SessionId>) {
    match a
    case Sweep(asOf) => gone == AllExpired(t, asOf)
    case Packet(sid, pid, _, now, evictAt) =>
      var recorded := Recorded(t, sid, pid, now);
      if !Decodes(a) || Live(t, sid, now) then gone == {} else Evicted(recorded, recorded - gone, gone, evictAt)
  }

  /** Each action has removed what it may at its turn. */
  ghost predicate Follows(actions: seq<Action>, gones: seq<set<SessionId>>)
    requires |gones| == |actions|
  {
    actions == [] ||
    (var n := |actions| - 1;
     Follows(actions[..n], gones[..n])
     && Removes(Final(INITIAL, AllEvents(actions[..n], gones[..n])).table, actions[n], gones[n]))
  }

  // --- clock readings, action by action -----------------------------------------------------

  /** No reading of the action that can bear on session `sid` is after `t`. */
  predicate UpTo(a: Action, sid: SessionId, t: int) {
    match a
    case Sweep(asOf) => asOf <= t
    case Packet(s, _, _, now, evictAt) => Decodes(a) ==> evictAt <= t && (s == sid ==> now <= t)
  }

  /**
   Every packet that decodes reads a clock not behind the earlier packets of its session,
   nor behind an earlier sweep or eviction; packets of different sessions are unrelated.
   */
  predicate ClocksInOrder(actions: seq<Action>) {
    forall i, j :: 0 <= i < j < |actions| && Decodes(actions[j]) ==> UpTo(actions[i], actions[j].sid, actions[j].now)
  }

  predicate NotBefore(m: Marks, sid: SessionId, t: int) {
    sid in m ==> m[sid] <= t
  }

  lemma {:induction false} MarksAppend(m: Marks, a: seq<Event>, b: seq<Event>)
    ensures MarksAfter(m, a + b) == MarksAfter(MarksAfter(m, a), b)
    ensures NoneStale(m, a + b) <==> NoneStale(m, a) && NoneStale(MarksAfter(m, a), b)
    decreases |a|
  {
    if a == [] {
      assert a + b == b;
    } else {
      assert (a + b)[1..] == a[1..] + b;
      MarksAppend(Marked(m, a[0]), a[1..], b);
    }
  }

  /** The marks an action leaves, and when its receive is stale. */
  lemma {:induction false} ActionMarks(m: Marks, a: Action, gone: set<SessionId>, sid: SessionId, t: int)
    ensures UpTo(a, sid, t) && NotBefore(m, sid, t) ==> NotBefore(MarksAfter(m, EventsOf(a, gone)), sid, t)
    ensures Decodes(a) && NotBefore(m, a.sid, a.now) ==> NoneStale(m, EventsOf(a, gone))
    ensures !Decodes(a) ==> NoneStale(m, EventsOf(a, gone))
  {
    var events := EventsOf(a, gone);
    if Decodes(a) {
      var e0, e1 := events[0], events[1];
      assert events[1..] == [e1] && [e1][1..] == [];
      var m1 := Marked(m, e0);
      var m2 := Marked(m1, e1);
      assert MarksAfter(m2, []) == m2 && MarksAfter(m1, [e1]) == m2;
      assert NoneStale(m2, []) && NoneStale(m1, [e1]);
    } else if a.Sweep? {
      var e := events[0];
      assert events[1..] == [];
      assert MarksAfter(Marked(m, e), []) == Marked(m, e) && NoneStale(Marked(m, e), []);
    }
  }

  lemma {:induction false} MarksUpTo(actions: seq<Action>, gones: seq<set<SessionId>>, sid: SessionId, t: int)
    requires |gones| == |actions| && forall i :: 0 <= i < |actions| ==> UpTo(actions[i], sid, t)
    ensures NotBefore(MarksAfter(map[], AllEvents(actions, gones)), sid, t)
  {
    if actions != [] {
      var n := |actions| - 1;
      var before := AllEvents(actions[..n], gones[..n]);
      MarksUpTo(actions[..n], gones[..n], sid, t);
      MarksAppend(map[], before, EventsOf(actions[n], gones[n]));
      ActionMarks(MarksAfter(map[], before), actions[n], gones[n], sid, t);
    }
  }

  /** Whatever is removed, actions with clocks in order amount to events none of which is stale. */
  lemma {:induction false} InOrderIsNotStale(actions: seq<Action>, gones: seq<set<SessionId>>)
    requires |gones| == |actions| && ClocksInOrder(actions)
    ensures NoneStale(map[], AllEvents(actions, gones))
  {
    if actions != [] {
      var n := |actions| - 1;
      var before, last := AllEvents(actions[..n], gones[..n]), actions[n];
      InOrderIsNotStale(actions[..n], gones[..n]);
      MarksAppend(map[], before, EventsOf(last, gones[n]));
      if Decodes(last) {
        MarksUpTo(actions[..n], gones[..n], last.sid, last.now);
        ActionMarks(MarksAfter(map[], before), last, gones[n], last.sid, last.now);
      } else {
        ActionMarks(MarksAfter(map[], before), last, gones[n], 0, 0);
      }
    }
  }

  // --- every sequence of actions -----------------------------------------------------------------

  /**
   Every sequence of packets and sweeps, on the bitmaps themselves. The table and what is
   delivered are those of the actions' own events, where only the choice among equally old
   sessions to evict is open; with clocks in order no datagram is delivered twice.
   */
  method ReceiveAll(c: Conn, actions: seq<Action>)
    returns (delivered: seq<Datagram>, ghost gones: seq<set<SessionId>>)
    requires c.Valid() && c.table == map[]
    modifies c
    ensures c.Valid() && |gones| == |actions| && Follows(actions, gones)
    ensures var events := AllEvents(actions, gones);
            Run(INITIAL, events) && Final(INITIAL, events) == State(c.table, delivered)
    ensures ClocksInOrder(actions) ==> NoDuplicates(delivered)
  {
    delivered, gones := [], [];
    assert actions[..0] == [];
    for i := 0 to |actions|
      invariant c.Valid() && |gones| == i && Performed(actions[..i], gones, State(c.table, delivered))
    {
      delivered, gones := PerformNext(c, actions, i, delivered, gones);
    }
    assert actions[..|actions|] == actions;
    DeliveredOnce(actions, gones, State(c.table, delivered));
  }

  method PerformNext(c: Conn, actions: seq<Action>, i: nat, before: seq<Datagram>, ghost gones: seq<set<SessionId>>)
    returns (delivered: seq<Datagram>, ghost gones': seq<set<SessionId>>)
    requires c.Valid() && i < |actions| && |gones| == i && Performed(actions[..i], gones, State(c.table, before))
    modifies c
    ensures c.Valid() && |gones'| == i + 1 && Performed(actions[..i + 1], gones', State(c.table, delivered))
  {
    ghost var s := State(c.table, before);
    ghost var gone;
    delivered, gone := Perform(c, actions[i], before);
    gones' := gones + [gone];
    OneMore(actions, i, gones, s, gone, State(c.table, delivered));
  }

  lemma {:induction false} DeliveredOnce(actions: seq<Action>, gones: seq<set<SessionId>>, s: State)
    requires |gones| == |actions| && Performed(actions, gones, s)
    ensures ClocksInOrder(actions) ==> NoDuplicates(s.delivered)
  {
    if ClocksInOrder(actions) {
      InOrderIsNotStale(actions, gones);
      NoDoubleDelivery(AllEvents(actions, gones));
    }
  }

  /** The actions have led here. */
  ghost predicate Performed(actions: seq<Action>, gones: seq<set<SessionId>>, s: State)
    requires |gones| == |actions|
  {
    && Follows(actions, gones)
    && Run(INITIAL, AllEvents(actions, gones)) && Final(INITIAL, AllEvents(actions, gones)) == s
  }

  lemma {:induction false} Fronts<T>(s: seq<T>, i: nat)
    requires i < |s|
    ensures s[..i + 1][..i] == s[..i] && s[..i + 1][i] == s[i]
  {
  }

  lemma {:induction false} OneMore(actions: seq<Action>, i: nat, gones: seq<set<SessionId>>, s: State, gone: set<SessionId>, s': State)
    requires i < |actions| && |gones| == i && Performed(actions[..i], gones, s)
    requires Removes(s.table, actions[i], gone)
    requires Run(s, EventsOf(actions[i], gone)) && Final(s, EventsOf(actions[i], gone)) == s'
    ensures Performed(actions[..i + 1], gones + [gone], s')
  {
    Fronts(actions, i);
    assert (gones + [gone])[..i] == gones && (gones + [gone])[i] == gone;
    RunAppend(INITIAL, AllEvents(actions[..i], gones), EventsOf(actions[i], gone));
  }

  /** One action, as the events it amounts to. */
  method Perform(c: Conn, a: Action, before: seq<Datagram>) returns (delivered: seq<Datagram>, ghost gone: set<SessionId>)
    requires c.Valid()
    modifies c
    ensures c.Valid() && Removes(old(c.table), a, gone) && Run(State(old(c.table), before), EventsOf(a, gone))
    ensures Final(State(old(c.table), before), EventsOf(a, gone)) == State(c.table, delivered)
  {
    ghost var s := State(c.table, before);
    delivered, gone := before, {};
    match a {
      case Sweep(asOf) =>
        gone := c.CleanupExpiredSessions(asOf);
        SweepIsOneEvent(s, c.table, gone, asOf);
      case Packet(sid, pid, payload, now, evictAt) =>
        var r, g := c.Receive(sid, pid, payload, now, evictAt);
        if DecodePayload(payload, now).Ok? {
          gone := g;
          var d := Datagram(sid, pid, PayloadTimestamp(payload));
          ReceiveIsTwoEvents(s, d, payload, now, evictAt, c.table, gone);
          delivered := before + if r.Ok? then [d] else [];
        }
    }
  }

  lemma {:induction false} SweepIsOneEvent(s: State, after: Table, gone: set<SessionId>, asOf: int)
    requires Purged(s.table, after, gone, asOf)
    ensures Run(s, [Purge(gone, asOf)]) && Final(s, [Purge(gone, asOf)]) == s.(table := after)
  {
    var e := Purge(gone, asOf);
    assert [e][1..] == [];
    assert Run(Apply(s, e), []) && Final(Apply(s, e), []) == Apply(s, e);
  }
}
