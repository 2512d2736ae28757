/**
 Receive side of Shadowsocks 2022 UDP (protocol/shadowsocks_2022/udp_conn.go and
 validation.go): payload validation, the per-session replay table with expiry and
 cap eviction, and the proof that no datagram is delivered twice.

 Times are nanoseconds; the clock, the decryption and the goroutine that runs a
 cleanup pass are parameters.
 */
module ReplayTable {
  import opened Bytes
  import opened SlidingWindow

  const SECOND: int := 1_000_000_000
  const TIMESTAMP_TOLERANCE: int := 30 * SECOND
  const SALT_STORAGE_DURATION: int := 60 * SECOND
  const REPLAY_WINDOW_SIZE: nat := 1024
  const MAX_TRACKED_SESSIONS: nat := 128
  const CLEANUP_INTERVAL: nat := 1000
  const HEADER_TYPE_SERVER: Byte := 1

  /** An 8-byte session ID, as the number its bytes spell. */
  type SessionId = U64

  // --- payload validation ---------------------------------------------------

  datatype Address = V4(ip4: seq<Byte>, port: U16) | V6(ip6: seq<Byte>, port: U16)

  datatype DecodeError = ShortHeader | ShortPadding | BadType | TimestampExpired | BadAddress | ReplayAttack

  predicate TimestampValid(seconds: int, now: int) {
    !(seconds * SECOND < now - TIMESTAMP_TOLERANCE || seconds * SECOND > now + TIMESTAMP_TOLERANCE)
  }

  /** Go's `int64(x)`. */
  function Signed64(x: U64): int {
    if x < 0x8000_0000_0000_0000 then x else x - 0x1_0000_0000_0000_0000
  }

  function ParseAddrPort(b: seq<Byte>): Result<(Address, nat), DecodeError> {
    if |b| < 1 then Err(BadAddress)
    else if b[0] == 1 then
      if |b| < 1 + 4 + 2 then Err(BadAddress) else Ok((V4(b[1..5], FromBe16(b[5..7])), 7))
    else if b[0] == 4 then
      if |b| < 1 + 16 + 2 then Err(BadAddress) else Ok((V6(b[1..17], FromBe16(b[17..19])), 19))
    else Err(BadAddress)
  }

  /** The timestamp field of a payload long enough to hold it. */
  function PayloadTimestamp(payload: seq<Byte>): int
    requires |payload| >= 9
  {
    Signed64(FromBe64(payload[1..9]))
  }

  function DecodePayload(payload: seq<Byte>, now: int): Result<(seq<Byte>, Address), DecodeError> {
    if |payload| < 19 then Err(ShortHeader)
    else
      var offset := 19 + FromBe16(payload[17..19]);
      if offset > |payload| then Err(ShortPadding)
      else if payload[0] != HEADER_TYPE_SERVER then Err(BadType)
      else if !TimestampValid(PayloadTimestamp(payload), now) then Err(TimestampExpired)
      else
        match ParseAddrPort(payload[offset..])
        case Err(e) => Err(e)
        case Ok((addr, n)) => Ok((payload[offset..][n..], addr))
  }

  predicate WellFormedAddress(a: Address) {
    match a
    case V4(ip, _) => |ip| == 4
    case V6(ip, _) => |ip| == 16
  }

  function EncodeAddress(a: Address): seq<Byte> {
    match a
    case V4(ip, port) => [1] + ip + Be16(port)
    case V6(ip, port) => [4] + ip + Be16(port)
  }

  /** The layout of a server datagram: type, timestamp, session ID, padding, address, body. */
  function ServerPayload(ts: U64, client: seq<Byte>, padding: seq<Byte>, addr: Address, body: seq<Byte>): seq<Byte>
    requires |client| == 8 && |padding| < 0x1_0000
  {
    [HEADER_TYPE_SERVER] + Be64(ts) + client + Be16(|padding|) + padding + EncodeAddress(addr) + body
  }

  lemma {:induction false} AddressRoundTrip(addr: Address, body: seq<Byte>)
    requires WellFormedAddress(addr)
    ensures ParseAddrPort(EncodeAddress(addr) + body) == Ok((addr, |EncodeAddress(addr)|))
  {
    var b := EncodeAddress(addr) + body;
    Be16RoundTrip(addr.port);
    match addr {
      case V4(ip, port) =>
        assert b[1..5] == ip && b[5..7] == Be16(port);
      case V6(ip, port) =>
        assert b[1..17] == ip && b[17..19] == Be16(port);
    }
  }

  lemma {:induction false} AddressParsedIsEncoded(b: seq<Byte>)
    requires ParseAddrPort(b).Ok?
    ensures var (addr, n) := ParseAddrPort(b).value;
            WellFormedAddress(addr) && n == |EncodeAddress(addr)| <= |b| && b[..n] == EncodeAddress(addr)
  {
    if b[0] == 1 {
      FromBe16RoundTrip(b[5..7]);
      assert b[..7] == [1] + b[1..5] + b[5..7];
    } else {
      FromBe16RoundTrip(b[17..19]);
      assert b[..19] == [4] + b[1..17] + b[17..19];
    }
  }

  /** Every well-formed server datagram inside the clock window decodes to what was put in. */
  lemma {:induction false} DecodeAcceptsServerPayload(ts: U64, client: seq<Byte>, padding: seq<Byte>, addr: Address,
                                   body: seq<Byte>, now: int)
    requires |client| == 8 && |padding| < 0x1_0000 && WellFormedAddress(addr)
    ensures var p := ServerPayload(ts, client, padding, addr, body);
            DecodePayload(p, now) ==
            if TimestampValid(Signed64(ts), now) then Ok((body, addr)) else Err(TimestampExpired)
  {
    var p := ServerPayload(ts, client, padding, addr, body);
    var offset := 19 + |padding|;
    Be64RoundTrip(ts);
    Be16RoundTrip(|padding|);
    assert p[1..9] == Be64(ts);
    assert p[17..19] == Be16(|padding|);
    assert p[offset..] == EncodeAddress(addr) + body;
    AddressRoundTrip(addr, body);
    assert (EncodeAddress(addr) + body)[|EncodeAddress(addr)|..] == body;
  }

  lemma {:induction false} SplitPayload(p: seq<Byte>, offset: nat)
    requires 19 <= offset <= |p|
    ensures p == [p[0]] + p[1..9] + p[9..17] + p[17..19] + p[19..offset] + p[offset..]
  {
  }

  /** Conversely, whatever decodes is such a datagram: nothing else is let through. */
  lemma {:induction false} DecodedIsServerPayload(payload: seq<Byte>, now: int)
    returns (ts: U64, client: seq<Byte>, padding: seq<Byte>)
    requires DecodePayload(payload, now).Ok?
    ensures TimestampValid(Signed64(ts), now) && |client| == 8 && |padding| < 0x1_0000
    ensures var (body, addr) := DecodePayload(payload, now).value;
            WellFormedAddress(addr) && payload == ServerPayload(ts, client, padding, addr, body)
  {
    var offset := 19 + FromBe16(payload[17..19]);
    ts, client, padding := FromBe64(payload[1..9]), payload[9..17], payload[19..offset];
    FromBe64RoundTrip(payload[1..9]);
    FromBe16RoundTrip(payload[17..19]);
    var rest := payload[offset..];
    AddressParsedIsEncoded(rest);
    var (addr, n) := ParseAddrPort(rest).value;
    assert rest == EncodeAddress(addr) + rest[n..];
    SplitPayload(payload, offset);
    var head := [payload[0]] + payload[1..9] + client + payload[17..19] + padding;
    Regrouped(head, EncodeAddress(addr), rest[n..]);
  }

  /**
   What is let through, byte by byte: the server type, a timestamp within thirty seconds of
   the clock either way, and a whole address after the padding.
   */
  lemma {:induction false} DecodesExactly(p: seq<Byte>, now: int)
    ensures DecodePayload(p, now).Ok? <==>
            && |p| >= 19 && p[0] == 1
            && (var at := 19 + p[17] as int * 0x100 + p[18];
                at < |p| && ((p[at] == 1 && at + 7 <= |p|) || (p[at] == 4 && at + 19 <= |p|)))
            && (var t := FromBe64(p[1..9]) as int - if p[1] >= 128 then 0x1_0000_0000_0000_0000 else 0;
                now - 30_000_000_000 <= t * 1_000_000_000 <= now + 30_000_000_000)
  {
    if |p| >= 19 {
      BigEndian(p[17], p[18], 0, 0);
      assert p[17..19] == [p[17], p[18]];
      BigEndian64(p[1..9]);
      var at := 19 + FromBe16(p[17..19]);
      if at < |p| {
        assert p[at..][0] == p[at];
      }
    }
  }

  /** Hence a server datagram is refused for its time exactly when it is more than thirty seconds off. */
  lemma {:induction false} ClockWindow(ts: U64, client: seq<Byte>, padding: seq<Byte>, addr: Address, body: seq<Byte>, now: int)
    requires |client| == 8 && |padding| < 0x1_0000 && WellFormedAddress(addr)
    ensures var p := ServerPayload(ts, client, padding, addr, body);
            DecodePayload(p, now) ==
            if now - 30_000_000_000 <= Signed64(ts) * 1_000_000_000 <= now + 30_000_000_000
            then Ok((body, addr)) else Err(TimestampExpired)
  {
    DecodeAcceptsServerPayload(ts, client, padding, addr, body, now);
  }

  // --- the table as a value -------------------------------------------------

  datatype Session = Session(lastSeen: int, accepted: set<U64>)

  type Table = map<SessionId, Session>

  predicate Expired(lastSeen: int, now: int) {
    now - lastSeen > SALT_STORAGE_DURATION
  }

  predicate Live(t: Table, sid: SessionId, now: int) {
    sid in t && !Expired(t[sid].lastSeen, now)
  }

  /** Does the table let packet `pid` of session `sid` through? */
  ghost predicate Fresh(t: Table, sid: SessionId, pid: U64, now: int) {
    Live(t, sid, now) ==> Admits(REPLAY_WINDOW_SIZE, t[sid].accepted, pid)
  }

  /** The table after that question, before any eviction. */
  ghost function Recorded(t: Table, sid: SessionId, pid: U64, now: int): Table {
    var accepted := if Live(t, sid, now) then Advance(REPLAY_WINDOW_SIZE, t[sid].accepted, pid) else {pid};
    t[sid := Session(now, accepted)]
  }

  /** `after` is `before` without the sessions in `gone`, all of which had expired by `asOf`. */
  ghost predicate Purged(before: Table, after: Table, gone: set<SessionId>, asOf: int) {
    && gone <= before.Keys
    && after == before - gone
    && forall k :: k in gone ==> Expired(before[k].lastSeen, asOf)
  }

  /**
   What an eviction pass may do: remove expired sessions, oldest first, never
   below the cap, and stop only at the cap or when nothing has expired.
   */
  ghost predicate Evicted(before: Table, after: Table, gone: set<SessionId>, asOf: int) {
    && Purged(before, after, gone, asOf)
    && (forall k, m :: k in gone && m in after && Expired(after[m].lastSeen, asOf) ==>
          before[k].lastSeen <= after[m].lastSeen)
    && (gone != {} ==> |after| >= MAX_TRACKED_SESSIONS)
    && (|after| <= MAX_TRACKED_SESSIONS || forall m :: m in after ==> !Expired(after[m].lastSeen, asOf))
  }

  // --- every run of the receiver ----------------------------------------------

  datatype Datagram = Datagram(sid: SessionId, pid: U64, timestamp: int)

  /**
   One atomic action: a decrypted, well-formed datagram reaching the replay check with a
   clock reading `now`, or a cleanup/eviction deletion that uses a clock reading `asOf`.
   Readings are taken before the action, so nothing orders those of different actions.
   */
  datatype Event = Receive(d: Datagram, now: int) | Purge(gone: set<SessionId>, asOf: int)

  datatype State = State(table: Table, delivered: seq<Datagram>)

  const INITIAL: State := State(map[], [])

  /** The event can happen here; a purge may only name sessions expired at its clock reading. */
  ghost predicate Possible(s: State, e: Event) {
    e.Purge? ==> Purged(s.table, s.table - e.gone, e.gone, e.asOf)
  }

  ghost function Apply(s: State, e: Event): State {
    match e
    case Receive(d, now) =>
      if !TimestampValid(d.timestamp, now) then s
      else
        State(Recorded(s.table, d.sid, d.pid, now),
              if Fresh(s.table, d.sid, d.pid, now) then s.delivered + [d] else s.delivered)
    case Purge(gone, _) => s.(table := s.table - gone)
  }

  /** The run is possible step by step. */
  ghost predicate Run(s: State, events: seq<Event>)
    decreases |events|
  {
    events == [] || (Possible(s, events[0]) && Run(Apply(s, events[0]), events[1..]))
  }

  ghost function Final(s: State, events: seq<Event>): State
    decreases |events|
  {
    if events == [] then s else Final(Apply(s, events[0]), events[1..])
  }

  ghost predicate NoDuplicates(ds: seq<Datagram>) {
    forall i, j :: 0 <= i < j < |ds| ==> ds[i] != ds[j]
  }

  // --- clock readings, session by session -----------------------------------------

  /** The latest clock reading each session has been checked with or purged at. */
  type Marks = map<SessionId, int>

  function Later(m: Marks, sid: SessionId, now: int): int {
    if sid in m && m[sid] > now then m[sid] else now
  }

  function Marked(m: Marks, e: Event): Marks {
    match e
    case Receive(d, now) => if TimestampValid(d.timestamp, now) then m[d.sid := Later(m, d.sid, now)] else m
    case Purge(gone, asOf) =>
      map sid | sid in m.Keys + gone :: if sid in gone then Later(m, sid, asOf) else m[sid]
  }

  /** The receive uses a clock reading taken before one its session has already been checked with or purged at. */
  predicate Stale(m: Marks, e: Event) {
    e.Receive? && TimestampValid(e.d.timestamp, e.now) && e.d.sid in m && e.now < m[e.d.sid]
  }

  /** No receive is stale; sessions do not constrain each other. */
  ghost predicate NoneStale(m: Marks, events: seq<Event>)
    decreases |events|
  {
    events == [] || (!Stale(m, events[0]) && NoneStale(Marked(m, events[0]), events[1..]))
  }

  ghost function MarksAfter(m: Marks, events: seq<Event>): Marks
    decreases |events|
  {
    if events == [] then m else MarksAfter(Marked(m, events[0]), events[1..])
  }

  /**
   A delivered datagram is protected from every receive that is not stale: either its
   timestamp has left the clock window of its session, or its session is still tracked,
   was seen recently enough to outlive that window, and remembers the packet ID.
   */
  ghost predicate Protected(s: State, m: Marks, d: Datagram) {
    && d.sid in m
    && (|| d.timestamp * SECOND + TIMESTAMP_TOLERANCE < m[d.sid]
        || (&& d.sid in s.table
            && d.pid in s.table[d.sid].accepted
            && d.timestamp * SECOND - TIMESTAMP_TOLERANCE <= s.table[d.sid].lastSeen))
  }

  ghost predicate Tracked(s: State, m: Marks) {
    forall sid :: sid in s.table ==> sid in m && s.table[sid].lastSeen == m[sid]
  }

  ghost predicate Invariant(s: State, m: Marks) {
    && NoDuplicates(s.delivered) && Tracked(s, m)
    && forall d :: d in s.delivered ==> Protected(s, m, d)
  }

  lemma {:induction false} ProtectedIsLive(s: State, m: Marks, d: Datagram, now: int)
    requires Protected(s, m, d) && m[d.sid] <= now <= d.timestamp * SECOND + TIMESTAMP_TOLERANCE
    ensures Live(s.table, d.sid, now) && d.pid in s.table[d.sid].accepted
  {
  }

  lemma {:induction false} ReceiveKeepsInvariant(s: State, m: Marks, d: Datagram, now: int)
    requires Invariant(s, m) && !Stale(m, Receive(d, now))
    ensures Invariant(Apply(s, Receive(d, now)), Marked(m, Receive(d, now)))
  {
    var s', m' := Apply(s, Receive(d, now)), Marked(m, Receive(d, now));
    forall x | x in s'.delivered ensures Protected(s', m', x) {
      if x in s.delivered && x.sid == d.sid && now <= x.timestamp * SECOND + TIMESTAMP_TOLERANCE
         && TimestampValid(d.timestamp, now) {
        ProtectedIsLive(s, m, x, now);
      }
    }
    if d in s.delivered && TimestampValid(d.timestamp, now) {
      ProtectedIsLive(s, m, d, now);
    }
  }

  lemma {:induction false} PurgeKeepsInvariant(s: State, m: Marks, gone: set<SessionId>, asOf: int)
    requires Invariant(s, m) && Possible(s, Purge(gone, asOf))
    ensures Invariant(Apply(s, Purge(gone, asOf)), Marked(m, Purge(gone, asOf)))
  {
    var s', m' := Apply(s, Purge(gone, asOf)), Marked(m, Purge(gone, asOf));
    forall x | x in s'.delivered ensures Protected(s', m', x) {
      if x.sid in gone {
        assert Expired(s.table[x.sid].lastSeen, asOf);
      }
    }
  }

  lemma {:induction false} InvariantHoldsThroughout(s: State, m: Marks, events: seq<Event>)
    requires Invariant(s, m) && Run(s, events) && NoneStale(m, events)
    ensures Invariant(Final(s, events), MarksAfter(m, events))
    decreases |events|
  {
    if events != [] {
      match events[0] {
        case Receive(d, now) => ReceiveKeepsInvariant(s, m, d, now);
        case Purge(gone, asOf) => PurgeKeepsInvariant(s, m, gone, asOf);
      }
      InvariantHoldsThroughout(Apply(s, events[0]), Marked(m, events[0]), events[1..]);
    }
  }

  /**
   The anti-replay guarantee: whatever datagrams arrive, and however expiry, cleanup and
   eviction are interleaved with them, no datagram is delivered twice, as long as no
   receive is stale for its own session.
   */
  lemma {:induction false} NoDoubleDelivery(events: seq<Event>)
    requires Run(INITIAL, events) && NoneStale(map[], events)
    ensures NoDuplicates(Final(INITIAL, events).delivered)
  {
    InvariantHoldsThroughout(INITIAL, map[], events);
  }

  // --- when no receive is stale --------------------------------------------------------

  /** The clock reading of an event. */
  function Reading(e: Event): int {
    match e
    case Receive(_, now) => now
    case Purge(_, asOf) => asOf
  }

  /** The event checks session `sid`, or purges it. */
  predicate Touches(e: Event, sid: SessionId) {
    match e
    case Receive(d, now) => d.sid == sid && TimestampValid(d.timestamp, now)
    case Purge(gone, _) => sid in gone
  }

  /** `r` is a receive that passes the timestamp check with a clock reading behind one its session saw at `e`. */
  predicate Overtakes(e: Event, r: Event) {
    r.Receive? && Touches(r, r.d.sid) && Touches(e, r.d.sid) && r.now < Reading(e)
  }

  ghost predicate InOrder(m: Marks, events: seq<Event>) {
    && (forall j :: 0 <= j < |events| ==> !Stale(m, events[j]))
    && (forall i, j :: 0 <= i < j < |events| ==> !Overtakes(events[i], events[j]))
  }

  /** A receive is stale after `e` exactly if it was before or overtakes `e`. */
  lemma {:induction false} StaleAfter(m: Marks, e: Event, r: Event)
    ensures Stale(Marked(m, e), r) <==> Stale(m, r) || Overtakes(e, r)
  {
  }

  lemma {:induction false} NoneStaleFrom(m: Marks, events: seq<Event>)
    ensures NoneStale(m, events) <==> InOrder(m, events)
    decreases |events|
  {
    if events != [] {
      NoneStaleFrom(Marked(m, events[0]), events[1..]);
      if InOrder(m, events) {
        RestInOrder(m, events);
      } else if !Stale(m, events[0]) && InOrder(Marked(m, events[0]), events[1..]) {
        AllInOrder(m, events);
      }
    }
  }

  lemma {:induction false} RestInOrder(m: Marks, events: seq<Event>)
    requires events != [] && InOrder(m, events)
    ensures !Stale(m, events[0]) && InOrder(Marked(m, events[0]), events[1..])
  {
    var e, rest := events[0], events[1..];
    forall j | 0 <= j < |rest| ensures !Stale(Marked(m, e), rest[j]) {
      assert rest[j] == events[j + 1];
      StaleAfter(m, e, rest[j]);
    }
    forall i, j | 0 <= i < j < |rest| ensures !Overtakes(rest[i], rest[j]) {
      assert rest[i] == events[i + 1] && rest[j] == events[j + 1];
    }
  }

  lemma {:induction false} AllInOrder(m: Marks, events: seq<Event>)
    requires events != [] && !Stale(m, events[0]) && InOrder(Marked(m, events[0]), events[1..])
    ensures InOrder(m, events)
  {
    var e, rest := events[0], events[1..];
    forall j | 0 <= j < |events| ensures !Stale(m, events[j]) && (j > 0 ==> !Overtakes(e, events[j])) {
      if j > 0 {
        assert rest[j - 1] == events[j];
        StaleAfter(m, e, rest[j - 1]);
      }
    }
    forall i, j | 0 <= i < j < |events| ensures !Overtakes(events[i], events[j]) {
      if i > 0 {
        assert rest[i - 1] == events[i] && rest[j - 1] == events[j];
      }
    }
  }

  /**
   From the start: no receive is stale if and only if none that passes the timestamp check
   reads a clock behind an earlier check or purge of its own session.
   */
  lemma {:induction false} NoneStaleExactly(events: seq<Event>)
    ensures NoneStale(map[], events) <==>
            forall i, j :: 0 <= i < j < |events| ==> !Overtakes(events[i], events[j])
  {
    NoneStaleFrom(map[], events);
  }

  /** In particular clock readings that never decrease rule out a double delivery. */
  lemma {:induction false} SteadyClockDeliversOnce(events: seq<Event>)
    requires Run(INITIAL, events)
    requires forall i, j :: 0 <= i < j < |events| ==> Reading(events[i]) <= Reading(events[j])
    ensures NoDuplicates(Final(INITIAL, events).delivered)
  {
    NoneStaleExactly(events);
    NoDoubleDelivery(events);
  }

  /** The table no longer knows that the datagram was delivered. */
  ghost predicate Forgotten(t: Table, d: Datagram) {
    d.sid in t ==> Admits(REPLAY_WINDOW_SIZE, t[d.sid].accepted, d.pid)
  }

  /**
   Which receives deliver a datagram again: exactly those whose clock reading still finds
   the timestamp valid although the table has forgotten the packet, because its session
   was purged, or expired and was started anew. All of them are stale.
   */
  lemma {:induction false} DeliversAgainExactly(events: seq<Event>, d: Datagram, now: int)
    requires Run(INITIAL, events) && NoneStale(map[], events) && d in Final(INITIAL, events).delivered
    ensures var s := Final(INITIAL, events);
            Apply(s, Receive(d, now)).delivered == s.delivered + [d] <==>
            TimestampValid(d.timestamp, now) && Forgotten(s.table, d)
    ensures var s := Final(INITIAL, events);
            TimestampValid(d.timestamp, now) && Forgotten(s.table, d) ==>
            Stale(MarksAfter(map[], events), Receive(d, now))
  {
    InvariantHoldsThroughout(INITIAL, map[], events);
    var s, m := Final(INITIAL, events), MarksAfter(map[], events);
    assert Protected(s, m, d);
    assert s.delivered + [d] != s.delivered;
    if TimestampValid(d.timestamp, now) && Forgotten(s.table, d) {
      assert d.timestamp * SECOND + TIMESTAMP_TOLERANCE < m[d.sid];
    }
    if d.sid in s.table && TimestampValid(d.timestamp, now) {
      assert !Expired(s.table[d.sid].lastSeen, now);
    }
  }

  /** A reader that took its clock reading before an eviction, and checks after it, lets the datagram through again. */
  lemma {:induction false} StaleClockDeliversTwice(sid: SessionId, pid: U64)
    ensures var d := Datagram(sid, pid, 1000);
            var events := [Receive(d, 1000 * SECOND), Purge({sid}, 1061 * SECOND), Receive(d, 1000 * SECOND)];
            Run(INITIAL, events) && Final(INITIAL, events).delivered == [d, d]
  {
    var d := Datagram(sid, pid, 1000);
    var e0, e1, e2 := Receive(d, 1000 * SECOND), Purge({sid}, 1061 * SECOND), Receive(d, 1000 * SECOND);
    var events := [e0, e1, e2];
    var s0 := INITIAL;
    var s1 := Apply(s0, e0);
    assert s1.table[sid] == Session(1000 * SECOND, {pid});
    var s2 := Apply(s1, e1);
    assert sid !in s2.table;
    var s3 := Apply(s2, e2);
    assert s3.delivered == [d, d];
    assert events[1..] == [e1, e2] && events[1..][1..] == [e2] && events[1..][1..][1..] == [];
    assert Run(s3, []) && Final(s3, []) == s3;
    assert Run(s2, [e2]) && Final(s2, [e2]) == s3;
    assert Run(s1, [e1, e2]) && Final(s1, [e1, e2]) == s3;
  }

  /** A session is given up exactly when it has not been seen for more than sixty seconds. */
  lemma {:induction false} RetentionExactly(t: Table, sid: SessionId, now: int)
    ensures Live(t, sid, now) <==> sid in t && now <= t[sid].lastSeen + 60_000_000_000
  {
  }

  /** Above all accepted IDs, or a new one less than 1024 below the highest. */
  ghost predicate Unseen(accepted: set<U64>, pid: U64) {
    (forall x :: x in accepted ==> x < pid) || (pid !in accepted && forall x :: x in accepted ==> x < pid + 1024)
  }

  /**
   A datagram inside the clock window whose packet its session has not seen is delivered:
   any packet of a session that is not tracked or has expired, and otherwise one that is
   unseen.
   */
  lemma {:induction false} FirstSeenIsDelivered(s: State, d: Datagram, now: int)
    requires now - 30_000_000_000 <= d.timestamp * 1_000_000_000 <= now + 30_000_000_000
    requires d.sid in s.table && now <= s.table[d.sid].lastSeen + 60_000_000_000 ==> Unseen(s.table[d.sid].accepted, d.pid)
    ensures Apply(s, Receive(d, now)).delivered == s.delivered + [d]
  {
  }

  /**
   Retention is exactly long enough: at every instant a delivered datagram's
   timestamp is still acceptable, its session has not expired.
   */
  lemma {:induction false} RetentionCoversClockWindow(timestamp: int, seenAt: int, now: int)
    requires TimestampValid(timestamp, seenAt) && TimestampValid(timestamp, now)
    ensures !Expired(seenAt, now)
  {
  }
}
