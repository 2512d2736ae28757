# Verified model of a proxy-transport library

This project models, in Dafny 4.11, the self-contained protocols and codecs of a Go
proxy-transport library and proves what they promise: anti-replay, datagram
fragmentation and reassembly, chunked AEAD streams, a padded multiplexer, key
derivation, query-string coding, and several hand-off protocols between goroutines.

`dafny verify dfyconfig.toml` checks the whole project.

## What is modelled

| files | part of the system |
|---|---|
| `TuicCodec`, `TuicFrag`, `TuicReassembly`, `TuicBucket`, `TuicDelivery`, `TuicMixing`, `TuicSharing`, `TuicSelection`, `TuicConnection`, `TuicOwnership`, `TuicLedger`, `TuicQueue` | TUIC UDP: the Packet command on the wire, fragmentation, the reassembly bucket of a packet ID and of a whole association, payload ownership, and the receive queue |
| `SlidingWindow`, `ReplayTable`, `UdpReplay` | Shadowsocks 2022: the bitmap filter, and the session table with its clock window, expiry and eviction |
| `HttpPublish` | HTTP proxy: publishing a lazily dialed connection against a concurrent Close |
| `VmessKdf`, `Rfc2104` | VMess key derivation inside one scratch array |
| `VmessChunks`, `VmessConn`, `VmessStream` | VMess chunk streams with masked lengths and padding |
| `AnyTlsWire`, `AnyTlsRecords`, `AnyTlsMux`, `AnyTlsStream` | AnyTLS: frames and padding, multiplexed writers and the parse loop, closing a stream |
| `BufferedReader`, `DirectReceiver` | release of a pooled read buffer; delivery of direct UDP packets |
| `SsStream`, `SsHkdf`, `Aead` | Shadowsocks AEAD chunks, the inline HKDF, nonce counters |
| `NaivePadding`, `UrlCodec` | naive padding frames; query escaping and parsing |
| `Bytes`, `Cutting`, `Lists`, `Quotients` | byte strings, big-endian integers, cutting into pieces, counting in lists, rounded-up quotients |
| `Streams`, `Truncation`, `ChunkReading` | streams that end early: the errors of io.ReadFull, where a cut falls, readers with leftovers |

Code that updates objects or buffers in place is a class or a method over arrays, tied
by its contract to a function on values; the theorems are about those functions.
Concurrent protocols are state machines: a datatype of states, one action per atomic
load, lock section or channel operation, and theorems about the final state of every
sequence of enabled actions.

Hashes, AEAD ciphers, extendable-output functions and random numbers are parameters.
Of a cipher only two laws are used: opening undoes sealing, and both change the length
by a fixed overhead. Clocks are parameters. A connection is the sequence of bytes
written to it or still to be read from it.

## What does not hold, and exactly when it does

- A clean end does not mean that everything arrived. All three stream readers pass on the
  io.EOF of an inner read. On a connection that is cut:
  - VMess reports io.EOF at every chunk boundary and after every size field, just as for
    the terminal chunk (`VmessChunks.CutAfterFirstLooksClosed`); elsewhere it reports
    io.ErrUnexpectedEOF (`VmessChunks.CutStreamDecodes`).
  - Shadowsocks reports io.EOF at every chunk boundary and after every length part
    (`SsStream.CutAfterFirstLooksClean`, `SsStream.CutStreamDecodes`).
  - naive reports io.EOF between frames, after a header, and inside the padding, where it
    also drops payload already read (`NaivePadding.CleanEndsThatLoseAByte`); only a cut
    strictly inside a header or a payload is reported (`NaivePadding.CutDelivers`).
- VMess: a server's response header is lost for good if its first write is empty or too
  large (`VmessStream.OversizedFirstLosesHeader`); it is sent if and only if that write
  is neither (`VmessStream.ServerWrites`).
- VMess: an empty datagram in a batch to a fixed target is sealed into a chunk that the
  reader cannot tell from the end of the stream. A batch arrives in full if and only if
  none of its datagrams is empty (`VmessChunks.BatchArrivesExactly`).
- URL: a query string cannot express a key with an empty value list. The round trip is
  the identity if and only if there is none (`UrlCodec.RoundTripExactly`,
  `UrlCodec.EmptyListIsLost`).
- TUIC: a fragment that meets a complete set still waiting for a larger buffer is neither
  stored nor given back; in every other case it is one of the two
  (`TuicOwnership.FeedConserves`). It takes a second consumer between the two calls of a
  read (`TuicLedger.DuplicateBetweenCallsLeaks`); one consumer never leaks
  (`TuicLedger.NothingLeaks`).
- TUIC: of messages that share a packet ID and a fragment count while in flight, one can be
  lost although all its fragments arrive (`TuicSharing.OverlapLoses`). A message comes out
  if and only if none of its later fragments found two sets in flight that lack it
  (`TuicSharing.ComesOutExactly`); one with a fragment count of its own always does
  (`TuicSharing.DeliveredDespiteSharing`).
- Shadowsocks 2022: a receiver that captured its time before an eviction and consults
  the table after it can deliver a datagram again (`ReplayTable.StaleClockDeliversTwice`).
  Exactly those receives do that still find the timestamp valid although the table has
  forgotten the packet (`ReplayTable.DeliversAgainExactly`); without a receive that is
  stale for its own session none does (`ReplayTable.NoDoubleDelivery`), and that is so
  exactly if each session sees its clock readings in order
  (`ReplayTable.NoneStaleExactly`).
- VMess chunk nonces repeat after 65536 chunks of one direction
  (`VmessChunks.NonceRepeatsExactly`); both sides stay in step nevertheless.

Where a comment and the code disagree the code is modelled: the comment in
`protocol/anytls/padding.go` gives a padding range an inclusive upper bound, the code
excludes it.

## Model

| member | source | states |
|---|---|---|
| `TuicCodec.WriteToBytes` | protocol/tuic/protocol.go:326-341 | The buffer-filling printer puts exactly the packet's wire form at the offset, leaves the bytes before and after it alone, and advances by BytesLen. |
| `TuicCodec.WriteAddressToBytes` | protocol/tuic/protocol.go:502-512 | An address is its type byte alone when it is of type None, else type, bytes and port. |
| `TuicCodec.BytesLenIsExact` | protocol/tuic/protocol.go:343-346 | The announced length is the printed length, for every packet. |
| `TuicCodec.PacketLayout` | protocol/tuic/protocol.go:326-341 | Where every field of a printed packet is: version, type 2, association, packet ID, fragment total and number, size, address type, address, port and data, at their byte offsets and big-endian. |
| `TuicCodec.AddressLengths` | protocol/tuic/packet_parse.go:98-146 | The addresses the parser can produce: 4 bytes for type 1, 16 for type 2, a counted name for type 0, nothing for type 255. |
| `TuicCodec.ReadUndoesEncode` | protocol/tuic/packet_parse.go:41-93 | Parsing a printed packet gives it back, whatever bytes trail it. |
| `TuicCodec.AcceptedExactly` | protocol/tuic/packet_parse.go:41-146 | A datagram is accepted as p if and only if p is well formed and the datagram starts with its printed form. |
| `TuicCodec.AcceptedAddressIsEncoding` | protocol/tuic/packet_parse.go:98-146 | Whatever the address parser accepts, of any of the four types, is the printed form of a well-formed address, and the consumed length is its length. |
| `TuicCodec.StreamAgrees` | protocol/tuic/packet_parse.go:154-243 | The stream parser accepts exactly what the slice parser accepts, with the same packet, and leaves the rest of the stream unread. |
| `TuicFrag.FragmentPackets` | protocol/tuic/frag.go:17-51 | Splitting fails for a non-positive size or more than 255 pieces; otherwise every fragment is the packet with its own piece, number, size and, past the first, no address. FRAG_TOTAL is written back. |
| `TuicFrag.CountIsQuotient` | protocol/tuic/frag.go:22-22 | The rounded-up quotient computed first is the number of pieces the loop cuts. |
| `TuicFrag.FragmentFits` | protocol/tuic/packet.go:820-827 | With the fragment size derived from a failed send, no serialized fragment is longer than the reported datagram limit. |
| `TuicFrag.LargestFragSize` | protocol/tuic/packet.go:820-827 | The fragment size is the largest that leaves room for the header within the datagram limit and respects the relay's own limit, if it has one. |
| `TuicFrag.FragWriteNative` | protocol/tuic/frag.go:53-71 | The datagrams sent are the printed fragments in order, each within the limit, up to the first one the connection refuses; nothing is sent when the size is not positive or 255 fragments do not suffice. |
| `TuicFrag.FragmentSurvivesWire` | protocol/tuic/packet_parse.go:41-146 | Every printed fragment of an IP-addressed packet parses back, minus the address fields a None address does not carry. |
| `Cutting.PiecesJoin` | protocol/tuic/frag.go:28-49 | The pieces joined are the payload. |
| `Cutting.PieceAt` | protocol/tuic/frag.go:28-49 | Piece i starts i pieces in and is of full length unless it is the last. |
| `TuicBucket.DeFragger.Feed` | protocol/tuic/frag.go:149-194 | Feeding a set in place is the function on its value: new state, assembled bytes in the caller's buffer, address and the payloads given back. |
| `TuicBucket.DeFragger.Release` | protocol/tuic/frag.go:104-113 | Releasing empties every slot and gives back exactly the payloads held. |
| `TuicBucket.DeFragger.CopyOut` | protocol/tuic/frag.go:187-189 | The copy loop fills the first totalLen bytes with the fragments in order. |
| `TuicBucket.Bucket.Select` | protocol/tuic/packet.go:397-450 | The candidate loops choose as the selection function does: own address, then a set without its first fragment, then a new one; an ambiguous later fragment is dropped. TuicSelection states the choice for any sets, and TuicSharing.ComesOutExactly what it means for messages. |
| `TuicSelection.FirstAmongSeveral` | protocol/tuic/packet.go:411-430 | For any sets: a first fragment that matches several goes to the first of them from its source, else to the first without a first fragment, else to a new set, and each of these if and only if. |
| `TuicSelection.LaterAmongSeveral` | protocol/tuic/packet.go:432-449 | For any sets: a later fragment that matches several goes to the only one of them that has its first fragment, and is dropped if and only if there is none or more than one. |
| `TuicSelection.OneMatch` | protocol/tuic/packet.go:408-409 | A fragment that matches one set goes there. |
| `TuicSelection.NoMatch` | protocol/tuic/packet.go:405-407 | A fragment that matches none starts a new set. |
| `TuicBucket.Bucket.RemoveAt` | protocol/tuic/packet.go:462-466 | A finished set is replaced by the last one. |
| `TuicBucket.Bucket.Feed` | protocol/tuic/packet.go:363-473 | Feeding the bucket is the function on its list of sets, for every branch. |
| `TuicBucket.Bucket.TakeComplete` | protocol/tuic/packet.go:367-391 | Feeding no packet assembles the first complete set that fits, through one of its own fragments. |
| `TuicBucket.PollTurn` | protocol/tuic/packet.go:642-675 | One turn of the polling loop is the polling step, and a delivery lies at the start of the caller's buffer. |
| `TuicBucket.DeliverPacket` | protocol/tuic/packet.go:727-755 | The pushed delivery is the push step: a first feeding without a buffer, then assembly into one of the reported size. |
| `TuicDelivery.DeliveredInAnyOrder` | protocol/tuic/packet.go:363-473 | For any payload of 2 to 255 fragments with an IP address: all its datagrams parse, and received once each in any order by any mix of polling and pushing they give the payload and the first fragment's address exactly once, with the last datagram, and leave the bucket empty. |
| `TuicConnection.PacketIdsAreIndependent` | protocol/tuic/packet.go:626-675 | Seen from one packet ID, any run of an association is a run of that ID's bucket alone: same contents, same deliveries. Unfragmented datagrams and retired buckets included. |
| `TuicConnection.UnfragmentedComesOut` | protocol/tuic/packet.go:626-641 | A datagram that was never fragmented comes out at once, whole or cut to the caller's buffer and marked. |
| `TuicConnection.DroppedWhenEmpty` | protocol/tuic/packet.go:652-672 | A bucket is dropped if and only if a datagram comes out and leaves it empty; the other buckets stay as they are. |
| `TuicConnection.DeliveredAmongOthers` | protocol/tuic/packet.go:604-756 | The fragments of a message in any order, in the midst of any traffic under other packet IDs, give the message exactly once, with the last of them. |
| `TuicDelivery.ArriveMissing` | protocol/tuic/packet.go:452-472 | A fragment sent to the set that misses it is stored, or completes it: then exactly the message comes out, cut and flagged when the caller's buffer is short, and the set goes. |
| `TuicDelivery.FullSetJoins` | protocol/tuic/frag.go:186-191 | A set with as many fragments as slots is complete, and its fragments join to the payload. |
| `TuicMixing.NeverMixed` | protocol/tuic/packet.go:397-472 | Messages that share a packet ID, with pairwise distinct sources, no duplicates and first fragments first: every datagram handed out is the message of the fragment just received, and no message comes out twice. Which messages come out is TuicSharing.ComesOutExactly. |
| `TuicMixing.LaterIsOwnOrDropped` | protocol/tuic/packet.go:432-449 | A later fragment is dropped if and only if another set in flight has the same total and lacks that fragment number; otherwise it goes to its own message's set. |
| `TuicSharing.ComesOutExactly` | protocol/tuic/packet.go:397-472 | For every such arrival sequence: the datagram comes out with an arrival if and only if that arrival makes its message whole and no later fragment of the message up to then found two sets in flight that could have it. |
| `TuicSharing.DeliveredDespiteSharing` | protocol/tuic/packet.go:410-472 | A message with a fragment count no other message has comes out with the arrival that makes it whole, however the fragments of all messages interleave. |
| `TuicSharing.OverlapLoses` | protocol/tuic/packet.go:432-444 | If two messages of equal fragment counts have started when the second fragment of one arrives, that one never comes out, whatever arrives later. |
| `TuicSharing.AmbiguousIsRivalled` | protocol/tuic/packet.go:404-409 | A later fragment matches two sets if and only if another set in flight has the same total and lacks that number. |
| `TuicSharing.ArrivalAccounted` | protocol/tuic/packet.go:451-472 | Every arrival stores its fragment, or drops it as ambiguous, or brings its message out because that is now whole with nothing dropped. |
| `TuicMixing.FirstIsFresh` | protocol/tuic/frag.go:135-141 | A first fragment matches no set of another source. |
| `TuicOwnership.FeedConserves` | protocol/tuic/packet.go:363-473 | A fed payload ends up held by one set or given back once, exactly unless it meets a complete set that waits for a larger buffer; then it is neither. |
| `TuicOwnership.TakeConserves` | protocol/tuic/packet.go:367-391 | Assembling a waiting set gives back exactly what it held. |
| `TuicLedger.ArriveSettles` | protocol/tuic/packet.go:642-675 | No arrival, polled or pushed, leaves a complete set behind, whatever fragments came before. |
| `TuicLedger.RunConserves` | protocol/tuic/packet.go:363-473 | Over every run of arrivals, held payloads plus payloads given back are exactly the payloads received. |
| `TuicLedger.NothingLeaks` | protocol/tuic/packet.go:363-473 | Over every run from an empty bucket each received payload is held by one set or has been given back, exactly once. |
| `TuicLedger.AllGivenBackAtClose` | protocol/tuic/packet.go:329-338 | After any run and the release of the bucket, every payload received has been given back exactly once. |
| `TuicLedger.DuplicateBetweenCallsLeaks` | protocol/tuic/packet.go:652-659 | The exception is reachable: a duplicate first fragment fed by another consumer between the two calls of a short-buffer read is neither held nor ever given back, while the message is delivered. |
| `TuicQueue.PacketsAreConservedInOrder` | protocol/tuic/packet.go:89-249 | In every interleaving of pushes, registrations, unregistrations, pops and Close: each pushed packet is in exactly one place, the queue is empty while a receiver is registered or after Close, and handlers and pollers see packets in push order. |
| `TuicQueue.NothingGivenBackWithoutCause` | protocol/tuic/packet.go:89-124 | If any packet has been given back, the run contains a close, a deactivation, or a push that found 2048 packets waiting. |
| `TuicQueue.NothingLostWithoutCause` | protocol/tuic/packet.go:89-168 | In every run without such a cause each pushed packet is exactly once among those waiting, popped, handed to a handler, or in the delivery under way. |
| `TuicQueue.SettledIsDelivered` | protocol/tuic/packet.go:89-168 | In such a run, while a receiver is registered and nobody is delivering, every pushed packet was popped or handed to a handler, once. |
| `TuicQueue.CanAlwaysSettle` | protocol/tuic/packet.go:89-183 | From every state the delivery or registration under way can run to its end. |
| `TuicQueue.RegistersWhenFree` | protocol/tuic/packet.go:126-168 | A registration succeeds if and only if the queue is open and has no receiver, and then takes over what waits. |
| `TuicQueue.UnregisterMakesRoom` | protocol/tuic/packet.go:169-183 | Unregistering the receiver leaves room for another. |
| `TuicQueue.QueueIsBounded` | protocol/tuic/packet.go:80-124 | At most 2048 packets wait. |
| `TuicQueue.CloseStopsDelivery` | protocol/tuic/packet.go:216-249 | Whatever happened before a close and whatever happens after it, pollers get nothing more and handlers at most the one packet whose delivery had already been decided. |
| `TuicQueue.StepConserves` | protocol/tuic/packet.go:89-183 | No step loses or duplicates a packet. |
| `TuicQueue.StepKeepsOrder` | protocol/tuic/packet.go:133-168 | No step reorders packets; the drained prefix precedes later pushes because deliverMu is held across swap and drain. |
| `SlidingWindow.Filter.CheckAndUpdate` | ciphers/aead_2022_cipher.go:97-124 | For every window size and state: an ID is accepted if and only if it is the first, exceeds the maximum, or lies within windowSize of it and was never accepted; the set of accepted IDs grows accordingly. |
| `SlidingWindow.Filter.ShiftWindow` | ciphers/aead_2022_cipher.go:138-174 | The in-place word and bit shift raises every recorded distance by the shift and drops those pushed out. |
| `SlidingWindow.Filter.ShiftBits` | ciphers/aead_2022_cipher.go:168-173 | The carry between words moves every bit by exactly bitShift. |
| `SlidingWindow.Filter.ShiftWords` | ciphers/aead_2022_cipher.go:152-159 | Whole words move by wordShift places, from the top down. |
| `SlidingWindow.Filter.GetBit` | ciphers/aead_2022_cipher.go:126-130 | Reads the bit of the given distance. |
| `SlidingWindow.Filter.SetBit` | ciphers/aead_2022_cipher.go:132-136 | Sets that bit and no other. |
| `SlidingWindow.Filter.constructor` | ciphers/aead_2022_cipher.go:85-94 | A non-positive size falls back to 1024, and the empty filter represents the empty set. |
| `SlidingWindow.NeverAcceptedTwice` | ciphers/aead_2022_cipher.go:97-124 | In every sequence of IDs, no ID is accepted at two positions. |
| `SlidingWindow.FreshIsAccepted` | ciphers/aead_2022_cipher.go:97-124 | A fresh ID within the window of everything presented so far is always accepted. |
| `SlidingWindow.MaximumIsPresented` | ciphers/aead_2022_cipher.go:97-124 | The largest accepted ID is the largest ID presented. |
| `SlidingWindow.AcceptedExactly` | ciphers/aead_2022_cipher.go:97-124 | The verdict on every ID of every sequence: accepted if and only if it was never presented before and every ID presented before is less than windowSize above it. |
| `ReplayTable.DecodeAcceptsServerPayload` | protocol/shadowsocks_2022/udp_conn.go:617-645 | Every well-formed server payload inside the clock window decodes to its body and address; outside it is refused. ReplayTable.ClockWindow says what the window is. |
| `ReplayTable.ClockWindow` | protocol/shadowsocks_2022/udp_conn.go:617-645 | A well-formed server payload decodes if and only if its timestamp in nanoseconds is at most 30 seconds before and at most 30 seconds after the clock, and else is refused as expired. |
| `ReplayTable.DecodesExactly` | protocol/shadowsocks_2022/udp_conn.go:617-645 | On raw bytes: a payload decodes if and only if its type byte, timestamp, padding length and address are as the format lays them out and the timestamp is within 30 seconds of the clock. |
| `ReplayTable.FirstSeenIsDelivered` | protocol/shadowsocks_2022/udp_conn.go:514-550 | A datagram never seen, with a timestamp within 30 seconds of the clock, is delivered. |
| `ReplayTable.RetentionExactly` | protocol/shadowsocks_2022/udp_conn.go:143-180 | A session is live if and only if it was last seen at most 60 seconds ago. |
| `ReplayTable.DecodedIsServerPayload` | protocol/shadowsocks_2022/udp_conn.go:617-645 | Conversely, whatever decodes is such a payload with a timestamp inside the window. |
| `ReplayTable.NoDoubleDelivery` | protocol/shadowsocks_2022/udp_conn.go:514-550 | In every run, with expiry, eviction and cleanup anywhere, no datagram (session, packet ID, timestamp) is delivered twice, as long as no receive uses a clock reading older than one its own session has been checked with or purged at. Sessions do not constrain each other. |
| `ReplayTable.NoneStaleExactly` | protocol/shadowsocks_2022/udp_conn.go:143-180 | No receive of a run is stale if and only if none that passes the timestamp check reads a clock behind an earlier check or purge of its own session. |
| `ReplayTable.SteadyClockDeliversOnce` | protocol/shadowsocks_2022/udp_conn.go:514-550 | In particular a run whose clock readings never decrease delivers nothing twice. |
| `ReplayTable.DeliversAgainExactly` | protocol/shadowsocks_2022/udp_conn.go:143-180 | After any such run a receive delivers a delivered datagram again if and only if its clock reading still finds the timestamp valid and the table has forgotten the packet; every such receive is stale. |
| `ReplayTable.RetentionCoversClockWindow` | protocol/shadowsocks_2022/validation.go:18-24 | A session last seen while its datagram's timestamp was valid cannot have expired while the same timestamp is still valid; ReplayTable.ClockWindow and ReplayTable.RetentionExactly give both spans in nanoseconds. |
| `ReplayTable.StaleClockDeliversTwice` | protocol/shadowsocks_2022/udp_conn.go:143-180 | A concrete run with a stale receive that delivers one datagram twice. |
| `UdpReplay.Conn.CheckAndUpdateReplay` | protocol/shadowsocks_2022/udp_conn.go:143-180 | The verdict is that of the session's bitmap, which records what the session has accepted; an expired session starts afresh, and the table changes only by that record and by evicting expired sessions. |
| `UdpReplay.Conn.EvictOldestIfNeeded` | protocol/shadowsocks_2022/udp_conn.go:208-250 | Eviction removes only expired sessions, oldest first, until the table is within its cap or none is expired. |
| `UdpReplay.Conn.CleanupExpiredSessions` | protocol/shadowsocks_2022/udp_conn.go:184-194 | A sweep removes exactly the sessions expired at its captured time. |
| `UdpReplay.Conn.Receive` | protocol/shadowsocks_2022/udp_conn.go:514-550 | The payload is validated before the window is updated, so a refused payload leaves the table as it was; otherwise the packet is recorded, a live session evicts nothing, and a new one what the cap calls for. |
| `UdpReplay.FirstIsHandedOut` | protocol/shadowsocks_2022/udp_conn.go:514-550 | On the bitmaps: the first datagram of a session the table does not hold, sealed with a timestamp within 30 seconds of the clock, is handed out. |
| `UdpReplay.ReceiveIsTwoEvents` | protocol/shadowsocks_2022/udp_conn.go:143-250 | A receive call is one event of a run followed by the purge its eviction made, which ties the code to the run theorem. |
| `UdpReplay.ReceiveAll` | protocol/shadowsocks_2022/udp_conn.go:143-250 | For every sequence of packets and sweeps, on the bitmaps themselves: the table and the datagrams delivered are those of the run the actions spell out event by event, where only the choice among equally old sessions to evict is open; and no datagram is delivered twice if no packet reads a clock behind an earlier packet of its session or an earlier sweep or eviction. |
| `UdpReplay.Perform` | protocol/shadowsocks_2022/udp_conn.go:143-250 | One packet is a receive and the purge of its eviction if it decodes and nothing if it does not; one sweep is a purge of exactly the expired sessions. |
| `UdpReplay.InOrderIsNotStale` | protocol/shadowsocks_2022/udp_conn.go:143-250 | Actions whose clocks are in order session by session contain no stale receive, whatever they evict. |
| `HttpPublish.ClosedExactlyOnce` | protocol/http/conn.go:236-254 | When the handshaking Write and Close have both finished, every connection that became a candidate of its own has been closed exactly once, whichever won. |
| `HttpPublish.NothingStaysPublished` | protocol/http/conn.go:236-254 | By then the published slot is empty, whether anything was dialed or not. |
| `HttpPublish.NeverClosedTwice` | protocol/http/conn.go:236-254 | At no moment of any interleaving is a connection closed twice, or closed while published. |
| `HttpPublish.HandedIsAccountedFor` | protocol/http/conn.go:572-593 | Every candidate handed over is covered by that accounting. |
| `HttpPublish.OpenUntilClose` | protocol/http/conn.go:236-254 | Without a Close, what a successful Write published stays published and open. |
| `HttpPublish.HandedIsPublished` | protocol/http/conn.go:236-254 | In every run without a Close, a candidate handed to publishConn is in the slot and open once the writer has left, and remains so whatever other Writes do. |
| `HttpPublish.SlotNeverTaken` | protocol/http/conn.go:241-243 | In every run, with or without Close, the compare-and-swap finds the slot empty: muShake admits one filler, which looked first. |
| `HttpPublish.DiscardedOnlyForCause` | protocol/http/conn.go:572-593 | If a candidate is about to be discarded or has been closed, the run contains a Close, an error of its own dial, or an error of its own proxy handshake. |
| `HttpPublish.WritePublishes` | protocol/http/conn.go:285-311 | In every run without a Close, an error of the environment or a Write that only buffers, a returned Write leaves an open connection published and the lifecycle ready. |
| `HttpPublish.NothingNewAfterClose` | protocol/http/conn.go:285-301 | Once closed: a Write before its checks leaves without starting, nothing is dialed unless a dial is under way, nothing is handed to publishConn but the connection whose proxy handshake is in progress, and nothing is published but what is past publishConn's check. |
| `HttpPublish.HandshakeOnce` | protocol/http/conn.go:302-308 | After a finished handshake no Write dials again. |
| `HttpPublish.CanAlwaysReturn` | protocol/http/conn.go:285-311 | From every reachable state the Write and the Close in progress can run to their ends. |
| `HttpPublish.LifeIsMonotone` | protocol/http/conn.go:700-723 | The lifecycle only moves forward; closed is absorbing. |
| `VmessKdf.Kdf` | protocol/vmess/cipher.go:220-241 | For every key and path the allocation-free evaluator, or its fallback, returns the reference digest, whose nesting order and root key VmessKdf.PathNests and VmessKdf.RootOfPath fix. |
| `VmessKdf.Sum` | protocol/vmess/cipher.go:189-206 | Evaluating a node inside the shared scratch array gives the node's hash of the message as it was on entry, and leaves everything before its own region untouched. |
| `VmessKdf.NodeWithKey` | protocol/vmess/cipher.go:155-179 | A node's pads come from its key, an over-long key being hashed through the chain below. |
| `VmessKdf.NodeChainIsReference` | protocol/vmess/cipher.go:112-120 | The node chain computes the nested HMAC constructors, for every path and message. |
| `VmessKdf.PathNests` | protocol/vmess/cipher.go:112-120 | Appending an element to the path makes it the key of an HMAC whose hash is the derivation by the shorter path. |
| `VmessKdf.RootOfPath` | protocol/vmess/cipher.go:112-120 | The derivation by the empty path is HMAC under the 14 bytes of the fixed label. |
| `Rfc2104.HmacSteps` | protocol/vmess/cipher.go:155-206 | HMAC in the seven steps of section 2 of RFC 2104: key brought to block length, inner pad 0x36, outer pad 0x5c, two hashes. |
| `VmessKdf.KeyedNodeIsHmac` | protocol/vmess/cipher.go:145-179 | A keyed node is HMAC over the hash below it, as section 2 of RFC 2104 defines it. |
| `VmessKdf.NeedClosedForm` | protocol/vmess/cipher.go:139-145 | The scratch a chain needs, summed level by level, has the closed form the source states. |
| `VmessKdf.ScratchIsExact` | protocol/vmess/cipher.go:139-145 | The 4352-byte scratch is exactly the worst case admitted. |
| `VmessChunks.OpenUndoesSeal` | protocol/vmess/conn.go:656-676 | At every position of the mask stream and counter the reader recovers a sealed chunk, and reports io.EOF instead when the chunk is empty. |
| `VmessChunks.ChunkLayout` | protocol/vmess/conn.go:203-225 | A chunk is two bytes of masked length, the payload sealed under the 16-bit chunk number and the rest of the IV, and padding; with padding on, the first draw modulo 64 is its length and the second the mask. |
| `VmessChunks.DrawsPerChunk` | protocol/vmess/chunk_size_parser.go:25-44 | After n chunks n nonces and 2n, n or no draws have been used, as masking and padding are on or off. |
| `VmessChunks.CutChunk` | protocol/vmess/conn.go:633-674 | A chunk of which only a part arrives is reported as io.EOF if and only if nothing of it or exactly its size field arrived, or it is empty and its size field arrived; otherwise as io.ErrUnexpectedEOF. |
| `VmessChunks.CutStreamDecodes` | protocol/vmess/conn.go:633-676 | Of a closed stream cut anywhere exactly the complete chunks are read, and io.EOF is reported if and only if the cut is at a chunk boundary, just after a size field, or past the size field of the terminal chunk; otherwise io.ErrUnexpectedEOF. |
| `VmessChunks.CutAfterFirstLooksClosed` | protocol/vmess/conn.go:656-663 | A stream of two chunks cut after the first reads as that chunk and a clean end: the cut cannot be told from an announced end. |
| `VmessChunks.DecodedChunk` | protocol/vmess/conn.go:633-676 | After a chunk the reader stands where the sender stands. |
| `VmessChunks.BatchArrivesExactly` | protocol/vmess/conn.go:424-473 | A batch of datagrams is decoded in full if and only if none of them is empty; the reader reports io.EOF either way. |
| `VmessChunks.EmptyDatagramHidesTheNext` | protocol/vmess/packet.go:130-137 | The smallest failing batch: a datagram after an empty one is never decoded. |
| `VmessChunks.MaskedTwice` | protocol/vmess/chunk_size_parser.go:30-40 | Masking a length with the same draw is its own inverse, so Decode undoes Encode. |
| `VmessChunks.NonceRepeatsExactly` | protocol/vmess/conn.go:165-174 | Two chunk nonces are equal if and only if their counts agree modulo 65536. |
| `VmessChunks.EveryOptionByteIsValid` | protocol/vmess/conn.go:183-200 | Every option byte and IV gives a codec the theorems apply to; padding is drawn only under masking. |
| `VmessChunks.OptionBits` | protocol/vmess/conn.go:183-200 | Masking is bit 2 of the option byte, padding bits 2 and 3 together. |
| `VmessConn.Direction.NextPaddingLen` | protocol/vmess/chunk_size_parser.go:42-44 | Padding lengths are drawn from the mask stream, below 64. |
| `VmessConn.Direction.Mask` | protocol/vmess/chunk_size_parser.go:25-40 | Both directions of the length field consume one draw under masking and none otherwise. |
| `VmessConn.Direction.NextNonce` | protocol/vmess/conn.go:165-174 | The nonce is the 16-bit count followed by the IV from its third byte on; the count wraps. |
| `VmessConn.SealInto` | protocol/vmess/conn.go:457-466 | A chunk is sealed at an offset of a larger buffer without touching what precedes it; the padding length is drawn before the length is masked. |
| `VmessConn.SealFromPool` | protocol/vmess/conn.go:203-223 | One sealed chunk at the sender's position, which advances by one chunk. |
| `VmessConn.Chunks` | protocol/vmess/conn.go:157-163 | The payload size is positive and the number of chunks is the rounded-up quotient. |
| `VmessConn.WriteStream` | protocol/vmess/conn.go:225-247 | A write loses no byte: after the prefix, if there is one, it is sent as the chunks of its pieces, and the count returned is its length although the loop overshoots. |
| `VmessConn.WritePacket` | protocol/vmess/conn.go:249-277 | A datagram whose length field could overflow is refused and draws nothing; any other is one chunk after the prefix. |
| `VmessConn.WritePackets` | protocol/vmess/conn.go:442-472 | One oversized datagram refuses the batch before anything is drawn; otherwise prefix and datagrams are sealed one after the other into one buffer. |
| `VmessStream.Reader.ReadChunk` | protocol/vmess/conn.go:656-676 | Reading a chunk into the reused buffer is opening the first chunk of the wire, with the same error cases in the same order. |
| `VmessStream.Reader.ReadSize` | protocol/vmess/conn.go:633-647 | The padding length is drawn before the length is unmasked. |
| `VmessStream.Reader.Read` | protocol/vmess/conn.go:592-626 | A read is the step on values: leftovers first, then one chunk; a datagram that does not fit is dropped whole. |
| `VmessStream.ReadHandsOutNext` | protocol/vmess/conn.go:592-626 | A stream read hands out the next bytes and fails only when none are left, with the stream's own ending. |
| `VmessStream.DatagramReadTakesOne` | protocol/vmess/conn.go:612-624 | A datagram read takes exactly one datagram, whole or dropped. |
| `VmessStream.Writer.Write` | protocol/vmess/conn.go:390-418 | An empty write closes the stream with a terminal chunk and later writes fail; a stream write is sent as exactly its pieces, a datagram is one chunk or refused. The response header goes out with the first write only if that one is neither empty nor refused. |
| `VmessStream.StreamChunks` | protocol/vmess/conn.go:225-247 | Chunk i of a stream write starts i full chunks in and is full unless it is the last; together they are the write. |
| `VmessStream.FullChunk` | protocol/vmess/conn.go:157-163 | A full chunk carries 16384 bytes less the overhead, the size field and the longest padding. |
| `VmessStream.WholeChunks` | protocol/vmess/conn.go:249-277 | A datagram is one chunk, and an empty write none. |
| `VmessStream.Writer.WriteBatch` | protocol/vmess/conn.go:424-473 | A closed connection and an oversized datagram refuse the batch; otherwise its datagrams follow what was sent before, the response header first if it is still due. |
| `VmessStream.ServerWrites` | protocol/vmess/conn.go:358-473 | For any mix of writes and batches of a server: what goes out is their chunks up to the close, and the response header reaches the wire if and only if the first call is neither empty nor too large; no later one makes up for it. |
| `VmessStream.OversizedFirstLosesHeader` | protocol/vmess/conn.go:249-265 | A concrete failure: after a datagram of 65536 bytes, which is refused, the next one goes out without the header. |
| `VmessStream.Converse` | protocol/vmess/conn.go:487-676 | Whatever the options, write sizes, read sizes and the point at which the connection is cut, what is read is a prefix of what was written. As many reads with room as there are bytes, and one more, reach the end; then it is exactly the complete chunks of those writes, everything if no chunk was cut off, and io.EOF exactly at a clean cut. |
| `AnyTlsWire.Session.WriteConnLocked` | protocol/anytls/session.go:455-531 | One locked write makes exactly the records of its padding state; their bytes are the payload whole and in order and then waste frames only, and the count returned is the payload length. AnyTlsRecords says how many records there are, how long, and what each holds. |
| `AnyTlsWire.Session.WritePadded` | protocol/anytls/session.go:462-524 | The loop over the sizes writes the records of the size list, one write each. |
| `AnyTlsWire.Session.WriteOne` | protocol/anytls/session.go:472-517 | One size is one write: payload, payload and waste in one buffer, or waste. |
| `AnyTlsWire.RecordsCarryAll` | protocol/anytls/session.go:462-524 | Whatever the sizes, the records put end to end are the payload followed by whole waste frames. |
| `AnyTlsRecords.RecordShape` | protocol/anytls/session.go:472-517 | For each size l that is reached, by what is left of the payload: l bytes of payload if more than l are left; a record of exactly l bytes, the rest and one waste frame, if l exceeds the rest by more than 7 and at most 32775; the rest and a waste frame of 32768 beyond that; the rest bare if l exceeds it by at most 7; one waste frame of min(l, 32768) if none is left. |
| `AnyTlsRecords.CheckMarkStops` | protocol/anytls/session.go:464-470 | A check mark that meets no payload ends the write: only the sizes before it made records. |
| `AnyTlsRecords.RestGoesBare` | protocol/anytls/session.go:519-524 | If no check mark ends it, every size makes one record and payload beyond their sum leaves in one last record. |
| `AnyTlsRecords.StopsOrNot` | protocol/anytls/session.go:462-470 | One of those two cases holds for every size list. |
| `AnyTlsRecords.PaddingEnds` | protocol/anytls/session.go:457-530 | Of a new session's writes the first stop - 1 are cut by the size list and every later one is a single bare record. |
| `AnyTlsWire.FillWasteFrame` | protocol/anytls/session.go:533-538 | The end of the buffer becomes an encoded waste frame, and what precedes it stays. |
| `AnyTlsWire.Session.WriteFrames` | protocol/anytls/anytls.go:94-128 | An oversized frame or a closed session writes nothing; otherwise all frames leave in one locked write and the total payload length is returned. |
| `AnyTlsWire.EncodeFrame` | protocol/anytls/anytls.go:138-145 | A frame is encoded at an offset without touching what precedes it. |
| `AnyTlsWire.EncodeFrames` | protocol/anytls/anytls.go:111-115 | The running offset fills the precomputed buffer exactly. |
| `AnyTlsWire.FrameLayout` | protocol/anytls/anytls.go:138-145 | A frame is its command, the stream in four bytes, the length in two, and the payload. |
| `AnyTlsWire.ReadUndoesEncode` | protocol/anytls/anytls.go:56-68 | Reading an encoded frame gives it back and leaves what follows. |
| `AnyTlsWire.GenerateRecordPayloadSizes` | protocol/anytls/padding.go:152-172 | One size per range, in order: the fixed size, a value from the lower bound up to but not including the upper, or a check mark. |
| `AnyTlsWire.CompileRange` | protocol/anytls/padding.go:123-141 | A range is kept exactly when both its bounds are positive, in either order, and is a fixed size exactly when they are equal. |
| `AnyTlsMux.WireCarriesFrames` | protocol/anytls/session.go:211-250 | Parsing the bytes of any sequence of locked writes under any padding, and dropping waste, gives exactly the frames written. |
| `AnyTlsMux.StreamsAreCarried` | protocol/anytls/anytls.go:147-215 | For any interleaving of the writes of all streams, each stream's pushed data is what was written to it, up to what its current Write has still to send. |
| `AnyTlsMux.CanAlwaysFinish` | protocol/anytls/anytls.go:196-215 | A Write in progress can always be finished by its own frames. |
| `AnyTlsMux.DataFramesCarry` | protocol/anytls/anytls.go:196-215 | Cutting at the frame limit loses no byte and touches no other stream. |
| `AnyTlsMux.BatchFramesCarry` | protocol/anytls/anytls.go:153-174 | The frames of a batch carry the datagrams one after the other. |
| `AnyTlsMux.WriteDataFrames` | protocol/anytls/anytls.go:196-215 | A Write is one locked write per frame, each with the waste its turn calls for, and returns its length; on a closed session it writes nothing. |
| `AnyTlsMux.WriteFrame` | protocol/anytls/anytls.go:74-92 | One frame is one locked write with the waste its turn calls for, returning its payload length. |
| `AnyTlsMux.RunLoop` | protocol/anytls/session.go:197-321 | The parse loop produces the events and the stopping reason of the parse function, including its checks before the payload is read. |
| `AnyTlsMux.LoopDeliversData` | protocol/anytls/session.go:227-251 | The parse loop hands each stream exactly the data of its PSH frames. |
| `AnyTlsMux.TurnOnBytes` | protocol/anytls/session.go:197-321 | One turn on raw bytes: a payload on command 3, 8 or 9 is refused, then a command other than 0, 2, 3 and 5 to 10, both before the payload is read; a frame cut short ends the input; any other frame gives its events and the loop goes on behind it. |
| `AnyTlsMux.EventsByCommand` | protocol/anytls/session.go:227-321 | What each command number gives: data, a stream's end, an alert, new padding rules, an acknowledgement, heartbeats, or nothing; empty data, padding and acknowledgements give nothing. |
| `AnyTlsStream.DrainedBeforeCloseError` | protocol/anytls/stream.go:138-188 | Over all interleavings, a reader that is told of a close has been given every admitted byte in order, unless a local close discarded data, and nothing is admitted any more. |
| `AnyTlsStream.AllReturnedAfterLocalClose` | protocol/anytls/stream.go:239-277 | Once a local close has run to its end the queue stays empty and every chunk has been given back exactly once, except one in the enqueuer's hands. |
| `AnyTlsStream.ReadsAreInOrder` | protocol/anytls/stream.go:111-136 | At every moment what has been read is a prefix of what was admitted, unless a local close discarded data. |
| `AnyTlsStream.OnlyLocalDiscards` | protocol/anytls/stream.go:226-237 | Remote and session closes never discard data. |
| `AnyTlsStream.RefusedOnlyAfterClose` | protocol/anytls/stream.go:60-84 | A chunk given back without having been admitted means that the run contains a close or the end of the session. |
| `AnyTlsStream.NothingLostWithoutClose` | protocol/anytls/stream.go:60-136 | In every run without a close or the end of the session, all bytes that arrived are those read, then those on their way to a reader, then those in the enqueuer's hands. |
| `AnyTlsStream.CanAlwaysRead` | protocol/anytls/stream.go:111-188 | While nobody closes, a reader alone can always read everything admitted so far. |
| `AnyTlsStream.NothingAdmittedAfterClose` | protocol/anytls/stream.go:60-84 | A chunk that arrives after the close or the end of the session is never admitted, whatever happens next. |
| `AnyTlsStream.QueueIsBounded` | protocol/anytls/stream.go:48-84 | At most 16 chunks wait. |
| `AnyTlsStream.StepKeepsLocks` | protocol/anytls/stream.go:242-262 | No step breaks the lock discipline or admits a chunk after the queue is sealed. |
| `AnyTlsStream.StepConserves` | protocol/anytls/stream.go:59-84 | No step loses a chunk or gives one back twice. |
| `BufferedReader.ReleasedExactlyWhenDone` | netproxy/buffered_reader.go:149-217 | For any number of readers and closers the buffer is in the pool if and only if the read side is over, no read is in flight and nothing is buffered; it got there at most once, and nobody touched the reader afterwards. |
| `BufferedReader.ReleaseIsFinal` | netproxy/buffered_reader.go:149-156 | The first terminal error sticks, and a release is final. |
| `BufferedReader.LetInUntilDone` | netproxy/buffered_reader.go:149-198 | The terminal error is the first one a Read or a Close recorded; a new Read is let in if and only if there is none yet, another Read is in flight, or bytes are left. |
| `DirectReceiver.WakeupsAreNotLost` | protocol/direct/packet_receiver_linux.go:291-361 | Whenever the delivery loop is parked with queued packets or a stop request, a signal is pending or its sender is between unlock and send. |
| `DirectReceiver.PacketsAreConservedInOrder` | protocol/direct/packet_receiver_linux.go:291-371 | Each fetched packet is in exactly one place, and the handler is called in fetch order. |
| `DirectReceiver.AllAccountedForAtExit` | protocol/direct/packet_receiver_linux.go:402-418 | When the loop has exited and the others are done, each fetched packet was accepted or released exactly once. |
| `DirectReceiver.EveryPacketHasItsCall` | protocol/direct/packet_receiver_linux.go:291-371 | In every run without a stop or a deactivation, the handler calls made and those to come are for all packets fetched, in order. |
| `DirectReceiver.GivenBackOnlyIfRefused` | protocol/direct/packet_receiver_linux.go:362-371 | In such a run a packet is given back only if its handler refused it. |
| `DirectReceiver.CanAlwaysDeliver` | protocol/direct/packet_receiver_linux.go:291-361 | At every moment of such a run the steps already due call the handler for every packet fetched: none waits for another fetch. |
| `SsStream.Seal` | protocol/shadowsocks/tcp_conn.go:345-360 | Sealing fills the buffer with exactly the chunks of the text and advances the nonce by two per chunk. |
| `SsStream.EncryptedPayloadLenIsExact` | protocol/shadowsocks/tcp_conn.go:76-82 | The up-front formula is the length of the sealed chunks of the text. |
| `SsStream.SealedLength` | protocol/shadowsocks/tcp_conn.go:345-360 | The sealed length is the sum of the chunk lengths. |
| `SsStream.ChunkLayout` | protocol/shadowsocks/tcp_conn.go:345-360 | A chunk is the big-endian length sealed under nonce k and the payload sealed under nonce k + 1. |
| `SsStream.OpenUndoesSeal` | protocol/shadowsocks/tcp_conn.go:231-253 | Opening a sealed chunk gives its data back and leaves what follows. |
| `SsStream.CutStreamDecodes` | protocol/shadowsocks/tcp_conn.go:231-253 | Of a stream cut anywhere exactly the complete chunks are read, and io.EOF is reported if and only if the cut is at a chunk boundary or just after a length part; otherwise io.ErrUnexpectedEOF. |
| `SsStream.CutAfterFirstLooksClean` | protocol/shadowsocks/tcp_conn.go:231-253 | A stream of two chunks cut after the first reads as that chunk and a clean end. |
| `SsStream.Reader.ReadChunk` | protocol/shadowsocks/tcp_conn.go:231-253 | Reading a chunk into the reused buffer is opening the first chunk of the wire, errors included. |
| `SsStream.Reader.Read` | protocol/shadowsocks/tcp_conn.go:195-213 | A read is the step on values: leftovers first, then one chunk. |
| `SsStream.ReadHandsOutNext` | protocol/shadowsocks/tcp_conn.go:195-213 | On any wire a read hands out the next bytes and fails only when none are left, with the error the stream ends in. |
| `SsStream.Converse` | protocol/shadowsocks/tcp_conn.go:161-253 | For any writes, any read sizes and any cut of the wire, what is read is a prefix of what was written. As many reads with room as there are bytes, and one more, reach the end; then it is exactly the complete chunks of those writes, each write cut on its own, everything if nothing was cut off, and io.EOF exactly at a clean cut. |
| `Aead.BytesIncLittleEndian` | common/common.go:127-134 | The in-place increment is addition of one modulo 256^n on little-endian digits. |
| `Aead.CounterDigit` | common/common.go:127-134 | Byte i of a nonce is digit i of the counter in base 256. |
| `Aead.NoncesAreDistinct` | common/common.go:127-134 | Below 256^n uses no two nonces are equal. |
| `Aead.NonceWraps` | common/common.go:127-134 | The bound is tight: after 256^n increments the nonce repeats. |
| `SsHkdf.HmacSha1Into` | protocol/shadowsocks/encrypt.go:59-101 | Whatever the pooled scratch holds, and even when the output is part of it, the result is HMAC-SHA1 of the message parts (section 2 of RFC 2104). |
| `SsHkdf.DeriveSubKey` | protocol/shadowsocks/encrypt.go:107-125 | The first bytes of the key, up to 40, are HKDF-SHA1 extract-then-expand (sections 2.2 and 2.3 of RFC 5869); any further bytes keep their old contents. |
| `SsHkdf.TwoBlocks` | protocol/shadowsocks/encrypt.go:116-124 | Two output blocks are T(1) and the start of T(2). |
| `SsHkdf.OkmByte` | protocol/shadowsocks/encrypt.go:107-125 | Byte i of the derived key is byte i mod 20 of block i / 20 + 1 of section 2.3 of RFC 5869, under the extracted key of section 2.2. |
| `UrlCodec.Escape` | common/url/url.go:289-343 | Escaping through the precomputed buffer is the byte-by-byte escape, for every string and mode. |
| `UrlCodec.EscapedLength` | common/url/url.go:309-314 | The precomputed length is the escaped length. |
| `UrlCodec.EscapedExactly` | common/url/url.go:105-180 | The characters each part leaves as they are, besides letters and digits, listed part by part; all others are escaped. |
| `UrlCodec.HexDigits` | common/url/url.go:289-343 | An escape spells each half of the byte with one of 0 to 9 and A to F. |
| `UrlCodec.HexByCharacter` | common/url/url.go:52-74 | Hexadecimal digits are read in either case, with their values. |
| `UrlCodec.BadEscapeReported` | common/url/url.go:204-275 | A bad escape is reported with its first three bytes, or as many as there are. |
| `UrlCodec.Unescape` | common/url/url.go:204-275 | Decoding in two passes is the byte-by-byte decode, with the same errors and the same offending bytes. |
| `UrlCodec.UnescapeUndoesEscape` | common/url/url.go:204-343 | Unescape undoes escape for every string in path, segment, user-info, query and fragment mode. |
| `UrlCodec.ParseUndoesEncode` | common/url/url.go:937-993 | Parsing an encoded map gives it back without the keys that list no value, whatever the key order. |
| `UrlCodec.RoundTripExactly` | common/url/url.go:937-993 | The round trip is the identity if and only if every key lists a value. |
| `UrlCodec.EmptyListIsLost` | common/url/url.go:970-993 | A concrete failure: the map from the key a to an empty list comes back empty. |
| `UrlCodec.Encode` | common/url/url.go:970-993 | The encoding visits the keys in sorted order and parses back to the map. |
| `UrlCodec.ParseQuery` | common/url/url.go:937-966 | The parse loop is the parse function: settings that do not decode are skipped, the first bad escape is kept, and a setting with a semicolon overwrites whatever error there was. |
| `UrlCodec.NoErrorExactly` | common/url/url.go:937-966 | A query parses without an error if and only if no setting holds a semicolon and both halves of every setting decode. |
| `UrlCodec.ErrorKept` | common/url/url.go:937-966 | A semicolon anywhere makes the semicolon error the result; otherwise the first error is kept. |
| `UrlCodec.EmptySettingSkipped` | common/url/url.go:937-966 | Empty settings change nothing. |
| `NaivePadding.PaddedWriter.Write` | dialer/naive/padding.go:95-122 | A write sends padded frames until eight have been sent and raw bytes after, and returns its length. |
| `NaivePadding.PaddedReader.Read` | dialer/naive/padding.go:166-212 | On any input a read hands out the next payload bytes across the switch to raw mode. It fails with io.ErrUnexpectedEOF if and only if the input ends strictly inside a header or a payload, and with io.EOF on input that is not empty if and only if it ends right after a header that announces payload or inside the padding. |
| `NaivePadding.FrameOutcomes` | dialer/naive/padding.go:179-202 | For every input: a frame is read if and only if it is complete, and the two errors are told apart as above. |
| `NaivePadding.CutDelivers` | dialer/naive/padding.go:166-212 | A stream cut anywhere hands out the payload of exactly its whole frames, and ends in io.ErrUnexpectedEOF if and only if the cut is strictly inside a header or a payload. |
| `NaivePadding.CleanEndsThatLoseAByte` | dialer/naive/padding.go:193-202 | Two frames cut after the header and inside the padding: a clean end, with a payload byte lost. |
| `NaivePadding.SentCarries` | dialer/naive/padding.go:95-151 | Whatever the padding sizes, what is sent for a text carries exactly that text. |
| `NaivePadding.FrameLayout` | dialer/naive/padding.go:132-151 | A frame is two bytes of length, one of padding length, the payload and that many zeros. |
| `NaivePadding.EightFramesThenRaw` | dialer/naive/padding.go:95-122 | Each write continues the count of frames: up to eight frames of at most 65535 payload bytes, then the bytes as they are. |
| `NaivePadding.WithoutPadding` | dialer/naive/padding.go:95-100 | Without padding bytes pass as they are in both directions. |
| `NaivePadding.Converse` | dialer/naive/padding.go:95-212 | For any split into writes, any padding, any cut of the wire and any read sizes, what is read is a prefix of what was written. Enough reads reach the end; then it is the payload of exactly the whole frames among the bytes that arrived, everything on an uncut wire, and the error is the one the place of the cut decides. |
| `NaivePadding.SentAllCarries` | dialer/naive/padding.go:95-151 | What several writes put on the wire carries exactly their bytes. |

## Left out

- Sockets, epoll, QUIC, TLS, HTTP/2 pools, DNS and logging: foreign code or I/O.
- Handshakes, request and response headers and metadata of every protocol: field layouts around library cryptography.
- Link and subscription parsers and exporters under `dialer/`: field copying.
- TUIC idle expiry of fragment sets, duplicate later fragments and same-source reuse of an ID in flight: outside what reassembly promises. The bucket functions and the ledger cover duplicates; the delivery theorems do not speak of them.
- TUIC: parking and waking of pollers in PopFrontBlock; only what a poll takes is modelled.
- URL host and zone modes, path resolution and joining: host escaping is not invertible for all bytes.
- Partial socket writes and recovery after a failed write: every write is taken to be complete.
- AnyTLS packet streams, deadlines and the session's bookkeeping of streams.
- TuicBucket.PollTurn: from the lookup of the bucket on; the periodic cleanup before it and the retirement after it are not part of the method. TuicConnection has the retirement.
- TuicBucket.DeliverPacket: up to the call of the handler; a handler that refuses the packet only has its buffer released.
- UdpReplay.Conn.CheckAndUpdateReplay: is one atomic step, and an entry holds the contents of its filter by value, since no filter is shared between sessions.
- UdpReplay.Conn.CleanupExpiredSessions: a sweep is one step with one captured time. The run theorems allow each deletion to be a step of its own.
- TuicFrag.FragWriteNative: takes a fresh buffer for each fragment instead of one that is reset.
- VmessConn.SealFromPool: allocates the frame; reuse of the sender's frame between chunks is not modelled, since each chunk is written before the next is sealed.
- VmessStream.Writer.Write: without the packet-address form and the error for an unknown network.
- VmessStream.Converse: from the first chunk on; the headers before it and their errors are not modelled.
- SsStream.Write: after key setup only, and without reuse of the frame buffer.
- AnyTlsWire.Session.WriteFrames: allocates the buffer the session would reuse; the lock held around it makes reuse invisible.
- AnyTlsWire.CompileRange: from the two parsed numbers on; splitting and parsing their text is not modelled.
- AnyTlsMux.WriteDataFrames: with nobody else writing; interleaved writers are in AnyTlsMux.StreamsAreCarried.
- AnyTlsMux.RunLoop: produces events; finding the stream of an event and answering a heartbeat are not modelled.
- AnyTlsStream.DrainedBeforeCloseError: read deadlines appear only as a step that ends a read.
