/**
 The reassembly code itself: fragment sets and the bucket that owns them are
 updated in place, and each method is tied to its function in TuicReassembly.
 */
module TuicBucket {
  import opened Bytes
  import opened TuicCodec
  import R = TuicReassembly

  type Fragment = R.Fragment
  type AddrPort = R.AddrPort

  class DeFragger {
    var pkgID: U16
    var frags: R.Slots
    var count: nat
    var totalLen: nat
    /** firstAddrPort, None while hasFirstFrag is false. */
    var first: Option<AddrPort>

    ghost function Value(): R.FragSet
      reads this
    {
      R.FragSet(pkgID, frags, count, totalLen, first)
    }

    constructor ()
      ensures Value() == R.NEW_SET
    {
      pkgID, frags, count, totalLen, first := 0, [], 0, 0, None;
    }

    predicate Matches(p: Packet)
      reads this
      ensures Matches(p) == R.Matches(Value(), p)
    {
      if p.total <= 1 then false
      else if count == 0 then p.frag < p.total
      else if pkgID != p.id || |frags| != p.total then false
      else if p.frag >= p.total then false
      else if p.frag == 0 then
        first.None? || (R.AddrPortOf(p.addr).Some? && first == R.AddrPortOf(p.addr))
      else frags[p.frag].None?
    }

    predicate Ready()
      reads this
      ensures Ready() == R.Complete(Value())
    {
      count == |frags| && first.Some?
    }

    /** Give every stored payload back. */
    method Release() returns (released: seq<nat>)
      modifies this
      ensures Value() == R.Emptied(old(Value())) && released == R.Handles(old(frags), 0)
    {
      released := [];
      ghost var was := frags;
      for i := 0 to |frags|
        invariant |frags| == |was|
        invariant unchanged(`pkgID) && unchanged(`first)
        invariant forall k :: 0 <= k < |was| ==> frags[k] == if k < i then None else was[k]
        invariant released + R.Handles(was, i) == R.Handles(was, 0)
      {
        if frags[i].Some? {
          released := released + [frags[i].value.handle];
          frags := frags[i := None];
        }
      }
      assert frags == R.Vacant(|was|);
      count, totalLen := 0, 0;
    }

    /** Copy the fragments one after the other into the caller's buffer. */
    method CopyOut(p: array<Byte>) returns (n: nat)
      requires R.ValidSet(Value()) && R.Complete(Value()) && totalLen <= p.Length
      modifies p
      ensures n == totalLen && p[..n] == R.Joined(frags, 0)
    {
      R.FullCount(frags, 0);
      n := 0;
      for i := 0 to |frags|
        invariant n + R.Size(frags, i) == totalLen
        invariant p[..n] + R.Joined(frags, i) == R.Joined(frags, 0)
      {
        ghost var done, rest := p[..n], R.Joined(frags, i + 1);
        var data := frags[i].value.packet.data;
        assert done + (data + rest) == done + data + rest;
        n := Put(p, n, data);
        assert p[..n] == done + data;
      }
    }

    /** Store a fragment in a set that is open for it. */
    method Store(m: Fragment) returns (released: seq<nat>)
      requires R.ValidSet(Value()) && m.packet.frag < |frags| && |frags| == m.packet.total
      modifies this
      ensures Value() == R.Stored(old(Value()), m) && R.ValidSet(Value())
      ensures var slot := old(frags)[m.packet.frag];
              released == if slot.Some? && slot != Some(m) then [m.handle] else []
    {
      released := [];
      if m.packet.frag == 0 {
        var addr := R.AddrPortOf(m.packet.addr);
        if addr.Some? {
          first := addr;
        }
      }
      if frags[m.packet.frag].None? {
        R.StoringCounts(frags, m.packet.frag, m, 0);
        frags := frags[m.packet.frag := Some(m)];
        count := count + 1;
        totalLen := totalLen + |m.packet.data|;
      } else if frags[m.packet.frag] != Some(m) {
        released := [m.handle];
      }
    }

    method Feed(m: Fragment, p: array<Byte>)
      returns (n: nat, addr: Option<AddrPort>, assembled: bool, released: seq<nat>)
      requires R.ValidSet(Value())
      modifies this, p
      ensures R.ValidSet(Value())
      ensures var fed := R.Feed(old(Value()), m, p.Length);
              && Value() == fed.set' && assembled == fed.assembled && addr == fed.addr && released == fed.released
              && n == |fed.bytes| <= p.Length && p[..n] == fed.bytes
              && (!assembled ==> p[..] == old(p[..]))
    {
      n, addr, assembled, released := 0, None, false, [];
      if m.packet.total <= 1 {
        n := Min(p.Length, |m.packet.data|);
        forall k | 0 <= k < n { p[k] := m.packet.data[k]; }
        return n, R.AddrPortOf(m.packet.addr), true, [];
      }
      if m.packet.frag >= m.packet.total {
        return;
      }
      if count == 0 {
        pkgID, frags, count, totalLen, first := m.packet.id, R.Vacant(m.packet.total), 0, 0, None;
        R.VacantIsNothing(m.packet.total, 0);
      }
      if |frags| != m.packet.total {
        return;
      }
      assert Value() == R.Opened(old(Value()), m.packet);
      released := Store(m);
      if Ready() && p.Length >= totalLen {
        n := CopyOut(p);
        var freed := Release();
        released := released + freed;
        R.VacantIsNothing(|frags|, 0);
        return n, first, true, released;
      }
    }
  }

  class Bucket {
    var deFraggers: seq<DeFragger>
    /** The sets as values, in step with the objects. */
    ghost var view: seq<R.FragSet>

    ghost predicate Valid()
      reads this, deFraggers
    {
      && |view| == |deFraggers|
      && (forall i, j :: 0 <= i < j < |deFraggers| ==> deFraggers[i] != deFraggers[j])
      && (forall i :: 0 <= i < |deFraggers| ==> deFraggers[i].Value() == view[i])
      && (forall i :: 0 <= i < |view| ==> R.ValidSet(view[i]))
    }

    constructor ()
      ensures Valid() && view == []
    {
      deFraggers, view := [], [];
    }

    method FindCandidates(p: Packet) returns (cs: seq<nat>)
      requires Valid()
      ensures cs == R.Candidates(view, p, 0)
    {
      cs := [];
      for i := 0 to |deFraggers|
        invariant cs + R.Candidates(view, p, i) == R.Candidates(view, p, 0)
      {
        if deFraggers[i].Matches(p) {
          cs := cs + [i];
        }
      }
    }

    /** The candidate with the same source address, or else one whose first fragment is missing. */
    method SelectFirst(cs: seq<nat>, addr: Option<AddrPort>) returns (c: R.Choice)
      requires Valid() && R.Indices(view, cs)
      ensures var same, open := R.FirstFrom(view, cs, addr), R.FirstUnaddressed(view, cs);
              c == if same.Some? then R.Use(same.value) else if open.Some? then R.Use(open.value) else R.Fresh
    {
      for k := 0 to |cs|
        invariant R.FirstFrom(view, cs, addr) == R.FirstFrom(view, cs[k..], addr)
      {
        var d := deFraggers[cs[k]];
        if d.first.Some? && d.first == addr {
          return R.Use(cs[k]);
        }
      }
      for k := 0 to |cs|
        invariant R.FirstUnaddressed(view, cs) == R.FirstUnaddressed(view, cs[k..])
      {
        var d := deFraggers[cs[k]];
        if d.first.None? {
          return R.Use(cs[k]);
        }
      }
      c := R.Fresh;
    }

    /** The one candidate that has its first fragment; a second one makes the choice ambiguous. */
    method SelectLater(cs: seq<nat>) returns (c: R.Choice)
      requires Valid() && R.Indices(view, cs)
      ensures var known := R.WithFirst(view, cs);
              c == if |known| == 1 then R.Use(known[0]) else R.Drop
    {
      c := R.Drop;
      ghost var seen: seq<nat> := [];
      for k := 0 to |cs|
        invariant R.WithFirst(view, cs) == seen + R.WithFirst(view, cs[k..])
        invariant |seen| <= 1 && c == if seen == [] then R.Drop else R.Use(seen[0])
      {
        if deFraggers[cs[k]].first.Some? {
          if c.Use? {
            return R.Drop;
          }
          c := R.Use(cs[k]);
          seen := [cs[k]];
        }
      }
    }

    method Select(p: Packet) returns (c: R.Choice)
      requires Valid()
      ensures c == R.Select(view, p)
    {
      var cs := FindCandidates(p);
      if |cs| == 0 {
        c := R.Fresh;
      } else if |cs| == 1 {
        c := R.Use(cs[0]);
      } else if p.frag == 0 {
        c := SelectFirst(cs, R.AddrPortOf(p.addr));
      } else {
        c := SelectLater(cs);
      }
    }

    /** Drop a set by moving the last one into its place. */
    method RemoveAt(i: nat)
      requires Valid() && i < |deFraggers|
      modifies this
      ensures Valid() && view == R.Removed(old(view), i) && deFraggers == R.Removed(old(deFraggers), i)
    {
      var last := |deFraggers| - 1;
      deFraggers := deFraggers[i := deFraggers[last]];
      deFraggers := deFraggers[..last];
      view := R.Removed(view, i);
    }
  
    /** Feed one of the sets. */
    method FeedSet(i: nat, m: Fragment, p: array<Byte>)
      returns (n: nat, addr: Option<AddrPort>, assembled: bool, released: seq<nat>)
      requires Valid() && i < |deFraggers|
      modifies this`view, deFraggers[i], p
      ensures Valid()
      ensures var fed := R.Feed(old(view)[i], m, p.Length);
              && view == old(view)[i := fed.set'] && assembled == fed.assembled && addr == fed.addr && released == fed.released
              && n == |fed.bytes| <= p.Length && p[..n] == fed.bytes
    {
      var d := deFraggers[i];
      n, addr, assembled, released := d.Feed(m, p);
      view := view[i := d.Value()];
    }

    /** Feed one of the sets, and drop it once its message is out. */
    method FeedAt(i: nat, m: Fragment, p: array<Byte>)
      returns (n: nat, addr: Option<AddrPort>, assembled: bool, size: nat, released: seq<nat>)
      requires Valid() && i < |deFraggers|
      modifies this, deFraggers, p
      ensures Valid() && (forall d :: d in deFraggers ==> d in old(deFraggers))
      ensures var r := R.FeedAt(old(view), i, m, p.Length);
              && view == r.sets && assembled == r.assembled && addr == r.addr && size == r.size && released == r.released
              && n == |r.bytes| <= p.Length && p[..n] == r.bytes
    {
      var d := deFraggers[i];
      var assembledLen := d.totalLen;
      if d.Ready() && p.Length < assembledLen {
        return 0, None, false, assembledLen, [];
      }
      n, addr, assembled, released := FeedSet(i, m, p);
      if assembled {
        RemoveAt(i);
        assert view == R.Removed(old(view), i);
        size := assembledLen;
      } else {
        size := if d.Ready() then d.totalLen else 0;
      }
    }

    method Feed(m: Fragment, p: array<Byte>)
      returns (n: nat, addr: Option<AddrPort>, assembled: bool, size: nat, released: seq<nat>)
      requires Valid()
      modifies this, deFraggers, p
      ensures Valid() && (forall d :: d in deFraggers ==> d in old(deFraggers) || fresh(d))
      ensures var r := R.FeedBucket(old(view), m, p.Length);
              && view == r.sets && assembled == r.assembled && addr == r.addr && size == r.size && released == r.released
              && n == |r.bytes| <= p.Length && p[..n] == r.bytes
    {
      if m.packet.total <= 1 || m.packet.frag >= m.packet.total {
        return 0, None, false, 0, [m.handle];
      }
      var choice := Select(m.packet);
      match choice {
        case Drop => return 0, None, false, 0, [m.handle];
        case Use(i) => n, addr, assembled, size, released := FeedAt(i, m, p);
        case Fresh =>
          AddNew();
          n, addr, assembled, size, released := FeedAt(|deFraggers| - 1, m, p);
      }
    }

    method AddNew()
      requires Valid()
      modifies this
      ensures Valid() && view == old(view) + [R.NEW_SET]
      ensures |deFraggers| == |old(deFraggers)| + 1 && deFraggers[..|old(deFraggers)|] == old(deFraggers)
      ensures fresh(deFraggers[|deFraggers| - 1])
    {
      var d := new DeFragger();
      deFraggers := deFraggers + [d];
      view := view + [R.NEW_SET];
    }

    /** Feeding no packet: the first complete set that fits is assembled through one of its own fragments. */
    method TakeComplete(p: array<Byte>)
      returns (n: nat, addr: Option<AddrPort>, assembled: bool, size: nat, released: seq<nat>)
      requires Valid()
      modifies this, deFraggers, p
      ensures Valid() && (forall d :: d in deFraggers ==> d in old(deFraggers))
      ensures var r := R.TakeComplete(old(view), p.Length, 0);
              && view == r.sets && assembled == r.assembled && addr == r.addr && size == r.size && released == r.released
              && n == |r.bytes| <= p.Length && p[..n] == r.bytes
    {
      var i := 0;
      while i < |deFraggers| && !(deFraggers[i].Ready() && p.Length >= deFraggers[i].totalLen)
        invariant 0 <= i <= |deFraggers|
        invariant R.TakeComplete(view, p.Length, 0) == R.TakeComplete(view, p.Length, i)
      {
        i := i + 1;
      }
      if i == |deFraggers| {
        return 0, None, false, 0, [];
      }
      var trigger := FindTrigger(deFraggers[i].frags);
      if trigger.None? {
        return 0, None, false, deFraggers[i].totalLen, [];
      }
      var totalLen := deFraggers[i].totalLen;
      n, addr, assembled, size, released := FeedAt(i, trigger.value, p);
      size := totalLen;
    }
  }

  method FindTrigger(frags: R.Slots) returns (trigger: Option<Fragment>)
    ensures trigger == R.FirstPresent(frags, 0)
  {
    for i := 0 to |frags|
      invariant R.FirstPresent(frags, 0) == R.FirstPresent(frags, i)
    {
      if frags[i].Some? {
        return frags[i];
      }
    }
    trigger := None;
  }

  /** Assemble a complete set into a pooled buffer of `room` bytes. */
  method Assemble(b: Bucket, room: nat) returns (bytes: seq<Byte>, addr: Option<AddrPort>, assembled: bool)
    requires b.Valid()
    modifies b, b.deFraggers
    ensures b.Valid()
    ensures var t := R.TakeComplete(old(b.view), room, 0);
            b.view == t.sets && bytes == t.bytes && addr == t.addr && assembled == t.assembled
  {
    var buffer := new Byte[room];
    var n, size, released;
    n, addr, assembled, size, released := b.TakeComplete(buffer);
    bytes := buffer[..n];
  }

  /** One turn of the ReadFrom loop with the caller's buffer `p`. */
  method PollTurn(b: Bucket, m: Fragment, p: array<Byte>, slack: nat) returns (delivery: Option<R.Delivery>)
    requires b.Valid()
    modifies b, b.deFraggers, p
    ensures b.Valid() && R.Step(b.view, delivery) == R.PollStep(old(b.view), m, p.Length, slack)
    ensures delivery.Some? ==> |delivery.value.bytes| <= p.Length && p[..|delivery.value.bytes|] == delivery.value.bytes
  {
    var n, addr, assembled, size, released := b.Feed(m, p);
    if assembled {
      return Some(R.Delivery(p[..n], addr, false));
    }
    if size <= p.Length {
      return None;
    }
    assert forall k :: 0 <= k < |b.deFraggers| ==> b.deFraggers[k] in old(b.deFraggers) || fresh(b.deFraggers[k]);
    var bytes;
    bytes, addr, assembled := Assemble(b, size + slack);
    if !assembled {
      return None;
    }
    var copied := Min(p.Length, |bytes|);
    forall k | 0 <= k < copied { p[k] := bytes[k]; }
    assert p[..copied] == bytes[..copied];
    delivery := Some(R.Delivery(bytes[..copied], addr, |bytes| > p.Length));
  }

  /** Feed with no buffer. */
  method Probe(b: Bucket, m: Fragment) returns (assembled: bool, size: nat)
    requires b.Valid()
    modifies b, b.deFraggers
    ensures b.Valid()
    ensures forall k :: 0 <= k < |b.deFraggers| ==> b.deFraggers[k] in old(b.deFraggers) || fresh(b.deFraggers[k])
    ensures var r := R.FeedBucket(old(b.view), m, 0);
            b.view == r.sets && assembled == r.assembled && size == r.size
  {
    var none := new Byte[0];
    var n, addr, released;
    n, addr, assembled, size, released := b.Feed(m, none);
  }

  /** deliverPacket: probe without a buffer, then assemble into one of the reported size. */
  method DeliverPacket(b: Bucket, m: Fragment, slack: nat) returns (delivery: Option<R.Delivery>)
    requires b.Valid()
    modifies b, b.deFraggers
    ensures b.Valid() && R.Step(b.view, delivery) == R.PushStep(old(b.view), m, slack)
  {
    var assembled, size := Probe(b, m);
    if !assembled && size == 0 {
      return None;
    }
    var bytes, addr;
    bytes, addr, assembled := Assemble(b, size + slack);
    delivery := if assembled then Some(R.Delivery(bytes, addr, false)) else None;
  }
}
