/**
 What an observer of the connection sees of one padded AnyTLS write: how many records,
 how long each is, and what it holds, from the size list and the payload alone.
 */
module AnyTlsRecords {
  import opened Bytes
  import opened AnyTlsWire

  /** The sizes before element `i` added up; check marks do not count. */
  ghost function SumBefore(sizes: seq<int>, i: nat): nat
    requires ValidSizes(sizes) && i <= |sizes|
  {
    if i == 0 then 0 else SumBefore(sizes, i - 1) + if sizes[i - 1] == -1 then 0 else sizes[i - 1]
  }

  /** How many of the elements before `i` are sizes. */
  ghost function SizesBefore(sizes: seq<int>, i: nat): nat
    requires i <= |sizes|
  {
    if i == 0 then 0 else SizesBefore(sizes, i - 1) + if sizes[i - 1] == -1 then 0 else 1
  }

  /** No check mark before element `i` finds the payload used up. */
  ghost predicate Reached(len: nat, sizes: seq<int>, i: nat)
    requires ValidSizes(sizes) && i <= |sizes|
  {
    forall j :: 0 <= j < i && sizes[j] == -1 ==> SumBefore(sizes, j) < len
  }

  /** The payload left when element `i` is met. */
  ghost function Left(b: seq<Byte>, sizes: seq<int>, i: nat): seq<Byte>
    requires ValidSizes(sizes) && i <= |sizes|
  {
    if SumBefore(sizes, i) < |b| then b[SumBefore(sizes, i)..] else []
  }

  /** A frame of command 0 and stream 0 that fills these bytes, all zero but for its length. */
  ghost predicate IsWaste(w: seq<Byte>) {
    && |w| >= 7 && w[5] as int * 256 + w[6] as int == |w| - 7
    && forall k :: 0 <= k < |w| && k != 5 && k != 6 ==> w[k] == 0
  }

  /** The record `r` that size `l` makes of the payload `rest`. */
  ghost predicate Shaped(rest: seq<Byte>, l: nat, r: seq<Byte>) {
    && (|rest| > l ==> r == rest[..l])
    && (0 < |rest| <= l <= |rest| + 7 ==> r == rest)
    && (0 < |rest| && |rest| + 7 < l <= |rest| + 7 + 32768 ==> |r| == l)
    && (0 < |rest| && |rest| + 7 + 32768 < l ==> |r| == |rest| + 7 + 32768)
    && (0 < |rest| && |rest| + 7 < l ==> |rest| <= |r| && r[..|rest|] == rest && IsWaste(r[|rest|..]))
    && (rest == [] ==> |r| == 7 + (if l > 32768 then 32768 else l) && IsWaste(r))
  }

  lemma {:induction false} WasteFrameBytes(n: nat)
    requires n <= 32768
    ensures |Encode(WasteFrame(n))| == n + 7 && IsWaste(Encode(WasteFrame(n)))
  {
    var w, h := Encode(WasteFrame(n)), Header(0, 0, n);
    assert w == h + Zeros(n);
    assert forall k :: 7 <= k < |w| ==> w[k] == Zeros(n)[k - 7];
    assert forall k :: 0 <= k < 7 ==> w[k] == h[k];
    assert h == [0] + Be32(0) + Be16(n);
    assert h[5..7] == Be16(n);
  }

  lemma {:induction false} RecordIsShaped(rest: seq<Byte>, l: nat)
    requires l > 0
    ensures Shaped(rest, l, Record(rest, l))
  {
    if rest == [] {
      WasteFrameBytes(Capped(l));
    } else if |rest| <= l && l - |rest| > 7 {
      var w := Encode(WasteFrame(Capped(l - |rest| - 7)));
      WasteFrameBytes(Capped(l - |rest| - 7));
      assert (rest + w)[|rest|..] == w;
    }
  }

  lemma {:induction false} SumSnoc(sizes: seq<int>, i: nat)
    requires ValidSizes(sizes) && i < |sizes|
    ensures SumBefore(sizes, i + 1) == SumBefore(sizes, i) + (if sizes[i] == -1 then 0 else sizes[i])
    ensures SizesBefore(sizes, i + 1) == SizesBefore(sizes, i) + (if sizes[i] == -1 then 0 else 1)
  {
  }

  /** What is left after a size is what was left less that size. */
  lemma {:induction false} LeftAfter(b: seq<Byte>, sizes: seq<int>, i: nat)
    requires ValidSizes(sizes) && i < |sizes|
    ensures var rest := Left(b, sizes, i);
            Left(b, sizes, i + 1) == if sizes[i] == -1 then rest else rest[Min(|rest|, sizes[i])..]
  {
    SumSnoc(sizes, i);
  }

  /** Before element `i` is met, the records `front` have been made, one for each size. */
  ghost predicate Begins(b: seq<Byte>, sizes: seq<int>, i: nat, front: seq<seq<Byte>>)
    requires ValidSizes(sizes) && i <= |sizes|
  {
    |front| == SizesBefore(sizes, i) && Records(b, sizes, 0) == front + Records(Left(b, sizes, i), sizes, i)
  }

  lemma {:induction false} NothingYet(b: seq<Byte>, sizes: seq<int>)
    requires ValidSizes(sizes)
    ensures Begins(b, sizes, 0, [])
  {
    assert Left(b, sizes, 0) == b;
    assert [] + Records(b, sizes, 0) == Records(b, sizes, 0);
  }

  /** One more element: a size adds a record, a check mark none. */
  lemma {:induction false} OneMore(b: seq<Byte>, sizes: seq<int>, i: nat, front: seq<seq<Byte>>, rest: seq<Byte>)
    returns (front': seq<seq<Byte>>)
    requires ValidSizes(sizes) && i < |sizes| && rest == Left(b, sizes, i) && (sizes[i] == -1 ==> rest != [])
    requires Begins(b, sizes, i, front)
    ensures Begins(b, sizes, i + 1, front')
  {
    LeftAfter(b, sizes, i);
    SumSnoc(sizes, i);
    front' := front;
    if sizes[i] != -1 {
      RecordMoves(front, rest, sizes, i, Min(|rest|, sizes[i]));
      front' := front + [Record(rest, sizes[i])];
    }
  }

  /** Up to an element that is reached, each size has made one record. */
  lemma {:induction false} OnePerSize(b: seq<Byte>, sizes: seq<int>, i: nat) returns (front: seq<seq<Byte>>)
    requires ValidSizes(sizes) && i <= |sizes| && Reached(|b|, sizes, i)
    ensures Begins(b, sizes, i, front)
  {
    if i == 0 {
      front := [];
      NothingYet(b, sizes);
    } else {
      front := OnePerSize(b, sizes, i - 1);
      assert sizes[i - 1] == -1 ==> SumBefore(sizes, i - 1) < |b|;
      front := OneMore(b, sizes, i - 1, front, Left(b, sizes, i - 1));
    }
  }

  /**
   Each size reached makes the next record: exactly that many payload bytes while more are
   left; the last of the payload filled up with waste to exactly that length where a frame
   fits and is not too long; the last of the payload bare where none fits; a waste frame of
   its own afterwards.
   */
  lemma {:induction false} RecordShape(b: seq<Byte>, sizes: seq<int>, i: nat)
    requires ValidSizes(sizes) && i < |sizes| && sizes[i] != -1 && Reached(|b|, sizes, i)
    ensures var records, at := Records(b, sizes, 0), SizesBefore(sizes, i);
            at < |records| && Shaped(Left(b, sizes, i), sizes[i], records[at])
  {
    var front := OnePerSize(b, sizes, i);
    RecordIsShaped(Left(b, sizes, i), sizes[i]);
  }

  /** A check mark that finds the payload used up ends the write: only the sizes before it made records. */
  lemma {:induction false} CheckMarkStops(b: seq<Byte>, sizes: seq<int>, i: nat)
    requires ValidSizes(sizes) && i < |sizes| && sizes[i] == -1 && Reached(|b|, sizes, i) && SumBefore(sizes, i) >= |b|
    ensures |Records(b, sizes, 0)| == SizesBefore(sizes, i)
  {
    var front := OnePerSize(b, sizes, i);
  }

  /** Without such a check mark every size makes a record, and what payload they leave goes out bare. */
  lemma {:induction false} RestGoesBare(b: seq<Byte>, sizes: seq<int>)
    requires ValidSizes(sizes) && Reached(|b|, sizes, |sizes|)
    ensures var records, sum, count := Records(b, sizes, 0), SumBefore(sizes, |sizes|), SizesBefore(sizes, |sizes|);
            if sum < |b| then |records| == count + 1 && records[count] == b[sum..] else |records| == count
  {
    var front := OnePerSize(b, sizes, |sizes|);
  }

  /** One of the two happens, so the three lemmas above say all there is to say of a padded write. */
  lemma {:induction false} StopsOrNot(len: nat, sizes: seq<int>, n: nat)
    requires ValidSizes(sizes) && n <= |sizes|
    ensures Reached(len, sizes, n)
         || exists i :: 0 <= i < n && sizes[i] == -1 && Reached(len, sizes, i) && SumBefore(sizes, i) >= len
  {
    if n > 0 {
      StopsOrNot(len, sizes, n - 1);
    }
  }

  /** The padding state after so many writes of a new session, under rules that stay the same. */
  ghost function After(padding: Padding, writes: nat): PadState {
    if writes == 0 then PadState(true, 0) else AfterWrite(After(padding, writes - 1), padding)
  }

  lemma {:induction false} CountedWrites(padding: Padding, writes: nat)
    ensures var p := After(padding, writes);
            if writes == 0 || writes < padding.stop then p == PadState(true, writes) else !p.sendPadding
  {
    if writes > 0 {
      CountedWrites(padding, writes - 1);
    }
  }

  /** The first `stop - 1` writes of a session are cut by the size list; every later one is a single bare record. */
  lemma {:induction false} PaddingEnds(padding: Padding, writes: nat, b: seq<Byte>)
    requires ValidSizes(padding.sizes)
    ensures RecordsFor(After(padding, writes), b, padding) ==
            if writes + 1 < padding.stop then Records(b, padding.sizes, 0) else [b]
  {
    CountedWrites(padding, writes);
  }
}
