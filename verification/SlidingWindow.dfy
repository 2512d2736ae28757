/**
 Anti-replay filter of ciphers/aead_2022_cipher.go: a bitmap of recently
 accepted packet IDs, stored newest-first in 64-bit words and shifted in place
 when a newer ID arrives.

 A word is written as its 64 bits, least significant first, and Go's unsigned
 shifts, OR and AND are written out on those bits.
 */
module SlidingWindow {
  import opened Bytes

  const WORD_BITS: nat := 64

  type Word = w: seq<bool> | |w| == WORD_BITS witness seq(WORD_BITS, _ => false)

  const ZERO: Word := seq(WORD_BITS, _ => false)

  function Shl(w: Word, s: nat): Word {
    seq(WORD_BITS, j requires 0 <= j < WORD_BITS => j >= s && w[j - s])
  }

  function Shr(w: Word, s: nat): Word {
    seq(WORD_BITS, j requires 0 <= j < WORD_BITS => j + s < WORD_BITS && w[j + s])
  }

  function Or(a: Word, b: Word): Word {
    seq(WORD_BITS, j requires 0 <= j < WORD_BITS => a[j] || b[j])
  }

  function And(a: Word, b: Word): Word {
    seq(WORD_BITS, j requires 0 <= j < WORD_BITS => a[j] && b[j])
  }

  /** `uint64(1) << s` */
  function OneShl(s: nat): Word {
    Shl(seq(WORD_BITS, j => j == 0), s)
  }

  /** Bit `k` of the bitmap, counted across words. */
  predicate BitAt(window: seq<Word>, k: nat)
    requires k < WORD_BITS * |window|
  {
    window[k / WORD_BITS][k % WORD_BITS]
  }

  // --- the specification: a set of accepted IDs -------------------------------

  /** `m` is the largest element of `s`. */
  ghost predicate IsMax(m: U64, s: set<U64>) {
    m in s && forall x :: x in s ==> x <= m
  }

  /**
   What the filter promises: an ID is accepted when it is the first ever, or
   exceeds every accepted ID, or lies fewer than `windowSize` below the largest
   accepted ID and was not accepted before.
   */
  predicate Admits(windowSize: nat, accepted: set<U64>, id: U64) {
    || accepted == {}
    || (forall x :: x in accepted ==> x < id)
    || (id !in accepted && forall x :: x in accepted ==> x - id < windowSize)
  }

  function Advance(windowSize: nat, accepted: set<U64>, id: U64): set<U64> {
    if Admits(windowSize, accepted, id) then accepted + {id} else accepted
  }

  /** The set accepted after a whole sequence of IDs. */
  ghost function AcceptedBy(windowSize: nat, ids: seq<U64>): set<U64> {
    if ids == [] then {}
    else Advance(windowSize, AcceptedBy(windowSize, ids[..|ids| - 1]), ids[|ids| - 1])
  }

  /** Is position `i` of the sequence accepted when its turn comes? */
  ghost predicate AcceptedAt(windowSize: nat, ids: seq<U64>, i: nat)
    requires i < |ids|
  {
    Admits(windowSize, AcceptedBy(windowSize, ids[..i]), ids[i])
  }

  lemma {:induction false} AcceptedSetGrows(windowSize: nat, ids: seq<U64>, i: nat)
    requires i <= |ids|
    ensures AcceptedBy(windowSize, ids[..i]) <= AcceptedBy(windowSize, ids)
    decreases |ids| - i
  {
    if i == |ids| {
      assert ids[..i] == ids;
    } else {
      assert ids[..i + 1][..i] == ids[..i];
      AcceptedSetGrows(windowSize, ids, i + 1);
    }
  }

  /** No ID is ever accepted twice, for any window size and any sequence of IDs. */
  lemma {:induction false} NeverAcceptedTwice(windowSize: nat, ids: seq<U64>, i: nat, j: nat)
    requires i < j < |ids|
    requires AcceptedAt(windowSize, ids, i) && AcceptedAt(windowSize, ids, j)
    ensures ids[i] != ids[j]
  {
    var before, upTo := ids[..i], ids[..i + 1];
    assert upTo[..i] == before && ids[..j][..i + 1] == upTo;
    assert ids[i] in AcceptedBy(windowSize, upTo);
    AcceptedSetGrows(windowSize, ids[..j], i + 1);
    assert ids[i] in AcceptedBy(windowSize, ids[..j]);
  }

  /** The largest accepted ID is the largest ID presented: rejection never hides a new maximum. */
  lemma {:induction false} MaximumIsPresented(windowSize: nat, ids: seq<U64>) returns (m: U64)
    requires ids != []
    ensures IsMax(m, AcceptedBy(windowSize, ids)) && m in ids && forall x :: x in ids ==> x <= m
  {
    var front, last := ids[..|ids| - 1], ids[|ids| - 1];
    assert ids == front + [last];
    m := last;
    if front != [] {
      var before := MaximumIsPresented(windowSize, front);
      m := if last > before then last else before;
      MaximumAdvances(windowSize, AcceptedBy(windowSize, front), before, last);
    }
  }

  lemma {:induction false} MaximumAdvances(windowSize: nat, accepted: set<U64>, m: U64, id: U64)
    requires IsMax(m, accepted)
    ensures IsMax(if id > m then id else m, Advance(windowSize, accepted, id))
  {
  }

  /** Within the window a fresh ID is never turned away, whatever came before. */
  lemma {:induction false} FreshIsAccepted(windowSize: nat, ids: seq<U64>, i: nat)
    requires i < |ids|
    requires ids[i] !in ids[..i]
    requires forall k :: 0 <= k < i ==> ids[k] - ids[i] < windowSize
    ensures AcceptedAt(windowSize, ids, i)
  {
    AcceptedWerePresented(windowSize, ids[..i]);
    var accepted := AcceptedBy(windowSize, ids[..i]);
    forall x | x in accepted ensures x - ids[i] < windowSize && x != ids[i] {
      var k :| 0 <= k < i && ids[..i][k] == x;
      assert ids[k] == x;
    }
  }

  lemma {:induction false} AcceptedWerePresented(windowSize: nat, ids: seq<U64>)
    ensures forall x :: x in AcceptedBy(windowSize, ids) ==> x in ids
  {
    if ids != [] {
      var front := ids[..|ids| - 1];
      AcceptedWerePresented(windowSize, front);
      assert ids == front + [ids[|ids| - 1]];
    }
  }

  /**
   The verdict on every ID of every sequence, from the sequence alone: accepted if and only
   if it was never presented before and every ID presented before is less than `windowSize`
   above it.
   */
  lemma {:induction false} AcceptedExactly(windowSize: nat, ids: seq<U64>, i: nat)
    requires i < |ids|
    ensures AcceptedAt(windowSize, ids, i) <==>
            (forall k :: 0 <= k < i ==> ids[k] != ids[i] && ids[k] - ids[i] < windowSize)
  {
    if forall k :: 0 <= k < i ==> ids[k] != ids[i] && ids[k] - ids[i] < windowSize {
      FreshIsAccepted(windowSize, ids, i);
    }
    if AcceptedAt(windowSize, ids, i) {
      forall k | 0 <= k < i ensures ids[k] != ids[i] && ids[k] - ids[i] < windowSize {
        AcceptedIsWithin(windowSize, ids, i, k);
        AcceptedIsFresh(windowSize, ids, i, k);
      }
    }
  }

  lemma {:induction false} AcceptedIsWithin(windowSize: nat, ids: seq<U64>, i: nat, k: nat)
    requires k < i < |ids| && AcceptedAt(windowSize, ids, i)
    ensures ids[k] - ids[i] < windowSize
  {
    var m := MaximumIsPresented(windowSize, ids[..i]);
    assert ids[..i][k] in ids[..i];
    assert ids[k] <= m && m in AcceptedBy(windowSize, ids[..i]);
    assert m < ids[i] || m - ids[i] < windowSize;
  }

  lemma {:induction false} AcceptedIsFresh(windowSize: nat, ids: seq<U64>, i: nat, k: nat)
    requires k < i < |ids| && AcceptedAt(windowSize, ids, i)
    ensures ids[k] != ids[i]
  {
    if ids[k] == ids[i] {
      var early, late := AcceptedBy(windowSize, ids[..k]), AcceptedBy(windowSize, ids[..i]);
      if AcceptedAt(windowSize, ids, k) {
        NeverAcceptedTwice(windowSize, ids, k, i);
      } else {
        assert ids[..i][..k] == ids[..k];
        AcceptedSetGrows(windowSize, ids[..i], k);
      }
    }
  }

  // --- the implementation -----------------------------------------------------

  /** The contents of a filter. */
  datatype Bitmap = Bitmap(window: seq<Word>, latest: U64, initialized: bool)

  /** The bits at distance 0, 1, ... below the latest ID are those of the accepted IDs. */
  ghost predicate Records(b: Bitmap, windowSize: nat, accepted: set<U64>) {
    && 0 < windowSize
    && |b.window| == (windowSize + 63) / WORD_BITS
    && (b.initialized <==> accepted != {})
    && (b.initialized ==> IsMax(b.latest, accepted))
    && (forall k: nat :: k < windowSize ==>
          (BitAt(b.window, k) <==> b.initialized && b.latest - k in accepted))
  }

  class Filter {
    const window: array<Word>
    const windowSize: nat
    var latest: U64
    var initialized: bool
    /** Every packet ID accepted so far. */
    ghost var accepted: set<U64>

    ghost predicate Valid()
      reads this, window
    {
      Records(Contents(), windowSize, accepted)
    }

    function Contents(): Bitmap
      reads this, window
    {
      Bitmap(window[..], latest, initialized)
    }

    /** A filter with given contents. */
    constructor Holding(b: Bitmap, size: nat, ghost accepted: set<U64>)
      requires Records(b, size, accepted)
      ensures Valid() && Contents() == b && this.accepted == accepted && windowSize == size && fresh(window)
    {
      windowSize := size;
      window := new Word[|b.window|](i requires 0 <= i < |b.window| => b.window[i]);
      latest, initialized := b.latest, b.initialized;
      this.accepted := accepted;
      new;
      assert window[..] == b.window;
    }

    constructor (size: int)
      ensures Valid() && accepted == {} && fresh(window)
      ensures windowSize == if size <= 0 then 1024 else size
    {
      var n := if size <= 0 then 1024 else size;
      windowSize := n;
      window := new Word[(n + 63) / WORD_BITS](_ => ZERO);
      latest := 0;
      initialized := false;
      accepted := {};
    }

    method CheckAndUpdate(packetID: U64) returns (ok: bool)
      requires Valid()
      modifies this, window
      ensures Valid()
      ensures ok <==> Admits(windowSize, old(accepted), packetID)
      ensures accepted == Advance(windowSize, old(accepted), packetID)
    {
      if !initialized {
        initialized := true;
        latest := packetID;
        SetBit(0);
        accepted := {packetID};
        return true;
      }
      if packetID > latest {
        ok := AcceptNewer(packetID);
      } else {
        ok := CheckWithin(packetID);
      }
    }

    /** A packet ID above every accepted one always gets in. */
    method AcceptNewer(packetID: U64) returns (ok: bool)
      requires Valid() && initialized && packetID > latest
      modifies this, window
      ensures Valid() && ok && accepted == Advance(windowSize, old(accepted), packetID)
      ensures Admits(windowSize, old(accepted), packetID)
    {
      ShiftWindow(packetID - latest);
      latest := packetID;
      SetBit(0);
      accepted := accepted + {packetID};
      ok := true;
    }

    /** A packet ID that is not newer gets in when it is inside the window and its bit is clear. */
    method CheckWithin(packetID: U64) returns (ok: bool)
      requires Valid() && initialized && packetID <= latest
      modifies this, window
      ensures Valid()
      ensures ok <==> Admits(windowSize, old(accepted), packetID)
      ensures accepted == Advance(windowSize, old(accepted), packetID)
    {
      var distance := latest - packetID;
      if distance >= windowSize {
        return false;
      }
      var set? := GetBit(distance);
      if set? {
        return false;
      }
      SetBit(distance);
      accepted := accepted + {packetID};
      return true;
    }

    method GetBit(index: nat) returns (b: bool)
      requires index < WORD_BITS * window.Length
      ensures b == BitAt(window[..], index)
    {
      var masked := And(window[index / WORD_BITS], OneShl(index % WORD_BITS));
      b := masked != ZERO;
      if b {
        var j :| 0 <= j < WORD_BITS && masked[j] != ZERO[j];
      } else {
        assert !masked[index % WORD_BITS];
      }
    }

    method SetBit(index: nat)
      requires index < WORD_BITS * window.Length
      modifies window
      ensures forall k: nat :: k < WORD_BITS * window.Length ==>
                (BitAt(window[..], k) <==> k == index || BitAt(old(window[..]), k))
    {
      window[index / WORD_BITS] := Or(window[index / WORD_BITS], OneShl(index % WORD_BITS));
    }

    /** Every recorded distance grows by `shift`; distances pushed past the last word fall off. */
    method ShiftWindow(shift: nat)
      requires 0 < windowSize && window.Length == (windowSize + 63) / WORD_BITS
      modifies window
      ensures shift < windowSize ==> Raised(old(window[..]), window[..], shift)
      ensures shift >= windowSize ==> forall k: nat :: k < WORD_BITS * window.Length ==> !BitAt(window[..], k)
    {
      if shift >= windowSize {
        ClearWindow();
        return;
      }
      var wordShift, bitShift := shift / WORD_BITS, shift % WORD_BITS;
      SplitShift(shift, windowSize);
      ghost var was := window[..];
      ShiftWords(wordShift);
      ghost var moved := window[..];
      ShiftBits(bitShift);
      ComposeShifts(was, moved, window[..], wordShift, bitShift, shift);
    }

    method ClearWindow()
      modifies window
      ensures forall k: nat :: k < WORD_BITS * window.Length ==> !BitAt(window[..], k)
    {
      for i := 0 to window.Length
        invariant forall k :: 0 <= k < i ==> window[k] == ZERO
      {
        window[i] := ZERO;
      }
    }

    method ShiftWords(wordShift: nat)
      requires wordShift <= window.Length
      modifies window
      ensures Raised(old(window[..]), window[..], WORD_BITS * wordShift)
    {
      if wordShift > 0 {
        var i := window.Length - 1;
        while i >= wordShift
          invariant wordShift - 1 <= i < window.Length
          invariant forall k :: 0 <= k <= i ==> window[k] == old(window[k])
          invariant forall k :: i < k < window.Length ==> window[k] == old(window[k - wordShift])
        {
          window[i] := window[i - wordShift];
          i := i - 1;
        }
        for j := 0 to wordShift
          invariant forall k :: 0 <= k < j ==> window[k] == ZERO
          invariant forall k :: wordShift <= k < window.Length ==> window[k] == old(window[k - wordShift])
        {
          window[j] := ZERO;
        }
      }
      WordsRaised(old(window[..]), window[..], wordShift);
    }

    method ShiftBits(bitShift: nat)
      requires bitShift < WORD_BITS && window.Length > 0
      modifies window
      ensures Raised(old(window[..]), window[..], bitShift)
    {
      if bitShift > 0 {
        var i := window.Length - 1;
        while i > 0
          invariant 0 <= i < window.Length
          invariant forall k :: 0 <= k <= i ==> window[k] == old(window[k])
          invariant forall k :: i < k < window.Length ==>
                      window[k] == Or(Shl(old(window[k]), bitShift), Shr(old(window[k - 1]), WORD_BITS - bitShift))
        {
          window[i] := Or(Shl(window[i], bitShift), Shr(window[i - 1], WORD_BITS - bitShift));
          i := i - 1;
        }
        window[0] := Shl(window[0], bitShift);
        BitsRaised(old(window[..]), window[..], bitShift);
      }
    }
  }

  /** `after` is `before` with every recorded position raised by `n`. */
  ghost predicate Raised(before: seq<Word>, after: seq<Word>, n: nat) {
    && |before| == |after|
    && forall k: nat :: k < WORD_BITS * |after| ==> (BitAt(after, k) <==> n <= k && BitAt(before, k - n))
  }

  /** Moving every word raises every position by whole words. */
  lemma {:induction false} WordsRaised(was: seq<Word>, now: seq<Word>, n: nat)
    requires |was| == |now| && n <= |now|
    requires forall k :: 0 <= k < n ==> now[k] == ZERO
    requires forall k :: n <= k < |now| ==> now[k] == was[k - n]
    ensures Raised(was, now, WORD_BITS * n)
  {
    forall k: nat | k < WORD_BITS * |now|
      ensures BitAt(now, k) <==> WORD_BITS * n <= k && BitAt(was, k - WORD_BITS * n)
    {
      if WORD_BITS * n <= k {
        EarlierWord(k, n);
      }
    }
  }

  /** Shifting every word and carrying the top bits of its neighbour in raises every position. */
  lemma {:induction false} BitsRaised(was: seq<Word>, now: seq<Word>, s: nat)
    requires |was| == |now| > 0 && 0 < s < WORD_BITS && now[0] == Shl(was[0], s)
    requires forall k :: 0 < k < |now| ==> now[k] == Or(Shl(was[k], s), Shr(was[k - 1], WORD_BITS - s))
    ensures Raised(was, now, s)
  {
    forall k: nat | k < WORD_BITS * |now| ensures BitAt(now, k) <==> s <= k && BitAt(was, k - s) {
      BitRaised(was, now, s, k);
    }
  }

  lemma {:induction false} BitRaised(was: seq<Word>, now: seq<Word>, s: nat, k: nat)
    requires |was| == |now| > 0 && 0 < s < WORD_BITS && now[0] == Shl(was[0], s) && k < WORD_BITS * |now|
    requires forall i :: 0 < i < |now| ==> now[i] == Or(Shl(was[i], s), Shr(was[i - 1], WORD_BITS - s))
    ensures BitAt(now, k) <==> s <= k && BitAt(was, k - s)
  {
    var word, bit := k / WORD_BITS, k % WORD_BITS;
    if bit >= s {
      SameWord(k, s);
    } else if word > 0 {
      PreviousWord(k, s);
    }
    if word > 0 {
      var high, low := Shl(was[word], s), Shr(was[word - 1], WORD_BITS - s);
      assert now[word] == Or(high, low);
      assert now[word][bit] == (high[bit] || low[bit]);
    } else {
      assert now[0][bit] == Shl(was[0], s)[bit];
    }
  }

  lemma {:induction false} ComposeShifts(a: seq<Word>, b: seq<Word>, c: seq<Word>, words: nat, bits: nat, n: nat)
    requires Raised(a, b, WORD_BITS * words) && Raised(b, c, bits)
    requires n == WORD_BITS * words + bits
    ensures Raised(a, c, n)
  {
    forall k: nat | k < WORD_BITS * |c|
      ensures BitAt(c, k) <==> n <= k && BitAt(a, k - n)
    {
      if bits <= k {
        assert BitAt(c, k) <==> BitAt(b, k - bits);
      }
    }
  }

  lemma {:induction false} SplitShift(shift: nat, windowSize: nat)
    requires shift < windowSize
    ensures WORD_BITS * (shift / WORD_BITS) + shift % WORD_BITS == shift
    ensures shift / WORD_BITS < (windowSize + 63) / WORD_BITS
    ensures shift % WORD_BITS < WORD_BITS
  {
  }

  lemma {:induction false} SameWord(k: nat, s: nat)
    requires s <= k % WORD_BITS
    ensures (k - s) / WORD_BITS == k / WORD_BITS && (k - s) % WORD_BITS == k % WORD_BITS - s
  {
  }

  lemma {:induction false} EarlierWord(k: nat, n: nat)
    requires WORD_BITS * n <= k
    ensures (k - WORD_BITS * n) / WORD_BITS == k / WORD_BITS - n
    ensures (k - WORD_BITS * n) % WORD_BITS == k % WORD_BITS
  {
  }

  lemma {:induction false} PreviousWord(k: nat, s: nat)
    requires k % WORD_BITS < s < WORD_BITS <= k
    ensures (k - s) / WORD_BITS == k / WORD_BITS - 1 && (k - s) % WORD_BITS == k % WORD_BITS - s + WORD_BITS
  {
  }
}
