/** Where a stream of chunks of known lengths stands when only its first bytes arrive. */
module Truncation {

  /** How many chunks are complete in the first `n` bytes. */
  function WholeCount(lens: seq<nat>, n: nat): (k: nat)
    ensures k <= |lens|
  {
    if lens == [] || n < lens[0] then 0 else 1 + WholeCount(lens[1..], n - lens[0])
  }

  /** How many bytes follow the last complete chunk. */
  function Leftover(lens: seq<nat>, n: nat): nat {
    if lens == [] || n < lens[0] then n else Leftover(lens[1..], n - lens[0])
  }

  /** The first `n` bytes end at a chunk boundary or just after a header, or go past all chunks and a header. */
  predicate CleanCut(lens: seq<nat>, header: nat, n: nat) {
    var at := Leftover(lens, n);
    at == 0 || at == header || (WholeCount(lens, n) == |lens| && at > header)
  }

  function Sum(lens: seq<nat>): nat {
    if lens == [] then 0 else lens[0] + Sum(lens[1..])
  }

  /** The complete chunks and the bytes after them are all `n` bytes, and another chunk would not fit. */
  lemma {:induction false} WholeCountIsLargest(lens: seq<nat>, n: nat)
    ensures var k := WholeCount(lens, n);
            n == Sum(lens[..k]) + Leftover(lens, n) && (k < |lens| ==> Leftover(lens, n) < lens[k])
  {
    if lens != [] && n >= lens[0] {
      var tail, k := lens[1..], WholeCount(lens[1..], n - lens[0]);
      WholeCountIsLargest(tail, n - lens[0]);
      assert lens[..k + 1][1..] == tail[..k];
    }
  }

  lemma {:induction false} PastAllChunks(lens: seq<nat>, n: nat)
    requires n >= Sum(lens)
    ensures WholeCount(lens, n) == |lens| && Leftover(lens, n) == n - Sum(lens)
  {
    if lens != [] {
      PastAllChunks(lens[1..], n - lens[0]);
    }
  }
}
