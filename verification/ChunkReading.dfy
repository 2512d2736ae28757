/**
 What the readers of chunk streams share: plaintext decrypted but not handed out is
 served before the next chunk is opened, and a stream that is cut off ends in one of
 two errors.
 */
module ChunkReading {
  import opened Bytes
  import opened Truncation

  /** A reader as a value: its codec position, plaintext not handed out yet, bytes to come. */
  datatype View<+P> = View(at: P, left: seq<Byte>, wire: seq<Byte>)

  datatype Handed<+P> = Handed(bytes: seq<Byte>, view: View<P>)

  function Taken<P>(v: View<P>, size: nat): Handed<P> {
    var n := Min(size, |v.left|);
    Handed(v.left[..n], v.(left := v.left[n..]))
  }

  lemma {:induction false} TakenThenRest<P>(v: View<P>, size: nat, later: seq<Byte>)
    ensures var h := Taken(v, size);
            && h.view.at == v.at && h.view.wire == v.wire && |h.bytes| <= size
            && v.left + later == h.bytes + (h.view.left + later)
  {
  }

  /** What reading a stream to its end gives: the chunks, and the error after them. */
  datatype Decoding<+E> = Decoding(parts: seq<seq<Byte>>, end: E)

  ghost predicate NoneEmpty(parts: seq<seq<Byte>>) {
    forall i :: 0 <= i < |parts| ==> parts[i] != []
  }

  function Prepend<E>(data: seq<Byte>, d: Decoding<E>): Decoding<E> {
    Decoding([data] + d.parts, d.end)
  }

  lemma {:induction false} FlattenPrepended<E>(data: seq<Byte>, d: Decoding<E>)
    ensures Flatten(Prepend(data, d).parts) == data + Flatten(d.parts)
  {
    assert ([data] + d.parts)[1..] == d.parts;
  }

  lemma {:induction false} PrependedNotEmpty<E>(data: seq<Byte>, d: Decoding<E>)
    requires NoneEmpty(Prepend(data, d).parts)
    ensures data != [] && NoneEmpty(d.parts)
  {
    var parts := Prepend(data, d).parts;
    assert parts[0] == data;
    forall i | 0 <= i < |d.parts| ensures d.parts[i] != [] {
      assert parts[i + 1] == d.parts[i];
    }
  }

  /**
   What a reader gets of chunks with these lengths when only the first `n` bytes
   arrive: the complete ones, and then `clean` or `broken` by where the cut is.
   */
  function Arrived<E>(lens: seq<nat>, header: nat, pieces: seq<seq<Byte>>, n: nat, clean: E, broken: E): Decoding<E>
    requires |lens| == |pieces|
  {
    Decoding(pieces[..WholeCount(lens, n)], if CleanCut(lens, header, n) then clean else broken)
  }

  lemma {:induction false} ArrivedStep<E>(lens: seq<nat>, header: nat, pieces: seq<seq<Byte>>, n: nat, clean: E, broken: E)
    requires |lens| == |pieces| > 0 && n >= lens[0]
    ensures Arrived(lens, header, pieces, n, clean, broken) ==
            Prepend(pieces[0], Arrived(lens[1..], header, pieces[1..], n - lens[0], clean, broken))
  {
    var k := WholeCount(lens[1..], n - lens[0]);
    assert pieces[..k + 1] == [pieces[0]] + pieces[1..][..k];
  }

  lemma {:induction false} ArrivedNone<E>(lens: seq<nat>, header: nat, pieces: seq<seq<Byte>>, n: nat, clean: E, broken: E)
    requires |lens| == |pieces| && (lens != [] ==> n < lens[0])
    ensures Arrived(lens, header, pieces, n, clean, broken) ==
            Decoding([], if n == 0 || n == header || (lens == [] && n > header) then clean else broken)
  {
  }

  /** Nothing is lost when all chunks are there. */
  lemma {:induction false} AllArrived<E>(lens: seq<nat>, header: nat, pieces: seq<seq<Byte>>, n: nat, clean: E, broken: E)
    requires |lens| == |pieces| && n >= Sum(lens)
    ensures Arrived(lens, header, pieces, n, clean, broken).parts == pieces
  {
    PastAllChunks(lens, n);
    assert pieces[..|pieces|] == pieces;
  }

  lemma {:induction false} PrefixFlattens(pieces: seq<seq<Byte>>, k: nat)
    requires k <= |pieces|
    ensures Flatten(pieces[..k]) <= Flatten(pieces)
  {
    FlattenAppend(pieces[..k], pieces[k..]);
    assert pieces[..k] + pieces[k..] == pieces;
  }
}
