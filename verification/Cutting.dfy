/** Cutting a byte string into pieces of a fixed size, the last one possibly shorter. */
module Cutting {
  import opened Bytes
  import opened Quotients

  /** The bytes from `off` on, cut every `per` bytes. */
  function Pieces(payload: seq<Byte>, per: nat, off: nat): (ps: seq<seq<Byte>>)
    requires per > 0 && off <= |payload|
    ensures forall i :: 0 <= i < |ps| ==> 0 < |ps[i]| <= per
    decreases |payload| - off
  {
    if off == |payload| then []
    else
      var end := if |payload| - off > per then off + per else |payload|;
      [payload[off..end]] + Pieces(payload, per, end)
  }

  lemma {:induction false} FirstPiece(payload: seq<Byte>, per: nat, off: nat, len: nat)
    requires per > 0 && off < |payload| && len == Min(per, |payload| - off)
    ensures Pieces(payload, per, off) == [payload[off..off + len]] + Pieces(payload, per, off + len)
  {
  }

  lemma {:induction false} PiecesJoin(payload: seq<Byte>, per: nat, off: nat)
    requires per > 0 && off <= |payload|
    ensures Flatten(Pieces(payload, per, off)) == payload[off..]
    decreases |payload| - off
  {
    if off < |payload| {
      var end := if |payload| - off > per then off + per else |payload|;
      PiecesJoin(payload, per, end);
      assert payload[off..] == payload[off..end] + payload[end..];
    }
  }

  lemma {:induction false} PiecesCount(payload: seq<Byte>, per: nat, off: nat)
    requires per > 0 && off <= |payload|
    ensures |Pieces(payload, per, off)| == Ceil(|payload| - off, per)
    decreases |payload| - off
  {
    if off < |payload| {
      PiecesCount(payload, per, if |payload| - off > per then off + per else |payload|);
    }
  }

  /** Piece `i` starts `i` pieces in, and is of full length unless it is the last. */
  lemma {:induction false} PieceAt(payload: seq<Byte>, per: nat, off: nat, i: nat)
    requires per > 0 && off <= |payload| && i < |Pieces(payload, per, off)|
    ensures var at := off + i * per;
            at < |payload| && Pieces(payload, per, off)[i] == payload[at..if |payload| - at > per then at + per else |payload|]
    decreases i
  {
    if i > 0 {
      assert |payload| - off > per;
      PieceAt(payload, per, off + per, i - 1);
      assert (i - 1) * per + per == i * per;
    }
  }

  lemma {:induction false} PieceNoLonger(payload: seq<Byte>, per: nat, off: nat, i: nat)
    requires per > 0 && off <= |payload| && i < |Pieces(payload, per, off)|
    ensures |Pieces(payload, per, off)[i]| <= |payload|
    decreases |payload| - off
  {
    if i > 0 {
      PieceNoLonger(payload, per, if |payload| - off > per then off + per else |payload|, i - 1);
    }
  }

  lemma {:induction false} NextPiece(pieces: seq<seq<Byte>>, k: nat, data: seq<Byte>, rest: seq<seq<Byte>>)
    requires k <= |pieces| && pieces[k..] == [data] + rest
    ensures k < |pieces| && pieces[k] == data && pieces[k + 1..] == rest
  {
    assert pieces[k..][0] == data && pieces[k..][1..] == rest;
  }

  /** Several texts, each cut on its own. */
  function AllPieces(texts: seq<seq<Byte>>, per: nat): (ps: seq<seq<Byte>>)
    requires per > 0
    ensures forall i :: 0 <= i < |ps| ==> 0 < |ps[i]| <= per
  {
    if texts == [] then []
    else AllPieces(texts[..|texts| - 1], per) + Pieces(texts[|texts| - 1], per, 0)
  }

  lemma {:induction false} AllPiecesSnoc(texts: seq<seq<Byte>>, i: nat, per: nat)
    requires per > 0 && i < |texts|
    ensures AllPieces(texts[..i + 1], per) == AllPieces(texts[..i], per) + Pieces(texts[i], per, 0)
  {
    assert texts[..i + 1][..i] == texts[..i];
  }

  lemma {:induction false} AllPiecesJoin(texts: seq<seq<Byte>>, per: nat)
    requires per > 0
    ensures Flatten(AllPieces(texts, per)) == Flatten(texts)
  {
    if texts != [] {
      var n := |texts| - 1;
      AllPiecesJoin(texts[..n], per);
      FlattenAppend(AllPieces(texts[..n], per), Pieces(texts[n], per, 0));
      PiecesJoin(texts[n], per, 0);
      assert texts[n][0..] == texts[n] && texts[..n + 1] == texts;
      FlattenSnoc(texts, n);
    }
  }
}
