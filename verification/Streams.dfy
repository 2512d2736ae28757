/** Reading from a byte stream that may end at any point, with the errors of the io package. */
module Streams {
  import opened Bytes

  datatype IoError = Eof | UnexpectedEof

  /** A value read, and the bytes after it. */
  datatype Streamed<+T> = Streamed(value: T, rest: seq<Byte>)

  /** io.ReadFull: a stream that ends before the first byte is a clean end, one that ends later is not. */
  function ReadFull(s: seq<Byte>, n: nat): (r: Result<Streamed<seq<Byte>>, IoError>)
    ensures r.Ok? <==> n <= |s|
    ensures r.Ok? ==> |r.value.value| == n && r.value.value + r.value.rest == s
    ensures r.Err? ==> (r.error == Eof <==> s == [])
  {
    if n <= |s| then Ok(Streamed(s[..n], s[n..])) else Err(if s == [] then Eof else UnexpectedEof)
  }

  /** No read is made with an empty buffer. */
  predicate HaveRoom(sizes: seq<nat>) {
    forall i :: 0 <= i < |sizes| ==> sizes[i] > 0
  }
}
