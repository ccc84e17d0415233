/**
 * The two stream operations the codec relies on, over byte sequences:
 * `io.ReadFull` on a reader that holds finitely many bytes, and `Write` on a
 * writer that accepts a bounded number of further bytes.
 */
module Io {

  import opened Options

  datatype IoError =
    | EOF            // io.EOF: nothing could be read
    | UnexpectedEOF  // io.ErrUnexpectedEOF: the source ended part-way
    | ShortWrite     // the writer accepted fewer bytes than were given

  datatype ReadResult = ReadResult(data: seq<bv8>, err: Option<IoError>)

  function Min(a: nat, b: nat): nat
  {
    if a <= b then a else b
  }

  /** io.ReadFull(r, buf[:k]) on a reader whose remaining content is `input`:
      what is read is a prefix of `input`, and the read fails exactly when
      fewer than k bytes were available. */
  function ReadFull(input: seq<bv8>, k: nat): (r: ReadResult)
    ensures |r.data| == Min(k, |input|) && r.data == input[..|r.data|]
    ensures r.err.None? <==> |r.data| == k
    ensures r.err == Some(EOF) <==> (0 < k && |input| == 0)
  {
    if k <= |input| then ReadResult(input[..k], None)
    else if |input| == 0 then ReadResult([], Some(EOF))
    else ReadResult(input, Some(UnexpectedEOF))
  }

  /** The number of bytes of p that a writer with `room` free bytes accepts. */
  function Accepted(p: seq<bv8>, room: nat): (k: nat)
    ensures k <= |p| && k <= room
    ensures k == |p| || k == room
  {
    Min(|p|, room)
  }
}
