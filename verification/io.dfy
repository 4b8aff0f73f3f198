/** Byte-level vocabulary shared by the sender and the receiver: bytes, the
    error an I/O call reports, and the semantics of io.ReadFull that both
    loops rely on. */
module Io {

  type Byte = bv8

  /** The error returned by an I/O call, reduced to the cases the two loops
      tell apart: nil, io.EOF, io.ErrUnexpectedEOF, a net.Error whose
      Timeout() is true, and anything else. */
  datatype Status = Ok | Eof | UnexpectedEof | Timeout | Failed

  /** Why the underlying reader stopped producing bytes: the input is
      exhausted, the deadline expired, or some other error occurred. */
  datatype Stop = AtEnd | Expired | Broken

  datatype ReadResult = ReadResult(n: nat, status: Status)

  /** The two errors both loops treat as the end of the input. */
  predicate EndOfInput(st: Status) {
    st == Eof || st == UnexpectedEof
  }

  function Min(a: nat, b: nat): nat {
    if a <= b then a else b
  }

  /** io.ReadFull(r, buf) with len(buf) == want, where the reader r can hand
      over `got` more bytes before it stops for the reason `stop`.
      io.ReadFull is io.ReadAtLeast with min == len(buf): it keeps calling
      Read until the buffer is full or Read fails; a full buffer clears the
      error, a zero-length buffer never calls Read at all, and an io.EOF
      after some bytes becomes io.ErrUnexpectedEOF. */
  function ReadFull(want: nat, got: nat, stop: Stop): (r: ReadResult)
    ensures r.n <= want && r.n <= got
    ensures r.status == Ok <==> r.n == want
    ensures r.status != Ok ==> r.n == got
    ensures r.status == Eof <==> 0 < want && got == 0 && stop == AtEnd
    ensures r.status == UnexpectedEof <==> 0 < got < want && stop == AtEnd
    ensures r.status == Timeout <==> got < want && stop == Expired
    ensures r.status == Failed <==> got < want && stop == Broken
  {
    if want == 0 then ReadResult(0, Ok)
    else if got >= want then ReadResult(want, Ok)
    else match stop
      case AtEnd => ReadResult(got, if got == 0 then Eof else UnexpectedEof)
      case Expired => ReadResult(got, Timeout)
      case Broken => ReadResult(got, Failed)
  }
}
