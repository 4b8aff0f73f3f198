/** The receiver (server/main.go): the reference digest computed up front,
    the receive loop that accumulates whatever arrives, and the final
    comparison. The connection is modelled as the finite byte stream the
    peer sends before closing, together with how far into it the reads have
    got. */
module Server {
  import opened Io
  import opened Scheduler
  import opened Hashing

  /** The log.Fatal calls: an unreadable reference file, a failed deadline
      and a read error other than a timeout or the end of the stream. */
  datatype Fault = ReferenceUnreadable | DeadlineRejected | ReadFailed

  /** What the connection does during one io.ReadFull: `arrived` bytes come
      in before it stops for the reason `stop`. AtEnd means the peer has
      closed, so every byte still in the stream arrives before io.EOF. */
  datatype ReadReply = ReadReply(arrived: nat, stop: Stop)

  /** Everything the environment decides in one iteration. */
  datatype RecvEnv = RecvEnv(draw: Draw, deadlineFault: bool, reply: ReadReply)

  /** `pos` is how far into the peer's stream the reads have got; it belongs
      to the connection, not to the program. */
  datatype Receiver = Receiver(pos: nat, hash: Hasher, readCount: nat, bytes: nat, timeouts: nat, done: bool)

  /** The loop state right after `hash.Reset()`. */
  const Start: Receiver := Receiver(0, Fresh, 0, 0, 0, false)

  datatype Step = Next(state: Receiver) | Abort(fault: Fault, state: Receiver)

  /** The loop invariant: the hash has seen exactly the stream's bytes up to
      `pos`, in order, `bytes` counts them, and `done` holds only once the
      whole stream has been consumed. */
  predicate Inv(stream: seq<Byte>, s: Receiver) {
    && s.pos <= |stream|
    && s.hash.fed == stream[..s.pos]
    && s.bytes == s.pos
    && (s.done ==> s.pos == |stream|)
  }

  /** How many bytes the reader can hand over before it stops. */
  function Delivered(stream: seq<Byte>, s: Receiver, e: RecvEnv): nat
    requires s.pos <= |stream|
  {
    if e.reply.stop == AtEnd then |stream| - s.pos else Min(e.reply.arrived, |stream| - s.pos)
  }

  /** `io.ReadFull(conn, b)` with `b := make([]byte, toRead)`. */
  function ConnRead(stream: seq<Byte>, s: Receiver, e: RecvEnv): ReadResult
    requires s.pos <= |stream|
  {
    ReadFull(Schedule(e.draw).size, Delivered(stream, s, e), e.reply.stop)
  }

  /** One iteration of the `for !done` loop.
      - It keeps the invariant even when it aborts, because the bytes
        received are hashed and counted before the error is looked at; they
        are never discarded, a timeout included.
      - From a running state it sets `done` exactly when the peer has
        closed and the window is larger than what is left of the stream,
        i.e. exactly on io.EOF or io.ErrUnexpectedEOF; no byte count is
        consulted.
      - A timeout is counted and the loop goes on; any other error than a
        timeout or the end of the stream aborts the run. */
  function RecvStep(stream: seq<Byte>, s: Receiver, e: RecvEnv): (r: Step)
    requires Inv(stream, s)
    ensures Inv(stream, r.state)
    ensures r.state.pos >= s.pos && s.hash.fed <= r.state.hash.fed
    ensures !e.deadlineFault ==>
      && r.state.pos == s.pos + ConnRead(stream, s, e).n
      && r.state.bytes == s.bytes + ConnRead(stream, s, e).n
      && r.state.readCount == s.readCount + 1
    ensures !e.deadlineFault && !s.done ==>
      (r.state.done <==> e.reply.stop == AtEnd && Schedule(e.draw).size > |stream| - s.pos)
    ensures r.Abort? <==> e.deadlineFault || ConnRead(stream, s, e).status == Failed
    ensures r.Next? ==>
      r.state.timeouts == s.timeouts + (if ConnRead(stream, s, e).status == Timeout then 1 else 0)
  {
    if e.deadlineFault then Abort(DeadlineRejected, s)
    else
      var rd := ConnRead(stream, s, e);
      var b := stream[s.pos..s.pos + rd.n];
      assert s.hash.fed + b == stream[..s.pos + rd.n];
      var read := s.(pos := s.pos + rd.n, hash := s.hash.Write(b), readCount := s.readCount + 1, bytes := s.bytes + rd.n);
      var checked := if EndOfInput(rd.status) then read.(done := true) else read;
      if rd.status == Timeout then Next(checked.(timeouts := checked.timeouts + 1))
      else if rd.status == Failed then Abort(ReadFailed, checked)
      else Next(checked)
  }

  /** How a receive run driven by a finite script ends. */
  datatype Outcome = Finished(state: Receiver) | Aborted(fault: Fault, state: Receiver) | Unfinished(state: Receiver)

  /** The receive loop from state s. Whatever happens the accumulated bytes
      are a prefix of the stream; when the loop finishes they are the whole
      stream and `bytes` is its length. */
  function Run(stream: seq<Byte>, s: Receiver, script: seq<RecvEnv>): (o: Outcome)
    requires Inv(stream, s)
    ensures o.state.hash.fed <= stream
    ensures o.Finished? ==> o.state.hash.fed == stream && o.state.bytes == |stream|
    decreases |script|
  {
    if s.done then Finished(s)
    else if |script| == 0 then Unfinished(s)
    else match RecvStep(stream, s, script[0])
      case Abort(f, t) => Aborted(f, t)
      case Next(t) => Run(stream, t, script[1..])
  }

  /** The loop of server/main.go, iteration by iteration. */
  method Receive(stream: seq<Byte>, script: seq<RecvEnv>) returns (o: Outcome)
    ensures o == Run(stream, Start, script)
    ensures o.Finished? ==> o.state.hash.fed == stream
  {
    var s := Start;
    var i := 0;
    while !s.done && i < |script|
      invariant 0 <= i <= |script|
      invariant Inv(stream, s)
      invariant Run(stream, s, script[i..]) == Run(stream, Start, script)
    {
      assert script[i..][1..] == script[i + 1..];
      match RecvStep(stream, s, script[i])
      case Abort(f, t) =>
        return Aborted(f, t);
      case Next(t) =>
        s := t;
        i := i + 1;
    }
    if s.done {
      o := Finished(s);
    } else {
      o := Unfinished(s);
    }
  }

  /** The verdict of a server run: the digests agree, the data was
      corrupted, an I/O error aborted the run, or the script ran out. */
  datatype Verdict = Verified | Corrupted | IoFailure(fault: Fault) | Pending

  /** The whole server: digest the reference file (unless reading it
      fails), reset the hash, run the receive loop over the stream, then
      compare the two digests in constant time. The run is verified exactly
      when the received stream has the reference file's digest, and a
      mismatch is reported as corruption, not as an I/O error. */
  function Serve(file: seq<Byte>, referenceFault: bool, stream: seq<Byte>, script: seq<RecvEnv>,
                 sha1: seq<Byte> -> Digest): (v: Verdict)
    ensures v.Verified? ==> !referenceFault && sha1(stream) == sha1(file)
    ensures v.Corrupted? ==> !referenceFault && sha1(stream) != sha1(file)
    ensures !referenceFault && Run(stream, Start, script).Finished? ==>
      (v.Verified? <==> sha1(stream) == sha1(file)) && (v.Verified? || v.Corrupted?)
    ensures v.IoFailure? <==> referenceFault || Run(stream, Start, script).Aborted?
    ensures v.Verified? || v.Corrupted? ==> !referenceFault && Run(stream, Start, script).Finished?
    ensures v.Pending? <==> !referenceFault && Run(stream, Start, script).Unfinished?
  {
    if referenceFault then IoFailure(ReferenceUnreadable)
    else
      var reference := Fresh.Write(file);
      assert reference.fed == file;
      var expected := reference.Sum(sha1);
      var start := Start.(hash := reference.Reset());
      assert start == Start;
      match Run(stream, start, script)
      case Finished(s) =>
        if ConstantTimeCompare(expected, s.hash.Sum(sha1)) == 1 then Verified else Corrupted
      case Aborted(f, _) => IoFailure(f)
      case Unfinished(_) => Pending
  }
}
