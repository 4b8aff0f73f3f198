/** The sender's transfer loop (client/main.go): a file cursor, the bytes
    written to the connection, the rolling hash over them, the counters and
    the `done` flag, advanced one iteration at a time by choices of the
    environment. */
module Client {
  import opened Io
  import opened Scheduler
  import opened Hashing

  /** The log.Fatal calls inside the loop. */
  datatype Fault = DeadlineRejected | FileReadFailed | WriteFailed | SeekFailed

  /** The file as a reader: either healthy, or failing once `after` more
      bytes have been read. */
  datatype Disk = Healthy | FailsAfter(after: nat)

  /** What conn.Write reports: how many bytes the connection would take
      (conn.Write returns at most len(b) of them) and its error. */
  datatype WriteReply = WriteReply(accepted: nat, status: Status)

  /** Everything the environment decides in one iteration. */
  datatype SendEnv = SendEnv(draw: Draw, deadlineFault: bool, disk: Disk, reply: WriteReply, seekFault: bool)

  /** `cursor` is the file offset; `sent` is what the connection has
      accepted so far, in order. */
  datatype Sender = Sender(cursor: nat, sent: seq<Byte>, hash: Hasher, writes: nat, bytes: nat, timeouts: nat, done: bool)

  /** The state before the first iteration. */
  const Start: Sender := Sender(0, [], Fresh, 0, 0, 0, false)

  datatype Step = Next(state: Sender) | Abort(fault: Fault, state: Sender)

  /** The loop invariant: exactly the file's bytes before the cursor have
      been sent and hashed, each once and in order, and `done` holds only
      once the cursor has reached the end of the file. */
  predicate Inv(file: seq<Byte>, s: Sender) {
    && s.cursor <= |file|
    && s.sent == file[..s.cursor]
    && s.hash.fed == s.sent
    && s.bytes == s.cursor
    && (s.done ==> s.cursor == |file|)
  }

  /** How many bytes the file can hand over from `cursor` and why it stops. */
  function FileStop(file: seq<Byte>, cursor: nat, disk: Disk): (nat, Stop)
    requires cursor <= |file|
  {
    match disk
    case FailsAfter(k) => if k <= |file| - cursor then (k, Broken) else (|file| - cursor, AtEnd)
    case Healthy => (|file| - cursor, AtEnd)
  }

  /** `io.ReadFull(f, b)` with `b := make([]byte, toWrite)`. */
  function FileRead(file: seq<Byte>, s: Sender, e: SendEnv): ReadResult
    requires s.cursor <= |file|
  {
    var (got, stop) := FileStop(file, s.cursor, e.disk);
    ReadFull(Schedule(e.draw).size, got, stop)
  }

  /** b after `b = b[:n]`. */
  function Chunk(file: seq<Byte>, s: Sender, e: SendEnv): seq<Byte>
    requires s.cursor <= |file|
  {
    var rd := FileRead(file, s, e);
    file[s.cursor..s.cursor + rd.n]
  }

  /** The n returned by conn.Write(b). */
  function Accepted(file: seq<Byte>, s: Sender, e: SendEnv): nat
    requires s.cursor <= |file|
  {
    Min(e.reply.accepted, |Chunk(file, s, e)|)
  }

  /** One iteration of the `for !done` loop.
      - It keeps the invariant, and even an aborting iteration has sent
        only a prefix of the file, all of it hashed.
      - It aborts exactly on a failed deadline, a file read error other
        than the end of the file, a write error other than a timeout, or a
        failed seek when one is needed.
      - Only the accepted prefix b[:n] is sent, hashed and counted; the
        cursor ends up exactly n further (the read moved it len(b) forward,
        the seek len(b) - n back); a timeout is counted.
      - A short write, a timeout that took nothing included, clears `done`
        even when the read hit the end of the file.
      - From a running state the loop finishes exactly when the window is
        larger than what is left of the file (the read reports io.EOF or
        io.ErrUnexpectedEOF) and everything read was written; so a
        zero-size window, or a read that exactly reaches the end of the
        file, never finishes it. */
  function SendStep(file: seq<Byte>, s: Sender, e: SendEnv): (r: Step)
    requires Inv(file, s)
    ensures r.Next? ==> Inv(file, r.state)
    ensures r.state.sent <= file && r.state.hash.fed == r.state.sent
    ensures r.Abort? <==>
      (|| e.deadlineFault
       || FileRead(file, s, e).status == Failed
       || (e.reply.status != Ok && e.reply.status != Timeout)
       || (e.seekFault && Accepted(file, s, e) < |Chunk(file, s, e)|))
    ensures r.Next? ==>
      && r.state.sent == s.sent + Chunk(file, s, e)[..Accepted(file, s, e)]
      && r.state.cursor == s.cursor + Accepted(file, s, e)
      && r.state.bytes == s.bytes + Accepted(file, s, e)
      && r.state.writes == s.writes + 1
      && r.state.timeouts == s.timeouts + (if e.reply.status == Timeout then 1 else 0)
    ensures r.Next? && Accepted(file, s, e) < |Chunk(file, s, e)| ==> !r.state.done
    ensures r.Next? && !s.done ==>
      (r.state.done <==> Schedule(e.draw).size > |file| - s.cursor && Accepted(file, s, e) == |file| - s.cursor)
  {
    if e.deadlineFault then Abort(DeadlineRejected, s)
    else
      var rd := FileRead(file, s, e);
      var b := Chunk(file, s, e);
      var offset := s.cursor + rd.n;
      if rd.status != Ok && !EndOfInput(rd.status) then Abort(FileReadFailed, s.(cursor := offset))
      else
        var done := if EndOfInput(rd.status) then true else s.done;
        var n := Accepted(file, s, e);
        assert s.sent + b[..n] == file[..s.cursor + n];
        var written := s.(cursor := offset, sent := s.sent + b[..n], hash := s.hash.Write(b[..n]),
                          writes := s.writes + 1, bytes := s.bytes + n, done := done);
        if e.reply.status != Ok && e.reply.status != Timeout then Abort(WriteFailed, written)
        else
          var counted := if e.reply.status == Timeout then written.(timeouts := written.timeouts + 1) else written;
          if n == |b| then Next(counted)
          else if e.seekFault then Abort(SeekFailed, counted)
          else Next(counted.(cursor := offset - (|b| - n), done := false))
  }

  /** How a run driven by a finite script of environment choices ends:
      the loop finished, a log.Fatal aborted it, or the script ran out
      while the loop was still going. */
  datatype Outcome = Completed(state: Sender) | Aborted(fault: Fault, state: Sender) | Unfinished(state: Sender)

  /** The loop from state s. On completion the hashed bytes are exactly the
      file, each byte once and in order, and the byte counter equals the
      file size; whatever happens, the connection has carried a prefix of
      the file and the hash has seen exactly those bytes. */
  function Run(file: seq<Byte>, s: Sender, script: seq<SendEnv>): (o: Outcome)
    requires Inv(file, s)
    ensures o.Completed? ==> o.state.sent == file && o.state.hash.fed == file
    ensures o.Completed? ==> o.state.cursor == |file| && o.state.bytes == |file|
    ensures o.state.sent <= file && o.state.hash.fed == o.state.sent
    decreases |script|
  {
    if s.done then Completed(s)
    else if |script| == 0 then Unfinished(s)
    else match SendStep(file, s, script[0])
      case Abort(f, t) => Aborted(f, t)
      case Next(t) => Run(file, t, script[1..])
  }

  /** An empty file is sent in one iteration whenever the first window is
      non-empty and the file can be read: the read reports io.EOF at once
      and the empty write cannot fall short. */
  lemma EmptyFileOneIteration(script: seq<SendEnv>)
    requires |script| > 0
    requires Schedule(script[0].draw).size > 0 && !script[0].deadlineFault
    requires script[0].disk != FailsAfter(0)
    requires script[0].reply.status == Ok || script[0].reply.status == Timeout
    ensures Run([], Start, script).Completed?
    ensures Run([], Start, script).state.writes == 1
    ensures Run([], Start, script).state.hash.fed == []
  {
    var t := SendStep([], Start, script[0]);
    assert t.Next? && t.state.done;
  }

  /** A file that cannot be read at all (a directory, say) aborts the run
      on the first non-empty window, even when it holds no bytes: the read
      error is not io.EOF. */
  lemma UnreadableFileAborts(file: seq<Byte>, script: seq<SendEnv>)
    requires |script| > 0
    requires Schedule(script[0].draw).size > 0 && !script[0].deadlineFault
    requires script[0].disk == FailsAfter(0)
    ensures Run(file, Start, script) == Aborted(FileReadFailed, Start)
    ensures Run(file, Start, script).state.sent == []
  {
    assert FileStop(file, 0, script[0].disk) == (0, Broken);
  }

  /** The loop of client/main.go, iteration by iteration. */
  method Send(file: seq<Byte>, script: seq<SendEnv>) returns (o: Outcome)
    ensures o == Run(file, Start, script)
    ensures o.Completed? ==> o.state.hash.fed == file && o.state.bytes == |file|
  {
    var s := Start;
    var i := 0;
    while !s.done && i < |script|
      invariant 0 <= i <= |script|
      invariant Inv(file, s)
      invariant Run(file, s, script[i..]) == Run(file, Start, script)
    {
      assert script[i..][1..] == script[i + 1..];
      match SendStep(file, s, script[i])
      case Abort(f, t) =>
        return Aborted(f, t);
      case Next(t) =>
        s := t;
        i := i + 1;
    }
    if s.done {
      o := Completed(s);
    } else {
      o := Unfinished(s);
    }
  }
}
