# deadline-test: partial-I/O bookkeeping, modelled in Dafny

The repository is a two-process stress test for one TCP connection. The
client streams a file, and the server reads it back. Every write and every
read gets a random window size and a random deadline. Both sides hash only
the bytes that actually crossed the connection. The server then compares
its digest with a digest of the reference file.

This project models the logic inside the two `for !done` loops:

- how many bytes a partial write or read really moved;
- how the client rewinds its file cursor after a short write;
- how the end of input is told apart from a timeout;
- the final digest comparison.

The environment is a finite script of choices, one entry per iteration:

- the random draws;
- how many bytes the connection takes or delivers;
- which error each call reports;
- which calls fail.

A run that uses up its script without finishing is reported as `Unfinished`
or `Pending`. The model therefore states partial correctness: invariants
that every iteration keeps, and what holds when a loop ends.

Modules:

- `Io` (io.dfy): bytes, the error kinds, and `io.ReadFull` as both loops use it.
- `Scheduler` (scheduler.dfy): the per-iteration `rand.Intn` draws.
- `Hashing` (hashing.dfy): the rolling hash. It also has
  `subtle.ConstantTimeCompare`, written as an OR of byte XORs the way the Go
  library computes it. SHA-1 itself is a function parameter `sha1`.
- `Client` (client.dfy): the sender loop of `client/main.go`. It has a step
  function, a recursive `Run`, and the loop method `Send`.
- `Server` (server.dfy): the receive loop of `server/main.go`, the reference
  digest, and the verdict.
- `Transfer` (transfer.dfy): end-to-end statements. The sender's connection
  output is used as the receiver's input stream.

The connection's write reply is a count, which the model caps at `len(b)`,
plus any error. This admits more behaviours than a real `net.Conn` has (for
example a nil error with a short count). The sender's invariants are proved
for all of them.

On a connection read, "peer closed" means every remaining byte of the stream
arrives before `io.EOF`. A deadline or another error delivers only the bytes
that arrived in time.

## Model

| member | source | states |
|---|---|---|
| Io.ReadFull | client/main.go:43-51 | io.ReadFull semantics: a zero-length buffer gives (0, nil); a full buffer gives nil; at the end of input, zero bytes give io.EOF and some bytes give io.ErrUnexpectedEOF; a deadline or other error keeps every byte read so far |
| Scheduler.Intn | client/main.go:34-35 | a rand.Intn(n) draw lies in [0, n), and every value in that range can be drawn |
| Scheduler.Schedule | server/main.go:49-50 | every iteration's window size is in [0, 1048576) and its deadline is a whole number of microseconds in [0, 200) |
| Scheduler.ScheduleCoversEveryWindow | client/main.go:34-35 | every window within those bounds can occur, including the zero-size window and the zero deadline |
| Hashing.DiffBitsZeroIff | server/main.go:88 | the OR of the byte-wise XORs is zero exactly when the two digests are equal |
| Hashing.ConstantTimeCompare | server/main.go:88-90 | the comparison returns 1 exactly when the two digests are equal and 0 otherwise |
| Client.SendStep | client/main.go:33-86 | one iteration keeps the invariant (sent == hashed == file[..cursor], bytes == cursor, done only at end of file); it aborts iff setting the deadline fails, the file read fails other than at end of file, the write fails other than by timeout, or a needed seek fails; only the accepted prefix b[:n] is sent, hashed and counted, and the cursor moves forward by exactly n; a write timeout is counted and absorbed; a short write, including a timeout that took nothing, clears done; from a running state the loop ends iff the window exceeds the rest of the file (io.EOF or io.ErrUnexpectedEOF) and the whole buffer was written, so a zero-size window or a read that exactly reaches end of file does not end it |
| Client.Run | client/main.go:31-88 | on completion the hashed bytes are the whole file, each byte once and in order, and the byte counter equals the file size; in every outcome the connection has carried a prefix of the file |
| Client.EmptyFileOneIteration | client/main.go:42-51 | an empty file is sent in one iteration when the first window is non-empty and the file read does not fail, and its digest is the digest of the empty input |
| Client.UnreadableFileAborts | client/main.go:43-54 | a file read that fails before delivering any byte is fatal on the first non-empty window, even for an empty file, because its error is not io.EOF or io.ErrUnexpectedEOF; nothing has been sent |
| Client.Send | client/main.go:31-86 | the loop method computes the same outcome as Run, so on completion its hash has seen exactly the file |
| Server.RecvStep | server/main.go:48-82 | one iteration keeps the invariant (accumulated == stream[..pos], bytes == pos, done only once the stream is consumed) even when it aborts; the n bytes received are counted and hashed, never discarded, even when the read ends in a timeout; from a running state done is set iff the peer has closed and the window exceeds the rest of the stream (io.EOF or io.ErrUnexpectedEOF), never because of a byte count; a timeout is counted and absorbed, and the run aborts iff setting the deadline fails or the read fails with any other error |
| Server.Run | server/main.go:46-82 | the accumulated bytes are always a prefix of the stream; once the loop finishes they equal the stream and bytes equals its length |
| Server.Receive | server/main.go:46-84 | the loop method computes the same outcome as Run, so on completion its hash has seen exactly the stream |
| Server.Serve | server/main.go:25-90 | the reference digest covers the whole file; the hash is reset before the loop; a verdict on the digests is given only after the receive loop has finished; a finished run is verified iff the received digest equals the reference digest, and otherwise it is reported as corrupted, which is distinct from an I/O failure; the run is pending iff the loop has not finished |
| Transfer.EndToEnd | server/main.go:86-90 | if the sender completes and the receiver reads to end of stream, the receiver holds exactly the file and the run is verified, whatever the chunking and timeouts |
| Transfer.TruncationDetected | server/main.go:68-90 | if the sender aborts part-way, a receiver that reads to end of stream holds a strict prefix of the file and reports corruption unless SHA-1 collides |
| Transfer.AlteredByteDetected | server/main.go:86-90 | a stream that differs from the file in one byte is reported as corrupted, provided SHA-1 tells the two apart |

## Left out

- TCP listen, dial and accept, and closing the connection. The connection is a byte stream plus the environment's per-call replies. The client's `conn.Close()` (client/main.go:88) is the end of the stream that the server reads.
- `SetWriteDeadline`/`SetReadDeadline` and wall-clock time. The deadline is drawn and bounded, but whether it expires is an environment choice. A failing deadline call is an environment flag.
- `rand.Seed` and the generator's algorithm. Each draw is an arbitrary source value reduced into the `rand.Intn` range.
- Scheduler.Intn: the model reduces an arbitrary source value modulo n. It does not claim anything about the distribution of the real generator.
- SHA-1 internals. The digest is a function parameter, so collision resistance cannot be stated. The corruption lemmas assume the two digests differ.
- Hashing.ConstantTimeCompare: the constant running time of `subtle.ConstantTimeCompare` is a timing property and is not modelled. Only the result is.
- Opening files, flag parsing, and logging (`log.Printf` of counters and digests). `log.Fatal` becomes an `Abort`, `Aborted` or `IoFailure` result. Reading the reference file (server/main.go:20-31) is the file content plus one failure flag.
- Liveness. A script that always draws a zero-size window, or whose writes always time out before accepting any byte of a non-empty remainder of the file, never finishes the loop. Client.SendStep states that an iteration with a zero-size window, or whose write accepts 0 bytes of a non-empty buffer, moves nothing and does not finish. A timed-out write that accepts some bytes still moves the cursor, and a timeout on the final empty write of an end-of-file iteration still ends the loop.
- Empty files: one might expect a zero-length file to take exactly one iteration. The code loops again on every zero-size window, because `io.ReadFull` with an empty buffer returns (0, nil). The model follows the code, and Client.EmptyFileOneIteration requires a non-empty first window.
