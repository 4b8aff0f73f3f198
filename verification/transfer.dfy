/** The two processes together: the bytes the sender's connection carries
    are the stream the receiver reads. */
module Transfer {
  import opened Io
  import opened Hashing
  import Client
  import Server

  /** Fidelity: when the sender completes and the receiver reads until the
      end of the stream, the receiver has accumulated exactly the file and
      the run is verified, whatever the windows, deadlines and short
      transfers on either side. */
  lemma EndToEnd(file: seq<Byte>, sendScript: seq<Client.SendEnv>, recvScript: seq<Server.RecvEnv>,
                 sha1: seq<Byte> -> Digest)
    requires Client.Run(file, Client.Start, sendScript).Completed?
    requires Server.Run(Client.Run(file, Client.Start, sendScript).state.sent, Server.Start, recvScript).Finished?
    ensures Server.Run(Client.Run(file, Client.Start, sendScript).state.sent, Server.Start, recvScript).state.hash.fed == file
    ensures Server.Serve(file, false, Client.Run(file, Client.Start, sendScript).state.sent, recvScript, sha1) == Server.Verified
  {
  }

  /** A sender that aborts part-way closes the connection by exiting; a
      receiver that then reads to the end has a strict prefix of the file,
      and unless SHA-1 collides on it the run is reported as corrupted.
      "Part-way" means the wire differs from the file: a sender can also
      abort after its last byte was taken (a read that exactly reaches the
      end of the file, then a failed deadline), and then the receiver sees
      the whole file and the run is verified. */
  lemma TruncationDetected(file: seq<Byte>, sendScript: seq<Client.SendEnv>, recvScript: seq<Server.RecvEnv>,
                           sha1: seq<Byte> -> Digest)
    requires Client.Run(file, Client.Start, sendScript).Aborted?
    requires var wire := Client.Run(file, Client.Start, sendScript).state.sent;
      wire != file && sha1(wire) != sha1(file) && Server.Run(wire, Server.Start, recvScript).Finished?
    ensures Client.Run(file, Client.Start, sendScript).state.sent < file
    ensures Server.Serve(file, false, Client.Run(file, Client.Start, sendScript).state.sent, recvScript, sha1) == Server.Corrupted
  {
  }

  /** Corruption detection: a stream that differs from the file in one byte
      is reported as corrupted, provided SHA-1 tells the two apart. */
  lemma AlteredByteDetected(file: seq<Byte>, i: nat, x: Byte, recvScript: seq<Server.RecvEnv>,
                            sha1: seq<Byte> -> Digest)
    requires i < |file| && x != file[i]
    requires sha1(file[i := x]) != sha1(file)
    requires Server.Run(file[i := x], Server.Start, recvScript).Finished?
    ensures file[i := x] != file
    ensures Server.Serve(file, false, file[i := x], recvScript, sha1) == Server.Corrupted
  {
  }
}
