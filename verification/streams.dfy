/**
  The three byte-stream operations of the bridge other than the stdin
  decoder (src/main.rs): the framed write to standard output, and the
  bounded read and unframed write on the transport. The outcome of each
  underlying system call is a parameter.
*/
module Streams {
  import opened Wrappers
  import opened NativeEndian
  import opened Framing

  /** Whether a write (and its flush) went through. */
  datatype IoStatus = Done | IoFailed

  /** The error a failed write propagates to its caller. */
  datatype IoError = WriteError

  /** What one `read` call on the transport returned: a byte count, which
      the system never makes larger than the buffer or than what is pending,
      or an error (a timeout included). */
  datatype ReadStatus = Returned(count: nat) | ReadFailed

  /** The duplex transport as seen from the bridge: bytes the peer has sent
      and the bridge has not read yet, and everything the bridge has written. */
  datatype Socket = Socket(incoming: seq<byte>, outgoing: seq<byte>)

  /**
    Framed write to standard output `out`: the payload's length prefix, then
    the payload. Both writes are modelled as complete; an I/O failure
    propagates as an error.
  */
  function WriteStdout(e: Endian, out: seq<byte>, buf: seq<byte>, status: IoStatus): (r: Result<seq<byte>, IoError>)
    requires |buf| < U32_LIMIT
    ensures r.Success? <==> status == Done
    ensures r.Success? ==>
              && |r.value| == |out| + 4 + |buf|
              && r.value[..|out|] == out
              && DecodeU32(e, r.value[|out|..|out| + 4]) == |buf|
              && r.value[|out| + 4..] == buf
  {
    match status
    case Done =>
      var prefix := EncodeU32(e, |buf|);
      EncodeDecodeU32(e, |buf|);
      SplitThree(out, prefix, buf);
      Success(out + prefix + buf)
    case IoFailed => Failure(WriteError)
  }

  /** What the bridge writes to standard output, the host reads back as the
      same payload, whenever the payload is of a valid size. */
  lemma WriteStdoutDecodes(e: Endian, out: seq<byte>, buf: seq<byte>)
    requires 0 < |buf| <= BUFFER_SIZE
    ensures WriteStdout(e, out, buf, Done).Success?
    ensures Decode(e, WriteStdout(e, out, buf, Done).value[|out|..]) == Success(Decoded(Some(buf), []))
  {
    var prefix := EncodeU32(e, |buf|);
    EncodeDecodeU32(e, |buf|);
    SplitThree(out, prefix, buf);
    assert prefix + buf == prefix + buf + [];
    DecodeFrame(e, prefix, buf, []);
  }

  /** An empty payload is still framed: the output gains a zero prefix
      and nothing else. */
  lemma WriteStdoutEmpty(e: Endian, out: seq<byte>)
    ensures WriteStdout(e, out, [], Done) == Success(out + [0, 0, 0, 0])
  {
    EncodeU32Zero(e);
    assert out + EncodeU32(e, 0) + [] == out + [0, 0, 0, 0];
  }

  /** That zero-length frame is one a decoder following the same rules drops,
      consuming only the prefix. */
  lemma EmptyFrameIsDropped(e: Endian, rest: seq<byte>)
    ensures Decode(e, [0, 0, 0, 0] + rest) == Success(Decoded(None, rest))
  {
    EncodeU32Zero(e);
    var s := EncodeU32(e, 0) + rest;
    assert s[..4] == EncodeU32(e, 0);
    assert s[4..] == rest;
    DecodeZeroLength(e, s);
  }

  /**
    One bounded read from the transport: at most BUFFER_SIZE bytes, taken
    from the front of what the peer has sent. A successful read of zero
    bytes is still a payload (the empty one); only a read error gives none.
  */
  function ReadSocket(sock: Socket, status: ReadStatus): (r: (Option<seq<byte>>, Socket))
    requires status.Returned? ==> status.count <= BUFFER_SIZE && status.count <= |sock.incoming|
    ensures r.0.None? <==> status.ReadFailed?
    ensures r.0.None? ==> r.1 == sock
    ensures status.Returned? ==> r.0 == Some(sock.incoming[..status.count])
    ensures r.0.Some? ==>
              && |r.0.value| <= BUFFER_SIZE
              && r.0.value + r.1.incoming == sock.incoming
              && r.1.outgoing == sock.outgoing
  {
    match status
    case Returned(len) =>
      assert sock.incoming[..len] + sock.incoming[len..] == sock.incoming;
      (Some(sock.incoming[..len]), sock.(incoming := sock.incoming[len..]))
    case ReadFailed => (None, sock)
  }

  /** A zero-byte read yields the empty payload, not "nothing". */
  lemma ReadSocketZeroBytes(sock: Socket)
    ensures ReadSocket(sock, Returned(0)) == (Some([]), sock)
  {
  }

  /** One read never drains a response longer than the buffer: whatever
      count the system returns, bytes remain pending. */
  lemma ReadSocketLeavesExcess(sock: Socket, status: ReadStatus)
    requires status.Returned? && status.count <= BUFFER_SIZE && status.count <= |sock.incoming|
    requires |sock.incoming| > BUFFER_SIZE
    ensures ReadSocket(sock, status).0.Some?
    ensures |ReadSocket(sock, status).1.incoming| >= |sock.incoming| - BUFFER_SIZE > 0
  {
  }

  /**
    Unframed write to the transport: the raw payload, no length prefix.
    The write is modelled as complete; an I/O failure propagates as an error.
  */
  function WriteSocket(sock: Socket, data: seq<byte>, status: IoStatus): (r: Result<Socket, IoError>)
    ensures r.Success? <==> status == Done
    ensures r.Success? ==>
              && |r.value.outgoing| == |sock.outgoing| + |data|
              && r.value.outgoing[..|sock.outgoing|] == sock.outgoing
              && r.value.outgoing[|sock.outgoing|..] == data
              && r.value.incoming == sock.incoming
  {
    match status
    case Done =>
      var o := sock.outgoing + data;
      assert o[|sock.outgoing|..] == data;
      Success(sock.(outgoing := o))
    case IoFailed => Failure(WriteError)
  }

  /** The transport and standard output frame differently: for the same
      payload the stdout write adds exactly the 4 prefix bytes more. */
  lemma SocketWriteIsUnframed(e: Endian, sock: Socket, out: seq<byte>, data: seq<byte>)
    requires |data| < U32_LIMIT
    ensures WriteSocket(sock, data, Done).Success? && WriteStdout(e, out, data, Done).Success?
    ensures var added := WriteSocket(sock, data, Done).value.outgoing[|sock.outgoing|..];
            var framed := WriteStdout(e, out, data, Done).value[|out|..];
            framed == EncodeU32(e, |data|) + added
  {
    var added := WriteSocket(sock, data, Done).value.outgoing[|sock.outgoing|..];
    var framed := WriteStdout(e, out, data, Done).value[|out|..];
    assert framed[..4] == WriteStdout(e, out, data, Done).value[|out|..|out| + 4];
    DecodeEncodeU32(e, framed[..4]);
    assert framed == framed[..4] + framed[4..];
  }
}
