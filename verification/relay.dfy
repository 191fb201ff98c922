/**
  One request/response cycle of the bridge, composed sequentially from the
  stream operations (src/main.rs): a frame decoded from standard input is
  written raw to the transport, the peer's reply is read back in one bounded
  read, and the reply is framed onto standard output.
*/
module Relay {
  import opened Wrappers
  import opened NativeEndian
  import opened Framing
  import opened Streams

  /** A peer that answers with exactly the bytes it was sent. */
  function Echo(sock: Socket): Socket
  {
    Socket(sock.incoming + sock.outgoing, [])
  }

  /** With an echoing peer on an empty transport and no I/O failures, each
      step feeds the next: the payload decoded from a valid stdin frame is
      written raw, one read that returns every pending byte gets it back,
      and standard output gains exactly the bytes the decoder consumed from
      standard input. What followed the frame on stdin is left in place. */
  lemma EchoRoundTrip(e: Endian, p: seq<byte>, rest: seq<byte>, out: seq<byte>)
    requires 0 < |p| <= BUFFER_SIZE
    ensures var stdin := Encode(e, p) + rest;
            var decoded := Decode(e, stdin);
            && decoded.Success? && decoded.value.payload.Some?
            && decoded.value.rest == rest
            && var request := decoded.value.payload.value;
               var sent := WriteSocket(Socket([], []), request, Done);
               && sent.Success?
               && var peer := Echo(sent.value);
                  && |request| <= |peer.incoming|
                  && var (reply, after) := ReadSocket(peer, Returned(|request|));
                     && reply.Some?
                     && after.incoming == []
                     && WriteStdout(e, out, reply.value, Done) == Success(out + stdin[..|stdin| - |rest|])
  {
    DecodeEncode(e, p, rest);
    EchoReturnsRequest(p);
    FramedOutput(e, out, p);
    ConsumedFrame(e, p, rest);
  }

  /** The transport step alone: a raw write to an empty transport, echoed,
      comes back whole in one read of every pending byte. */
  lemma EchoReturnsRequest(p: seq<byte>)
    requires |p| <= BUFFER_SIZE
    ensures WriteSocket(Socket([], []), p, Done) == Success(Socket([], p))
    ensures Echo(Socket([], p)) == Socket(p, [])
    ensures ReadSocket(Socket(p, []), Returned(|p|)) == (Some(p), Socket([], []))
  {
    assert [] + p == p;
    assert p[..|p|] == p;
  }

  /** The stdout step alone: the write appends the encoder's frame. */
  lemma FramedOutput(e: Endian, out: seq<byte>, p: seq<byte>)
    requires |p| < U32_LIMIT
    ensures WriteStdout(e, out, p, Done) == Success(out + Encode(e, p))
  {
    assert out + EncodeU32(e, |p|) + p == out + Encode(e, p);
  }

  /** What the decoder consumed from `Encode(e, p) + rest` is the frame. */
  lemma ConsumedFrame(e: Endian, p: seq<byte>, rest: seq<byte>)
    requires |p| < U32_LIMIT
    ensures var stdin := Encode(e, p) + rest;
            stdin[..|stdin| - |rest|] == Encode(e, p)
  {
  }

  /** The little-endian frame of the payload 01 02 03 is 03 00 00 00 01 02 03. */
  lemma ExampleFrame()
    ensures Encode(Little, [1, 2, 3]) == [3, 0, 0, 0, 1, 2, 3]
    ensures Decode(Little, [3, 0, 0, 0, 1, 2, 3]) == Success(Decoded(Some([1, 2, 3]), []))
  {
    var p: seq<byte> := [1, 2, 3];
    assert LittleBytes(3) == [3, 0, 0, 0];
    assert Encode(Little, p) == [3, 0, 0, 0] + p;
    DecodeEncode(Little, p, []);
    assert Encode(Little, p) + [] == [3, 0, 0, 0, 1, 2, 3];
  }
}
