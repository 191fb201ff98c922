/**
  The "native messaging" stdio framing of the bridge (src/main.rs): a frame is
  a 4-byte native-order length prefix followed by that many payload bytes.
  Standard input is modelled as the finite byte sequence still unread, so the
  end of the sequence is end of file.
*/
module Framing {
  import opened Wrappers
  import opened NativeEndian

  /** Largest payload the bridge accepts on standard input (16 KiB). */
  const BUFFER_SIZE: nat := 1024 * 16

  /** Why a decode could not even produce a verdict: fewer than 4 prefix
      bytes, where `read_stdin`'s `unwrap` panics. */
  datatype DecodeError = PrefixUnavailable

  /** One pass of the stdin decoder: the payload, if one was accepted, and the
      bytes left on the stream afterwards. */
  datatype Decoded = Decoded(payload: Option<seq<byte>>, rest: seq<byte>)

  /** Frame-size predicate: the declared length is neither zero nor above
      the buffer size. */
  function ValidLength(length: u32): (b: bool)
    ensures b <==> 1 <= length <= 16384
  {
    length > 0 && length <= BUFFER_SIZE
  }

  /** The declared payload length of a stream that holds at least a prefix. */
  function Prefix(e: Endian, s: seq<byte>): u32
    requires |s| >= 4
  {
    DecodeU32(e, s[..4])
  }

  /**
    Decoder of one frame. It reads the 4-byte prefix (fewer than 4 bytes is a
    failure), then reads exactly the declared number of bytes, and only then
    checks the length. A payload cut short by end of stream consumes the
    whole stream; an invalid length consumes its declared bytes.
  */
  function Decode(e: Endian, s: seq<byte>): (r: Result<Decoded, DecodeError>)
    ensures r.Failure? <==> |s| < 4
    ensures r.Success? ==> |r.value.rest| <= |s| - 4 && r.value.rest == s[|s| - |r.value.rest|..]
    ensures r.Success? && r.value.payload.Some? ==>
              var p := r.value.payload.value;
              && s == s[..4] + p + r.value.rest
              && |p| == Prefix(e, s)
              && ValidLength(|p|)
  {
    if |s| < 4 then Failure(PrefixUnavailable)
    else
      var len := DecodeU32(e, s[..4]);
      var body := s[4..];
      if |body| < len then Success(Decoded(None, []))
      else if ValidLength(len) then
        assert s == s[..4] + body[..len] + body[len..];
        Success(Decoded(Some(body[..len]), body[len..]))
      else Success(Decoded(None, body[len..]))
  }

  /**
    Encoder of one frame: the 4-byte length of the payload, then the payload.
    `write_stdout` casts the length with `as u32`, so payloads are below
    2^32 bytes.
  */
  function Encode(e: Endian, p: seq<byte>): (r: seq<byte>)
    requires |p| < U32_LIMIT
    ensures |r| == 4 + |p|
    ensures DecodeU32(e, r[..4]) == |p|
    ensures r[4..] == p
  {
    EncodeDecodeU32(e, |p|);
    EncodeU32(e, |p|) + p
  }

  /** A zero prefix is rejected after consuming only the prefix. */
  lemma DecodeZeroLength(e: Endian, s: seq<byte>)
    requires |s| >= 4 && Prefix(e, s) == 0
    ensures Decode(e, s) == Success(Decoded(None, s[4..]))
  {
  }

  /** An oversized frame whose declared bytes are all present is swallowed:
      no payload, the declared bytes consumed, everything after untouched. */
  lemma DecodeOversized(e: Endian, s: seq<byte>)
    requires |s| >= 4 && Prefix(e, s) > BUFFER_SIZE && |s| >= 4 + Prefix(e, s)
    ensures Decode(e, s) == Success(Decoded(None, s[4 + Prefix(e, s)..]))
  {
  }

  /** A payload cut short by end of stream yields no payload and drains the
      stream, whatever the declared length. */
  lemma DecodeTruncated(e: Endian, s: seq<byte>)
    requires |s| >= 4 && |s| < 4 + Prefix(e, s)
    ensures Decode(e, s) == Success(Decoded(None, []))
  {
  }

  /** Acceptance: a payload comes out exactly when the declared length is
      valid and all its bytes are present. */
  lemma DecodeAcceptsIff(e: Endian, s: seq<byte>)
    requires |s| >= 4
    ensures Decode(e, s).Success?
    ensures Decode(e, s).value.payload.Some? <==> ValidLength(Prefix(e, s)) && |s| >= 4 + Prefix(e, s)
  {
  }

  /** Consumption: unless the stream ends first, a decode consumes exactly
      the prefix and the declared bytes, accepted or not. */
  lemma DecodeConsumes(e: Endian, s: seq<byte>)
    requires |s| >= 4 && |s| >= 4 + Prefix(e, s)
    ensures Decode(e, s).Success?
    ensures Decode(e, s).value.rest == s[4 + Prefix(e, s)..]
  {
  }

  /** A prefix declaring exactly the length of the body that follows it
      decodes to that body when the length is valid and to nothing
      otherwise, and either way leaves exactly what follows the body. */
  lemma DecodeFrame(e: Endian, prefix: seq<byte>, body: seq<byte>, rest: seq<byte>)
    requires |prefix| == 4 && DecodeU32(e, prefix) == |body|
    ensures Decode(e, prefix + body + rest)
            == Success(Decoded(if ValidLength(|body|) then Some(body) else None, rest))
  {
    SplitThree(prefix, body, rest);
  }

  /** Round trip: a valid payload framed and followed by any bytes decodes to
      the payload, leaving those bytes. */
  lemma DecodeEncode(e: Endian, p: seq<byte>, rest: seq<byte>)
    requires 0 < |p| <= BUFFER_SIZE
    ensures Decode(e, Encode(e, p) + rest) == Success(Decoded(Some(p), rest))
  {
    EncodeDecodeU32(e, |p|);
    assert Encode(e, p) + rest == EncodeU32(e, |p|) + p + rest;
    DecodeFrame(e, EncodeU32(e, |p|), p, rest);
  }

  /** Converse of the round trip: whatever the decoder accepts was a frame
      the encoder produces, followed by the rest of the stream. */
  lemma DecodeIsEncoded(e: Endian, s: seq<byte>)
    requires Decode(e, s).Success? && Decode(e, s).value.payload.Some?
    ensures var d := Decode(e, s).value;
            0 < |d.payload.value| <= BUFFER_SIZE
            && s == Encode(e, d.payload.value) + d.rest
  {
    var d := Decode(e, s).value;
    var p := d.payload.value;
    DecodeEncodeU32(e, s[..4]);
    assert EncodeU32(e, |p|) == s[..4];
  }

  /** Both directions together: the decoder accepts `p` leaving `rest`
      exactly when the stream is the frame of a valid `p` followed by `rest`. */
  lemma DecodeSomeIff(e: Endian, s: seq<byte>, p: seq<byte>, rest: seq<byte>)
    ensures Decode(e, s) == Success(Decoded(Some(p), rest))
            <==> 0 < |p| <= BUFFER_SIZE && s == Encode(e, p) + rest
  {
    if Decode(e, s) == Success(Decoded(Some(p), rest)) {
      DecodeIsEncoded(e, s);
    }
    if 0 < |p| <= BUFFER_SIZE && s == Encode(e, p) + rest {
      DecodeEncode(e, p, rest);
    }
  }

  /** The frame-size predicate is the decoder's acceptance rule: a frame
      declaring `n` bytes with all of them present, whatever follows it, is
      accepted exactly when `n` is a valid length, and either way exactly
      what follows is left. */
  lemma ValidLengthIsAcceptance(e: Endian, n: u32, body: seq<byte>, rest: seq<byte>)
    requires |body| == n
    ensures Decode(e, EncodeU32(e, n) + body + rest).Success?
    ensures Decode(e, EncodeU32(e, n) + body + rest).value.payload.Some? <==> ValidLength(n)
    ensures Decode(e, EncodeU32(e, n) + body + rest).value.rest == rest
  {
    EncodeDecodeU32(e, n);
    DecodeFrame(e, EncodeU32(e, n), body, rest);
  }
}
