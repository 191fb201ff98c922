# Stdio framing codec of the KeePassXC native-messaging proxy

The proxy sits between a browser's native-messaging host interface (standard
input and output) and the KeePassXC listening socket. On standard input and
output every message is a *frame*: a 4-byte unsigned length in the host's
native byte order, then that many payload bytes. On the socket side the
payload travels raw, and replies are taken in single reads of at most
`BUFFER_SIZE` (16 KiB) bytes.

This project models that codec in Dafny, in `src/main.rs`:

- `wrappers.dfy` — `Option` and `Result`.
- `native_endian.dfy` — bytes, `u32`, and the 4-byte integer codec. The
  native byte order is a parameter (`Little` or `Big`). Encoding and
  decoding are proved to be inverse in both directions.
- `framing.dfy` — `BUFFER_SIZE`, `valid_length`, the stdin decoder
  (`read_stdin`, modelled as `Framing.Decode` over the unread input) and the
  frame encoder. It has lemmas for every accept and reject case, and the
  round trip in both directions.
- `streams.dfy` — `write_stdout`, `read_socket` and `write_socket`. Each
  system-call outcome is a parameter.
- `relay.dfy` — one request/response cycle composed from those operations
  with an echoing peer, and the worked little-endian example frame.

Standard input is the finite sequence of bytes not yet read, so its end is
end of file. Some behaviour of the code is deliberately kept:

- The payload is read before its length is checked. A frame of zero length
  consumes only its prefix. An oversized frame whose bytes are all present
  is swallowed, along with its declared bytes.
- A payload cut short by end of file yields nothing and drains the stream.
  This is because `read_exact` reads until end of file before it reports
  the shortfall.
- Fewer than 4 bytes for the prefix is a `Failure` (the `unwrap` panics).
  It is not `None`.
- A successful zero-byte socket read yields `Some([])`. `write_stdout` then
  frames it as `00 00 00 00`, which a decoder following the same rules
  would drop. A zero-byte read is not dropped; the model follows the code.

## Model

| member | source | states |
|---|---|---|
| NativeEndian.EncodeU32 | src/main.rs:43 | the native-order prefix written for any `u32` is exactly 4 bytes |
| NativeEndian.EncodeDecodeU32 | src/main.rs:43 | reading back the 4 bytes written for `n`, in the same byte order, gives `n` |
| NativeEndian.DecodeEncodeU32 | src/main.rs:27 | every 4 bytes read as a prefix are the encoding of the value read, so the `u32` codec is a bijection in either byte order |
| Framing.ValidLength | src/main.rs:15-19 | a length is valid exactly when it lies in 1..16384, because `BUFFER_SIZE` is 1024*16 |
| Framing.ValidLengthIsAcceptance | src/main.rs:17-36 | a frame declaring `n` bytes with all of them present, followed by any bytes, yields a payload exactly when `n` is valid; either way exactly the following bytes are left |
| Framing.Decode | src/main.rs:21-37 | fewer than 4 bytes gives a failure, and only then. What is left is always a suffix of the input, after at least the prefix. An accepted payload is the bytes right after the prefix, with length equal to the prefix and valid |
| Framing.DecodeZeroLength | src/main.rs:29-36 | a zero prefix yields no payload and consumes only the 4 prefix bytes |
| Framing.DecodeOversized | src/main.rs:29-33 | a length above 16384 with its bytes present yields no payload, consumes the declared bytes, and leaves the rest untouched |
| Framing.DecodeTruncated | src/main.rs:31-36 | a payload cut short by end of input yields no payload and leaves nothing unread |
| Framing.DecodeAcceptsIff | src/main.rs:26-36 | with a full prefix, a payload comes out if and only if the length is valid and all its bytes are present |
| Framing.DecodeConsumes | src/main.rs:26-33 | unless input ends first, exactly 4 plus the declared length bytes are consumed, whether accepted or not |
| Framing.DecodeFrame | src/main.rs:26-36 | a prefix declaring exactly the length of the body after it yields that body when the length is valid and nothing otherwise; either way exactly the bytes after the body are left |
| Framing.Encode | src/main.rs:43-44 | a frame is 4 + len bytes: a prefix that decodes to the payload length, then the payload |
| Framing.DecodeEncode | src/main.rs:21-47 | decoding the frame of a valid payload, followed by any bytes, returns the payload and leaves exactly those bytes |
| Framing.DecodeIsEncoded | src/main.rs:21-47 | whatever the decoder accepts is the encoder's frame of a valid payload, followed by the remaining input |
| Framing.DecodeSomeIff | src/main.rs:21-47 | the decoder yields `p` and leaves `rest` if and only if the input is the frame of a valid `p` followed by `rest` |
| Streams.WriteStdout | src/main.rs:39-47 | on success, output gains 4 + len bytes: a prefix decoding to the payload length, then the payload. Earlier output is unchanged. A write failure is an error |
| Streams.WriteStdoutDecodes | src/main.rs:39-47 | what is written for a valid payload decodes back to that payload, with nothing left over |
| Streams.WriteStdoutEmpty | src/main.rs:43-44 | an empty payload is still written, as the frame `00 00 00 00` |
| Streams.EmptyFrameIsDropped | src/main.rs:29-36 | that zero frame is dropped by the decoder, consuming only its 4 bytes |
| Streams.ReadSocket | src/main.rs:49-55 | the result is `None` exactly on a read error, and then the socket is unchanged. Otherwise it is exactly the first `count` pending bytes, where `count` is what the read returned, at most 16384; exactly those bytes are consumed |
| Streams.ReadSocketZeroBytes | src/main.rs:51-52 | a read returning 0 bytes yields `Some([])`, not `None` |
| Streams.ReadSocketLeavesExcess | src/main.rs:50-52 | when more than 16384 bytes are pending, no single read takes them all |
| Streams.WriteSocket | src/main.rs:57-61 | on success the transport gains exactly the payload bytes, after what it already had, and the incoming side is untouched. A failure is an error |
| Streams.SocketWriteIsUnframed | src/main.rs:57-58 | for the same payload, the stdout write is the socket write with the 4-byte length prefix in front |
| Relay.EchoRoundTrip | src/main.rs:21-61 | from an empty transport with an echoing peer, each step feeds the next: the payload decoded from a valid stdin frame is written raw, one read returning every pending byte gets it back, and stdout gains exactly the bytes the decoder consumed from stdin; the bytes after the frame on stdin are left in place |
| Relay.FramedOutput | src/main.rs:39-47 | a successful stdout write appends exactly the encoder's frame of the payload to the earlier output |
| Relay.ExampleFrame | src/main.rs:43-44 | the little-endian frame of `01 02 03` is `03 00 00 00 01 02 03`, and it decodes back to `01 02 03` |

## Left out

- The five threads, the `mpsc` channels, the mutex around the socket and
  the joins (src/main.rs:63-137). They only add concurrency. The unbounded
  signal channel does not limit outstanding writes to one, so no
  alternation property is claimed.
- The log-file thread (src/main.rs:64, src/main.rs:124-133): file I/O only.
- `src/proxy_socket.rs` (connecting, environment lookups, the read timeout)
  is not part of this model. A timed-out read is an ordinary `ReadFailed`.
- Short writes from `Write::write` (src/main.rs:44, src/main.rs:58): every
  write is modelled as complete or failed.
- Framing.Encode: does not model the `as u32` truncation for payloads of
  2^32 bytes or more. The payload must be shorter than 2^32 bytes instead.
- Streams.WriteStdout: same 2^32 precondition. A failed write is just an
  error; bytes it may have written before failing are not modelled.
- Streams.WriteSocket: a failed write is just an error; bytes it may have
  written before failing are not modelled.
- Streams.ReadSocket: the byte count is a parameter, bounded by the buffer
  and by the pending bytes, as the `Read` contract promises. Which count the
  system picks is not modelled.
- Panics from `unwrap` on I/O errors, other than the decoder's "fewer than 4
  bytes" case. Also the allocation of up to 4 GiB that `vec![0; len]` makes
  before the length is checked.
