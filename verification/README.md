# RESP2 connection of my-redis, in Dafny

This project models the `Connection` type of `code/my-redis/src/connection.rs`.
A `Connection` wraps a TCP stream and speaks RESP2, the Redis serialization
protocol. It has four operations:

- `Connection::new`.
- `read_frame`, which loops: try to parse a frame from the accumulation
  buffer, otherwise read more bytes from the socket. A zero-byte read ends
  the call cleanly if the buffer is empty and as "connection reset by peer"
  otherwise.
- `parse_frame`, which runs the codec's dry-run `check`, then `parse`, and
  drops exactly the bytes of the frame it returns.
- `write_frame`, which writes the tag byte, the payload and CRLF of every
  frame variant except arrays.

The model is built from these modules:

- `Wire`: bytes, CR/LF, the ASCII tags, and the decimal numerals that
  `write_decimal` emits.
- `Frames`: the `Frame` values, the failures a connection reports, and
  `Encode`, the exact bytes `write_frame` sends for each frame.
- `Codec`: `Frame::check` and `Frame::parse`. They belong to the mini_redis
  crate, so they are an abstract pair of functions (an *oracle*). The model
  assumes only that a complete frame fits in the buffer.
- `Grammar`: an independent reader of the layout `write_frame` emits. It reads
  every representable encoding (no arrays, no CR in text) back as the frame
  encoded, and it is one concrete oracle.
- `Connections`: `New`, `ParseFrame`, `ReadFrame`, `WriteFrame`, and lemmas
  about what a `read_frame` call does over any sequence of socket reads.
- `Delivery`: both ends together, with the reference reader as the codec and
  representable frames only (no arrays, no CR in text). The reference reader
  decodes frames written in turn as exactly those frames, in order.
  A frame split into arbitrary reads is returned exactly after the read that
  completes it. A frame cut short by the peer closing is reported as a reset.

Socket reads are given as a finite list of chunks, one per read. A chunk is
either some bytes (none at all means the peer closed) or an I/O error. If the
list runs out while the codec still asks for more, the call is `Waiting`: the
pending read has not returned yet.

The model follows the code in two places:

- `Frame::Integer` holds a `u64`, so no sign is ever written.
- `parse_frame` gives `parse` the whole buffer, with the cursor reset to 0,
  not only the first `end` bytes that `check` measured.

## Model

| member | source | states |
|---|---|---|
| Connections.New | code/my-redis/src/connection.rs:13-17 | A new connection has nothing buffered and has written nothing. |
| Frames.Encode | code/my-redis/src/connection.rs:68-95 | Writing fails exactly for array frames, as unimplemented. Every other frame goes out as at least three bytes: its tag byte first (`+`, `-`, `:` or `$`) and CRLF last. |
| Frames.EncodeInteger | code/my-redis/src/connection.rs:79-82 | Between `:` and CRLF, an integer is sent as a decimal numeral whose value is the integer, with no CR in it and no leading zero (`:0` is the only numeral starting with `0`). |
| Frames.EncodeBulk | code/my-redis/src/connection.rs:86-93 | A bulk frame is `$`, a numeral with no leading zero whose value is the payload length, CRLF, the payload, CRLF. The declared length is always the length of what follows. |
| Wire.DecimalLine | code/my-redis/src/connection.rs:81 | The bytes of a decimal line are a numeral denoting the number, then CRLF, with no CR before the end. The numeral has no leading zero: only `0` itself starts with `0`. |
| Wire.DigitsValue | code/my-redis/src/connection.rs:90 | Reading back the digits written for a number gives that number. |
| Grammar.DecodeEncode | code/my-redis/src/connection.rs:68-93 | The reference reader reads the encoding of any frame without arrays or CR in its text back as that same frame. The frame spans exactly its encoding, whatever bytes follow. |
| Grammar.DecodePrefix | code/my-redis/src/connection.rs:68-93 | Every proper prefix of an encoded frame makes the reader ask for more bytes, never fail. |
| Connections.ParseFrame | code/my-redis/src/connection.rs:40-62 | A frame is returned iff `check` finds a whole one and `parse` builds it. The frame returned is what `parse` built, and exactly `end` bytes are dropped from the front. Otherwise the buffer is unchanged. "Not yet" is reported iff `check` says incomplete, and every error is the codec's own: `check`'s reason for a malformed buffer, or `parse`'s reason when it cannot build the frame. |
| Connections.ReadFrame | code/my-redis/src/connection.rs:20-38 | Reading never touches what was written. Each call consumes a prefix of the socket reads and leaves the rest unread. |
| Connections.ReadFrameSkips | code/my-redis/src/connection.rs:23-36 | Rounds in which the codec asks for more and a read delivers bytes only append those bytes. The call continues from the grown buffer. |
| Connections.ReadFrameRounds | code/my-redis/src/connection.rs:23-37 | Every call accumulates for some number of rounds and then ends in a single step on the buffer grown by exactly the bytes read. |
| Connections.ReadFrameYields | code/my-redis/src/connection.rs:23-57 | A returned frame is what `parse` built from everything buffered. Before the last read, the codec still asked for more. The buffer keeps exactly the bytes after the frame's end. |
| Connections.ReadFrameYieldsWhen | code/my-redis/src/connection.rs:23-57 | Conversely, as soon as the buffered bytes hold a whole frame, the call returns it and reads nothing more. |
| Connections.ReadFrameFailsWhen | code/my-redis/src/connection.rs:40-61 | A codec error ends the call at once, as a protocol error. Nothing more is read and every received byte stays buffered. |
| Connections.ReadFrameCleanEnd | code/my-redis/src/connection.rs:30-32 | A clean end of stream is reported iff nothing is buffered, the codec asks for more, and the very next read returns zero bytes. |
| Connections.ReadFrameReset | code/my-redis/src/connection.rs:30-35 | "Connection reset" is reported only right after the rounds that accumulate bytes, on a read of zero bytes while an incomplete, non-empty frame is buffered. That read is the last one consumed, and the partial frame stays buffered. |
| Connections.ReadFrameResetWhen | code/my-redis/src/connection.rs:30-35 | Conversely, a zero-byte read that follows only accumulating rounds, with part of a frame buffered, is reported as a reset. |
| Connections.ReadFrameWaiting | code/my-redis/src/connection.rs:23-36 | A call still waiting when the reads run out has appended every read to the buffer, and the codec still asks for more. |
| Connections.WriteFrame | code/my-redis/src/connection.rs:65-100 | Writing fails exactly for arrays, as unimplemented. Otherwise it appends exactly the frame's encoding to what was written and leaves the read buffer alone. |
| Connections.FreshConnectionYields | code/my-redis/src/connection.rs:13-27 | On a new connection, reads that complete a frame only with the last of them return that frame. The bytes after it stay buffered and later reads stay unread. |
| Connections.FreshConnectionResets | code/my-redis/src/connection.rs:13-35 | On a new connection, part of a frame followed by a zero-byte read is reported as a reset, keeping the partial bytes. |
| Delivery.WrittenFrameReadsBack | code/my-redis/src/connection.rs:65-99 | What one write of a representable frame (no arrays, no CR in text) sends reads back, with the reference reader and in isolation, as the frame written. |
| Delivery.WriteAll | code/my-redis/src/connection.rs:65-99 | A run of writes of non-array frames (any text, CR included) never touches the read buffer and only appends to what was already written. |
| Delivery.WrittenFramesInOrder | code/my-redis/src/connection.rs:65-99 | The reference reader decodes the bytes of representable frames (no arrays, no CR in text) written one after another as exactly those frames, in that order. |
| Delivery.DeliveredWhole | code/my-redis/src/connection.rs:20-57 | With the reference reader as the codec, a representable frame's (no arrays, no CR in text) encoding split over any non-empty reads is returned by a new connection right after the read that completes it. Bytes past it stay buffered and later reads stay unread. |
| Delivery.DeliveredTruncated | code/my-redis/src/connection.rs:20-35 | With the reference reader as the codec, a new connection that receives only part of an encoded representable frame (no arrays, no CR in text) before the peer closes reports a reset, never a frame or a clean end. |
| Delivery.UnknownTagRejected | code/my-redis/src/connection.rs:46-60 | With the reference reader as the codec, bytes that start with no known tag fail at once as a protocol error, reading nothing and keeping the buffer. |

## Left out

- `Frame::check` and `Frame::parse` belong to the mini_redis crate, which is not part of this model. The connection lemmas hold for any pair that meets the bound in `Codec.Sound`. The round trip and the `Delivery` lemmas are proved with the reference reader in `Grammar` as the codec, not against mini_redis.
- `write_decimal` is called but not defined in the file. It is modelled as the shortest decimal digits of the number followed by CRLF.
- Array frames: `write_frame` reaches `unimplemented!()`, which panics. The model returns the `Unimplemented` fault instead.
- Socket I/O is not modelled:
  - the `BufWriter`;
  - the 4096-byte initial capacity of the buffer;
  - errors from writes;
  - the result of `flush`, which the code discards.
  A write is the bytes it appends.
- Async scheduling, cancellation and concurrent use of a connection are not modelled. A read that has not returned yet is `Waiting`.
- Simple and error text is held as bytes, so the model does not check that it is valid UTF-8.
- Integers are unsigned 64-bit, because `Frame::Integer` holds a `u64`; negative integers cannot be sent and are not modelled.
- Grammar.DecodeEncode: requires text without CR, because `write_frame` sends text verbatim and does not reject a CR in it. Such a frame cannot be read back as the same frame.
- Lines 5 and 94 of the source have syntax slips (`Self` for `self`, `Frame:Array`). The model takes the evident meaning.
- The server binary and the other files of the repository are not part of this model.
