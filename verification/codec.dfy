/**
 The frame codec the connection relies on: a dry-run `check` that reports
 whether the buffered bytes start with a whole frame, and `parse` that builds
 that frame. Their implementation lives in another crate, so they are
 parameters here, constrained only by the bound every caller relies on.
 */
module Codec {
  import opened Wire
  import opened Frames

  /** What `check` reports about the buffered bytes. */
  datatype CheckResult =
    | Complete(end: nat)       // a whole frame occupies bytes [0, end)
    | Incomplete               // more bytes are needed before deciding
    | Malformed(reason: string)

  /** What `parse` reports: the frame, or why the bytes do not form one. */
  datatype Parsed = Parsed(frame: Frame) | Unparsable(reason: string)

  /** The pair `Frame::check` / `Frame::parse`, both reading from offset 0. */
  datatype Oracle = Oracle(check: seq<byte> -> CheckResult, parse: seq<byte> -> Parsed)

  /** A complete frame never extends past the buffer: `advance` cannot drop more than is buffered. */
  ghost predicate Sound(o: Oracle) {
    forall buf :: o.check(buf).Complete? ==> o.check(buf).end <= |buf|
  }
}
