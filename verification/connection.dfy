/**
 A connection: the accumulation buffer of the read side and the bytes the
 write side has sent. Reads are driven by a finite list of chunks, the
 successive results of reading the socket; an empty chunk means the peer
 closed the stream.
 */
module Connections {
  import opened Wire
  import opened Frames
  import opened Codec

  datatype Connection = Connection(buffer: seq<byte>, written: seq<byte>)

  /** One read of the socket: some bytes (none when the peer closed), or an I/O error. */
  datatype Chunk = Data(bytes: seq<byte>) | ReadFailed(reason: string)

  /** `Connection::new`: nothing buffered, nothing written. */
  function New(): (c: Connection)
    ensures |c.buffer| == 0 && |c.written| == 0
  {
    Connection([], [])
  }

  /** The outcome of one `parse_frame` call and the buffer it leaves. */
  datatype Step = Step(result: Result<Option<Frame>>, buffer: seq<byte>)

  predicate Produced(r: Result<Option<Frame>>) {
    r.Ok? && r.value.Some?
  }

  /** The bytes the chunks delivered, in order. */
  function Received(chunks: seq<Chunk>): seq<byte> {
    if |chunks| == 0 then []
    else (if chunks[0].Data? then chunks[0].bytes else []) + Received(chunks[1..])
  }

  /**
   `parse_frame`: if `check` finds a whole frame ending at `end`, parse it
   and drop exactly those `end` bytes; otherwise leave the buffer alone and
   report either "not yet" or the codec's error.
   */
  function ParseFrame(o: Oracle, buf: seq<byte>): (s: Step)
    requires Sound(o)
    ensures |s.buffer| <= |buf| && buf[..|buf| - |s.buffer|] + s.buffer == buf
    ensures Produced(s.result) <==> o.check(buf).Complete? && o.parse(buf).Parsed?
    ensures Produced(s.result) ==> s.result.value.value == o.parse(buf).frame
                                   && |buf| - |s.buffer| == o.check(buf).end
    ensures !Produced(s.result) ==> s.buffer == buf
    ensures s.result == Ok(None) <==> o.check(buf).Incomplete?
    ensures s.result.Err? ==> s.result.fault.Protocol?
    ensures o.check(buf).Malformed? ==> s.result == Err(Protocol(o.check(buf).reason))
    ensures o.check(buf).Complete? && o.parse(buf).Unparsable? ==> s.result == Err(Protocol(o.parse(buf).reason))
  {
    match o.check(buf)
    case Complete(n) =>
      (match o.parse(buf)
       case Parsed(f) => Step(Ok(Some(f)), buf[n..])
       case Unparsable(reason) => Step(Err(Protocol(reason)), buf))
    case Incomplete => Step(Ok(None), buf)
    case Malformed(reason) => Step(Err(Protocol(reason)), buf)
  }

  /** How a `read_frame` call ends on a given list of chunks. */
  datatype Read =
    | Returned(result: Result<Option<Frame>>, conn: Connection, unread: seq<Chunk>)
    | Waiting(conn: Connection)  // every chunk was read and no frame is complete yet

  /**
   `read_frame`: try to parse a frame from the buffer; if more bytes are
   needed, read one chunk and append it. A read of zero bytes ends the call:
   cleanly if nothing is buffered, as a reset if part of a frame is.
   */
  function ReadFrame(o: Oracle, c: Connection, chunks: seq<Chunk>): (r: Read)
    requires Sound(o)
    ensures r.conn.written == c.written
    ensures r.Returned? ==> |r.unread| <= |chunks| && r.unread == chunks[|chunks| - |r.unread|..]
    decreases |chunks|
  {
    var s := ParseFrame(o, c.buffer);
    if s.result != Ok(None) then Returned(s.result, c.(buffer := s.buffer), chunks)
    else if |chunks| == 0 then Waiting(c)
    else match chunks[0]
      case ReadFailed(reason) => Returned(Err(Transport(reason)), c, chunks[1..])
      case Data(bytes) =>
        if |bytes| == 0 then
          if |c.buffer| == 0 then Returned(Ok(None), c, chunks[1..])
          else Returned(Err(ConnectionReset), c, chunks[1..])
        else ReadFrame(o, c.(buffer := c.buffer + bytes), chunks[1..])
  }

  /** `write_frame`: send the frame's encoding; array frames are not implemented. */
  function WriteFrame(c: Connection, f: Frame): (r: Result<Connection>)
    ensures r.Err? <==> f.Array?
    ensures r.Err? ==> r.fault == Unimplemented
    ensures r.Ok? ==> r.value.buffer == c.buffer
    ensures r.Ok? ==> |c.written| < |r.value.written| && r.value.written[..|c.written|] == c.written
    ensures r.Ok? ==> r.value.written[|c.written|..] == Encode(f).value
  {
    match Encode(f)
    case Ok(w) =>
      var out := c.written + w;
      assert out[..|c.written|] == c.written && out[|c.written|..] == w;
      Ok(c.(written := out))
    case Err(e) => Err(e)
  }

  /**
   For the first `k` rounds the check asked for more bytes and the read
   delivered some: the buffer only grew, by exactly the chunks read.
   */
  ghost predicate Accumulating(o: Oracle, buf: seq<byte>, chunks: seq<Chunk>, k: nat) {
    && k <= |chunks|
    && forall j :: 0 <= j < k ==>
         && chunks[j].Data? && |chunks[j].bytes| > 0
         && o.check(buf + Received(chunks[..j])).Incomplete?
  }

  lemma ReceivedFirst(chunks: seq<Chunk>, k: nat)
    requires 0 < k <= |chunks| && chunks[0].Data?
    ensures Received(chunks[..k]) == chunks[0].bytes + Received(chunks[1..][..k - 1])
  {
    assert chunks[..k][1..] == chunks[1..][..k - 1];
  }

  lemma Associative(a: seq<byte>, b: seq<byte>, c: seq<byte>)
    ensures a + b + c == a + (b + c)
  {
  }

  /** Rounds that only accumulate can be skipped: the call continues from the grown buffer. */
  lemma {:induction false} ReadFrameSkips(o: Oracle, c: Connection, chunks: seq<Chunk>, k: nat)
    requires Sound(o)
    requires Accumulating(o, c.buffer, chunks, k)
    ensures ReadFrame(o, c, chunks)
            == ReadFrame(o, c.(buffer := c.buffer + Received(chunks[..k])), chunks[k..])
    decreases k
  {
    if k == 0 {
      assert chunks[..0] == [];
      assert c.buffer + [] == c.buffer;
    } else {
      var c' := c.(buffer := c.buffer + chunks[0].bytes);
      AccumulatingRest(o, c.buffer, chunks, k);
      ReadOneChunk(o, c, chunks);
      ReadFrameSkips(o, c', chunks[1..], k - 1);
      ReceivedFirst(chunks, k);
      var grown := c.buffer + Received(chunks[..k]);
      Associative(c.buffer, chunks[0].bytes, Received(chunks[1..][..k - 1]));
      assert c'.(buffer := grown) == c.(buffer := grown);
      assert chunks[1..][k - 1..] == chunks[k..];
    }
  }

  /** One round that finds no frame and reads some bytes. */
  lemma ReadOneChunk(o: Oracle, c: Connection, chunks: seq<Chunk>)
    requires Sound(o)
    requires o.check(c.buffer).Incomplete?
    requires |chunks| > 0 && chunks[0].Data? && |chunks[0].bytes| > 0
    ensures ReadFrame(o, c, chunks)
            == ReadFrame(o, c.(buffer := c.buffer + chunks[0].bytes), chunks[1..])
  {
  }

  lemma AccumulatingRest(o: Oracle, buf: seq<byte>, chunks: seq<Chunk>, k: nat)
    requires 0 < k && Accumulating(o, buf, chunks, k)
    ensures o.check(buf).Incomplete? && chunks[0].Data? && |chunks[0].bytes| > 0
    ensures Accumulating(o, buf + chunks[0].bytes, chunks[1..], k - 1)
  {
    assert buf + Received(chunks[..0]) == buf by {
      assert chunks[..0] == [];
    }
    forall j | 0 <= j < k - 1
      ensures chunks[1..][j].Data? && |chunks[1..][j].bytes| > 0
      ensures o.check(buf + chunks[0].bytes + Received(chunks[1..][..j])).Incomplete?
    {
      assert chunks[1..][j] == chunks[j + 1];
      ReceivedFirst(chunks, j + 1);
      assert buf + chunks[0].bytes + Received(chunks[1..][..j]) == buf + Received(chunks[..j + 1]);
    }
  }

  lemma AccumulatingCons(o: Oracle, buf: seq<byte>, chunks: seq<Chunk>, k: nat)
    requires 0 < k <= |chunks|
    requires o.check(buf).Incomplete? && chunks[0].Data? && |chunks[0].bytes| > 0
    requires Accumulating(o, buf + chunks[0].bytes, chunks[1..], k - 1)
    ensures Accumulating(o, buf, chunks, k)
  {
    forall j | 0 <= j < k
      ensures chunks[j].Data? && |chunks[j].bytes| > 0
      ensures o.check(buf + Received(chunks[..j])).Incomplete?
    {
      if j == 0 {
        assert chunks[..0] == [];
        assert buf + [] == buf;
      } else {
        assert chunks[1..][j - 1] == chunks[j];
        ReceivedFirst(chunks, j);
        Associative(buf, chunks[0].bytes, Received(chunks[1..][..j - 1]));
      }
    }
  }

  /** The number of rounds in which a `read_frame` call only accumulates bytes. */
  ghost function Rounds(o: Oracle, c: Connection, chunks: seq<Chunk>): nat
    requires Sound(o)
    decreases |chunks|
  {
    if o.check(c.buffer).Incomplete? && |chunks| > 0 && chunks[0].Data? && |chunks[0].bytes| > 0
    then 1 + Rounds(o, c.(buffer := c.buffer + chunks[0].bytes), chunks[1..])
    else 0
  }

  /**
   Every call accumulates for some rounds and then ends in one step, on the
   buffer grown by exactly the chunks read in those rounds.
   */
  lemma {:induction false} ReadFrameRounds(o: Oracle, c: Connection, chunks: seq<Chunk>)
    requires Sound(o)
    ensures var k := Rounds(o, c, chunks);
            && Accumulating(o, c.buffer, chunks, k)
            && var all := c.buffer + Received(chunks[..k]);
               && !(o.check(all).Incomplete? && k < |chunks| && chunks[k].Data? && |chunks[k].bytes| > 0)
               && ReadFrame(o, c, chunks) == ReadFrame(o, c.(buffer := all), chunks[k..])
    decreases |chunks|
  {
    var k := Rounds(o, c, chunks);
    if k == 0 {
      assert chunks[..0] == [];
      assert c.buffer + [] == c.buffer;
    } else {
      var c' := c.(buffer := c.buffer + chunks[0].bytes);
      ReadFrameRounds(o, c', chunks[1..]);
      AccumulatingCons(o, c.buffer, chunks, k);
      ReceivedFirst(chunks, k);
      Associative(c.buffer, chunks[0].bytes, Received(chunks[1..][..k - 1]));
      assert k - 1 < |chunks[1..]| ==> chunks[1..][k - 1] == chunks[k];
      ReadFrameSkips(o, c, chunks, k);
    }
  }

  /**
   A call that returns a frame read exactly the chunks it needed: before the
   last one no whole frame was buffered. The frame is what `parse` builds from
   everything buffered, and the bytes left are everything buffered minus the
   `end` bytes of that frame.
   */
  lemma ReadFrameYields(o: Oracle, c: Connection, chunks: seq<Chunk>)
    requires Sound(o)
    requires ReadFrame(o, c, chunks).Returned? && Produced(ReadFrame(o, c, chunks).result)
    ensures var r := ReadFrame(o, c, chunks);
            var k := |chunks| - |r.unread|;
            var all := c.buffer + Received(chunks[..k]);
            && Accumulating(o, c.buffer, chunks, k)
            && o.check(all).Complete?
            && o.parse(all) == Parsed(r.result.value.value)
            && all == all[..o.check(all).end] + r.conn.buffer
  {
    ReadFrameRounds(o, c, chunks);
  }

  /** Conversely, once the buffered bytes hold a whole frame the call returns it, reading nothing more. */
  lemma ReadFrameYieldsWhen(o: Oracle, c: Connection, chunks: seq<Chunk>, k: nat)
    requires Sound(o)
    requires Accumulating(o, c.buffer, chunks, k)
    requires var all := c.buffer + Received(chunks[..k]);
             o.check(all).Complete? && o.parse(all).Parsed?
    ensures var all := c.buffer + Received(chunks[..k]);
            ReadFrame(o, c, chunks)
            == Returned(Ok(Some(o.parse(all).frame)), c.(buffer := all[o.check(all).end..]), chunks[k..])
  {
    ReadFrameSkips(o, c, chunks, k);
  }

  /**
   A codec error ends the call at once: nothing more is read and the
   buffer keeps every byte received.
   */
  lemma ReadFrameFailsWhen(o: Oracle, c: Connection, chunks: seq<Chunk>, k: nat)
    requires Sound(o)
    requires Accumulating(o, c.buffer, chunks, k)
    requires var all := c.buffer + Received(chunks[..k]);
             o.check(all).Malformed? || (o.check(all).Complete? && o.parse(all).Unparsable?)
    ensures var all := c.buffer + Received(chunks[..k]);
            var r := ReadFrame(o, c, chunks);
            && r.Returned? && r.result.Err? && r.result.fault.Protocol?
            && r.conn.buffer == all && r.unread == chunks[k..]
  {
    ReadFrameSkips(o, c, chunks, k);
  }

  /**
   The call reports a clean end of stream exactly when nothing is buffered,
   the codec asks for more, and the very first read returns zero bytes.
   */
  lemma ReadFrameCleanEnd(o: Oracle, c: Connection, chunks: seq<Chunk>)
    requires Sound(o)
    ensures var r := ReadFrame(o, c, chunks);
            (r.Returned? && r.result == Ok(None))
            <==> (|c.buffer| == 0 && o.check(c.buffer).Incomplete? && |chunks| > 0 && chunks[0] == Data([]))
  {
    ReadFrameRounds(o, c, chunks);
    var k := Rounds(o, c, chunks);
    if k > 0 {
      ReceivedFirst(chunks, k);
      assert |c.buffer + Received(chunks[..k])| > 0;
    } else {
      assert chunks[..0] == [];
      assert c.buffer + [] == c.buffer;
    }
  }

  /**
   A call reports "connection reset by peer" only right after its
   accumulating rounds, on a read of zero bytes while part of a frame is
   buffered. It reads nothing more and keeps the partial frame.
   */
  lemma ReadFrameReset(o: Oracle, c: Connection, chunks: seq<Chunk>)
    requires Sound(o)
    ensures ReadFrame(o, c, chunks).Returned? && ReadFrame(o, c, chunks).result == Err(ConnectionReset) ==>
            var k := Rounds(o, c, chunks);
            && k < |chunks|
            && var all := c.buffer + Received(chunks[..k]);
            && Accumulating(o, c.buffer, chunks, k)
            && o.check(all).Incomplete?
            && chunks[k] == Data([])
            && |all| > 0
            && ReadFrame(o, c, chunks) == Returned(Err(ConnectionReset), c.(buffer := all), chunks[k + 1..])
  {
    ReadFrameRounds(o, c, chunks);
    ResetAt(o, c, chunks, Rounds(o, c, chunks));
  }

  /** After the accumulating rounds, a reset can only be reported on the very next read. */
  lemma ResetAt(o: Oracle, c: Connection, chunks: seq<Chunk>, k: nat)
    requires Sound(o) && k <= |chunks|
    requires var all := c.buffer + Received(chunks[..k]);
             !(o.check(all).Incomplete? && k < |chunks| && chunks[k].Data? && |chunks[k].bytes| > 0)
    ensures var all := c.buffer + Received(chunks[..k]);
            var r := ReadFrame(o, c.(buffer := all), chunks[k..]);
            r.Returned? && r.result == Err(ConnectionReset) ==>
            && k < |chunks|
            && o.check(all).Incomplete? && chunks[k] == Data([]) && |all| > 0
            && r == Returned(Err(ConnectionReset), c.(buffer := all), chunks[k + 1..])
  {
    var all := c.buffer + Received(chunks[..k]);
    ResetStep(o, c.(buffer := all), chunks[k..]);
    if k < |chunks| {
      assert chunks[k..][1..] == chunks[k + 1..];
    }
  }

  /** A call that does not accumulate and reports a reset does so on its first read. */
  lemma ResetStep(o: Oracle, c: Connection, chunks: seq<Chunk>)
    requires Sound(o)
    requires !(o.check(c.buffer).Incomplete? && |chunks| > 0 && chunks[0].Data? && |chunks[0].bytes| > 0)
    ensures var r := ReadFrame(o, c, chunks);
            r.Returned? && r.result == Err(ConnectionReset) ==>
            && o.check(c.buffer).Incomplete? && |chunks| > 0 && chunks[0] == Data([]) && |c.buffer| > 0
            && r == Returned(Err(ConnectionReset), c, chunks[1..])
  {
  }

  lemma ReadFrameResetWhen(o: Oracle, c: Connection, chunks: seq<Chunk>, k: nat)
    requires Sound(o)
    requires Accumulating(o, c.buffer, chunks, k) && k < |chunks| && chunks[k] == Data([])
    requires var all := c.buffer + Received(chunks[..k]);
             o.check(all).Incomplete? && |all| > 0
    ensures var all := c.buffer + Received(chunks[..k]);
            ReadFrame(o, c, chunks) == Returned(Err(ConnectionReset), c.(buffer := all), chunks[k + 1..])
  {
    ReadFrameSkips(o, c, chunks, k);
    assert chunks[k..][1..] == chunks[k + 1..];
  }

  /**
   A call still waiting after the last chunk has appended every chunk to the
   buffer, and the codec still asks for more.
   */
  lemma ReadFrameWaiting(o: Oracle, c: Connection, chunks: seq<Chunk>)
    requires Sound(o)
    requires ReadFrame(o, c, chunks).Waiting?
    ensures var all := c.buffer + Received(chunks);
            && Accumulating(o, c.buffer, chunks, |chunks|)
            && o.check(all).Incomplete?
            && ReadFrame(o, c, chunks).conn.buffer == all
  {
    ReadFrameRounds(o, c, chunks);
    assert chunks[..|chunks|] == chunks;
  }

  /** Later reads do not change the rounds before them. */
  lemma AccumulatingExtends(o: Oracle, buf: seq<byte>, chunks: seq<Chunk>, after: seq<Chunk>, k: nat)
    requires Accumulating(o, buf, chunks, k)
    ensures Accumulating(o, buf, chunks + after, k)
  {
    forall j | 0 <= j < k
      ensures (chunks + after)[j] == chunks[j] && (chunks + after)[..j] == chunks[..j]
    {
    }
  }

  /** Reads that complete a frame only with the last of them return it from a fresh connection. */
  lemma FreshConnectionYields(o: Oracle, chunks: seq<Chunk>, more: seq<Chunk>)
    requires Sound(o)
    requires Accumulating(o, [], chunks, |chunks|)
    requires o.check(Received(chunks)).Complete? && o.parse(Received(chunks)).Parsed?
    ensures var all := Received(chunks);
            ReadFrame(o, New(), chunks + more)
            == Returned(Ok(Some(o.parse(all).frame)), Connection(all[o.check(all).end..], []), more)
  {
    var cs := chunks + more;
    var k := |chunks|;
    AccumulatingExtends(o, [], chunks, more, k);
    assert cs[..k] == chunks && cs[k..] == more;
    assert [] + Received(chunks) == Received(chunks);
    ReadFrameYieldsWhen(o, New(), cs, k);
  }

  /** Part of a frame, then a zero-byte read, on a fresh connection is reported as a reset. */
  lemma FreshConnectionResets(o: Oracle, chunks: seq<Chunk>, more: seq<Chunk>)
    requires Sound(o)
    requires Accumulating(o, [], chunks, |chunks|)
    requires |Received(chunks)| > 0 && o.check(Received(chunks)).Incomplete?
    ensures ReadFrame(o, New(), chunks + [Data([])] + more)
            == Returned(Err(ConnectionReset), Connection(Received(chunks), []), more)
  {
    var cs := chunks + [Data([])] + more;
    var k := |chunks|;
    AccumulatingExtends(o, [], chunks, [Data([])] + more, k);
    assert cs == chunks + ([Data([])] + more);
    assert cs[..k] == chunks && cs[k] == Data([]) && cs[k + 1..] == more;
    assert [] + Received(chunks) == Received(chunks);
    ReadFrameResetWhen(o, New(), cs, k);
  }
}
