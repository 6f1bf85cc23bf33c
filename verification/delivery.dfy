/**
 The two ends of a connection together: what `write_frame` sends reads back
 as the same frames in the same order, and a frame delivered in arbitrary
 chunks is returned by `read_frame` exactly when its last byte arrives.
 These use the reference reader as the codec.
 */
module Delivery {
  import opened Wire
  import opened Frames
  import opened Codec
  import opened Grammar
  import opened Connections

  /** Whatever a write sends is the encoding of that frame, readable back in isolation. */
  lemma WrittenFrameReadsBack(c: Connection, f: Frame)
    requires Representable(f)
    ensures WriteFrame(c, f).Ok?
    ensures var out := WriteFrame(c, f).value.written;
            Decode(out[|c.written|..]) == Done(f, |out| - |c.written|)
  {
    var out := WriteFrame(c, f).value.written;
    DecodeEncode(f, []);
    assert out[|c.written|..] == Encode(f).value + [];
  }

  predicate AllRepresentable(fs: seq<Frame>) {
    forall i :: 0 <= i < |fs| ==> Representable(fs[i])
  }

  /** The caller writing each frame in turn on the same connection. */
  function WriteAll(c: Connection, fs: seq<Frame>): (r: Connection)
    requires forall i :: 0 <= i < |fs| ==> !fs[i].Array?
    ensures r.buffer == c.buffer
    ensures |c.written| <= |r.written| && r.written[..|c.written|] == c.written
    decreases |fs|
  {
    if |fs| == 0 then c
    else
      var c1 := WriteFrame(c, fs[0]).value;
      var r := WriteAll(c1, fs[1..]);
      assert r.written[..|c.written|] == r.written[..|c1.written|][..|c.written|];
      r
  }

  /** Reads frames with the reference reader until the bytes run out. */
  function DecodeAll(b: seq<byte>): Option<seq<Frame>>
    decreases |b|
  {
    if |b| == 0 then Some([])
    else match Decode(b)
      case Done(f, n) =>
        (match DecodeAll(b[n..])
         case Some(fs) => Some([f] + fs)
         case None => None)
      case _ => None
  }

  /** Frames written one after another read back as exactly those frames, in order. */
  lemma {:induction false} WrittenFramesInOrder(c: Connection, fs: seq<Frame>)
    requires AllRepresentable(fs)
    ensures DecodeAll(WriteAll(c, fs).written[|c.written|..]) == Some(fs)
    decreases |fs|
  {
    if |fs| == 0 {
      assert WriteAll(c, fs).written[|c.written|..] == [];
    } else {
      RepresentableRest(fs);
      var c1 := WriteFrame(c, fs[0]).value;
      var later := WriteAll(c1, fs[1..]).written[|c1.written|..];
      WrittenFramesInOrder(c1, fs[1..]);
      WriteAllFirst(c, fs);
      DecodeAllFirst(fs[0], later, fs[1..]);
      assert [fs[0]] + fs[1..] == fs;
    }
  }

  lemma RepresentableRest(fs: seq<Frame>)
    requires AllRepresentable(fs) && |fs| > 0
    ensures Representable(fs[0]) && AllRepresentable(fs[1..])
  {
    forall i | 0 <= i < |fs| - 1 ensures Representable(fs[1..][i]) {
      assert fs[1..][i] == fs[i + 1];
    }
  }

  /** What a run of writes sends is the first frame's encoding, then what the rest send. */
  lemma WriteAllFirst(c: Connection, fs: seq<Frame>)
    requires AllRepresentable(fs) && |fs| > 0
    ensures var c1 := WriteFrame(c, fs[0]).value;
            WriteAll(c, fs).written[|c.written|..]
            == Encode(fs[0]).value + WriteAll(c1, fs[1..]).written[|c1.written|..]
  {
    var c1 := WriteFrame(c, fs[0]).value;
    var out := WriteAll(c1, fs[1..]).written;
    assert WriteAll(c, fs) == WriteAll(c1, fs[1..]);
    assert out[..|c1.written|] == c1.written;
    assert c1.written[|c.written|..] == Encode(fs[0]).value;
    SuffixSplit(out, |c.written|, |c1.written|);
  }

  lemma SuffixSplit(s: seq<byte>, i: nat, j: nat)
    requires i <= j <= |s|
    ensures s[i..] == s[..j][i..] + s[j..]
  {
  }

  lemma DecodeAllFirst(f: Frame, later: seq<byte>, fs: seq<Frame>)
    requires Representable(f)
    requires DecodeAll(later) == Some(fs)
    ensures DecodeAll(Encode(f).value + later) == Some([f] + fs)
  {
    var w := Encode(f).value;
    DecodeEncode(f, later);
    assert (w + later)[|w|..] == later;
  }

  lemma ReceivedSplit(chunks: seq<Chunk>, j: nat)
    requires j <= |chunks|
    ensures Received(chunks) == Received(chunks[..j]) + Received(chunks[j..])
    decreases j
  {
    if j > 0 {
      ReceivedSplit(chunks[1..], j - 1);
      assert chunks[1..][..j - 1] == chunks[..j][1..];
      assert chunks[1..][j - 1..] == chunks[j..];
    } else {
      assert chunks[..0] == [] && chunks[0..] == chunks;
    }
  }

  /** Cutting a delivery after `j` chunks gives a prefix of the bytes cut after `k >= j` chunks. */
  lemma ReceivedPrefix(chunks: seq<Chunk>, j: nat, k: nat)
    requires j <= k <= |chunks|
    ensures |Received(chunks[..j])| <= |Received(chunks[..k])|
    ensures Received(chunks[..j]) == Received(chunks[..k])[..|Received(chunks[..j])|]
  {
    ReceivedSplit(chunks[..k], j);
    assert chunks[..k][..j] == chunks[..j];
  }

  /**
   While the bytes received are a proper prefix of an encoded frame, the
   reference reader asks for more and a fresh connection keeps reading.
   */
  lemma DeliveryAccumulates(f: Frame, chunks: seq<Chunk>, last: nat)
    requires Representable(f)
    requires last <= |chunks|
    requires forall i :: 0 <= i < last ==> chunks[i].Data? && |chunks[i].bytes| > 0
    requires forall j :: 0 <= j < last ==>
               && |Received(chunks[..j])| < |Encode(f).value|
               && Received(chunks[..j]) == Encode(f).value[..|Received(chunks[..j])|]
    ensures Accumulating(Reference, [], chunks, last)
  {
    forall j | 0 <= j < last
      ensures Reference.check([] + Received(chunks[..j])).Incomplete?
    {
      assert [] + Received(chunks[..j]) == Received(chunks[..j]);
      DecodePrefix(f, |Received(chunks[..j])|);
    }
  }

  /** The chunks before the one that completes `w` delivered proper prefixes of `w`. */
  lemma EarlierChunksShort(chunks: seq<Chunk>, last: nat, w: seq<byte>)
    requires last <= |chunks|
    requires |Received(chunks[..last])| < |w| && Received(chunks[..last]) == w[..|Received(chunks[..last])|]
    ensures forall j :: 0 <= j <= last ==>
              && |Received(chunks[..j])| < |w|
              && Received(chunks[..j]) == w[..|Received(chunks[..j])|]
  {
    forall j | 0 <= j <= last
      ensures |Received(chunks[..j])| < |w| && Received(chunks[..j]) == w[..|Received(chunks[..j])|]
    {
      ReceivedPrefix(chunks, j, last);
    }
  }

  /**
   A frame split over any number of non-empty reads, the last of which
   completes it, is returned by a fresh connection right after that read;
   bytes past the frame stay buffered and later reads stay unread.
   */
  lemma DeliveredWhole(f: Frame, chunks: seq<Chunk>, tail: seq<byte>, more: seq<Chunk>)
    requires Representable(f)
    requires |chunks| > 0
    requires forall i :: 0 <= i < |chunks| ==> chunks[i].Data? && |chunks[i].bytes| > 0
    requires Received(chunks) == Encode(f).value + tail
    requires |Received(chunks[..|chunks| - 1])| < |Encode(f).value|
    ensures ReadFrame(Reference, New(), chunks + more)
            == Returned(Ok(Some(f)), Connection(tail, []), more)
  {
    ReferenceSound();
    var w := Encode(f).value;
    WholeAccumulates(f, chunks, tail);
    DecodeEncode(f, tail);
    FreshConnectionYields(Reference, chunks, more);
    assert (w + tail)[|w|..] == tail;
  }

  lemma WholeAccumulates(f: Frame, chunks: seq<Chunk>, tail: seq<byte>)
    requires Representable(f)
    requires |chunks| > 0
    requires forall i :: 0 <= i < |chunks| ==> chunks[i].Data? && |chunks[i].bytes| > 0
    requires Received(chunks) == Encode(f).value + tail
    requires |Received(chunks[..|chunks| - 1])| < |Encode(f).value|
    ensures Accumulating(Reference, [], chunks, |chunks|)
  {
    var w := Encode(f).value;
    var k := |chunks|;
    assert Received(chunks[..k - 1]) == w[..|Received(chunks[..k - 1])|] by {
      ReceivedPrefix(chunks, k - 1, k);
      assert chunks[..k] == chunks;
    }
    EarlierChunksShort(chunks, k - 1, w);
    DeliveryAccumulates(f, chunks, k);
  }

  /**
   A fresh connection that receives only part of a frame and then sees the
   peer close reports a reset, never a frame or a clean end.
   */
  lemma DeliveredTruncated(f: Frame, chunks: seq<Chunk>, more: seq<Chunk>)
    requires Representable(f)
    requires forall i :: 0 <= i < |chunks| ==> chunks[i].Data? && |chunks[i].bytes| > 0
    requires 0 < |Received(chunks)| < |Encode(f).value|
    requires Received(chunks) == Encode(f).value[..|Received(chunks)|]
    ensures ReadFrame(Reference, New(), chunks + [Data([])] + more)
            == Returned(Err(ConnectionReset), Connection(Received(chunks), []), more)
  {
    ReferenceSound();
    TruncatedAccumulates(f, chunks);
    DecodePrefix(f, |Received(chunks)|);
    FreshConnectionResets(Reference, chunks, more);
  }

  lemma TruncatedAccumulates(f: Frame, chunks: seq<Chunk>)
    requires Representable(f)
    requires forall i :: 0 <= i < |chunks| ==> chunks[i].Data? && |chunks[i].bytes| > 0
    requires |Received(chunks)| < |Encode(f).value|
    requires Received(chunks) == Encode(f).value[..|Received(chunks)|]
    ensures Accumulating(Reference, [], chunks, |chunks|)
  {
    var k := |chunks|;
    assert chunks[..k] == chunks;
    EarlierChunksShort(chunks, k, Encode(f).value);
    DeliveryAccumulates(f, chunks, k);
  }

  /** Bytes that start with no known tag fail at once, whatever follows, without reading. */
  lemma UnknownTagRejected(c: Connection, chunks: seq<Chunk>)
    requires |c.buffer| > 0 && c.buffer[0] !in {Plus, Minus, Colon, Dollar}
    ensures var r := ReadFrame(Reference, c, chunks);
            && r.Returned? && r.result.Err? && r.result.fault.Protocol?
            && r.conn == c && r.unread == chunks
  {
    ReferenceSound();
    assert chunks[..0] == [];
    assert c.buffer + Received(chunks[..0]) == c.buffer;
    assert Reference.check(c.buffer).Malformed?;
    ReadFrameFailsWhen(Reference, c, chunks, 0);
  }
}
