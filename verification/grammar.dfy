/**
 A reference reader for the byte layout that `write_frame` emits: one frame
 from the front of a buffer, or "need more bytes", or "malformed". It is
 written independently of the encoder, reads every representable encoding
 back as the frame encoded, and, as `Reference`, is one concrete codec
 satisfying the connection's assumptions.
 */
module Grammar {
  import opened Wire
  import opened Frames
  import opened Codec

  datatype Decoded =
    | Done(frame: Frame, size: nat)  // `frame` occupies the first `size` bytes
    | NeedMore
    | Bad(reason: string)

  /** Frames whose encoding can be read back: no arrays, and no CR inside text. */
  predicate Representable(f: Frame) {
    match f
    case Simple(t) => CR !in t
    case Error(t) => CR !in t
    case Array(_) => false
    case _ => true
  }

  /** The first index at or after `from` holding a CR, or |b| if there is none. */
  function FindCR(b: seq<byte>, from: nat): (i: nat)
    requires from <= |b|
    ensures from <= i <= |b|
    ensures i < |b| ==> b[i] == CR
    ensures forall j :: from <= j < i ==> b[j] != CR
    decreases |b| - from
  {
    if from == |b| || b[from] == CR then from else FindCR(b, from + 1)
  }

  datatype Line =
    | Line(text: seq<byte>, next: nat)  // text, then CRLF, ending just before `next`
    | LineShort                         // no complete line yet
    | LineBad                           // a CR not followed by LF

  /** The line starting at `from`, terminated by its first CR, which must precede LF. */
  function ReadLine(b: seq<byte>, from: nat): (l: Line)
    requires from <= |b|
    ensures l.Line? ==> from + |l.text| + 2 == l.next <= |b|
                        && b[from..l.next] == l.text + CRLF && CR !in l.text
  {
    var i := FindCR(b, from);
    if i + 1 >= |b| then LineShort
    else if b[i + 1] != LF then LineBad
    else
      var t := b[from..i];
      assert CR !in t by {
        forall j | 0 <= j < |t| ensures t[j] != CR {
          assert t[j] == b[from + j];
        }
      }
      Line(t, i + 2)
  }

  /** Reads one frame from the front of `b`. */
  function Decode(b: seq<byte>): (d: Decoded)
    ensures d.Done? ==> 0 < d.size <= |b|
    ensures |b| > 0 && b[0] !in {Plus, Minus, Colon, Dollar} ==> d.Bad?
  {
    if |b| == 0 then NeedMore
    else if b[0] == Plus || b[0] == Minus then DecodeText(b)
    else if b[0] == Colon then DecodeInteger(b)
    else if b[0] == Dollar then DecodeDollar(b)
    else if b[0] == Star then Bad("array frames are not supported")
    else Bad("unknown frame tag")
  }

  /** A simple string (tag `+`) or an error (tag `-`): one line of text. */
  function DecodeText(b: seq<byte>): (d: Decoded)
    requires |b| > 0
    ensures d.Done? ==> 0 < d.size <= |b|
  {
    match ReadLine(b, 1)
    case LineShort => NeedMore
    case LineBad => Bad("line not terminated by CRLF")
    case Line(t, next) => Done(if b[0] == Plus then Simple(t) else Error(t), next)
  }

  /** An integer (tag `:`): a numeral that fits in 64 unsigned bits. */
  function DecodeInteger(b: seq<byte>): (d: Decoded)
    requires |b| > 0
    ensures d.Done? ==> 0 < d.size <= |b|
  {
    match ReadLine(b, 1)
    case LineShort => NeedMore
    case LineBad => Bad("line not terminated by CRLF")
    case Line(t, next) =>
      if IsNumeral(t) && ValueOf(t) < U64Limit then Done(Integer(ValueOf(t)), next)
      else Bad("invalid integer")
  }

  /** Tag `$`: the null line `-1`, or a length line followed by that many bytes and CRLF. */
  function DecodeDollar(b: seq<byte>): (d: Decoded)
    requires |b| > 0
    ensures d.Done? ==> 0 < d.size <= |b|
  {
    DollarLine(b, ReadLine(b, 1))
  }

  /** What follows a `$` whose line, starting at offset 1, was read as `l`. */
  function DollarLine(b: seq<byte>, l: Line): (d: Decoded)
    requires l.Line? ==> 0 < l.next <= |b|
    ensures d.Done? ==> 0 < d.size <= |b|
  {
    match l
    case LineShort => NeedMore
    case LineBad => Bad("line not terminated by CRLF")
    case Line(t, next) =>
      if t == [Minus, One] then Done(Null, next)
      else if !IsNumeral(t) then Bad("invalid bulk length")
      else BulkBody(b, next, ValueOf(t))
  }

  /** The `len` payload bytes at `next` and their CRLF. */
  function BulkBody(b: seq<byte>, next: nat, len: nat): (d: Decoded)
    requires 0 < next <= |b|
    ensures d.Done? ==> 0 < d.size <= |b|
  {
    if next + len + 2 > |b| then NeedMore
    else if b[next + len..next + len + 2] != CRLF then Bad("bulk payload not terminated by CRLF")
    else Done(Bulk(b[next..next + len]), next + len + 2)
  }

  /** A buffer holding `t` and CRLF at `from` yields exactly that line. */
  lemma LineAt(b: seq<byte>, from: nat, t: seq<byte>)
    requires CR !in t
    requires from + |t| + 2 <= |b| && b[from..from + |t| + 2] == t + CRLF
    ensures ReadLine(b, from) == Line(t, from + |t| + 2)
  {
    var i := FindCR(b, from);
    forall j | from <= j < from + |t| ensures b[j] != CR {
      assert b[j] == (t + CRLF)[j - from];
    }
    assert b[from + |t|] == (t + CRLF)[|t|];
    assert b[from + |t| + 1] == (t + CRLF)[|t| + 1];
    assert i == from + |t|;
    assert b[from..i] == (t + CRLF)[..|t|];
  }

  /** A buffer with no CR before its last byte, from `from` on, holds no complete line. */
  lemma LineCut(b: seq<byte>, from: nat)
    requires from <= |b|
    requires forall j :: from <= j < |b| - 1 ==> b[j] != CR
    ensures ReadLine(b, from) == LineShort
  {
  }

  /** The encoding of a representable frame reads back as that frame, whatever follows it. */
  lemma DecodeEncode(f: Frame, rest: seq<byte>)
    requires Representable(f)
    ensures Encode(f).Ok?
    ensures Decode(Encode(f).value + rest) == Done(f, |Encode(f).value|)
  {
    match f
    case Simple(t) => DecodeEncodedText(f, rest);
    case Error(t) => DecodeEncodedText(f, rest);
    case Integer(v) => DecodeEncodedInteger(v, rest);
    case Null => DecodeEncodedNull(rest);
    case Bulk(p) => DecodeEncodedBulk(p, rest);
  }

  lemma DecodeEncodedText(f: Frame, rest: seq<byte>)
    requires f.Simple? || f.Error?
    requires CR !in f.text
    ensures Encode(f).Ok? && Decode(Encode(f).value + rest) == Done(f, |Encode(f).value|)
  {
    var t := f.text;
    var w := Encode(f).value;
    var b := w + rest;
    assert w == [Tag(f)] + t + CRLF;
    assert b[1..1 + |t| + 2] == t + CRLF;
    LineAt(b, 1, t);
    assert Decode(b) == DecodeText(b);
  }

  lemma DecodeEncodedInteger(v: u64, rest: seq<byte>)
    ensures Encode(Integer(v)).Ok?
    ensures Decode(Encode(Integer(v)).value + rest) == Done(Integer(v), |Encode(Integer(v)).value|)
  {
    var w := Encode(Integer(v)).value;
    var b := w + rest;
    var t := w[1..|w| - 2];
    assert b[1..1 + |t| + 2] == t + CRLF;
    assert CR !in t by {
      DigitsValue(v);
      assert w == [Colon] + Digits(v) + CRLF;
      assert t == Digits(v);
    }
    LineAt(b, 1, t);
    assert Decode(b) == DecodeInteger(b);
  }

  lemma DecodeEncodedNull(rest: seq<byte>)
    ensures Decode(NullWire + rest) == Done(Null, 5)
  {
    var b := NullWire + rest;
    assert b[1..5] == [Minus, One] + CRLF;
    LineAt(b, 1, [Minus, One]);
    assert Decode(b) == DecodeDollar(b);
  }

  lemma DecodeEncodedBulk(p: seq<byte>, rest: seq<byte>)
    ensures Encode(Bulk(p)).Ok?
    ensures Decode(Encode(Bulk(p)).value + rest) == Done(Bulk(p), |Encode(Bulk(p)).value|)
  {
    var w := Encode(Bulk(p)).value;
    var t := Digits(|p|);
    DigitsValue(|p|);
    BulkWire(p);
    assert w + rest == [Dollar] + t + CRLF + p + CRLF + rest;
    DollarReads(t, p, rest);
  }

  /** The bulk encoding, piece by piece. */
  lemma BulkWire(p: seq<byte>)
    ensures Encode(Bulk(p)) == Ok([Dollar] + Digits(|p|) + CRLF + p + CRLF)
  {
    var d := Digits(|p|);
    assert DecimalLine(|p|) == d + CRLF;
    Regroup(d, p);
  }

  lemma Regroup(d: seq<byte>, p: seq<byte>)
    ensures [Dollar] + (d + CRLF) + p + CRLF == [Dollar] + d + CRLF + p + CRLF
  {
  }

  /** A length line holding the payload's length, then the payload and CRLF, read as a bulk frame. */
  lemma DollarReads(t: seq<byte>, p: seq<byte>, rest: seq<byte>)
    requires IsNumeral(t) && ValueOf(t) == |p| && CR !in t
    ensures Decode([Dollar] + t + CRLF + p + CRLF + rest) == Done(Bulk(p), |t| + |p| + 5)
  {
    var b := [Dollar] + t + CRLF + p + CRLF + rest;
    BulkSlices(t, p, rest);
    BulkReads(b, t, p);
    DollarDispatch(b, Line(t, |t| + 3));
  }

  lemma BulkReads(b: seq<byte>, t: seq<byte>, p: seq<byte>)
    requires IsNumeral(t) && ValueOf(t) == |p| && CR !in t
    requires |b| >= |t| + |p| + 5 && b[0] == Dollar
    requires b[1..|t| + 3] == t + CRLF
    requires b[|t| + 3..|t| + 3 + |p|] == p
    requires b[|t| + 3 + |p|..|t| + 5 + |p|] == CRLF
    ensures ReadLine(b, 1) == Line(t, |t| + 3)
    ensures DollarLine(b, Line(t, |t| + 3)) == Done(Bulk(p), |t| + |p| + 5)
  {
    LineAt(b, 1, t);
    NumeralIsNotNull(t);
    BulkBodyReads(b, t, p);
    BulkAfterLine(b, t, p);
  }

  /** A buffer starting with `$` is read by what follows its first line. */
  lemma DollarDispatch(b: seq<byte>, l: Line)
    requires |b| > 0 && b[0] == Dollar && ReadLine(b, 1) == l
    ensures Decode(b) == DollarLine(b, l)
  {
  }

  lemma BulkAfterLine(b: seq<byte>, t: seq<byte>, p: seq<byte>)
    requires IsNumeral(t) && ValueOf(t) == |p|
    requires |b| >= |t| + |p| + 5
    requires t != [Minus, One]
    requires BulkBody(b, |t| + 3, |p|) == Done(Bulk(p), |t| + |p| + 5)
    ensures DollarLine(b, Line(t, |t| + 3)) == Done(Bulk(p), |t| + |p| + 5)
  {
  }

  /** The payload and its CRLF right after a length line holding `t`. */
  lemma BulkBodyReads(b: seq<byte>, t: seq<byte>, p: seq<byte>)
    requires |b| >= |t| + |p| + 5
    requires b[|t| + 3..|t| + 3 + |p|] == p
    requires b[|t| + 3 + |p|..|t| + 5 + |p|] == CRLF
    ensures BulkBody(b, |t| + 3, |p|) == Done(Bulk(p), |t| + |p| + 5)
  {
  }

  /** A length numeral is never the `-1` of a null frame. */
  lemma NumeralIsNotNull(t: seq<byte>)
    requires IsNumeral(t)
    ensures t != [Minus, One]
  {
    assert IsDigit(t[0]);
  }

  lemma BulkSlices(t: seq<byte>, p: seq<byte>, rest: seq<byte>)
    ensures var b := [Dollar] + t + CRLF + p + CRLF + rest;
            && |b| == |t| + |p| + 5 + |rest|
            && b[0] == Dollar
            && b[1..|t| + 3] == t + CRLF
            && b[|t| + 3..|t| + 3 + |p|] == p
            && b[|t| + 3 + |p|..|t| + 5 + |p|] == CRLF
  {
    var b := [Dollar] + t + CRLF + p + CRLF + rest;
    assert b[1..|t| + 3] == t + CRLF;
    assert b[|t| + 3..|t| + 3 + |p|] == p;
    assert b[|t| + 3 + |p|..|t| + 5 + |p|] == CRLF;
  }

  /** Every proper prefix of an encoded frame asks for more bytes, never fails. */
  lemma DecodePrefix(f: Frame, k: nat)
    requires Representable(f)
    ensures Encode(f).Ok?
    ensures k < |Encode(f).value| ==> Decode(Encode(f).value[..k]) == NeedMore
  {
    var w := Encode(f).value;
    if 0 < k < |w| {
      match f
      case Simple(t) => TextPrefix(f, k);
      case Error(t) => TextPrefix(f, k);
      case Integer(v) => IntegerPrefix(v, k);
      case Null =>
        var b := w[..k];
        assert forall j :: 1 <= j < |b| - 1 ==> b[j] != CR;
        LineCut(b, 1);
        assert Decode(b) == DecodeDollar(b);
      case Bulk(p) => BulkPrefix(p, k);
    }
  }

  lemma TextPrefix(f: Frame, k: nat)
    requires f.Simple? || f.Error?
    requires CR !in f.text
    requires 0 < k < |Encode(f).value|
    ensures Decode(Encode(f).value[..k]) == NeedMore
  {
    var t := f.text;
    var w := Encode(f).value;
    var b := w[..k];
    assert w == [Tag(f)] + t + CRLF;
    forall j | 1 <= j < |b| - 1 ensures b[j] != CR {
      assert b[j] == t[j - 1];
    }
    LineCut(b, 1);
    assert Decode(b) == DecodeText(b);
  }

  lemma IntegerPrefix(v: u64, k: nat)
    requires 0 < k < |Encode(Integer(v)).value|
    ensures Decode(Encode(Integer(v)).value[..k]) == NeedMore
  {
    var w := Encode(Integer(v)).value;
    var t := Digits(v);
    assert w == [Colon] + t + CRLF;
    var b := w[..k];
    forall j | 1 <= j < |b| - 1 ensures b[j] != CR {
      assert b[j] == t[j - 1];
    }
    LineCut(b, 1);
    assert Decode(b) == DecodeInteger(b);
  }

  lemma BulkPrefix(p: seq<byte>, k: nat)
    requires 0 < k < |Encode(Bulk(p)).value|
    ensures Decode(Encode(Bulk(p)).value[..k]) == NeedMore
  {
    var w := Encode(Bulk(p)).value;
    var t := Digits(|p|);
    DigitsValue(|p|);
    BulkWire(p);
    if k <= |t| + 2 {
      BulkPrefixInLength(w, t, k);
    } else {
      assert w[1..|t| + 3] == t + CRLF;
      BulkPrefixInPayload(w, t, p, k);
    }
  }

  /** Cut inside the length line: the line is not complete yet. */
  lemma BulkPrefixInLength(w: seq<byte>, t: seq<byte>, k: nat)
    requires CR !in t
    requires |w| >= |t| + 3 && w[0] == Dollar && w[1..|t| + 1] == t
    requires 0 < k <= |t| + 2
    ensures Decode(w[..k]) == NeedMore
  {
    var b := w[..k];
    forall j | 1 <= j < |b| - 1 ensures b[j] != CR {
      assert b[j] == t[j - 1];
    }
    LineCut(b, 1);
    assert Decode(b) == DecodeDollar(b);
  }

  /** Cut after the length line: the payload or its CRLF is still missing. */
  lemma BulkPrefixInPayload(w: seq<byte>, t: seq<byte>, p: seq<byte>, k: nat)
    requires IsNumeral(t) && ValueOf(t) == |p| && CR !in t
    requires |w| == |t| + |p| + 5 && w[0] == Dollar && w[1..|t| + 3] == t + CRLF
    requires |t| + 2 < k < |w|
    ensures Decode(w[..k]) == NeedMore
  {
    var b := w[..k];
    assert b[1..|t| + 3] == w[1..|t| + 3];
    LineAt(b, 1, t);
    NumeralIsNotNull(t);
    assert DollarLine(b, Line(t, |t| + 3)) == BulkBody(b, |t| + 3, |p|);
    assert DecodeDollar(b) == DollarLine(b, Line(t, |t| + 3));
    assert Decode(b) == DecodeDollar(b);
  }

  function RefCheck(b: seq<byte>): CheckResult {
    match Decode(b)
    case Done(_, n) => Complete(n)
    case NeedMore => Incomplete
    case Bad(reason) => Malformed(reason)
  }

  function RefParse(b: seq<byte>): Parsed {
    match Decode(b)
    case Done(f, _) => Parsed(f)
    case NeedMore => Unparsable("incomplete frame")
    case Bad(reason) => Unparsable(reason)
  }

  /** The reference reader as a check/parse pair. */
  const Reference: Oracle := Oracle(RefCheck, RefParse)

  lemma ReferenceSound()
    ensures Sound(Reference)
  {
  }
}
