/**
 The frame values a connection carries, the failures it reports, and the
 byte layout `write_frame` gives each frame (RESP2, the Redis serialization
 protocol, without arrays).
 */
module Frames {
  import opened Wire

  /** One protocol message. Simple and Error text is held as its UTF-8 bytes. */
  datatype Frame =
    | Simple(text: seq<byte>)
    | Error(text: seq<byte>)
    | Integer(value: u64)
    | Bulk(payload: seq<byte>)
    | Null
    | Array(items: seq<Frame>)

  /** Why a connection operation failed. */
  datatype Fault =
    | Protocol(reason: string)  // an error from the frame codec other than "incomplete"
    | ConnectionReset           // the peer closed in the middle of a frame
    | Transport(reason: string) // an I/O error from a read of the socket
    | Unimplemented             // writing an array frame

  datatype Result<T> = Ok(value: T) | Err(fault: Fault)

  datatype Option<T> = None | Some(value: T)

  /** The exact five bytes `$-1\r\n` of a null frame. */
  const NullWire: seq<byte> := [Dollar, Minus, One, CR, LF]

  /** The leading byte of each supported frame on the wire. */
  function Tag(f: Frame): byte
    requires !f.Array?
  {
    match f
    case Simple(_) => Plus
    case Error(_) => Minus
    case Integer(_) => Colon
    case Bulk(_) | Null => Dollar
  }

  /** The bytes `write_frame` sends for `f`; array frames are not implemented. */
  function Encode(f: Frame): (r: Result<seq<byte>>)
    ensures r.Err? <==> f.Array?
    ensures r.Err? ==> r.fault == Unimplemented
    ensures r.Ok? ==> |r.value| >= 3 && r.value[0] == Tag(f) && r.value[|r.value| - 2..] == CRLF
  {
    match f
    case Simple(s) => Ok([Plus] + s + CRLF)
    case Error(s) => Ok([Minus] + s + CRLF)
    case Integer(v) => Ok([Colon] + DecimalLine(v))
    case Null => Ok(NullWire)
    case Bulk(p) => Ok([Dollar] + DecimalLine(|p|) + p + CRLF)
    case Array(_) => Err(Unimplemented)
  }

  /** An integer goes on the wire as its decimal numeral between `:` and CRLF. */
  lemma EncodeInteger(v: u64)
    ensures Encode(Integer(v)).Ok?
    ensures var w := Encode(Integer(v)).value;
            IsNumeral(w[1..|w| - 2]) && ValueOf(w[1..|w| - 2]) == v && CR !in w[1..|w| - 2]
            && (w[1] == Zero ==> |w| == 4)
  {
    var w := Encode(Integer(v)).value;
    assert w[1..|w| - 2] == DecimalLine(v)[..|DecimalLine(v)| - 2];
  }

  /** A bulk frame declares exactly the length of the payload that follows. */
  lemma EncodeBulk(p: seq<byte>)
    ensures Encode(Bulk(p)).Ok? && BulkLayout(Encode(Bulk(p)).value, p)
  {
    var w := Encode(Bulk(p)).value;
    var h := |w| - |p| - 5;
    assert w[1..1 + h] == DecimalLine(|p|)[..|DecimalLine(|p|)| - 2];
    assert w[1 + h..3 + h] == CRLF;
    assert w[3 + h..|w| - 2] == p;
  }

  /**
   `w` is `$`, a numeral whose value is the payload length and that has no
   leading zero, CRLF, the payload, CRLF: the declared length is the length
   of what follows.
   */
  predicate BulkLayout(w: seq<byte>, p: seq<byte>) {
    var h := |w| - |p| - 5;
    && h >= 1
    && w[0] == Dollar
    && IsNumeral(w[1..1 + h]) && ValueOf(w[1..1 + h]) == |p|
    && (w[1] == Zero ==> h == 1)
    && w[1 + h..3 + h] == CRLF
    && w[3 + h..|w| - 2] == p
    && w[|w| - 2..] == CRLF
  }
}
