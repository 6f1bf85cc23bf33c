/**
 Bytes on the wire: the byte type, the ASCII constants the RESP2 layout uses,
 and the unsigned decimal numerals that `write_decimal` puts before a CRLF.
 */
module Wire {

  newtype byte = x: int | 0 <= x < 256

  /** The range of Rust's `u64`, the type `write_decimal` takes. */
  const U64Limit: nat := 0x1_0000_0000_0000_0000
  type u64 = x: nat | x < U64Limit

  const CR: byte := 13
  const LF: byte := 10
  const CRLF: seq<byte> := [CR, LF]

  const Plus: byte := 43    // '+'
  const Minus: byte := 45   // '-'
  const Colon: byte := 58   // ':'
  const Dollar: byte := 36  // '$'
  const Star: byte := 42    // '*'
  const Zero: byte := 48    // '0'
  const One: byte := 49     // '1'

  predicate IsDigit(b: byte) {
    Zero <= b <= Zero + 9
  }

  /** The value 0..9 of one ASCII digit. */
  function DigitValue(b: byte): nat
    requires IsDigit(b)
  {
    (b - Zero) as nat
  }

  /** A non-empty run of ASCII digits. */
  predicate IsNumeral(s: seq<byte>) {
    |s| > 0 && forall i :: 0 <= i < |s| ==> IsDigit(s[i])
  }

  /** The number a run of digits denotes, most significant digit first. */
  function ValueOf(s: seq<byte>): nat
    requires forall i :: 0 <= i < |s| ==> IsDigit(s[i])
  {
    if |s| == 0 then 0
    else 10 * ValueOf(s[..|s| - 1]) + DigitValue(s[|s| - 1])
  }

  /** The shortest decimal numeral of `n`: the digits `write_decimal` emits. */
  function Digits(n: nat): (r: seq<byte>)
    ensures IsNumeral(r)
    ensures r[0] == Zero ==> n == 0
    ensures CR !in r && LF !in r
    decreases n
  {
    if n < 10 then [Zero + n as byte]
    else Digits(n / 10) + [Zero + (n % 10) as byte]
  }

  /** Reading back the digits of `n` gives `n`. */
  lemma {:induction false} DigitsValue(n: nat)
    ensures ValueOf(Digits(n)) == n
    decreases n
  {
    if n >= 10 {
      var d := Digits(n);
      assert d[..|d| - 1] == Digits(n / 10);
      DigitsValue(n / 10);
    }
  }

  /** `write_decimal`: the decimal digits of `n` and a CRLF. */
  function DecimalLine(n: nat): (r: seq<byte>)
    ensures |r| >= 3 && r[|r| - 2..] == CRLF
    ensures IsNumeral(r[..|r| - 2]) && ValueOf(r[..|r| - 2]) == n
    ensures CR !in r[..|r| - 2]
    ensures r[0] == Zero ==> |r| == 3
  {
    DigitsValue(n);
    var r := Digits(n) + CRLF;
    assert r[..|r| - 2] == Digits(n);
    r
  }
}
