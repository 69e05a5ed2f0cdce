/**
 * Shared vocabulary of the model: bytes, digests, the error-carrying result
 * type, and decimal text for naturals (used by JSON numbers and by the
 * zero-padded chunk file names).
 */
module Basics {

  /** An octet, as held in `std::vector<uint8_t>` and in a `std::string`. */
  type byte = x: int | 0 <= x < 256

  /** A SHA-256 digest: exactly 32 bytes. */
  type Digest = d: seq<byte> | |d| == 32 witness seq(32, _ => 0)

  /**
   * The program hashes with OpenSSL's SHA-256, which this model does not
   * describe: every operation that hashes takes the hash as a parameter of
   * this type, so the proofs hold for whatever function it is.
   */
  type Hasher = seq<byte> -> Digest

  datatype Option<+T> = None | Some(value: T)

  datatype Result<+T, +E> = Ok(value: T) | Err(error: E)

  /** The bytes of a `std::string`: one byte per character. */
  function ToBytes(s: string): (b: seq<byte>)
    ensures |b| == |s|
    ensures forall k | 0 <= k < |s| :: b[k] == s[k] as int % 256
  {
    seq(|s|, k requires 0 <= k < |s| => s[k] as int % 256)
  }

  predicate IsDigit(c: char) {
    '0' <= c <= '9'
  }

  function DigitChar(d: nat): char
    requires d < 10
  {
    ('0' as int + d) as char
  }

  predicate AllDigits(s: string) {
    forall k | 0 <= k < |s| :: IsDigit(s[k])
  }

  /** Decimal text of a natural, most significant digit first, no leading zero. */
  function Decimal(n: nat): (s: string)
    ensures |s| >= 1 && AllDigits(s)
    ensures n == 0 <==> s == "0"
    ensures s[0] == '0' ==> n == 0
    decreases n
  {
    if n < 10 then [DigitChar(n)] else Decimal(n / 10) + [DigitChar(n % 10)]
  }

  /** The natural a string of decimal digits denotes (leading zeros allowed). */
  function DecimalValue(s: string): nat
    requires AllDigits(s)
  {
    if s == [] then 0
    else
      var d := s[|s| - 1];
      assert IsDigit(d);
      DecimalValue(s[..|s| - 1]) * 10 + (d as int - '0' as int)
  }

  lemma {:induction false} DecimalRoundTrip(n: nat)
    ensures DecimalValue(Decimal(n)) == n
    decreases n
  {
    if n >= 10 {
      var s := Decimal(n);
      assert s[..|s| - 1] == Decimal(n / 10);
      DecimalRoundTrip(n / 10);
    }
  }

  /** Leading zeros do not change the value of a digit string. */
  lemma {:induction false} ZerosThenDecimal(z: nat, t: string)
    requires AllDigits(t)
    ensures AllDigits(seq(z, _ => '0') + t)
    ensures DecimalValue(seq(z, _ => '0') + t) == DecimalValue(t)
    decreases |t|
  {
    var s := seq(z, _ => '0') + t;
    if t == [] {
      ZerosValue(z);
      assert s == seq(z, _ => '0');
    } else {
      assert s[..|s| - 1] == seq(z, _ => '0') + t[..|t| - 1];
      ZerosThenDecimal(z, t[..|t| - 1]);
    }
  }

  lemma {:induction false} ZerosValue(z: nat)
    ensures DecimalValue(seq(z, _ => '0')) == 0
  {
    if z > 0 {
      assert seq(z, _ => '0')[..z - 1] == seq(z - 1, _ => '0');
      ZerosValue(z - 1);
    }
  }

  /**
   * `printf("%0*d", width, n)` for a natural: the decimal text, padded on the
   * left with zeros up to `width` characters (never truncated).
   */
  function ZeroPadded(n: nat, width: nat): (s: string)
    ensures |s| == if |Decimal(n)| < width then width else |Decimal(n)|
    ensures AllDigits(s)
    ensures DecimalValue(s) == n
  {
    var d := Decimal(n);
    var s := if |d| < width then seq(width - |d|, _ => '0') + d else d;
    ZerosThenDecimal(if |d| < width then width - |d| else 0, d);
    assert |d| >= width ==> s == seq(0, _ => '0') + d;
    DecimalRoundTrip(n);
    s
  }

  /** Distinct naturals get distinct zero-padded texts, whatever their size. */
  lemma ZeroPaddedInjective(m: nat, n: nat, width: nat)
    requires ZeroPadded(m, width) == ZeroPadded(n, width)
    ensures m == n
  {
  }
}
