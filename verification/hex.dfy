/**
 * The hex formatting of a SHA-256 digest in `sha256_hex` and
 * `sha256_hex_file` of src/common.hpp: 64 lower-case hex characters, two per
 * digest byte, high nibble first. The digest itself comes from the `Hasher`
 * parameter.
 */
module Hex {
  import opened Basics

  /** The table `X` of both functions. */
  const Digits: string := "0123456789abcdef"

  predicate IsLowerHex(c: char) {
    '0' <= c <= '9' || 'a' <= c <= 'f'
  }

  /** Hex text of a byte string: character 2i is the high nibble of byte i, 2i+1 the low one. */
  function Hex(d: seq<byte>): (s: string)
    ensures |s| == 2 * |d|
  {
    seq(2 * |d|, k requires 0 <= k < 2 * |d| =>
      if k % 2 == 0 then Digits[d[k / 2] / 16] else Digits[d[k / 2] % 16])
  }

  /** `sha256_hex(buf)`: the hex text of the digest of `buf`. */
  function Sha256Hex(sha: Hasher, buf: seq<byte>): (s: string)
    ensures |s| == 64 && forall k | 0 <= k < 64 :: IsLowerHex(s[k])
  {
    var s := Hex(sha(buf));
    assert forall k | 0 <= k < 64 :: s[k] in Digits;
    s
  }

  /**
   * The digest loop of `sha256_hex`: a 64-character buffer of `'0'` in which
   * each digest byte writes its two nibbles.
   */
  method HexDigest(h: Digest) returns (s: string)
    ensures s == Hex(h)
  {
    var buf := new char[64](_ => '0');
    for i := 0 to 32
      invariant forall j | 0 <= j < i :: buf[2 * j] == Digits[h[j] / 16] && buf[2 * j + 1] == Digits[h[j] % 16]
      invariant forall k | 2 * i <= k < 64 :: buf[k] == '0'
    {
      buf[2 * i] := Digits[h[i] / 16];
      buf[2 * i + 1] := Digits[h[i] % 16];
    }
    s := buf[..];
    forall k | 0 <= k < 64 ensures s[k] == Hex(h)[k] {
      assert k == 2 * (k / 2) + k % 2;
    }
  }

  /** Byte `i` is written at positions 2i and 2i+1, high nibble first. */
  lemma HexAt(d: seq<byte>, i: nat)
    requires i < |d|
    ensures Hex(d)[2 * i] == Digits[d[i] / 16] && Hex(d)[2 * i + 1] == Digits[d[i] % 16]
  {
  }

  lemma DigitsDistinct(n: int, m: int)
    requires 0 <= n < 16 && 0 <= m < 16 && Digits[n] == Digits[m]
    ensures n == m
  {
  }

  /**
   * Hex text determines the bytes: comparing `sha256_hex` strings, as the
   * decoder does, compares the digests themselves.
   */
  lemma HexInjective(d: seq<byte>, e: seq<byte>)
    requires Hex(d) == Hex(e)
    ensures d == e
  {
    assert |d| == |e|;
    forall i | 0 <= i < |d| ensures d[i] == e[i] {
      assert Hex(d)[2 * i] == Hex(e)[2 * i];
      assert Hex(d)[2 * i + 1] == Hex(e)[2 * i + 1];
      DigitsDistinct(d[i] / 16, e[i] / 16);
      DigitsDistinct(d[i] % 16, e[i] % 16);
    }
  }
}
