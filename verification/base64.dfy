/**
 * `b64` and `b64d` of src/common.hpp: the base64 alphabet and padding of
 * section 4 of RFC 4648, with an encoder that always pads and a lenient
 * decoder that skips characters outside the alphabet and stops at the first
 * `=`.
 */
module Base64 {
  import opened Basics

  /** `t[v]`: the alphabet "A-Z a-z 0-9 + /" indexed by a 6-bit value. */
  function Char(v: int): char
    requires 0 <= v < 64
  {
    if v < 26 then ('A' as int + v) as char
    else if v < 52 then ('a' as int + (v - 26)) as char
    else if v < 62 then ('0' as int + (v - 52)) as char
    else if v == 62 then '+'
    else '/'
  }

  /** `T[c]` of b64d: the 6-bit value of an alphabet character, -1 for any other. */
  function Index(c: char): (v: int)
    ensures -1 <= v < 64
  {
    if 'A' <= c <= 'Z' then c as int - 'A' as int
    else if 'a' <= c <= 'z' then c as int - 'a' as int + 26
    else if '0' <= c <= '9' then c as int - '0' as int + 52
    else if c == '+' then 62
    else if c == '/' then 63
    else -1
  }

  /** The table and its inverse agree: `T[t[v]] == v` for every 6-bit `v`... */
  lemma IndexOfChar(v: int)
    requires 0 <= v < 64
    ensures Index(Char(v)) == v
  {
  }

  /** ...and every alphabet character is `t[T[c]]`. */
  lemma CharOfIndex(c: char)
    requires Index(c) >= 0
    ensures Char(Index(c)) == c
  {
  }

  predicate InAlphabet(c: char) {
    Index(c) >= 0
  }

  /** Number of `=` the encoder appends for an input of `n` bytes. */
  function Pad(n: nat): nat {
    (3 - n % 3) % 3
  }

  /**
   * The four characters for three input bytes: the 24 bits a|b|c cut into
   * four 6-bit fields, most significant first.
   */
  function Triple(a: byte, b: byte, c: byte): string {
    [Char(a / 4), Char(a % 4 * 16 + b / 16), Char(b % 16 * 4 + c / 64), Char(c % 64)]
  }

  /** Two trailing bytes (zero-filled to 18 bits): three characters and one `=`. */
  function Pair(a: byte, b: byte): string {
    [Char(a / 4), Char(a % 4 * 16 + b / 16), Char(b % 16 * 4), '=']
  }

  /** One trailing byte (zero-filled to 12 bits): two characters and `==`. */
  function Single(a: byte): string {
    [Char(a / 4), Char(a % 4 * 16), '=', '=']
  }

  /** What `b64` returns: one group of four characters per three bytes. */
  function Encode(x: seq<byte>): string
    decreases |x|
  {
    if |x| >= 3 then Triple(x[0], x[1], x[2]) + Encode(x[3..])
    else if |x| == 2 then Pair(x[0], x[1])
    else if |x| == 1 then Single(x[0])
    else []
  }

  /** The characters of every group come from the alphabet, up to its padding. */
  lemma GroupsInAlphabet(a: byte, b: byte, c: byte)
    ensures forall k | 0 <= k < 4 :: InAlphabet(Triple(a, b, c)[k])
    ensures forall k | 0 <= k < 3 :: InAlphabet(Pair(a, b)[k])
    ensures forall k | 0 <= k < 2 :: InAlphabet(Single(a)[k])
  {
    IndexOfChar(a / 4);
    IndexOfChar(a % 4 * 16 + b / 16);
    IndexOfChar(a % 4 * 16);
    IndexOfChar(b % 16 * 4 + c / 64);
    IndexOfChar(b % 16 * 4);
    IndexOfChar(c % 64);
  }

  /** Three bytes fewer: one group fewer, and the same padding. */
  lemma OneGroupLess(n: nat)
    requires n >= 3
    ensures (n - 3 + 2) / 3 == (n + 2) / 3 - 1
    ensures Pad(n - 3) == Pad(n)
  {
    DivMod(n - 1, 3, (n + 2) / 3 - 1, (n + 2) % 3);
    DivMod(n - 3, 3, n / 3 - 1, n % 3);
  }

  /**
   * `b64` output has 4*ceil(n/3) characters, all from the alphabet except for
   * the `Pad(n)` trailing `=` (`==` when n%3 == 1, `=` when n%3 == 2).
   */
  lemma {:induction false} EncodeShape(x: seq<byte>)
    ensures |Encode(x)| == 4 * ((|x| + 2) / 3)
    ensures forall k | 0 <= k < |Encode(x)| - Pad(|x|) :: InAlphabet(Encode(x)[k])
    ensures forall k | |Encode(x)| - Pad(|x|) <= k < |Encode(x)| :: Encode(x)[k] == '='
    decreases |x|
  {
    if |x| >= 3 {
      EncodeShape(x[3..]);
      OneGroupLess(|x|);
      GroupsInAlphabet(x[0], x[1], x[2]);
      var tr := Triple(x[0], x[1], x[2]);
      var r := Encode(x[3..]);
      assert Encode(x) == tr + r;
      forall k | 0 <= k < |tr + r| - Pad(|x|) ensures InAlphabet((tr + r)[k]) {
        if k >= 4 {
          assert (tr + r)[k] == r[k - 4];
        }
      }
      forall k | |tr + r| - Pad(|x|) <= k < |tr + r| ensures (tr + r)[k] == '=' {
        assert (tr + r)[k] == r[k - 4];
      }
    } else if |x| == 2 {
      GroupsInAlphabet(x[0], x[1], 0);
    } else if |x| == 1 {
      GroupsInAlphabet(x[0], 0, 0);
    }
  }

  /** Euclidean division is unique: a quotient and remainder in range are the ones `/` and `%` give. */
  lemma DivMod(x: int, d: int, q: int, r: int)
    requires d > 0 && 0 <= r < d && x == q * d + r
    ensures x / d == q && x % d == r
  {
    var k := x / d - q;
    assert k * d == r - x % d;
    if k > 0 {
      Multiple(k, d);
      assert false;
    } else if k < 0 {
      Multiple(-k, d);
      assert false;
    }
  }

  lemma {:induction false} Multiple(k: int, d: int)
    requires k >= 1 && d > 0
    ensures k * d >= d
  {
    if k > 1 {
      Multiple(k - 1, d);
      assert k * d == (k - 1) * d + d;
    }
  }

  /** The four 6-bit fields of `v = w0<<18 | w1<<12 | w2<<6 | w3`, read back with shifts and masks. */
  lemma {:induction false} Fields(w0: int, w1: int, w2: int, w3: int)
    requires 0 <= w0 < 64 && 0 <= w1 < 64 && 0 <= w2 < 64 && 0 <= w3 < 64
    ensures var v := w0 * 262144 + w1 * 4096 + w2 * 64 + w3;
      && v / 262144 % 64 == w0
      && v / 4096 % 64 == w1
      && v / 64 % 64 == w2
      && v % 64 == w3
  {
    var v := w0 * 262144 + w1 * 4096 + w2 * 64 + w3;
    DivMod(v, 262144, w0, w1 * 4096 + w2 * 64 + w3);
    DivMod(v, 4096, w0 * 64 + w1, w2 * 64 + w3);
    DivMod(v, 64, w0 * 4096 + w1 * 64 + w2, w3);
    DivMod(w0, 64, 0, w0);
    DivMod(w0 * 64 + w1, 64, w0, w1);
    DivMod(w0 * 4096 + w1 * 64 + w2, 64, w0 * 64 + w1, w2);
  }

  /** `(v>>18)&63`, `(v>>12)&63`, `(v>>6)&63` and `v&63` of `v = a<<16 | b<<8 | c`. */
  lemma {:induction false} ShiftFields(a: byte, b: byte, c: byte)
    ensures var v: int := a as int * 65536 + b as int * 256 + c as int;
      && v / 262144 % 64 == a / 4
      && v / 4096 % 64 == a % 4 * 16 + b / 16
      && v / 64 % 64 == b % 16 * 4 + c / 64
      && v % 64 == c % 64
  {
    var w0, w1, w2, w3 := a / 4, a % 4 * 16 + b / 16, b % 16 * 4 + c / 64, c % 64;
    assert a as int * 65536 + b as int * 256 + c as int == w0 * 262144 + w1 * 4096 + w2 * 64 + w3;
    Fields(w0, w1, w2, w3);
  }

  /** `t[x & 63]`: the alphabet character of the low six bits of `x`. */
  function Table(x: int): char {
    Char(x % 64)
  }

  lemma {:induction false} EncodeAppend(p: seq<byte>, q: seq<byte>, groups: nat)
    requires |p| == 3 * groups
    ensures Encode(p + q) == Encode(p) + Encode(q)
    decreases groups
  {
    if groups > 0 {
      assert (p + q)[3..] == p[3..] + q;
      assert (p + q)[..3] == p[..3];
      EncodeAppend(p[3..], q, groups - 1);
    } else {
      assert p + q == q;
    }
  }

  /** The group of three bytes, read off `v = a<<16 | b<<8 | c` as `b64` does. */
  lemma TripleTable(a: byte, b: byte, c: byte, v: int)
    requires v == a as int * 65536 + b as int * 256 + c as int
    ensures Triple(a, b, c) == [Table(v / 262144), Table(v / 4096), Table(v / 64), Table(v)]
  {
    ShiftFields(a, b, c);
  }

  /** The padded group of two bytes, read off `v = a<<16 | b<<8`. */
  lemma PairTable(a: byte, b: byte, v: int)
    requires v == a as int * 65536 + b as int * 256
    ensures Pair(a, b) == [Table(v / 262144), Table(v / 4096), Table(v / 64), '=']
  {
    ShiftFields(a, b, 0);
  }

  /** The padded group of one byte, read off `v = a<<16`. */
  lemma SingleTable(a: byte, v: int)
    requires v == a as int * 65536
    ensures Single(a) == [Table(v / 262144), Table(v / 4096), '=', '=']
  {
    ShiftFields(a, 0, 0);
  }

  /** One turn of the `b64` loop appends the group of `input[i..i+3]`. */
  lemma {:induction false} EncodeStep(input: seq<byte>, i: nat, groups: nat)
    requires i == 3 * groups && i + 3 <= |input|
    ensures Encode(input[..i + 3]) == Encode(input[..i]) + Triple(input[i], input[i + 1], input[i + 2])
  {
    var g := input[i..i + 3];
    assert input[..i + 3] == input[..i] + g;
    EncodeAppend(input[..i], g, groups);
    assert g[3..] == [];
  }

  /** The padded tail `b64` appends after the whole groups. */
  lemma {:induction false} EncodeTail(input: seq<byte>, i: nat, groups: nat)
    requires i == 3 * groups && i <= |input| < i + 3
    ensures i + 1 == |input| ==> Encode(input) == Encode(input[..i]) + Single(input[i])
    ensures i + 2 == |input| ==> Encode(input) == Encode(input[..i]) + Pair(input[i], input[i + 1])
    ensures i == |input| ==> Encode(input) == Encode(input[..i])
  {
    var g := input[i..];
    assert input == input[..i] + g;
    EncodeAppend(input[..i], g, groups);
  }

  /** The loop of `b64`: whole groups of three, then the padded tail. */
  method B64(input: seq<byte>) returns (o: string)
    ensures o == Encode(input)
  {
    o := [];
    var i := 0;
    ghost var groups := 0;
    while i + 3 <= |input|
      invariant i <= |input| && i == 3 * groups
      invariant o == Encode(input[..i])
    {
      var v: int := input[i] as int * 65536 + input[i + 1] as int * 256 + input[i + 2] as int;
      EncodeStep(input, i, groups);
      TripleTable(input[i], input[i + 1], input[i + 2], v);
      i, groups := i + 3, groups + 1;
      o := o + [Table(v / 262144), Table(v / 4096), Table(v / 64), Table(v)];
    }
    EncodeTail(input, i, groups);
    if i + 1 == |input| {
      var v: int := input[i] as int * 65536;
      SingleTable(input[i], v);
      o := o + [Table(v / 262144), Table(v / 4096), '=', '='];
    } else if i + 2 == |input| {
      var v: int := input[i] as int * 65536 + input[i + 1] as int * 256;
      PairTable(input[i], input[i + 1], v);
      o := o + [Table(v / 262144), Table(v / 4096), Table(v / 64), '='];
    } else {
      assert input[..i] == input;
    }
  }

  /** A 6-bit value: what one alphabet character stands for. */
  type Sextet = v: int | 0 <= v < 64

  /**
   * The 6-bit values b64d feeds into its accumulator: those of the alphabet
   * characters that come before the first `=`; every other character is
   * skipped.
   */
  function Sextets(s: string): (q: seq<Sextet>)
    ensures |q| <= |s|
  {
    if s == [] then []
    else if InAlphabet(s[0]) then [Index(s[0]) as Sextet] + Sextets(s[1..])
    else if s[0] == '=' then []
    else Sextets(s[1..])
  }

  /**
   * Reference decoding of a run of 6-bit values, group by group: four values
   * give three bytes, a trailing three give two, a trailing two give one and
   * a single trailing value gives nothing.
   */
  function DecodeSextets(q: seq<Sextet>): seq<byte>
    decreases |q|
  {
    if |q| >= 4 then
      var g: seq<byte> := [q[0] as int * 4 + q[1] / 16, q[1] as int % 16 * 16 + q[2] / 4, q[2] as int % 4 * 64 + q[3]];
      g + DecodeSextets(q[4..])
    else if |q| == 3 then [q[0] as int * 4 + q[1] / 16, q[1] as int % 16 * 16 + q[2] / 4]
    else if |q| == 2 then [q[0] as int * 4 + q[1] / 16]
    else []
  }

  /** What `b64d` returns. */
  function Decode(s: string): seq<byte> {
    DecodeSextets(Sextets(s))
  }

  lemma {:induction false} SextetsAppend(p: string, t: string)
    requires '=' !in p
    ensures Sextets(p + t) == Sextets(p) + Sextets(t)
    decreases |p|
  {
    if p == [] {
      assert p + t == t;
    } else {
      assert (p + t)[1..] == p[1..] + t;
      SextetsAppend(p[1..], t);
    }
  }

  /** Where a count stands in its group of four, one step later. */
  lemma NextPhase(n: nat)
    ensures (n + 1) % 4 == if n % 4 == 3 then 0 else n % 4 + 1
  {
    if n % 4 == 3 {
      DivMod(n + 1, 4, n / 4 + 1, 0);
    } else {
      DivMod(n + 1, 4, n / 4, n % 4 + 1);
    }
  }

  /** ...and one whole group earlier. */
  lemma PreviousGroup(n: nat)
    requires n >= 4
    ensures (n - 4) % 4 == n % 4
  {
    DivMod(n - 4, 4, n / 4 - 1, n % 4);
  }

  /** The bytes one more 6-bit value completes, given how many came before. */
  function Completed(q: seq<Sextet>, x: Sextet): seq<byte> {
    if |q| % 4 == 1 then [q[|q| - 1] as int * 4 + x / 16]
    else if |q| % 4 == 2 then [q[|q| - 1] as int % 16 * 16 + x / 4]
    else if |q| % 4 == 3 then [q[|q| - 1] as int % 4 * 64 + x]
    else []
  }

  lemma {:induction false} DecodeSextetsSnoc(q: seq<Sextet>, x: Sextet)
    ensures DecodeSextets(q + [x]) == DecodeSextets(q) + Completed(q, x)
    decreases |q|
  {
    if |q| >= 4 {
      DecodeSextetsSnoc(q[4..], x);
      SnocStep(q, x);
    } else {
      DecodeSextetsSnocShort(q, x);
    }
  }

  /** The inductive step of DecodeSextetsSnoc: a whole group in front changes nothing. */
  lemma {:induction false} SnocStep(q: seq<Sextet>, x: Sextet)
    requires |q| >= 4
    requires DecodeSextets(q[4..] + [x]) == DecodeSextets(q[4..]) + Completed(q[4..], x)
    ensures DecodeSextets(q + [x]) == DecodeSextets(q) + Completed(q, x)
  {
    var qx := q + [x];
    var rest := q[4..];
    assert qx[4..] == rest + [x];
    assert qx[..4] == q[..4];
    var d := DecodeSextets(rest);
    var c := Completed(q, x);
    GroupPrefix(q, d);
    GroupPrefix(qx, DecodeSextets(rest + [x]));
    PreviousGroup(|q|);
    assert Completed(rest, x) == c by {
      assert |rest| > 0 ==> rest[|rest| - 1] == q[|q| - 1];
    }
    var g: seq<byte> := [q[0] as int * 4 + q[1] / 16, q[1] as int % 16 * 16 + q[2] / 4, q[2] as int % 4 * 64 + q[3]];
    assert g + (d + c) == (g + d) + c;
  }

  /** The first four values of a run decode to the run's first three bytes. */
  lemma {:induction false} GroupPrefix(q: seq<Sextet>, tail: seq<byte>)
    requires |q| >= 4 && tail == DecodeSextets(q[4..])
    ensures var g: seq<byte> := [q[0] as int * 4 + q[1] / 16, q[1] as int % 16 * 16 + q[2] / 4, q[2] as int % 4 * 64 + q[3]];
      DecodeSextets(q) == g + tail
  {
  }

  lemma {:induction false} DecodeSextetsSnocShort(q: seq<Sextet>, x: Sextet)
    requires |q| < 4
    ensures DecodeSextets(q + [x]) == DecodeSextets(q) + Completed(q, x)
  {
    var qx := q + [x];
    if |q| == 3 {
      assert qx[4..] == [];
    }
  }

  /** `v >> n` for a non-negative `v`. */
  function Shr(v: int, n: nat): int
    decreases n
  {
    if n == 0 then v else Shr(v / 2, n - 1)
  }

  lemma ShrSmall(v: nat)
    ensures Shr(v, 2) == v / 4 && Shr(v, 4) == v / 16
  {
    assert Shr(v, 2) == Shr(v / 2 / 2, 0);
    assert Shr(v, 4) == Shr(v / 2 / 2 / 2 / 2, 0);
  }

  /**
   * The accumulator of `b64d` after `qs` 6-bit values: `valb` is the number
   * of bits held beyond a whole byte, minus 8, and `val` holds the pending
   * bits of the group in progress.
   */
  ghost predicate Pending(qs: seq<Sextet>, val: int, valb: int) {
    && 0 <= val < 4096
    && (|qs| % 4 == 0 ==> valb == -8)
    && (|qs| % 4 == 1 ==> valb == -2 && val % 64 == qs[|qs| - 1])
    && (|qs| % 4 == 2 ==> valb == -4 && val == qs[|qs| - 2] as int * 64 + qs[|qs| - 1])
    && (|qs| % 4 == 3 ==> valb == -6 && val == qs[|qs| - 2] as int * 64 + qs[|qs| - 1])
  }

  /** One turn of the `b64d` loop on an alphabet character with value `t`. */
  lemma {:induction false} AccumulatorStep(qs: seq<Sextet>, val: int, valb: int, t: Sextet)
    requires Pending(qs, val, valb)
    ensures valb + 6 >= 0 ==>
      && Pending(qs + [t], (val * 64 + t) % 4096, valb + 6 - 8)
      && Completed(qs, t) == [Shr((val * 64 + t) % 4096, valb + 6) % 256]
    ensures valb + 6 < 0 ==>
      && Pending(qs + [t], (val * 64 + t) % 4096, valb + 6)
      && Completed(qs, t) == []
  {
    var k := |qs|;
    NextPhase(k);
    if k % 4 == 1 {
      StepSecond(qs, val, t);
    } else if k % 4 == 2 {
      StepThird(qs, val, t);
    } else if k % 4 == 3 {
      StepFourth(qs, val, t);
    } else {
      StepFirst(qs, val, t);
    }
  }

  /** Phase 0: the first value of a group only fills the accumulator. */
  lemma {:induction false} StepFirst(qs: seq<Sextet>, val: int, t: Sextet)
    requires 0 <= val < 4096 && |qs| % 4 == 0
    ensures Pending(qs + [t], (val * 64 + t) % 4096, -2)
  {
    DivMod(val * 64 + t, 4096, val / 64, val % 64 * 64 + t);
    DivMod(val % 64 * 64 + t, 64, val % 64, t);
    NextPhase(|qs|);
    assert (qs + [t])[|qs|] == t;
  }

  /** Phase 1: the first byte of a group is complete. */
  lemma {:induction false} StepSecond(qs: seq<Sextet>, val: int, t: Sextet)
    requires |qs| % 4 == 1 && 0 <= val < 4096 && val % 64 == qs[|qs| - 1]
    ensures Pending(qs + [t], (val * 64 + t) % 4096, -4)
    ensures Completed(qs, t) == [Shr((val * 64 + t) % 4096, 4) % 256]
  {
    var k := |qs|;
    var p: int := qs[k - 1];
    DivMod(val * 64 + t, 4096, val / 64, p * 64 + t);
    DivMod(p * 64 + t, 16, p * 4 + t / 16, t % 16);
    DivMod(p * 4 + t / 16, 256, 0, p * 4 + t / 16);
    NextPhase(k);
    assert (qs + [t])[k - 1] == p && (qs + [t])[k] == t;
    ShrSmall(p * 64 + t);
  }

  /** Phase 2: the second byte of a group is complete. */
  lemma {:induction false} StepThird(qs: seq<Sextet>, val: int, t: Sextet)
    requires |qs| % 4 == 2 && val == qs[|qs| - 2] as int * 64 + qs[|qs| - 1]
    ensures Pending(qs + [t], (val * 64 + t) % 4096, -6)
    ensures Completed(qs, t) == [Shr((val * 64 + t) % 4096, 2) % 256]
  {
    var k := |qs|;
    var a, p: int := qs[k - 2], qs[k - 1];
    DivMod(val * 64 + t, 4096, a, p * 64 + t);
    DivMod(p * 64 + t, 4, p * 16 + t / 4, t % 4);
    DivMod(p * 16 + t / 4, 256, p / 16, p % 16 * 16 + t / 4);
    NextPhase(k);
    assert (qs + [t])[k - 1] == p && (qs + [t])[k] == t;
    ShrSmall(p * 64 + t);
  }

  /** Phase 3: the third byte of a group is complete and the accumulator is back at the start. */
  lemma {:induction false} StepFourth(qs: seq<Sextet>, val: int, t: Sextet)
    requires |qs| % 4 == 3 && val == qs[|qs| - 2] as int * 64 + qs[|qs| - 1]
    ensures Pending(qs + [t], (val * 64 + t) % 4096, -8)
    ensures Completed(qs, t) == [Shr((val * 64 + t) % 4096, 0) % 256]
  {
    var k := |qs|;
    var a, p: int := qs[k - 2], qs[k - 1];
    DivMod(val * 64 + t, 4096, a, p * 64 + t);
    DivMod(p * 64 + t, 256, p / 4, p % 4 * 64 + t);
    NextPhase(k);
  }

  /** What the character at `i` adds to the values read so far, or that reading ends there. */
  lemma {:induction false} SextetsNext(s: string, i: nat)
    requires i < |s| && '=' !in s[..i]
    ensures s[i] == '=' ==> Sextets(s) == Sextets(s[..i])
    ensures s[i] != '=' ==> '=' !in s[..i + 1]
    ensures s[i] != '=' ==>
      Sextets(s[..i + 1]) == Sextets(s[..i]) + (if InAlphabet(s[i]) then [Index(s[i]) as Sextet] else [])
  {
    assert s == s[..i] + s[i..];
    SextetsAppend(s[..i], s[i..]);
    assert s[i..][0] == s[i];
    assert s[..i + 1] == s[..i] + [s[i]];
    SextetsAppend(s[..i], [s[i]]);
    if s[i] == '=' {
      assert Sextets(s[i..]) == [];
    }
  }

  /**
   * The state of `b64d` after reading `s[..i]`: no `=` met yet, `qs` the
   * values of the alphabet characters read, `o` their bytes so far and
   * `val`, `valb` the accumulator.
   */
  ghost predicate Reading(s: string, i: nat, qs: seq<Sextet>, o: seq<byte>, val: int, valb: int) {
    && i <= |s| && '=' !in s[..i]
    && qs == Sextets(s[..i]) && o == DecodeSextets(qs)
    && Pending(qs, val, valb)
  }

  /** One turn of the `b64d` loop, on the character at `i`. */
  lemma {:induction false} ReadStep(s: string, i: nat, qs: seq<Sextet>, o: seq<byte>, val: int, valb: int)
    requires i < |s| && Reading(s, i, qs, o, val, valb)
    ensures s[i] == '=' ==> o == Decode(s)
    ensures !InAlphabet(s[i]) && s[i] != '=' ==> Reading(s, i + 1, qs, o, val, valb)
    ensures InAlphabet(s[i]) ==>
      var t := Index(s[i]) as Sextet;
      var w := (val * 64 + t) % 4096;
      if valb + 6 >= 0 then Reading(s, i + 1, qs + [t], o + [Shr(w, valb + 6) % 256], w, valb + 6 - 8)
      else Reading(s, i + 1, qs + [t], o, w, valb + 6)
  {
    SextetsNext(s, i);
    if InAlphabet(s[i]) {
      var t := Index(s[i]) as Sextet;
      AccumulatorStep(qs, val, valb, t);
      DecodeSextetsSnoc(qs, t);
    }
  }

  /**
   * The loop of `b64d`. `val` keeps only its low 12 bits here: every byte
   * pushed is `(val >> valb) & 255` with `valb <= 4`, so no higher bit is
   * ever read.
   */
  method B64d(s: string) returns (o: seq<byte>)
    ensures o == Decode(s)
  {
    o := [];
    var val, valb := 0, -8;
    ghost var qs: seq<Sextet> := [];
    var i := 0;
    while i < |s|
      invariant Reading(s, i, qs, o, val, valb)
    {
      var c := s[i];
      ReadStep(s, i, qs, o, val, valb);
      var t := Index(c);
      if t == -1 {
        if c == '=' {
          // the `break` of b64d: nothing is read after the first `=`
          return;
        }
      } else {
        val := (val * 64 + t) % 4096;
        valb := valb + 6;
        if valb >= 0 {
          o := o + [Shr(val, valb) % 256];
          valb := valb - 8;
        }
        qs := qs + [t as Sextet];
      }
      i := i + 1;
    }
    assert s[..i] == s;
  }

  /** The four 6-bit fields of three bytes decode back to those bytes. */
  lemma GroupInverse(a: byte, b: byte, c: byte)
    ensures a / 4 * 4 + (a % 4 * 16 + b / 16) / 16 == a
    ensures (a % 4 * 16 + b / 16) % 16 * 16 + (b % 16 * 4 + c / 64) / 4 == b
    ensures (b % 16 * 4 + c / 64) % 4 * 64 + c % 64 == c
  {
    DivMod(a % 4 * 16 + b / 16, 16, a % 4, b / 16);
    DivMod(b % 16 * 4 + c / 64, 4, b % 16, c / 64);
  }

  /** The values of a run of alphabet characters, in order. */
  function Indices(p: string): (q: seq<int>)
    requires forall k | 0 <= k < |p| :: InAlphabet(p[k])
    ensures |q| == |p| && forall k | 0 <= k < |p| :: q[k] == Index(p[k])
  {
    seq(|p|, k requires 0 <= k < |p| => Index(p[k]))
  }

  lemma {:induction false} SextetsOfAlphabet(p: string, rest: string)
    requires forall k | 0 <= k < |p| :: InAlphabet(p[k])
    ensures Sextets(p + rest) == Indices(p) + Sextets(rest)
    decreases |p|
  {
    if p == [] {
      assert p + rest == rest;
    } else {
      assert (p + rest)[1..] == p[1..] + rest;
      SextetsOfAlphabet(p[1..], rest);
      assert Indices(p) == [Index(p[0])] + Indices(p[1..]);
    }
  }

  /** The 6-bit values b64d reads back from a whole group. */
  lemma {:induction false} SextetsOfTriple(a: byte, b: byte, c: byte, rest: string)
    ensures Sextets(Triple(a, b, c) + rest)
      == [a / 4, a % 4 * 16 + b / 16, b % 16 * 4 + c / 64, c % 64] + Sextets(rest)
  {
    var w := [a / 4, a % 4 * 16 + b / 16, b % 16 * 4 + c / 64, c % 64];
    var tr := Triple(a, b, c);
    forall k | 0 <= k < 4 ensures Index(tr[k]) == w[k] {
      IndexOfChar(w[k]);
    }
    SextetsOfAlphabet(tr, rest);
  }

  /** ...from a group padded with one `=`... */
  lemma {:induction false} SextetsOfPair(a: byte, b: byte)
    ensures Sextets(Pair(a, b)) == [a / 4, a % 4 * 16 + b / 16, b % 16 * 4]
  {
    var w := [a / 4, a % 4 * 16 + b / 16, b % 16 * 4];
    var pr := Pair(a, b);
    forall k | 0 <= k < 3 ensures Index(pr[k]) == w[k] {
      IndexOfChar(w[k]);
    }
    assert pr == pr[..3] + ['='];
    SextetsOfAlphabet(pr[..3], ['=']);
    assert Sextets(['=']) == [];
  }

  /** ...and from a group padded with `==`. */
  lemma {:induction false} SextetsOfSingle(a: byte)
    ensures Sextets(Single(a)) == [a / 4, a % 4 * 16]
  {
    var w := [a / 4, a % 4 * 16];
    var sg := Single(a);
    forall k | 0 <= k < 2 ensures Index(sg[k]) == w[k] {
      IndexOfChar(w[k]);
    }
    assert sg == sg[..2] + ['=', '='];
    SextetsOfAlphabet(sg[..2], ['=', '=']);
    assert Sextets(['=', '=']) == [];
  }

  /** Round trip: b64d(b64(x)) == x for every byte sequence. */
  lemma {:induction false} DecodeEncode(x: seq<byte>)
    ensures Decode(Encode(x)) == x
    decreases |x|
  {
    if |x| >= 3 {
      DecodeEncode(x[3..]);
      DecodeEncodeGroup(x);
    } else if |x| == 2 {
      GroupInverse(x[0], x[1], 0);
      SextetsOfPair(x[0], x[1]);
    } else if |x| == 1 {
      GroupInverse(x[0], 0, 0);
      SextetsOfSingle(x[0]);
    }
  }

  /** The inductive step of DecodeEncode: one whole group in front. */
  lemma {:induction false} DecodeEncodeGroup(x: seq<byte>)
    requires |x| >= 3 && Decode(Encode(x[3..])) == x[3..]
    ensures Decode(Encode(x)) == x
  {
    var a, b, c := x[0], x[1], x[2];
    var rest := Sextets(Encode(x[3..]));
    GroupInverse(a, b, c);
    SextetsOfTriple(a, b, c, Encode(x[3..]));
    var q: seq<Sextet> := [a / 4, a % 4 * 16 + b / 16, b % 16 * 4 + c / 64, c % 64] + rest;
    assert Sextets(Encode(x)) == q;
    assert q[4..] == rest;
    GroupPrefix(q, x[3..]);
    assert x == [a, b, c] + x[3..];
  }

  /** b64d emits floor(6k/8) bytes for k alphabet characters before the first `=`. */
  lemma {:induction false} DecodeLength(q: seq<Sextet>)
    ensures |DecodeSextets(q)| == 6 * |q| / 8
    decreases |q|
  {
    if |q| >= 4 {
      DecodeLength(q[4..]);
    }
  }

  /** Decoding stops at the first `=`: nothing after it is read. */
  lemma {:induction false} DecodeStopsAtPad(s: string, t: string)
    requires '=' !in s
    ensures Decode(s + ['='] + t) == Decode(s)
  {
    assert s + ['='] + t == s + (['='] + t);
    SextetsAppend(s, ['='] + t);
    assert (['='] + t)[0] == '=';
    assert Sextets(['='] + t) == [];
    assert Sextets(s + ['='] + t) == Sextets(s);
  }

  /** A character outside the alphabet, other than `=`, is skipped. */
  lemma {:induction false} DecodeSkipsForeign(s: string, c: char, t: string)
    requires '=' !in s && !InAlphabet(c) && c != '='
    ensures Decode(s + [c] + t) == Decode(s + t)
  {
    assert s + [c] + t == s + ([c] + t);
    SextetsAppend(s, [c] + t);
    SextetsAppend(s, t);
    assert ([c] + t)[1..] == t;
  }
}
