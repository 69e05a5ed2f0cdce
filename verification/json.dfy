/**
 * The `mini_json` value of third_party/json.hpp: a recursive-descent parser
 * over a cursor (`parse_any` and friends thread `size_t& i`, modelled as
 * functions returning the value and the new cursor) and the serialiser
 * `dump_into`, which writes objects in the key order of `std::map` with no
 * whitespace.
 *
 * Numbers are held as integers; `std::stod` and `ostream << double` are
 * modelled on the integer texts the envelopes carry (see README).
 */
module MiniJson {
  import opened Basics

  datatype Value =
    | Null
    | Bool(b: bool)
    | Num(n: int)
    | Str(s: string)
    | Arr(items: seq<Value>)
    | Obj(members: seq<Member>)

  /** One entry of the `std::map<std::string, value>` of an object. */
  datatype Member = Member(key: string, val: Value)

  // ---------------------------------------------------------------------
  // Objects: std::map<std::string, value>
  // ---------------------------------------------------------------------

  /** `std::string` ordering: lexicographic by character, a proper prefix first. */
  predicate Less(a: string, b: string)
    decreases |a|
  {
    if b == [] then false
    else if a == [] then true
    else if a[0] != b[0] then a[0] < b[0]
    else Less(a[1..], b[1..])
  }

  lemma {:induction false} LessIrreflexive(a: string)
    ensures !Less(a, a)
    decreases |a|
  {
    if a != [] {
      LessIrreflexive(a[1..]);
    }
  }

  lemma {:induction false} LessTransitive(a: string, b: string, c: string)
    requires Less(a, b) && Less(b, c)
    ensures Less(a, c)
    decreases |a|
  {
    if a != [] && a[0] == b[0] && b[0] == c[0] {
      LessTransitive(a[1..], b[1..], c[1..]);
    }
  }

  lemma {:induction false} LessTotal(a: string, b: string)
    ensures a == b || Less(a, b) || Less(b, a)
    decreases |a|
  {
    if a != [] && b != [] && a[0] == b[0] {
      LessTotal(a[1..], b[1..]);
      if a[1..] == b[1..] {
        assert a == [a[0]] + a[1..] && b == [b[0]] + b[1..];
      }
    }
  }

  /** Members in strictly ascending key order, as a `std::map` iterates them. */
  predicate Sorted(ms: seq<Member>)
    decreases |ms|
  {
    |ms| < 2 || (Less(ms[0].key, ms[1].key) && Sorted(ms[1..]))
  }

  /** Any two members of an ordered map are in key order. */
  lemma {:induction false} SortedPairwise(ms: seq<Member>, i: int, j: int)
    requires Sorted(ms) && 0 <= i < j < |ms|
    ensures Less(ms[i].key, ms[j].key)
    decreases j
  {
    if i > 0 {
      SortedPairwise(ms[1..], i - 1, j - 1);
    } else if j > 1 {
      SortedPairwise(ms[1..], 0, j - 1);
      LessTransitive(ms[0].key, ms[1].key, ms[j].key);
    }
  }

  /** `map::find`: the value stored under `k`. */
  function Lookup(ms: seq<Member>, k: string): Option<Value>
  {
    if ms == [] then None
    else if ms[0].key == k then Some(ms[0].val)
    else Lookup(ms[1..], k)
  }

  /** `map::emplace`: insert `k` at its place in the order, unless it is already there. */
  function Insert(ms: seq<Member>, k: string, v: Value): seq<Member>
  {
    if ms == [] then [Member(k, v)]
    else if ms[0].key == k then ms
    else if Less(k, ms[0].key) then [Member(k, v)] + ms
    else [ms[0]] + Insert(ms[1..], k, v)
  }

  lemma {:induction false} LookupSome(ms: seq<Member>, k: string)
    ensures Lookup(ms, k).Some? <==> exists i | 0 <= i < |ms| :: ms[i].key == k
  {
    if ms != [] && ms[0].key != k {
      LookupSome(ms[1..], k);
      if exists i | 0 <= i < |ms| :: ms[i].key == k {
        var i :| 0 <= i < |ms| && ms[i].key == k;
        assert ms[1..][i - 1].key == k;
      }
    }
  }

  /**
   * `emplace` never overwrites: a key already present keeps its value, a new
   * key gets `v`, and every other key is unaffected.
   */
  lemma {:induction false} InsertLookup(ms: seq<Member>, k: string, v: Value, q: string)
    requires Sorted(ms)
    ensures Lookup(Insert(ms, k, v), q) == if q == k && Lookup(ms, k).None? then Some(v) else Lookup(ms, q)
  {
    if ms != [] && ms[0].key != k && Less(k, ms[0].key) {
      LookupSome(ms, k);
      forall i | 0 <= i < |ms| ensures ms[i].key != k {
        if i > 0 && ms[i].key == k {
          SortedPairwise(ms, 0, i);
          LessTransitive(k, ms[0].key, k);
          LessIrreflexive(k);
        }
      }
    } else if ms != [] && ms[0].key != k {
      InsertLookup(ms[1..], k, v, q);
      assert Insert(ms, k, v)[1..] == Insert(ms[1..], k, v);
    }
  }

  /** `emplace` keeps the map ordered; the new first key is `k` or the old first key. */
  lemma {:induction false} InsertSorted(ms: seq<Member>, k: string, v: Value)
    requires Sorted(ms)
    ensures Sorted(Insert(ms, k, v))
    ensures Insert(ms, k, v)[0].key == if ms != [] && !Less(k, ms[0].key) then ms[0].key else k
  {
    if ms == [] || ms[0].key == k {
    } else if Less(k, ms[0].key) {
      assert ([Member(k, v)] + ms)[1..] == ms;
    } else {
      LessTotal(k, ms[0].key);
      InsertSorted(ms[1..], k, v);
      var t := Insert(ms[1..], k, v);
      assert ([ms[0]] + t)[1..] == t;
    }
  }

  /** Inserting a key above every present key appends it. */
  lemma {:induction false} InsertAtEnd(ms: seq<Member>, k: string, v: Value)
    requires forall i | 0 <= i < |ms| :: Less(ms[i].key, k)
    ensures Insert(ms, k, v) == ms + [Member(k, v)]
  {
    if ms != [] {
      LessIrreflexive(k);
      if Less(k, ms[0].key) {
        LessTransitive(k, ms[0].key, k);
      }
      InsertAtEnd(ms[1..], k, v);
      assert ms == [ms[0]] + ms[1..];
    }
  }

  /** Reading an ordered map in order: each next member is inserted at the end. */
  lemma {:induction false} InsertNext(acc: seq<Member>, ms: seq<Member>)
    requires ms != [] && Sorted(acc + ms)
    ensures Insert(acc, ms[0].key, ms[0].val) == acc + [ms[0]]
    ensures (acc + [ms[0]]) + ms[1..] == acc + ms
  {
    forall k | 0 <= k < |acc| ensures Less(acc[k].key, ms[0].key) {
      SortedPairwise(acc + ms, k, |acc|);
      assert (acc + ms)[k] == acc[k] && (acc + ms)[|acc|] == ms[0];
    }
    InsertAtEnd(acc, ms[0].key, ms[0].val);
  }

  /** The member loop of `parse_obj`: each member read is `emplace`d in turn. */
  function InsertAll(acc: seq<Member>, ms: seq<Member>): seq<Member>
    decreases |ms|
  {
    if ms == [] then acc else InsertAll(Insert(acc, ms[0].key, ms[0].val), ms[1..])
  }

  /** Members that arrive in key order, all above those already there, are appended as they come. */
  lemma {:induction false} InsertAllSorted(acc: seq<Member>, ms: seq<Member>)
    requires Sorted(acc + ms)
    ensures InsertAll(acc, ms) == acc + ms
    decreases |ms|
  {
    if ms == [] {
      assert acc + ms == acc;
    } else {
      InsertNext(acc, ms);
      InsertAllSorted(acc + [ms[0]], ms[1..]);
    }
  }

  /** Building a map by `emplace` keeps it ordered. */
  lemma {:induction false} InsertAllKeepsSorted(acc: seq<Member>, ms: seq<Member>)
    requires Sorted(acc)
    ensures Sorted(InsertAll(acc, ms))
    decreases |ms|
  {
    if ms != [] {
      InsertSorted(acc, ms[0].key, ms[0].val);
      InsertAllKeepsSorted(Insert(acc, ms[0].key, ms[0].val), ms[1..]);
    }
  }

  /**
   * After a run of `emplace`s each key holds the value it had before or, when
   * it was absent, the value of its first occurrence in the run.
   */
  lemma {:induction false} InsertAllLookup(acc: seq<Member>, ms: seq<Member>, k: string)
    requires Sorted(acc)
    ensures Lookup(InsertAll(acc, ms), k) == if Lookup(acc, k).Some? then Lookup(acc, k) else Lookup(ms, k)
    decreases |ms|
  {
    if ms != [] {
      InsertLookup(acc, ms[0].key, ms[0].val, k);
      InsertSorted(acc, ms[0].key, ms[0].val);
      InsertAllLookup(Insert(acc, ms[0].key, ms[0].val), ms[1..], k);
    }
  }

  /** `value::contains`: an object that holds key `k`. */
  function Contains(v: Value, k: string): bool {
    v.Obj? && Lookup(v.members, k).Some?
  }

  lemma {:induction false} ContainsIff(v: Value, k: string)
    ensures Contains(v, k) <==> v.Obj? && exists i | 0 <= i < |v.members| :: v.members[i].key == k
  {
    if v.Obj? {
      LookupSome(v.members, k);
    }
  }

  /** `j[k].get<std::string>()` on an object: a string member, or a thrown error. */
  function GetStr(v: Value, k: string): Option<string> {
    if v.Obj? && Lookup(v.members, k).Some? && Lookup(v.members, k).value.Str? then
      Some(Lookup(v.members, k).value.s)
    else None
  }

  /** `j[k].get<double>()` on an object: a number member, or a thrown error. */
  function GetNum(v: Value, k: string): Option<int> {
    if v.Obj? && Lookup(v.members, k).Some? && Lookup(v.members, k).value.Num? then
      Some(Lookup(v.members, k).value.n)
    else None
  }

  // ---------------------------------------------------------------------
  // Parsing
  // ---------------------------------------------------------------------

  datatype JsonError =
    | Eof            // "json eof"
    | BadToken       // "json parse"
    | ExpectedQuote  // "\""
    | Unterminated   // "unterminated string"
    | ExpectedColon  // ":"
    | ExpectedComma  // ","
    | BadNumber      // std::stod fails, or a number text outside the model

  /** `s[i]` on a `std::string`, which reads `'\0'` at `i == s.size()`. */
  function At(s: string, i: nat): char {
    if i < |s| then s[i] else '\0'
  }

  /** `std::isspace` in the C locale: space, `\t`, `\n`, `\v`, `\f`, `\r`. */
  predicate IsSpace(c: char) {
    c == ' ' || '\t' <= c <= '\r'
  }

  /** `skipws`: the first position at or after `i` that is not whitespace. */
  function SkipWs(s: string, i: nat): (j: nat)
    requires i <= |s|
    ensures i <= j <= |s|
    decreases |s| - i
  {
    if i < |s| && IsSpace(s[i]) then SkipWs(s, i + 1) else i
  }

  /** `skipws` passes over whitespace only, and all of it. */
  lemma {:induction false} SkipWsSpec(s: string, i: nat)
    requires i <= |s|
    ensures forall k | i <= k < SkipWs(s, i) :: IsSpace(s[k])
    ensures SkipWs(s, i) < |s| ==> !IsSpace(s[SkipWs(s, i)])
    decreases |s| - i
  {
    if i < |s| && IsSpace(s[i]) {
      SkipWsSpec(s, i + 1);
    }
  }

  /** `d` is written in `s` from position `i` on: `s.compare(i, |d|, d) == 0`. */
  predicate Occurs(s: string, i: nat, d: string) {
    i + |d| <= |s| && Agrees(s, i, d, 0)
  }

  /** Characters `k` onwards of `d` are those of `s` from `i + k` on. */
  predicate Agrees(s: string, i: nat, d: string, k: nat)
    decreases |d| - k
  {
    k >= |d| || (i + k < |s| && s[i + k] == d[k] && Agrees(s, i, d, k + 1))
  }

  lemma {:induction false} AgreesAll(s: string, i: nat, d: string, j: nat)
    ensures Agrees(s, i, d, j) <==> forall k | j <= k < |d| :: i + k < |s| && s[i + k] == d[k]
    decreases |d| - j
  {
    if j < |d| {
      AgreesAll(s, i, d, j + 1);
      if forall k | j <= k < |d| :: i + k < |s| && s[i + k] == d[k] {
        assert i + j < |s| && s[i + j] == d[j];
      }
    }
  }

  lemma OccursChar(s: string, i: nat, d: string, k: nat)
    requires Occurs(s, i, d) && k < |d|
    ensures i + k < |s| && s[i + k] == d[k]
  {
    AgreesAll(s, i, d, 0);
  }

  lemma OccursConcat(s: string, i: nat, a: string, b: string)
    ensures Occurs(s, i, a + b) <==> Occurs(s, i, a) && Occurs(s, i + |a|, b)
  {
    AgreesAll(s, i, a + b, 0);
    AgreesAll(s, i, a, 0);
    AgreesAll(s, i + |a|, b, 0);
    if Occurs(s, i, a) && Occurs(s, i + |a|, b) {
      forall k | 0 <= k < |a + b| ensures s[i + k] == (a + b)[k] {
        if k >= |a| {
          assert s[i + |a| + (k - |a|)] == b[k - |a|];
        }
      }
    }
    if Occurs(s, i, a + b) {
      forall k | 0 <= k < |a| ensures s[i + k] == a[k] {
        assert (a + b)[k] == a[k];
      }
      forall k | 0 <= k < |b| ensures s[i + |a| + k] == b[k] {
        assert (a + b)[|a| + k] == b[k];
      }
    }
  }

  /** The loop of `parse_str` after the opening quote; `acc` is the text read so far. */
  function StrBody(s: string, i: nat, acc: string): (r: Result<(string, nat), JsonError>)
    requires i <= |s|
    ensures r.Ok? ==> i < r.value.1 <= |s|
    decreases |s| - i
  {
    if i == |s| then Err(Unterminated)
    else if s[i] == '"' then Ok((acc, i + 1))
    else if s[i] == '\\' then
      if i + 1 < |s| then StrBody(s, i + 2, acc + [s[i + 1]]) else Err(Unterminated)
    else StrBody(s, i + 1, acc + [s[i]])
  }

  /** `parse_str`. */
  function ParseStr(s: string, i: nat): (r: Result<(string, nat), JsonError>)
    requires i <= |s|
    ensures r.Ok? ==> i < r.value.1 <= |s|
  {
    if At(s, i) != '"' then Err(ExpectedQuote) else StrBody(s, i + 1, "")
  }

  /** The characters `parse_num` hands to `std::stod`. */
  predicate IsNumChar(c: char) {
    IsDigit(c) || c == '-' || c == '+' || c == '.' || c == 'e' || c == 'E'
  }

  /** The run of number characters from `i` on. */
  function NumSpan(s: string, i: nat): (t: string)
    requires i <= |s|
    ensures i + |t| <= |s|
    decreases |s| - i
  {
    if i < |s| && IsNumChar(s[i]) then [s[i]] + NumSpan(s, i + 1) else ""
  }

  /** The scan of `parse_num` stops at position `j`. */
  predicate Delimited(s: string, j: nat) {
    j >= |s| || !IsNumChar(s[j])
  }

  /** The number scan takes number characters only, all of them, and stops at a delimiter. */
  lemma {:induction false} NumSpanSpec(s: string, i: nat)
    requires i <= |s|
    ensures Occurs(s, i, NumSpan(s, i)) && Delimited(s, i + |NumSpan(s, i)|)
    ensures forall k | 0 <= k < |NumSpan(s, i)| :: IsNumChar(NumSpan(s, i)[k])
    decreases |s| - i
  {
    if i < |s| && IsNumChar(s[i]) {
      NumSpanSpec(s, i + 1);
      var t := NumSpan(s, i);
      assert t == [s[i]] + NumSpan(s, i + 1);
      assert Occurs(s, i, [s[i]]);
      OccursConcat(s, i, [s[i]], NumSpan(s, i + 1));
    }
  }

  /** The integer an optional minus sign and decimal digits denote. */
  function IntValue(t: string): Option<int> {
    if |t| >= 2 && t[0] == '-' && AllDigits(t[1..]) then Some(0 - DecimalValue(t[1..]))
    else if |t| >= 1 && AllDigits(t) then Some(DecimalValue(t))
    else None
  }

  /** `parse_num`: the whole run of number characters is consumed. */
  function ParseNum(s: string, i: nat): (r: Result<(Value, nat), JsonError>)
    requires i < |s| && IsNumChar(s[i])
    ensures r.Ok? ==> i < r.value.1 <= |s|
  {
    var t := NumSpan(s, i);
    match IntValue(t)
    case Some(n) => Ok((Num(n), i + |t|))
    case None => Err(BadNumber)
  }

  /** `parse_any`. */
  function ParseAny(s: string, i: nat): (r: Result<(Value, nat), JsonError>)
    requires i <= |s|
    ensures r.Ok? ==> i < r.value.1 <= |s|
    decreases |s| - i, 2
  {
    var j := SkipWs(s, i);
    if j == |s| then Err(Eof)
    else if s[j] == '{' then ParseObj(s, j)
    else if s[j] == '[' then ParseArr(s, j)
    else if s[j] == '"' then
      match ParseStr(s, j)
      case Ok((t, k)) => Ok((Str(t), k))
      case Err(e) => Err(e)
    else if IsDigit(s[j]) || s[j] == '-' then ParseNum(s, j)
    else if Occurs(s, j, "true") then Ok((Bool(true), j + 4))
    else if Occurs(s, j, "false") then Ok((Bool(false), j + 5))
    else if Occurs(s, j, "null") then Ok((Null, j + 4))
    else Err(BadToken)
  }

  /** `parse_obj`, at the opening brace. */
  function ParseObj(s: string, i: nat): (r: Result<(Value, nat), JsonError>)
    requires i < |s| && s[i] == '{'
    ensures r.Ok? ==> i < r.value.1 <= |s|
    decreases |s| - i, 1
  {
    var j := SkipWs(s, i + 1);
    if At(s, j) == '}' then Ok((Obj([]), j + 1)) else ParseMembers(s, j, [])
  }

  /**
   * The member loop of `parse_obj`, at a key; `acc` is the map built so far.
   * After a comma the key is read at once: no whitespace is skipped there.
   */
  function ParseMembers(s: string, i: nat, acc: seq<Member>): (r: Result<(Value, nat), JsonError>)
    requires i <= |s|
    ensures r.Ok? ==> i < r.value.1 <= |s|
    decreases |s| - i, 0
  {
    match ParseStr(s, i)
    case Err(e) => Err(e)
    case Ok((k, a)) =>
      var b := SkipWs(s, a);
      if At(s, b) != ':' then Err(ExpectedColon)
      else
        match ParseAny(s, b + 1)
        case Err(e) => Err(e)
        case Ok((v, c)) =>
          var acc' := Insert(acc, k, v);
          var d := SkipWs(s, c);
          if At(s, d) == '}' then Ok((Obj(acc'), d + 1))
          else if At(s, d) != ',' then Err(ExpectedComma)
          else ParseMembers(s, d + 1, acc')
  }

  /** `parse_arr`, at the opening bracket. */
  function ParseArr(s: string, i: nat): (r: Result<(Value, nat), JsonError>)
    requires i < |s| && s[i] == '['
    ensures r.Ok? ==> i < r.value.1 <= |s|
    decreases |s| - i, 1
  {
    var j := SkipWs(s, i + 1);
    if At(s, j) == ']' then Ok((Arr([]), j + 1)) else ParseElems(s, j, [])
  }

  /** The element loop of `parse_arr`; `acc` is the vector built so far. */
  function ParseElems(s: string, i: nat, acc: seq<Value>): (r: Result<(Value, nat), JsonError>)
    requires i <= |s|
    ensures r.Ok? ==> i < r.value.1 <= |s|
    decreases |s| - i, 3
  {
    match ParseAny(s, i)
    case Err(e) => Err(e)
    case Ok((v, c)) =>
      var d := SkipWs(s, c);
      if At(s, d) == ']' then Ok((Arr(acc + [v]), d + 1))
      else if At(s, d) != ',' then Err(ExpectedComma)
      else ParseElems(s, d + 1, acc + [v])
  }

  /** `value::parse`: the first value of `s`; whatever follows it is ignored. */
  function Parse(s: string): Result<Value, JsonError> {
    match ParseAny(s, 0)
    case Ok((v, _)) => Ok(v)
    case Err(e) => Err(e)
  }

  // ---------------------------------------------------------------------
  // Serialising
  // ---------------------------------------------------------------------

  function Pow10(e: nat): (p: nat)
    ensures p >= 1
  {
    if e == 0 then 1 else 10 * Pow10(e - 1)
  }

  lemma {:induction false} DecimalLength(a: nat, e: nat)
    requires a >= Pow10(e)
    ensures |Decimal(a)| > e
  {
    if e > 0 {
      DecimalLength(a / 10, e - 1);
    }
  }

  predicate AllZeros(t: string) {
    forall k | 0 <= k < |t| :: t[k] == '0'
  }

  /** Drops trailing zeros, keeping at least one digit. */
  function StripZeros(d: string): (r: string)
    ensures |d| >= 1 ==> |r| >= 1 && r[0] == d[0]
    decreases |d|
  {
    if |d| > 1 && d[|d| - 1] == '0' then StripZeros(d[..|d| - 1]) else d
  }

  /**
   * `ostream << double` (format `%g`, precision 6) for an integer of at least
   * 10^6: six significant digits rounded half to even, trailing zeros of the
   * mantissa dropped, and an exponent of at least two digits.
   */
  function Scientific(a: nat): string
    requires a >= 1000000
  {
    var d := Decimal(a);
    DecimalLength(a, 6);
    var q := DecimalValue(d[..6]);
    var r := d[6..];
    var up := r[0] > '5' || (r[0] == '5' && (!AllZeros(r[1..]) || q % 2 == 1));
    var m := if up then q + 1 else q;
    var exp := if m == 1000000 then |d| else |d| - 1;
    var mant := StripZeros(Decimal(if m == 1000000 then 100000 else m));
    [mant[0]] + (if |mant| > 1 then "." + mant[1..] else "") + "e+" + ZeroPadded(exp, 2)
  }

  /** `o << num()` for an integer-valued number. */
  function NumText(n: int): string {
    var a: nat := if n < 0 then -n else n;
    (if n < 0 then "-" else "") + (if a < 1000000 then Decimal(a) else Scientific(a))
  }

  /** A string body with `"` and `\` preceded by a backslash; nothing else is escaped. */
  function Escape(t: string): string {
    if t == [] then ""
    else (if t[0] == '"' || t[0] == '\\' then ['\\', t[0]] else [t[0]]) + Escape(t[1..])
  }

  /** `dump()`: no whitespace, object members in key order, keys written without escaping. */
  function Dump(v: Value): string
    decreases v
  {
    match v
    case Null => "null"
    case Bool(b) => if b then "true" else "false"
    case Num(n) => NumText(n)
    case Str(t) => "\"" + (Escape(t) + "\"")
    case Arr(items) => "[" + (DumpItems(items) + "]")
    case Obj(ms) => "{" + (DumpMembers(ms) + "}")
  }

  function DumpItems(items: seq<Value>): string
    decreases items
  {
    if items == [] then ""
    else Dump(items[0]) + (if |items| == 1 then "" else "," + DumpItems(items[1..]))
  }

  function DumpMembers(ms: seq<Member>): string
    decreases ms
  {
    if ms == [] then ""
    else DumpMember(ms[0]) + (if |ms| == 1 then "" else "," + DumpMembers(ms[1..]))
  }

  /** One member: the key in quotes as it is, a colon, the value. */
  function DumpMember(m: Member): string
    decreases m
  {
    "\"" + (m.key + ("\":" + Dump(m.val)))
  }

  /** A number below 10^e has at most e digits. */
  lemma {:induction false} DecimalShort(a: nat, e: nat)
    requires 1 <= e && a < Pow10(e)
    ensures |Decimal(a)| <= e
  {
    if a >= 10 {
      assert Pow10(1) == 10;
      DecimalShort(a / 10, e - 1);
    }
  }

  /** Appending a digit to a number appends it to its text. */
  lemma DecimalSnoc(q: nat, d: nat)
    requires 1 <= q && d < 10
    ensures Decimal(10 * q + d) == Decimal(q) + [DigitChar(d)]
  {
    var a := 10 * q + d;
    assert a / 10 == q && a % 10 == d;
  }

  lemma SameText(a1: nat, a2: nat)
    requires a1 >= 1000000 && a2 >= 1000000 && Scientific(a1) == Scientific(a2)
    ensures Dump(Num(a1)) == Dump(Num(a2))
  {
    assert NumText(a1) == "" + Scientific(a1);
    assert NumText(a2) == "" + Scientific(a2);
  }

  /** Past six digits only the seventh counts for rounding, and one below 5 rounds down. */
  lemma {:induction false} SameLead(a1: nat, a2: nat)
    requires a1 >= 1000000 && a2 >= 1000000
    requires |Decimal(a1)| == 7 && |Decimal(a2)| == 7 && Decimal(a1)[..6] == Decimal(a2)[..6]
    requires Decimal(a1)[6] < '5' && Decimal(a2)[6] < '5'
    ensures Scientific(a1) == Scientific(a2)
  {
  }

  /**
   * Integers from 10^6 on are printed with six significant digits: two
   * seven-digit numbers that differ only in a last digit below 5 print alike,
   * so the exact value does not come back.
   */
  lemma {:induction false} LastDigitLost(q: nat, d1: nat, d2: nat)
    requires 100000 <= q < 1000000 && d1 < 5 && d2 < 5
    ensures Dump(Num(10 * q + d1)) == Dump(Num(10 * q + d2))
  {
    var a1, a2 := 10 * q + d1, 10 * q + d2;
    assert Pow10(5) == 100000 && Pow10(6) == 1000000;
    DecimalLength(q, 5);
    DecimalShort(q, 6);
    DecimalSnoc(q, d1);
    DecimalSnoc(q, d2);
    assert Decimal(a1)[..6] == Decimal(q) == Decimal(a2)[..6];
    SameLead(a1, a2);
    SameText(a1, a2);
  }

  /** For instance 1000000 and 1000001 both print as `1e+06`. */
  lemma LargeNumbersCollide()
    ensures Dump(Num(1000000)) == Dump(Num(1000001))
  {
    LastDigitLost(100000, 0, 1);
  }

  // ---------------------------------------------------------------------
  // Parsing what was dumped
  // ---------------------------------------------------------------------

  /** An object key `dump_into` writes faithfully: it holds no `"` and no `\\`. */
  predicate PlainKey(k: string) {
    forall j | 0 <= j < |k| :: k[j] != '"' && k[j] != '\\'
  }

  /** The values whose dump parses back: ordered objects, plain keys, numbers below 10^6 in magnitude. */
  predicate Dumpable(v: Value)
    decreases v
  {
    match v
    case Num(n) => -1000000 < n < 1000000
    case Arr(items) => ItemsDumpable(items)
    case Obj(ms) => Sorted(ms) && MembersDumpable(ms)
    case _ => true
  }

  predicate ItemsDumpable(items: seq<Value>)
    decreases items
  {
    items == [] || (Dumpable(items[0]) && ItemsDumpable(items[1..]))
  }

  predicate MembersDumpable(ms: seq<Member>)
    decreases ms
  {
    ms == [] || (PlainKey(ms[0].key) && Dumpable(ms[0].val) && MembersDumpable(ms[1..]))
  }

  /** Members each of which can be dumped faithfully. */
  lemma {:induction false} MembersDumpableEach(ms: seq<Member>)
    requires forall i | 0 <= i < |ms| :: PlainKey(ms[i].key) && Dumpable(ms[i].val)
    ensures MembersDumpable(ms)
    decreases |ms|
  {
    if ms != [] {
      MembersDumpableEach(ms[1..]);
    }
  }

  lemma {:induction false} InsertDumpable(ms: seq<Member>, k: string, v: Value)
    requires MembersDumpable(ms) && PlainKey(k) && Dumpable(v)
    ensures MembersDumpable(Insert(ms, k, v))
    decreases |ms|
  {
    if ms != [] && ms[0].key != k && !Less(k, ms[0].key) {
      InsertDumpable(ms[1..], k, v);
      assert ([ms[0]] + Insert(ms[1..], k, v))[1..] == Insert(ms[1..], k, v);
    } else if ms != [] && ms[0].key != k {
      assert ([Member(k, v)] + ms)[1..] == ms;
    }
  }

  /** A map built by `emplace` from faithfully dumpable members is one. */
  lemma {:induction false} InsertAllDumpable(acc: seq<Member>, ms: seq<Member>)
    requires MembersDumpable(acc) && MembersDumpable(ms)
    ensures MembersDumpable(InsertAll(acc, ms))
    decreases |ms|
  {
    if ms != [] {
      InsertDumpable(acc, ms[0].key, ms[0].val);
      InsertAllDumpable(Insert(acc, ms[0].key, ms[0].val), ms[1..]);
    }
  }

  lemma {:induction false} EscapePlain(k: string)
    requires PlainKey(k)
    ensures Escape(k) == k
  {
    if k != [] {
      assert k == [k[0]] + k[1..];
      EscapePlain(k[1..]);
    }
  }

  /** `d` is written in `s` from position `i` on, and the character `c` follows it. */
  predicate Before(s: string, i: nat, d: string, c: char) {
    Occurs(s, i, d) && i + |d| < |s| && s[i + |d|] == c
  }

  /** Two texts separated by a comma: the first is followed by the comma, the second by `c`. */
  lemma BeforeSplit(s: string, i: nat, a: string, b: string, c: char)
    requires Before(s, i, a + ("," + b), c)
    ensures Before(s, i, a, ',') && Before(s, i + |a| + 1, b, c)
  {
    OccursConcat(s, i, a, "," + b);
    OccursConcat(s, i + |a|, ",", b);
    OccursChar(s, i + |a|, ",", 0);
  }

  /** A text between the one-character delimiters `o` and `c`. */
  lemma {:induction false} Wrapped(s: string, i: nat, o: char, body: string, c: char)
    requires Occurs(s, i, [o] + (body + [c]))
    ensures i < |s| && s[i] == o && Before(s, i + 1, body, c)
  {
    OccursConcat(s, i, [o], body + [c]);
    OccursChar(s, i, [o], 0);
    OccursConcat(s, i + 1, body, [c]);
    OccursChar(s, i + 1 + |body|, [c], 0);
  }

  /** The string loop reads back an escaped text up to its closing quote. */
  lemma {:induction false} StrBodyEscape(s: string, i: nat, acc: string, t: string)
    requires Before(s, i, Escape(t), '"')
    ensures StrBody(s, i, acc) == Ok((acc + t, i + |Escape(t)| + 1))
    decreases |t|
  {
    if t == [] {
      assert acc + t == acc;
    } else {
      var e := if t[0] == '"' || t[0] == '\\' then ['\\', t[0]] else [t[0]];
      OccursConcat(s, i, e, Escape(t[1..]));
      OccursChar(s, i, e, 0);
      if |e| == 2 {
        OccursChar(s, i, e, 1);
      }
      StrBodyEscape(s, i + |e|, acc + [t[0]], t[1..]);
      assert acc + [t[0]] + t[1..] == acc + t;
    }
  }

  /** `parse_str` inverts the string dump for every string, whatever it contains. */
  lemma {:induction false} ParseStrDump(s: string, i: nat, t: string)
    requires i < |s| && s[i] == '"' && Before(s, i + 1, Escape(t), '"')
    ensures ParseStr(s, i) == Ok((t, i + |Escape(t)| + 2))
  {
    StrBodyEscape(s, i + 1, "", t);
    assert "" + t == t;
  }

  /** `parse_str` refuses a cursor that is not on a quote, the end of the text included. */
  lemma ParseStrNoQuote(s: string, i: nat)
    requires i <= |s| && At(s, i) != '"'
    ensures ParseStr(s, i) == Err(ExpectedQuote)
  {
  }

  /** No quote after the cursor: the string is unterminated, whatever the backslashes do. */
  lemma {:induction false} StrBodyUnterminated(s: string, i: nat, acc: string)
    requires i <= |s| && forall k | i <= k < |s| :: s[k] != '"'
    ensures StrBody(s, i, acc) == Err(Unterminated)
    decreases |s| - i
  {
    if i < |s| {
      if s[i] == '\\' {
        if i + 1 < |s| {
          StrBodyUnterminated(s, i + 2, acc + [s[i + 1]]);
        }
      } else {
        StrBodyUnterminated(s, i + 1, acc + [s[i]]);
      }
    }
  }

  /** An opening quote with no other quote after it is the "unterminated string" error. */
  lemma ParseStrUnterminated(s: string, i: nat)
    requires i < |s| && s[i] == '"' && forall k | i < k < |s| :: s[k] != '"'
    ensures ParseStr(s, i) == Err(Unterminated)
  {
    StrBodyUnterminated(s, i + 1, "");
  }

  /** Every character behind a backslash, as `\c`. */
  function Backslashed(t: string): (e: string)
    ensures |e| == 2 * |t|
  {
    if t == [] then "" else ['\\', t[0]] + Backslashed(t[1..])
  }

  /** `\c` reads as `c` for every character `c`, a quote and a backslash included. */
  lemma {:induction false} StrBodyBackslashed(s: string, i: nat, acc: string, t: string)
    requires Before(s, i, Backslashed(t), '"')
    ensures StrBody(s, i, acc) == Ok((acc + t, i + 2 * |t| + 1))
    decreases |t|
  {
    if t == [] {
      assert acc + t == acc;
    } else {
      var e := ['\\', t[0]];
      OccursConcat(s, i, e, Backslashed(t[1..]));
      OccursChar(s, i, e, 0);
      OccursChar(s, i, e, 1);
      StrBodyBackslashed(s, i + 2, acc + [t[0]], t[1..]);
      assert acc + [t[0]] + t[1..] == acc + t;
    }
  }

  /** Text without quotes or backslashes is read as it is. */
  lemma {:induction false} StrBodyPlain(s: string, i: nat, acc: string, t: string)
    requires Occurs(s, i, t) && forall k | 0 <= k < |t| :: t[k] != '"' && t[k] != '\\'
    ensures StrBody(s, i, acc) == StrBody(s, i + |t|, acc + t)
    decreases |t|
  {
    if t == [] {
      assert acc + t == acc;
    } else {
      OccursConcat(s, i, [t[0]], t[1..]);
      assert [t[0]] + t[1..] == t;
      OccursChar(s, i, [t[0]], 0);
      StrBodyPlain(s, i + 1, acc + [t[0]], t[1..]);
      assert acc + [t[0]] + t[1..] == acc + t;
    }
  }

  /** An escaped quote does not close the string: `"abc\"` is unterminated. */
  lemma EscapedQuoteUnterminated(t: string)
    requires forall k | 0 <= k < |t| :: t[k] != '"' && t[k] != '\\'
    ensures ParseStr("\"" + t + "\\\"", 0) == Err(Unterminated)
  {
    var s := "\"" + t + "\\\"";
    assert Occurs(s, 1, t) by {
      AgreesAll(s, 1, t, 0);
    }
    StrBodyPlain(s, 1, "", t);
    assert s[1 + |t|] == '\\' && 1 + |t| + 2 == |s|;
  }

  /** The characters a dumped value can start with. */
  predicate StartsValue(c: char) {
    c == 'n' || c == 't' || c == 'f' || c == '"' || c == '[' || c == '{' || c == '-' || IsDigit(c)
  }

  lemma {:induction false} DumpFirst(v: Value)
    ensures |Dump(v)| >= 1 && StartsValue(Dump(v)[0])
  {
    if v.Num? {
      var n := v.n;
      var a: nat := if n < 0 then -n else n;
      if a >= 1000000 {
        DecimalLength(a, 6);
      }
    }
  }

  lemma {:induction false} NumTextChars(n: int)
    requires -1000000 < n < 1000000
    ensures |NumText(n)| >= 1 && (IsDigit(NumText(n)[0]) || NumText(n)[0] == '-')
    ensures forall k | 0 <= k < |NumText(n)| :: IsNumChar(NumText(n)[k])
    ensures IntValue(NumText(n)) == Some(n)
  {
    var t := NumText(n);
    var a: nat := if n < 0 then -n else n;
    var d := Decimal(a);
    DecimalRoundTrip(a);
    if n < 0 {
      assert t == "-" + d;
      assert t[1..] == d;
      forall k | 1 <= k < |t| ensures IsNumChar(t[k]) {
        assert t[k] == d[k - 1];
      }
    } else {
      assert t == d;
    }
  }

  /** The number scan takes exactly a run of number characters that is followed by a delimiter. */
  lemma {:induction false} NumSpanOver(s: string, i: nat, t: string)
    requires Occurs(s, i, t) && Delimited(s, i + |t|)
    requires forall k | 0 <= k < |t| :: IsNumChar(t[k])
    ensures NumSpan(s, i) == t
    decreases |t|
  {
    if t != [] {
      assert [t[0]] + t[1..] == t;
      OccursConcat(s, i, [t[0]], t[1..]);
      OccursChar(s, i, t, 0);
      NumSpanOver(s, i + 1, t[1..]);
    }
  }

  /** A number text the scan takes whole reads back as its integer. */
  lemma {:induction false} ParseNumText(s: string, i: nat, t: string, n: int)
    requires |t| >= 1 && (IsDigit(t[0]) || t[0] == '-') && IntValue(t) == Some(n)
    requires forall k | 0 <= k < |t| :: IsNumChar(t[k])
    requires Occurs(s, i, t) && Delimited(s, i + |t|)
    ensures ParseAny(s, i) == Ok((Num(n), i + |t|))
  {
    NumSpanOver(s, i, t);
    OccursChar(s, i, t, 0);
    assert SkipWs(s, i) == i;
  }

  lemma {:induction false} ParseNumDump(s: string, i: nat, n: int)
    requires -1000000 < n < 1000000
    requires Occurs(s, i, NumText(n)) && Delimited(s, i + |NumText(n)|)
    ensures ParseAny(s, i) == Ok((Num(n), i + |NumText(n)|))
  {
    NumTextChars(n);
    ParseNumText(s, i, NumText(n), n);
  }

  lemma {:induction false} ParseLiteralDump(s: string, i: nat, v: Value)
    requires v.Null? || v.Bool?
    requires Occurs(s, i, Dump(v))
    ensures ParseAny(s, i) == Ok((v, i + |Dump(v)|))
  {
    OccursChar(s, i, Dump(v), 0);
    assert SkipWs(s, i) == i;
  }

  lemma {:induction false} ParseStrValueDump(s: string, i: nat, t: string)
    requires Occurs(s, i, Dump(Str(t)))
    ensures ParseAny(s, i) == Ok((Str(t), i + |Dump(Str(t))|))
  {
    Wrapped(s, i, '"', Escape(t), '"');
    ParseStrDump(s, i, t);
    assert SkipWs(s, i) == i;
  }

  /**
   * `parse_any` reads back what `dump_into` wrote: the value, with the cursor
   * just after its text. A number must not be followed by a character the
   * number scan would take.
   */
  lemma {:induction false} ParseAnyDump(s: string, i: nat, v: Value)
    requires Dumpable(v) && Occurs(s, i, Dump(v))
    requires v.Num? ==> Delimited(s, i + |Dump(v)|)
    ensures ParseAny(s, i) == Ok((v, i + |Dump(v)|))
    decreases v, 2
  {
    match v
    case Null => ParseLiteralDump(s, i, v);
    case Bool(_) => ParseLiteralDump(s, i, v);
    case Num(n) => ParseNumDump(s, i, n);
    case Str(t) => ParseStrValueDump(s, i, t);
    case Arr(_) => ParseArrDump(s, i, v);
    case Obj(ms) =>
      ParseObjDump(s, i, v);
      assert [] + ms == ms;
      InsertAllSorted([], ms);
  }

  // One step of the parser each, so that the proofs below unfold one function at a time.

  lemma {:induction false} ParseAnyOpen(s: string, i: nat, c: char)
    requires i < |s| && s[i] == c && (c == '[' || c == '{')
    ensures c == '[' ==> ParseAny(s, i) == ParseArr(s, i)
    ensures c == '{' ==> ParseAny(s, i) == ParseObj(s, i)
  {
    assert SkipWs(s, i) == i;
  }

  lemma {:induction false} ParseArrOpen(s: string, i: nat)
    requires i + 1 < |s| && s[i] == '[' && !IsSpace(s[i + 1])
    ensures s[i + 1] == ']' ==> ParseArr(s, i) == Ok((Arr([]), i + 2))
    ensures s[i + 1] != ']' ==> ParseArr(s, i) == ParseElems(s, i + 1, [])
  {
    assert SkipWs(s, i + 1) == i + 1;
  }

  lemma {:induction false} ParseObjOpen(s: string, i: nat)
    requires i + 1 < |s| && s[i] == '{' && !IsSpace(s[i + 1])
    ensures s[i + 1] == '}' ==> ParseObj(s, i) == Ok((Obj([]), i + 2))
    ensures s[i + 1] != '}' ==> ParseObj(s, i) == ParseMembers(s, i + 1, [])
  {
    assert SkipWs(s, i + 1) == i + 1;
  }

  lemma {:induction false} ParseElemsLast(s: string, i: nat, acc: seq<Value>, v: Value, c: nat)
    requires i <= |s| && ParseAny(s, i) == Ok((v, c)) && c < |s| && s[c] == ']'
    ensures ParseElems(s, i, acc) == Ok((Arr(acc + [v]), c + 1))
  {
    assert SkipWs(s, c) == c;
  }

  lemma {:induction false} ParseElemsMore(s: string, i: nat, acc: seq<Value>, v: Value, c: nat)
    requires i <= |s| && ParseAny(s, i) == Ok((v, c)) && c < |s| && s[c] == ','
    ensures ParseElems(s, i, acc) == ParseElems(s, c + 1, acc + [v])
  {
    assert SkipWs(s, c) == c;
  }

  lemma {:induction false} ParseMembersLast(s: string, i: nat, acc: seq<Member>, k: string, a: nat, v: Value, c: nat)
    requires i <= |s| && ParseStr(s, i) == Ok((k, a)) && a < |s| && s[a] == ':'
    requires ParseAny(s, a + 1) == Ok((v, c)) && c < |s| && s[c] == '}'
    ensures ParseMembers(s, i, acc) == Ok((Obj(Insert(acc, k, v)), c + 1))
  {
    assert SkipWs(s, a) == a;
    assert SkipWs(s, c) == c;
  }

  lemma {:induction false} ParseMembersMore(s: string, i: nat, acc: seq<Member>, k: string, a: nat, v: Value, c: nat)
    requires i <= |s| && ParseStr(s, i) == Ok((k, a)) && a < |s| && s[a] == ':'
    requires ParseAny(s, a + 1) == Ok((v, c)) && c < |s| && s[c] == ','
    ensures ParseMembers(s, i, acc) == ParseMembers(s, c + 1, Insert(acc, k, v))
  {
    assert SkipWs(s, a) == a;
    assert SkipWs(s, c) == c;
  }

  lemma {:induction false} ParseArrDump(s: string, i: nat, v: Value)
    requires v.Arr? && Dumpable(v) && Occurs(s, i, Dump(v))
    ensures ParseAny(s, i) == Ok((v, i + |Dump(v)|))
    decreases v, 1
  {
    var items := v.items;
    assert v == Arr(items) && |Dump(v)| == |DumpItems(items)| + 2;
    Wrapped(s, i, '[', DumpItems(items), ']');
    ParseAnyOpen(s, i, '[');
    ParseArrBody(s, i, items);
  }

  /** The array between its brackets reads back. */
  lemma {:induction false} ParseArrBody(s: string, i: nat, items: seq<Value>)
    requires ItemsDumpable(items)
    requires i < |s| && s[i] == '[' && Before(s, i + 1, DumpItems(items), ']')
    ensures ParseArr(s, i) == Ok((Arr(items), i + |DumpItems(items)| + 2))
    decreases items, 2
  {
    if items != [] {
      ItemsAtDump(s, i + 1, items);
      OccursChar(s, i + 1, Dump(items[0]), 0);
      DumpFirst(items[0]);
      ParseArrOpen(s, i);
      ParseElemsDump(s, i + 1, items, []);
      ItemsEndLength(i + 1, items);
      assert [] + items == items;
    } else {
      ParseArrOpen(s, i);
    }
  }

  /** An object text reads back as the `emplace` of its members in text order, whatever that order. */
  lemma {:induction false} ParseObjDump(s: string, i: nat, v: Value)
    requires v.Obj? && MembersDumpable(v.members) && Occurs(s, i, Dump(v))
    ensures ParseAny(s, i) == Ok((Obj(InsertAll([], v.members)), i + |Dump(v)|))
    decreases v, 1
  {
    var ms := v.members;
    assert v == Obj(ms) && |Dump(v)| == |DumpMembers(ms)| + 2;
    Wrapped(s, i, '{', DumpMembers(ms), '}');
    ParseAnyOpen(s, i, '{');
    ParseObjBody(s, i, ms);
  }

  /** The object between its braces reads back. */
  lemma {:induction false} ParseObjBody(s: string, i: nat, ms: seq<Member>)
    requires MembersDumpable(ms)
    requires i < |s| && s[i] == '{' && Before(s, i + 1, DumpMembers(ms), '}')
    ensures ParseObj(s, i) == Ok((Obj(InsertAll([], ms)), i + |DumpMembers(ms)| + 2))
    decreases ms, 2
  {
    if ms != [] {
      MembersAtDump(s, i + 1, ms);
      OccursChar(s, i + 1, DumpMember(ms[0]), 0);
      ParseObjOpen(s, i);
      ParseMembersDump(s, i + 1, ms, []);
      MembersEndLength(i + 1, ms);
    } else {
      ParseObjOpen(s, i);
    }
  }


  lemma {:induction false} AppendHead<T>(acc: seq<T>, xs: seq<T>)
    requires xs != []
    ensures (acc + [xs[0]]) + xs[1..] == acc + xs
  {
  }

  /** One element of a dumped array reads back, and the parser moves on to the next one. */
  /** An element that was dumped reads back, and so does the delimiter after it. */
  lemma {:induction false} ElemValueDump(s: string, i: nat, acc: seq<Value>, v: Value, c: nat)
    requires Dumpable(v) && Occurs(s, i, Dump(v)) && c == i + |Dump(v)|
    requires c < |s| && (s[c] == ']' || s[c] == ',')
    ensures s[c] == ']' ==> ParseElems(s, i, acc) == Ok((Arr(acc + [v]), c + 1))
    ensures s[c] == ',' ==> ParseElems(s, i, acc) == ParseElems(s, c + 1, acc + [v])
    decreases v, 3
  {
    ParseAnyDump(s, i, v);
    if s[c] == ']' {
      ParseElemsLast(s, i, acc, v, c);
    } else {
      ParseElemsMore(s, i, acc, v, c);
    }
  }

  /** The element texts of `items` one after another from `i`, each followed by `,` and the last by `]`. */
  predicate ItemsAt(s: string, i: nat, items: seq<Value>)
    decreases |items|
  {
    items != [] && Before(s, i, Dump(items[0]), if |items| == 1 then ']' else ',')
    && (|items| > 1 ==> ItemsAt(s, i + |Dump(items[0])| + 1, items[1..]))
  }

  lemma {:induction false} ItemsAtDump(s: string, i: nat, items: seq<Value>)
    requires items != [] && Before(s, i, DumpItems(items), ']')
    ensures ItemsAt(s, i, items)
    decreases |items|
  {
    if |items| > 1 {
      BeforeSplit(s, i, Dump(items[0]), DumpItems(items[1..]), ']');
      ItemsAtDump(s, i + |Dump(items[0])| + 1, items[1..]);
    } else {
      assert DumpItems(items) == Dump(items[0]);
    }
  }

  /** Where the parser stands after the elements of `items`, laid out from `i`, and their closing bracket. */
  function ItemsEnd(i: nat, items: seq<Value>): nat
    decreases |items|
  {
    if items == [] then i + 1
    else if |items| == 1 then i + |Dump(items[0])| + 1
    else ItemsEnd(i + |Dump(items[0])| + 1, items[1..])
  }

  lemma {:induction false} ItemsEndLength(i: nat, items: seq<Value>)
    ensures ItemsEnd(i, items) == i + |DumpItems(items)| + 1
    decreases |items|
  {
    if |items| > 1 {
      ItemsEndLength(i + |Dump(items[0])| + 1, items[1..]);
    }
  }

  /** The elements of a dumped array read back, each appended in turn after those in `acc`. */
  lemma {:induction false} ParseElemsDump(s: string, i: nat, items: seq<Value>, acc: seq<Value>)
    requires ItemsDumpable(items) && ItemsAt(s, i, items)
    ensures ParseElems(s, i, acc) == Ok((Arr(acc + items), ItemsEnd(i, items)))
    decreases items, 1
  {
    ElemValueDump(s, i, acc, items[0], i + |Dump(items[0])|);
    if |items| > 1 {
      ParseElemsDump(s, i + |Dump(items[0])| + 1, items[1..], acc + [items[0]]);
      AppendHead(acc, items);
    } else {
      assert acc + items == acc + [items[0]];
    }
  }


  /** The key of a dumped member reads back, and its value text follows the colon. */
  lemma {:induction false} MemberKeyDump(s: string, i: nat, m: Member)
    requires PlainKey(m.key) && Occurs(s, i, DumpMember(m))
    ensures var a := i + |m.key| + 2;
      ParseStr(s, i) == Ok((m.key, a)) && a < |s| && s[a] == ':'
      && Occurs(s, a + 1, Dump(m.val)) && |DumpMember(m)| == |m.key| + 3 + |Dump(m.val)|
  {
    var rest := "\":" + Dump(m.val);
    OccursConcat(s, i, "\"", m.key + rest);
    OccursChar(s, i, "\"", 0);
    OccursConcat(s, i + 1, m.key, rest);
    var a := i + 1 + |m.key|;
    OccursConcat(s, a, "\":", Dump(m.val));
    OccursChar(s, a, "\":", 0);
    OccursChar(s, a, "\":", 1);
    EscapePlain(m.key);
    ParseStrDump(s, i, m.key);
  }

  /** A member value that was dumped after its key reads back, and so does the delimiter after it. */
  lemma {:induction false} MemberValueDump(s: string, i: nat, acc: seq<Member>, k: string, a: nat, v: Value, c: nat)
    requires i <= |s| && ParseStr(s, i) == Ok((k, a)) && a < |s| && s[a] == ':'
    requires Dumpable(v) && Occurs(s, a + 1, Dump(v)) && c == a + 1 + |Dump(v)|
    requires c < |s| && (s[c] == '}' || s[c] == ',')
    ensures s[c] == '}' ==> ParseMembers(s, i, acc) == Ok((Obj(Insert(acc, k, v)), c + 1))
    ensures s[c] == ',' ==> ParseMembers(s, i, acc) == ParseMembers(s, c + 1, Insert(acc, k, v))
    decreases v, 3
  {
    ParseAnyDump(s, a + 1, v);
    if s[c] == '}' {
      ParseMembersLast(s, i, acc, k, a, v, c);
    } else {
      ParseMembersMore(s, i, acc, k, a, v, c);
    }
  }

  /** The member texts of `ms` one after another from `i`, each followed by `,` and the last by `}`. */
  predicate MembersAt(s: string, i: nat, ms: seq<Member>)
    decreases |ms|
  {
    ms != [] && Before(s, i, DumpMember(ms[0]), if |ms| == 1 then '}' else ',')
    && (|ms| > 1 ==> MembersAt(s, i + |DumpMember(ms[0])| + 1, ms[1..]))
  }

  lemma {:induction false} MembersAtDump(s: string, i: nat, ms: seq<Member>)
    requires ms != [] && Before(s, i, DumpMembers(ms), '}')
    ensures MembersAt(s, i, ms)
    decreases |ms|
  {
    if |ms| > 1 {
      BeforeSplit(s, i, DumpMember(ms[0]), DumpMembers(ms[1..]), '}');
      var j := i + |DumpMember(ms[0])| + 1;
      var d := DumpMembers(ms[1..]);
      assert Occurs(s, j, d);
      assert j + |d| < |s|;
      assert s[j + |d|] == '}';
      MembersAtDump(s, i + |DumpMember(ms[0])| + 1, ms[1..]);
    } else {
      assert DumpMembers(ms) == DumpMember(ms[0]);
    }
  }

  /** Where the parser stands after the members of `ms`, laid out from `i`, and their closing brace. */
  function MembersEnd(i: nat, ms: seq<Member>): nat
    decreases |ms|
  {
    if ms == [] then i + 1
    else if |ms| == 1 then i + |DumpMember(ms[0])| + 1
    else MembersEnd(i + |DumpMember(ms[0])| + 1, ms[1..])
  }

  lemma {:induction false} MembersEndLength(i: nat, ms: seq<Member>)
    ensures MembersEnd(i, ms) == i + |DumpMembers(ms)| + 1
    decreases |ms|
  {
    if |ms| > 1 {
      MembersEndLength(i + |DumpMember(ms[0])| + 1, ms[1..]);
    }
  }

  /** The first member of a dumped object reads back and is `emplace`d, and the parser moves on to the next one. */
  lemma {:induction false} ParseMemberDump(s: string, i: nat, ms: seq<Member>, acc: seq<Member>)
    requires MembersDumpable(ms) && MembersAt(s, i, ms)
    ensures |ms| == 1 ==> ParseMembers(s, i, acc) == Ok((Obj(InsertAll(acc, ms)), MembersEnd(i, ms)))
    ensures |ms| > 1 ==>
      ParseMembers(s, i, acc) == ParseMembers(s, i + |DumpMember(ms[0])| + 1, Insert(acc, ms[0].key, ms[0].val))
    ensures |ms| > 1 ==> MembersEnd(i, ms) == MembersEnd(i + |DumpMember(ms[0])| + 1, ms[1..])
    ensures |ms| > 1 ==> InsertAll(acc, ms) == InsertAll(Insert(acc, ms[0].key, ms[0].val), ms[1..])
    decreases ms, 0
  {
    var m := ms[0];
    MemberKeyDump(s, i, m);
    MemberValueDump(s, i, acc, m.key, i + |m.key| + 2, m.val, i + |DumpMember(m)|);
    if |ms| == 1 {
      assert InsertAll(Insert(acc, m.key, m.val), ms[1..]) == Insert(acc, m.key, m.val);
    }
  }

  /** The members of a dumped object read back, each `emplace`d in turn after those in `acc`. */
  lemma {:induction false} ParseMembersDump(s: string, i: nat, ms: seq<Member>, acc: seq<Member>)
    requires MembersDumpable(ms) && MembersAt(s, i, ms)
    ensures ParseMembers(s, i, acc) == Ok((Obj(InsertAll(acc, ms)), MembersEnd(i, ms)))
    decreases ms, 1
  {
    ParseMemberDump(s, i, ms, acc);
    if |ms| > 1 {
      ParseMembersDump(s, i + |DumpMember(ms[0])| + 1, ms[1..], Insert(acc, ms[0].key, ms[0].val));
    }
  }

  // ---------------------------------------------------------------------
  // value::parse and value::dump
  // ---------------------------------------------------------------------

  lemma {:induction false} OccursPrefix(d: string, rest: string)
    ensures Occurs(d + rest, 0, d)
  {
    AgreesAll(d + rest, 0, d, 0);
  }

  /**
   * `value::parse(v.dump() + rest)` gives back `v` for a dumpable value; a
   * bare number must not be followed by a character `parse_num` would take.
   */
  lemma {:induction false} ParseIgnoresRest(v: Value, rest: string)
    requires Dumpable(v)
    requires v.Num? ==> Delimited(Dump(v) + rest, |Dump(v)|)
    ensures Parse(Dump(v) + rest) == Ok(v)
  {
    OccursPrefix(Dump(v), rest);
    ParseAnyDump(Dump(v) + rest, 0, v);
  }

  /** The dump of a dumpable value reads back as that value. */
  lemma {:induction false} DumpParse(v: Value)
    requires Dumpable(v)
    ensures Parse(Dump(v)) == Ok(v)
  {
    ParseIgnoresRest(v, "");
    assert Dump(v) + "" == Dump(v);
  }

  lemma {:induction false} SkipWsIdempotent(s: string, i: nat)
    requires i <= |s|
    ensures SkipWs(s, SkipWs(s, i)) == SkipWs(s, i)
    decreases |s| - i
  {
    if i < |s| && IsSpace(s[i]) {
      SkipWsIdempotent(s, i + 1);
    }
  }

  /** `parse_any` starts with `skipws`: leading whitespace does not change what is read. */
  lemma {:induction false} LeadingSpace(s: string, i: nat)
    requires i <= |s|
    ensures ParseAny(s, i) == ParseAny(s, SkipWs(s, i))
  {
    SkipWsIdempotent(s, i);
  }

  /** Nothing but whitespace left: `"json eof"`. */
  lemma {:induction false} OnlySpace(s: string, i: nat)
    requires i <= |s| && forall k | i <= k < |s| :: IsSpace(s[k])
    ensures ParseAny(s, i) == Err(Eof)
    decreases |s| - i
  {
    if i < |s| {
      OnlySpace(s, i + 1);
    }
  }

  /** A repeated key keeps its first value: `emplace` does not overwrite. */
  lemma {:induction false} RepeatedKeyKeepsFirst(k: string, v1: Value, v2: Value)
    requires PlainKey(k) && Dumpable(v1) && Dumpable(v2)
    ensures Parse(Dump(Obj([Member(k, v1), Member(k, v2)]))) == Ok(Obj([Member(k, v1)]))
  {
    var ms := [Member(k, v1), Member(k, v2)];
    var t := Dump(Obj(ms));
    assert ms[1..] == [Member(k, v2)];
    assert MembersDumpable(ms);
    OccursPrefix(t, "");
    assert t + "" == t;
    ParseObjDump(t, 0, Obj(ms));
    KeepFirst(k, v1, v2);
  }

  lemma KeepFirst(k: string, v1: Value, v2: Value)
    ensures InsertAll([], [Member(k, v1), Member(k, v2)]) == [Member(k, v1)]
  {
    var ms, rest := [Member(k, v1), Member(k, v2)], [Member(k, v2)];
    var first := [Member(k, v1)];
    assert ms[1..] == rest && rest[1..] == [];
    assert Insert([], k, v1) == first;
    assert InsertAll([], ms) == InsertAll(first, rest);
    assert Insert(first, k, v2) == first;
    assert InsertAll(first, rest) == InsertAll(first, []);
  }

  /** No whitespace is skipped between a comma and the next key. */
  lemma {:induction false} SpaceAfterComma(m: Member, rest: string)
    requires PlainKey(m.key) && Dumpable(m.val)
    ensures Parse("{" + (DumpMember(m) + (", " + rest))) == Err(ExpectedQuote)
  {
    var d := DumpMember(m);
    var s := "{" + (d + (", " + rest));
    OccursPrefix(s, "");
    assert s + "" == s;
    OccursConcat(s, 0, "{", d + (", " + rest));
    OccursConcat(s, 1, d, ", " + rest);
    OccursChar(s, 1 + |d|, ", " + rest, 0);
    OccursChar(s, 1 + |d|, ", " + rest, 1);
    OccursChar(s, 1, d, 0);
    assert SkipWs(s, 0) == 0;
    ParseObjOpen(s, 0);
    MemberKeyDump(s, 1, m);
    MemberValueDump(s, 1, [], m.key, |m.key| + 3, m.val, 1 + |d|);
  }
}
