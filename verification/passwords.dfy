/**
 * How src/common.hpp turns secret input into the passphrase: `join_passwords`
 * puts a NUL between the parts, and `prompt_hidden` strips the line ends
 * from the end of a password file.
 */
module Passwords {

  /** The parts, in order, with one `'\0'` between each two and none at either end. */
  function Join(parts: seq<string>): string
    decreases |parts|
  {
    if |parts| == 0 then ""
    else if |parts| == 1 then parts[0]
    else Join(parts[..|parts| - 1]) + ['\0'] + parts[|parts| - 1]
  }

  /** The loop of `join_passwords`. */
  method JoinPasswords(parts: seq<string>) returns (r: string)
    ensures r == Join(parts)
  {
    r := "";
    for i := 0 to |parts|
      invariant r == Join(parts[..i])
    {
      assert parts[..i + 1][..i] == parts[..i];
      if i > 0 {
        r := r + ['\0'];
      }
      r := r + parts[i];
    }
    assert parts[..|parts|] == parts;
  }

  function TotalLength(parts: seq<string>): nat
    decreases |parts|
  {
    if parts == [] then 0 else TotalLength(parts[..|parts| - 1]) + |parts[|parts| - 1]|
  }

  /** The joined length is the sum of the lengths plus one separator per gap. */
  lemma {:induction false} JoinLength(parts: seq<string>)
    ensures parts == [] ==> Join(parts) == ""
    ensures parts != [] ==> |Join(parts)| == TotalLength(parts) + |parts| - 1
    decreases |parts|
  {
    if |parts| > 1 {
      JoinLength(parts[..|parts| - 1]);
      assert parts[..|parts| - 1][..|parts| - 2] == parts[..|parts| - 2];
    } else if |parts| == 1 {
      assert parts[..0] == [];
    }
  }

  /** The pieces of `s` between its NUL characters (one piece when there is none). */
  function Split(s: string): (r: seq<string>)
    ensures |r| >= 1
    decreases |s|
  {
    if s == [] then [""]
    else
      var p := Split(s[..|s| - 1]);
      var c := s[|s| - 1];
      if c == '\0' then p + [""] else p[..|p| - 1] + [p[|p| - 1] + [c]]
  }

  predicate NulFree(s: string) {
    forall k | 0 <= k < |s| :: s[k] != '\0'
  }

  /** Text without NUL extends the last piece. */
  lemma {:induction false} SplitAppendPlain(x: string, t: string)
    requires NulFree(t)
    ensures var p := Split(x); Split(x + t) == p[..|p| - 1] + [p[|p| - 1] + t]
    decreases |t|
  {
    var p := Split(x);
    if t == [] {
      assert x + t == x;
      assert p[|p| - 1] + t == p[|p| - 1];
      assert p[..|p| - 1] + [p[|p| - 1]] == p;
    } else {
      SplitAppendPlain(x, t[..|t| - 1]);
      PlainStep(x, t, p[..|p| - 1], p[|p| - 1]);
    }
  }

  /** The last character of `t`, when it is not NUL, joins the last piece. */
  lemma PlainStep(x: string, t: string, init: seq<string>, last: string)
    requires t != [] && t[|t| - 1] != '\0'
    requires Split(x + t[..|t| - 1]) == init + [last + t[..|t| - 1]]
    ensures Split(x + t) == init + [last + t]
  {
    var t', c := t[..|t| - 1], t[|t| - 1];
    AppendLast(x, t);
    SplitSnoc(x + t', c);
    var q := init + [last + t'];
    assert q[..|q| - 1] == init && q[|q| - 1] == last + t';
    AppendLast(last, t);
  }

  lemma AppendLast(a: string, t: string)
    requires t != []
    ensures a + t == (a + t[..|t| - 1]) + [t[|t| - 1]]
  {
    assert t == t[..|t| - 1] + [t[|t| - 1]];
  }

  /** `Split` one character at a time, read forwards. */
  lemma SplitSnoc(s: string, c: char)
    ensures c == '\0' ==> Split(s + [c]) == Split(s) + [""]
    ensures c != '\0' ==> var p := Split(s); Split(s + [c]) == p[..|p| - 1] + [p[|p| - 1] + [c]]
  {
    var z := s + [c];
    assert z[..|z| - 1] == s && z[|z| - 1] == c;
  }

  /**
   * Joining NUL-free parts can be undone: the NULs in the result are exactly
   * the separators, so there is one between each two parts and none at the
   * ends.
   */
  lemma {:induction false} SplitJoin(parts: seq<string>)
    requires |parts| >= 1 && forall i | 0 <= i < |parts| :: NulFree(parts[i])
    ensures Split(Join(parts)) == parts
    decreases |parts|
  {
    if |parts| == 1 {
      SplitAppendPlain("", parts[0]);
      assert "" + parts[0] == parts[0];
    } else {
      var init, last := parts[..|parts| - 1], parts[|parts| - 1];
      SplitJoin(init);
      var x := Join(init) + ['\0'];
      SplitSnoc(Join(init), '\0');
      var p := init + [""];
      assert p[..|p| - 1] == init && p[|p| - 1] == "";
      SplitAppendPlain(x, last);
      assert "" + last == last;
      assert parts == init + [last];
    }
  }

  predicate IsLineEnd(c: char) {
    c == '\n' || c == '\r'
  }

  /**
   * The `pop_back` loop of `prompt_hidden` on the contents of the password
   * file: the longest prefix that does not end in `'\n'` or `'\r'`.
   */
  method TrimLineEnds(s: string) returns (t: string)
    ensures |t| <= |s| && t == s[..|t|]
    ensures t == [] || !IsLineEnd(t[|t| - 1])
    ensures forall k | |t| <= k < |s| :: IsLineEnd(s[k])
  {
    t := s;
    while t != [] && IsLineEnd(t[|t| - 1])
      invariant |t| <= |s| && t == s[..|t|]
      invariant forall k | |t| <= k < |s| :: IsLineEnd(s[k])
    {
      t := t[..|t| - 1];
    }
  }
}
