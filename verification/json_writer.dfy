/**
 * `value::dump_into` of third_party/json.hpp, which writes a value into an
 * `std::ostringstream` piece by piece, and `value::dump`, which returns what
 * it wrote. Both are proved to produce the text `MiniJson.Dump` describes.
 */
module JsonWriter {
  import opened Basics
  import opened MiniJson

  /** The `std::ostringstream` the serialiser writes into. */
  class StringStream {
    var text: string

    constructor ()
      ensures text == ""
    {
      text := "";
    }

    /** `o << t`. */
    method Write(t: string)
      modifies this
      ensures text == old(text) + t
    {
      text := text + t;
    }
  }

  lemma Regroup(o: string, d: string, sep: string, x: string)
    ensures ((o + d) + sep) + x == o + ((d + sep) + x)
  {
  }

  lemma Assoc(a: string, b: string, c: string)
    ensures (a + b) + c == a + (b + c)
  {
  }

  /** A member is written as its quoted key and colon, then its value. */
  lemma MemberPieces(m: Member)
    ensures DumpMember(m) == ("\"" + m.key + "\":") + Dump(m.val)
  {
  }

  /** How `dump_into` writes one character of a string value. */
  function EscapeChar(c: char): string {
    if c == '"' || c == '\\' then ['\\', c] else [c]
  }

  lemma {:induction false} EscapeAppend(a: string, b: string)
    ensures Escape(a + b) == Escape(a) + Escape(b)
    decreases |a|
  {
    if a != [] {
      assert (a + b)[1..] == a[1..] + b;
      EscapeAppend(a[1..], b);
    } else {
      assert a + b == b;
    }
  }

  lemma {:induction false} EscapeSnoc(t: string, k: nat)
    requires k < |t|
    ensures Escape(t[..k + 1]) == Escape(t[..k]) + EscapeChar(t[k])
  {
    assert t[..k + 1] == t[..k] + [t[k]];
    EscapeAppend(t[..k], [t[k]]);
    assert Escape([t[k]]) == EscapeChar(t[k]) + Escape([]);
  }

  lemma {:induction false} DumpItemsAppend(xs: seq<Value>, y: Value)
    requires xs != []
    ensures DumpItems(xs + [y]) == DumpItems(xs) + "," + Dump(y)
    decreases |xs|
  {
    var ys := xs + [y];
    assert ys[0] == xs[0];
    assert DumpItems([y]) == Dump(y);
    if |xs| == 1 {
      assert ys[1..] == [y];
      assert DumpItems(xs) == Dump(xs[0]);
    } else {
      assert ys[1..] == xs[1..] + [y];
      DumpItemsAppend(xs[1..], y);
    }
  }

  lemma {:induction false} DumpItemsSnoc(items: seq<Value>, k: nat)
    requires k < |items|
    ensures DumpItems(items[..k + 1]) == DumpItems(items[..k]) + (if k == 0 then "" else ",") + Dump(items[k])
  {
    assert items[..k + 1] == items[..k] + [items[k]];
    if k == 0 {
      assert DumpItems([items[0]]) == Dump(items[0]);
      assert items[..0] == [];
    } else {
      DumpItemsAppend(items[..k], items[k]);
    }
  }

  lemma {:induction false} DumpMembersAppend(xs: seq<Member>, y: Member)
    requires xs != []
    ensures DumpMembers(xs + [y]) == DumpMembers(xs) + "," + DumpMember(y)
    decreases |xs|
  {
    var ys := xs + [y];
    assert ys[0] == xs[0];
    assert DumpMembers([y]) == DumpMember(y);
    if |xs| == 1 {
      assert ys[1..] == [y];
      assert DumpMembers(xs) == DumpMember(xs[0]);
    } else {
      assert ys[1..] == xs[1..] + [y];
      DumpMembersAppend(xs[1..], y);
    }
  }

  lemma {:induction false} DumpMembersSnoc(ms: seq<Member>, k: nat)
    requires k < |ms|
    ensures DumpMembers(ms[..k + 1]) == DumpMembers(ms[..k]) + (if k == 0 then "" else ",") + DumpMember(ms[k])
  {
    assert ms[..k + 1] == ms[..k] + [ms[k]];
    if k == 0 {
      assert DumpMembers([ms[0]]) == DumpMember(ms[0]);
      assert ms[..0] == [];
    } else {
      DumpMembersAppend(ms[..k], ms[k]);
    }
  }

  /**
   * `dump_into`: appends the text of `v` to the stream, a comma before every
   * element or member but the first, keys between quotes as they are.
   */
  method DumpInto(v: Value, o: StringStream)
    modifies o
    ensures o.text == old(o.text) + Dump(v)
    decreases v, 1
  {
    match v
    case Null =>
      o.Write("null");
    case Bool(b) =>
      o.Write(if b then "true" else "false");
    case Num(n) =>
      o.Write(NumText(n));
    case Str(t) =>
      DumpStrInto(t, o);
    case Arr(items) =>
      o.Write("[");
      DumpItemsInto(items, o);
      o.Write("]");
    case Obj(ms) =>
      o.Write("{");
      DumpMembersInto(ms, o);
      o.Write("}");
  }

  /** A string value: quoted, with `"` and `\` escaped. */
  method DumpStrInto(t: string, o: StringStream)
    modifies o
    ensures o.text == old(o.text) + Dump(Str(t))
  {
    o.Write("\"");
    for k := 0 to |t|
      invariant o.text == old(o.text) + "\"" + Escape(t[..k])
    {
      o.Write(EscapeChar(t[k]));
      EscapeSnoc(t, k);
    }
    o.Write("\"");
    assert t[..|t|] == t;
  }

  /** The elements of an array, separated by commas. */
  method DumpItemsInto(items: seq<Value>, o: StringStream)
    modifies o
    ensures o.text == old(o.text) + DumpItems(items)
    decreases items, 0
  {
    var first := true;
    for k := 0 to |items|
      invariant first <==> k == 0
      invariant o.text == old(o.text) + DumpItems(items[..k])
    {
      ghost var sep := if first then "" else ",";
      if !first {
        o.Write(",");
      }
      assert o.text == old(o.text) + DumpItems(items[..k]) + sep;
      first := false;
      DumpInto(items[k], o);
      DumpItemsSnoc(items, k);
      Regroup(old(o.text), DumpItems(items[..k]), sep, Dump(items[k]));
    }
    assert items[..|items|] == items;
  }

  /** The members of an object in key order, separated by commas. */
  method DumpMembersInto(ms: seq<Member>, o: StringStream)
    modifies o
    ensures o.text == old(o.text) + DumpMembers(ms)
    decreases ms, 0
  {
    var first := true;
    for k := 0 to |ms|
      invariant first <==> k == 0
      invariant o.text == old(o.text) + DumpMembers(ms[..k])
    {
      ghost var sep := if first then "" else ",";
      if !first {
        o.Write(",");
      }
      assert o.text == old(o.text) + DumpMembers(ms[..k]) + sep;
      first := false;
      ghost var before := o.text;
      o.Write("\"" + ms[k].key + "\":");
      DumpInto(ms[k].val, o);
      MemberPieces(ms[k]);
      Assoc(before, "\"" + ms[k].key + "\":", Dump(ms[k].val));
      DumpMembersSnoc(ms, k);
      Regroup(old(o.text), DumpMembers(ms[..k]), sep, DumpMember(ms[k]));
    }
    assert ms[..|ms|] == ms;
  }

  /** `value::dump`: the text `dump_into` writes into a fresh stream. */
  method DumpText(v: Value) returns (r: string)
    ensures r == Dump(v)
  {
    var o := new StringStream();
    DumpInto(v, o);
    r := o.text;
  }
}
