/**
 * `pretty_at` (crates/victauri-cli/src/jsonc.rs): a value as indented text. What it prints is a
 * tree whose meaning is the value printed.
 */
module JsoncPretty {
  import opened Text
  import opened Json
  import opened JsonTree
  import KeyOrder

  /** The numbers of a value are numbers. */
  predicate Printable(v: Value)
    decreases v
  {
    match v
    case Num(text) => IsNumber(text)
    case Arr(items) => forall i :: 0 <= i < |items| ==> Printable(items[i])
    case Obj(members) => forall k :: k in members ==> Printable(members[k])
    case _ => true
  }

  predicate IsContainer(v: Value) { v.Arr? || v.Obj? }

  predicate AllPlain(items: seq<Value>) {
    forall i :: 0 <= i < |items| ==> !IsContainer(items[i])
  }

  function Quote(s: Bytes): Bytes { ['"'] + Encode(s) + ['"'] }

  /** A value that is no container, as `serde_json` writes it. */
  function PlainText(v: Value): Bytes
    requires !IsContainer(v)
  {
    match v
    case Null => "null"
    case Bool(b) => if b then "true" else "false"
    case Num(text) => text
    case Str(s) => Quote(s)
  }

  /** The keys of a written object, in order. */
  ghost function Keys(members: map<Bytes, Value>): seq<Bytes> { KeyOrder.Sorted(true, members.Keys) }

  ghost function Pretty(v: Value, unit: Bytes, base: Bytes, nl: Bytes): Bytes
    decreases v, 2, 0
  {
    match v
    case Arr(items) =>
      if AllPlain(items) then ['['] + JoinPlain(items) + [']']
      else ['['] + nl + JoinItems(items, unit, base + unit, nl) + nl + base + [']']
    case Obj(members) =>
      if members == map[] then "{}"
      else
        KeyOrder.SortedKeys(true, members.Keys);
        ['{'] + nl + JoinMembers(v, Keys(members), unit, base + unit, nl) + nl + base + ['}']
    case _ => PlainText(v)
  }

  /** Scalars on one line, joined by `, `. */
  function JoinPlain(items: seq<Value>): Bytes
    requires AllPlain(items)
  {
    if items == [] then []
    else if |items| == 1 then PlainText(items[0])
    else PlainText(items[0]) + ", " + JoinPlain(items[1..])
  }

  /** Items on a line each, joined by a comma and a line break. */
  ghost function JoinItems(items: seq<Value>, unit: Bytes, inner: Bytes, nl: Bytes): Bytes
    decreases items, 1, |items|
  {
    if items == [] then []
    else
      var first := inner + Pretty(items[0], unit, inner, nl);
      if |items| == 1 then first else first + [','] + nl + JoinItems(items[1..], unit, inner, nl)
  }

  /** Members on a line each, in the order of `keys`. */
  ghost function JoinMembers(v: Value, keys: seq<Bytes>, unit: Bytes, inner: Bytes, nl: Bytes): Bytes
    requires v.Obj? && forall k :: k in keys ==> k in v.members
    decreases v, 1, |keys|
  {
    if keys == [] then []
    else
      var k := keys[0];
      var first := inner + Quote(k) + ": " + Pretty(v.members[k], unit, inner, nl);
      if |keys| == 1 then first else first + [','] + nl + JoinMembers(v, keys[1..], unit, inner, nl)
  }

  // ----- The tree that is printed -----

  function PlainNode(v: Value): Node
    requires !IsContainer(v)
  {
    match v
    case Null => Scalar("null")
    case Bool(b) => Scalar(if b then "true" else "false")
    case Num(text) => Scalar(text)
    case Str(s) => Quoted(Encode(s))
  }

  function PlainItems(items: seq<Value>, lead: Bytes): seq<Item>
    requires AllPlain(items)
  {
    if items == [] then [] else [Item(lead, PlainNode(items[0]), [])] + PlainItems(items[1..], " ")
  }

  ghost function Tree(v: Value, unit: Bytes, base: Bytes, nl: Bytes): Node
    decreases v, 2, 0
  {
    match v
    case Arr(items) =>
      Array([], if AllPlain(items) then PlainItems(items, []) else LineItems(items, unit, base, nl))
    case Obj(members) =>
      KeyOrder.SortedKeys(true, members.Keys);
      Object([], LineMembers(v, Keys(members), unit, base, nl))
    case _ => PlainNode(v)
  }

  /** Items on a line each; the last is followed by the line of the closing bracket. */
  ghost function LineItems(items: seq<Value>, unit: Bytes, base: Bytes, nl: Bytes): seq<Item>
    decreases items, 1, |items|
  {
    if items == [] then []
    else
      [Item(nl + (base + unit), Tree(items[0], unit, base + unit, nl), if |items| == 1 then nl + base else [])]
      + LineItems(items[1..], unit, base, nl)
  }

  ghost function LineMembers(v: Value, keys: seq<Bytes>, unit: Bytes, base: Bytes, nl: Bytes): seq<Member>
    requires v.Obj? && forall k :: k in keys ==> k in v.members
    decreases v, 1, |keys|
  {
    if keys == [] then []
    else
      var k := keys[0];
      [Member(nl + (base + unit), Encode(k), [], " ", Tree(v.members[k], unit, base + unit, nl),
              if |keys| == 1 then nl + base else [])]
      + LineMembers(v, keys[1..], unit, base, nl)
  }

  // ----- Printing writes that tree -----

  lemma PlainIsNode(v: Value, r: Bytes)
    requires !IsContainer(v)
    ensures PlainText(v) + r == Write(PlainNode(v), r)
  {
    if v.Str? {
      NestRight(['"'], Encode(v.s), ['"'], r, [], []);
    }
  }

  lemma {:induction false} PlainItemsWritten(items: seq<Value>, r: Bytes)
    requires AllPlain(items) && items != []
    ensures JoinPlain(items) + r == WriteItems(PlainItems(items, []), r)
    ensures [' '] + (JoinPlain(items) + r) == WriteItems(PlainItems(items, " "), r)
  {
    PlainIsNode(items[0], r);
    var more := PlainItems(items[1..], " ");
    var tail := WriteMoreItems(more, r);
    forall lead | lead == [] || lead == [' ']
      ensures WriteItems(PlainItems(items, lead), r) == lead + Write(PlainNode(items[0]), [] + tail)
    {
      assert PlainItems(items, lead)[1..] == more;
    }
    assert [] + tail == tail;
    if |items| > 1 {
      PlainItemsWritten(items[1..], r);
      assert tail == [','] + ([' '] + (JoinPlain(items[1..]) + r));
      PlainIsNode(items[0], tail);
      NestRight(PlainText(items[0]), [','], [' '], JoinPlain(items[1..]), r, []);
      assert ", " == [','] + [' '];
      NestRight(PlainText(items[0]), [','], [' '], [], [], []);
    }
  }

  lemma {:induction false} PrettyWritten(v: Value, unit: Bytes, base: Bytes, nl: Bytes, r: Bytes)
    ensures Pretty(v, unit, base, nl) + r == Write(Tree(v, unit, base, nl), r)
    decreases v, 2, 0
  {
    match v
    case Arr(items) =>
      var close := [']'] + r;
      if items == [] {
        assert Pretty(v, unit, base, nl) + r == ['['] + ([] + ([']'] + r));
      } else if AllPlain(items) {
        PlainItemsWritten(items, close);
        NestRight(['['], JoinPlain(items), [']'], r, [], []);
        assert [] + WriteItems(PlainItems(items, []), close) == WriteItems(PlainItems(items, []), close);
      } else {
        ItemsWritten(items, unit, base, nl, close);
        var join := JoinItems(items, unit, base + unit, nl);
        NestRight(['['], nl, join, nl, base, [']']);
        Nest4(nl, join, nl, base, [']'], r);
        assert [] + WriteItems(LineItems(items, unit, base, nl), close) == WriteItems(LineItems(items, unit, base, nl), close);
      }
    case Obj(members) =>
      PrettyObjectWritten(v, unit, base, nl, r);
    case _ => PlainIsNode(v, r);
  }

  /** Appending inside a nest of concatenations. */
  lemma Nest4(a: Bytes, b: Bytes, c: Bytes, d: Bytes, e: Bytes, r: Bytes)
    ensures a + (b + (c + (d + e))) + r == a + (b + (c + (d + (e + r))))
    ensures forall x: Bytes :: x + (a + (b + (c + (d + e)))) + r == x + (a + (b + (c + (d + e))) + r)
  {
  }

  lemma {:induction false} PrettyObjectWritten(v: Value, unit: Bytes, base: Bytes, nl: Bytes, r: Bytes)
    requires v.Obj?
    ensures Pretty(v, unit, base, nl) + r == Write(Tree(v, unit, base, nl), r)
    decreases v, 1, 0
  {
    var close := ['}'] + r;
    KeyOrder.SortedKeys(true, v.members.Keys);
    var keys := Keys(v.members);
    var written := WriteMembers(LineMembers(v, keys, unit, base, nl), close);
    assert [] + written == written;
    if v.members == map[] {
      assert keys == [];
      assert Pretty(v, unit, base, nl) + r == ['{'] + (['}'] + r);
    } else {
      var k :| k in v.members;
      assert k in keys;
      MembersWritten(v, keys, unit, base, nl, close);
      var join := JoinMembers(v, keys, unit, base + unit, nl);
      NestRight(['{'], nl, join, nl, base, ['}']);
      Nest4(nl, join, nl, base, ['}'], r);
    }
  }

  /** One line of a container: its lead, its content, and what follows. */
  lemma LineNests(nl: Bytes, inner: Bytes, text: Bytes, tail: Bytes)
    ensures nl + ((inner + text) + tail) == (nl + inner) + (text + tail)
  {
  }

  lemma {:induction false} ItemsWritten(items: seq<Value>, unit: Bytes, base: Bytes, nl: Bytes, r: Bytes)
    requires items != []
    ensures nl + (JoinItems(items, unit, base + unit, nl) + (nl + (base + r)))
            == WriteItems(LineItems(items, unit, base, nl), r)
    decreases items, 1, |items|
  {
    var inner := base + unit;
    var lines := LineItems(items, unit, base, nl);
    var rest := items[1..];
    assert lines[1..] == LineItems(rest, unit, base, nl);
    var text := Pretty(items[0], unit, inner, nl);
    if |items| == 1 {
      assert (nl + base) + r == nl + (base + r);
      PrettyWritten(items[0], unit, inner, nl, (nl + base) + r);
      LineNests(nl, inner, text, nl + (base + r));
    } else {
      var join := JoinItems(rest, unit, inner, nl);
      var more := WriteItems(LineItems(rest, unit, base, nl), r);
      ItemsWritten(rest, unit, base, nl, r);
      assert [] + ([','] + more) == [','] + more;
      PrettyWritten(items[0], unit, inner, nl, [','] + more);
      JoinNests(inner + text, nl, join, nl + (base + r));
      LineNests(nl, inner, text, [','] + more);
    }
  }

  lemma JoinNests(first: Bytes, nl: Bytes, join: Bytes, tail: Bytes)
    ensures (first + [','] + nl + join) + tail == first + ([','] + (nl + (join + tail)))
  {
  }

  lemma MemberNests(nl: Bytes, inner: Bytes, name: Bytes, text: Bytes, tail: Bytes)
    ensures nl + ((inner + (['"'] + name + ['"']) + ": " + text) + tail)
            == (nl + inner) + (['"'] + (name + (['"'] + ([] + ([':'] + (" " + (text + tail)))))))
  {
    assert ": " == [':'] + " ";
  }

  lemma {:induction false} MembersWritten(v: Value, keys: seq<Bytes>, unit: Bytes, base: Bytes, nl: Bytes, r: Bytes)
    requires v.Obj? && keys != [] && forall k :: k in keys ==> k in v.members
    ensures nl + (JoinMembers(v, keys, unit, base + unit, nl) + (nl + (base + r)))
            == WriteMembers(LineMembers(v, keys, unit, base, nl), r)
    decreases v, 0, |keys|
  {
    var inner := base + unit;
    var lines := LineMembers(v, keys, unit, base, nl);
    var rest := keys[1..];
    assert lines[1..] == LineMembers(v, rest, unit, base, nl);
    var value := v.members[keys[0]];
    var text := Pretty(value, unit, inner, nl);
    var name := Encode(keys[0]);
    if |keys| == 1 {
      assert (nl + base) + r == nl + (base + r);
      PrettyWritten(value, unit, inner, nl, (nl + base) + r);
      MemberNests(nl, inner, name, text, nl + (base + r));
    } else {
      var join := JoinMembers(v, rest, unit, inner, nl);
      var more := WriteMembers(LineMembers(v, rest, unit, base, nl), r);
      MembersWritten(v, rest, unit, base, nl, r);
      assert [] + ([','] + more) == [','] + more;
      PrettyWritten(value, unit, inner, nl, [','] + more);
      JoinNests(inner + (['"'] + name + ['"']) + ": " + text, nl, join, nl + (base + r));
      MemberNests(nl, inner, name, text, [','] + more);
    }
  }
}
