/** Strict JSON text passes through the blanking of JSONC unchanged. */
module JsoncFixed {
  import opened Text
  import opened Json
  import opened JsonTree
  import opened JsonTreeFacts
  import opened JsoncBlank

  /** The quote mode after `s`. */
  function Quotes(s: Bytes, m: Mode): Mode {
    if s == [] then m else Quotes(s[1..], NextQuote(m, s[0]))
  }

  /** A byte that means nothing to either pass. */
  predicate Inert(c: Byte) { c != '"' && c != '/' && c != ',' }

  predicate AllInert(s: Bytes) { forall i :: 0 <= i < |s| ==> Inert(s[i]) }

  lemma OneInert(c: Byte, r: Bytes)
    requires Inert(c)
    ensures Uncomment([c] + r, Code) == [c] + Uncomment(r, Code)
    ensures Uncomma([c] + r, Code) == [c] + Uncomma(r, Code)
    ensures Quotes([c] + r, Code) == Quotes(r, Code)
  {
    assert ([c] + r)[1..] == r;
  }

  lemma {:induction false} InertFixed(p: Bytes, r: Bytes)
    requires AllInert(p)
    ensures Uncomment(p + r, Code) == p + Uncomment(r, Code)
    ensures Uncomma(p + r, Code) == p + Uncomma(r, Code)
    ensures Quotes(p + r, Code) == Quotes(r, Code)
  {
    if p == [] {
      assert p + r == r;
    } else {
      InertFixed(p[1..], r);
      OneInert(p[0], p[1..] + r);
      assert p + r == [p[0]] + (p[1..] + r);
    }
  }

  lemma WsFixed(p: Bytes, r: Bytes)
    requires AllWs(p)
    ensures Uncomment(p + r, Code) == p + Uncomment(r, Code)
    ensures Uncomma(p + r, Code) == p + Uncomma(r, Code)
    ensures Quotes(p + r, Code) == Quotes(r, Code)
  {
    InertFixed(p, r);
  }

  /** A comma stays unless a closing bracket comes next. */
  lemma CommaFixed(r: Bytes)
    ensures Uncomment([','] + r, Code) == [','] + Uncomment(r, Code)
    ensures !Closes(FirstSignificant(r)) ==> Uncomma([','] + r, Code) == [','] + Uncomma(r, Code)
    ensures Quotes([','] + r, Code) == Quotes(r, Code)
  {
    assert ([','] + r)[1..] == r;
  }

  /** The inside of a string, through its closing quote. */
  lemma {:induction false} InStringUncomment(s: Bytes)
    requires StringEnd(s).Some?
    ensures var n := StringEnd(s).value + 1; Uncomment(s, InString) == s[..n] + Uncomment(s[n..], Code)
    decreases |s|
  {
    var n := StringEnd(s).value + 1;
    if s[0] == '\\' {
      assert s[1..][1..] == s[2..];
      InStringUncomment(s[2..]);
      TwoFirst(s, n, Uncomment(s[n..], Code));
    } else if s[0] != '"' {
      InStringUncomment(s[1..]);
      OneFirst(s, n, Uncomment(s[n..], Code));
    }
  }

  lemma {:induction false} InStringUncomma(s: Bytes)
    requires StringEnd(s).Some?
    ensures var n := StringEnd(s).value + 1; Uncomma(s, InString) == s[..n] + Uncomma(s[n..], Code)
    decreases |s|
  {
    var n := StringEnd(s).value + 1;
    if s[0] == '\\' {
      assert s[1..][1..] == s[2..];
      InStringUncomma(s[2..]);
      TwoFirst(s, n, Uncomma(s[n..], Code));
    } else if s[0] != '"' {
      InStringUncomma(s[1..]);
      OneFirst(s, n, Uncomma(s[n..], Code));
    }
  }

  lemma {:induction false} InStringQuotes(s: Bytes)
    requires StringEnd(s).Some?
    ensures Quotes(s, InString) == Quotes(s[StringEnd(s).value + 1..], Code)
    decreases |s|
  {
    var n := StringEnd(s).value + 1;
    if s[0] == '\\' {
      assert s[1..][1..] == s[2..];
      InStringQuotes(s[2..]);
      TwoFirst(s, n, []);
    } else if s[0] != '"' {
      InStringQuotes(s[1..]);
      OneFirst(s, n, []);
    }
  }

  lemma OneFirst(s: Bytes, n: nat, t: Bytes)
    requires 1 <= n <= |s|
    ensures s[n..] == s[1..][n - 1..]
    ensures [s[0]] + (s[1..][..n - 1] + t) == s[..n] + t
  {
  }

  lemma TwoFirst(s: Bytes, n: nat, t: Bytes)
    requires 2 <= n <= |s|
    ensures s[n..] == s[2..][n - 2..]
    ensures [s[0]] + ([s[1]] + (s[2..][..n - 2] + t)) == s[..n] + t
  {
  }

  lemma StringFixed(raw: Bytes, r: Bytes)
    requires Decode(raw).Some?
    ensures var q := ['"'];
            && Uncomment(q + (raw + (q + r)), Code) == q + (raw + (q + Uncomment(r, Code)))
            && Uncomma(q + (raw + (q + r)), Code) == q + (raw + (q + Uncomma(r, Code)))
            && Quotes(q + (raw + (q + r)), Code) == Quotes(r, Code)
  {
    var inside := raw + ['"'];
    StringEnds(raw, r);
    ConcatAssociative(raw, ['"'], r);
    ConcatAssociative(raw, ['"'], Uncomment(r, Code));
    ConcatAssociative(raw, ['"'], Uncomma(r, Code));
    QuotedFixed(inside, r);
  }

  /** A string from its opening quote; `inside` is all of it behind that. */
  lemma QuotedFixed(inside: Bytes, r: Bytes)
    requires StringEnd(inside + r) == Some(|inside| - 1)
    ensures Uncomment(['"'] + (inside + r), Code) == ['"'] + (inside + Uncomment(r, Code))
    ensures Uncomma(['"'] + (inside + r), Code) == ['"'] + (inside + Uncomma(r, Code))
    ensures Quotes(['"'] + (inside + r), Code) == Quotes(r, Code)
  {
    var s := inside + r;
    InStringUncomment(s);
    InStringUncomma(s);
    InStringQuotes(s);
    assert s[..|inside|] == inside && s[|inside|..] == r;
    assert (['"'] + s)[1..] == s;
  }

  lemma KeyFixed(m: Member, value: Bytes)
    requires AllWs(m.lead) && AllWs(m.colon) && AllWs(m.gap) && Decode(m.name).Some?
    ensures Uncomment(KeyText(m, value), Code) == KeyText(m, Uncomment(value, Code))
    ensures Uncomma(KeyText(m, value), Code) == KeyText(m, Uncomma(value, Code))
    ensures Quotes(KeyText(m, value), Code) == Quotes(value, Code)
  {
    WsFixed(m.gap, value);
    OneInert(':', m.gap + value);
    WsFixed(m.colon, [':'] + (m.gap + value));
    StringFixed(m.name, m.colon + ([':'] + (m.gap + value)));
    WsFixed(m.lead, ['"'] + (m.name + (['"'] + (m.colon + ([':'] + (m.gap + value))))));
  }

  /** The first significant byte after a gap. */
  lemma {:induction false} GapPassed(g: Bytes, t: Bytes)
    requires AllWs(g)
    ensures FirstSignificant(g + t) == FirstSignificant(t)
  {
    if g == [] {
      assert g + t == t;
    } else {
      assert (g + t)[1..] == g[1..] + t;
      GapPassed(g[1..], t);
    }
  }

  lemma NodeOpens(lead: Bytes, n: Node, r: Bytes)
    requires AllWs(lead) && WellFormed(n)
    ensures !Closes(FirstSignificant(lead + Write(n, r)))
  {
    GapPassed(lead, Write(n, r));
    NodeStart(n, r);
    if n.Scalar? { ScalarText(n.text); }
  }

  lemma KeyOpens(m: Member, value: Bytes)
    requires AllWs(m.lead)
    ensures FirstSignificant(KeyText(m, value)) == Some('"')
  {
    GapPassed(m.lead, KeyText(m, value)[|m.lead|..]);
    assert KeyText(m, value) == m.lead + KeyText(m, value)[|m.lead|..];
  }

  lemma {:induction false} NodeFixed(n: Node, r: Bytes)
    requires WellFormed(n)
    ensures Uncomment(Write(n, r), Code) == Write(n, Uncomment(r, Code))
    ensures Uncomma(Write(n, r), Code) == Write(n, Uncomma(r, Code))
    ensures Quotes(Write(n, r), Code) == Quotes(r, Code)
    decreases n, 1
  {
    match n
    case Scalar(text) =>
      ScalarText(text);
      InertFixed(text, r);
    case Quoted(raw) => StringFixed(raw, r);
    case Array(pad, items) => ArrayFixed(pad, items, r);
    case Object(pad, members) => ObjectFixed(pad, members, r);
  }

  lemma {:induction false} ArrayFixed(pad: Bytes, items: seq<Item>, r: Bytes)
    requires AllWs(pad) && ItemsOk(items)
    ensures Uncomment(Write(Array(pad, items), r), Code) == Write(Array(pad, items), Uncomment(r, Code))
    ensures Uncomma(Write(Array(pad, items), r), Code) == Write(Array(pad, items), Uncomma(r, Code))
    ensures Quotes(Write(Array(pad, items), r), Code) == Quotes(r, Code)
    decreases items, 1
  {
    OneInert(']', r);
    ItemsFixed(items, [']'] + r);
    OpenFixed('[', pad, WriteItems(items, [']'] + r));
  }

  lemma {:induction false} ObjectFixed(pad: Bytes, members: seq<Member>, r: Bytes)
    requires AllWs(pad) && MembersOk(members)
    ensures Uncomment(Write(Object(pad, members), r), Code) == Write(Object(pad, members), Uncomment(r, Code))
    ensures Uncomma(Write(Object(pad, members), r), Code) == Write(Object(pad, members), Uncomma(r, Code))
    ensures Quotes(Write(Object(pad, members), r), Code) == Quotes(r, Code)
    decreases members, 1
  {
    OneInert('}', r);
    MembersFixed(members, ['}'] + r);
    OpenFixed('{', pad, WriteMembers(members, ['}'] + r));
  }

  lemma OpenFixed(open: Byte, pad: Bytes, r: Bytes)
    requires Inert(open) && AllWs(pad)
    ensures Uncomment([open] + (pad + r), Code) == [open] + (pad + Uncomment(r, Code))
    ensures Uncomma([open] + (pad + r), Code) == [open] + (pad + Uncomma(r, Code))
    ensures Quotes([open] + (pad + r), Code) == Quotes(r, Code)
  {
    WsFixed(pad, r);
    OneInert(open, pad + r);
  }

  lemma {:induction false} ItemsFixed(items: seq<Item>, r: Bytes)
    requires ItemsOk(items)
    ensures Uncomment(WriteItems(items, r), Code) == WriteItems(items, Uncomment(r, Code))
    ensures Uncomma(WriteItems(items, r), Code) == WriteItems(items, Uncomma(r, Code))
    ensures Quotes(WriteItems(items, r), Code) == Quotes(r, Code)
    decreases items, 0
  {
    if items != [] {
      var Item(lead, node, after) := items[0];
      var rest := items[1..];
      var more := WriteMoreItems(rest, r);
      ItemsFixed(rest, r);
      if rest != [] {
        NodeOpens(rest[0].lead, rest[0].node, rest[0].after + WriteMoreItems(rest[1..], r));
        CommaFixed(WriteItems(rest, r));
      }
      WsFixed(after, more);
      NodeFixed(node, after + more);
      WsFixed(lead, Write(node, after + more));
    }
  }

  lemma {:induction false} MembersFixed(members: seq<Member>, r: Bytes)
    requires MembersOk(members)
    ensures Uncomment(WriteMembers(members, r), Code) == WriteMembers(members, Uncomment(r, Code))
    ensures Uncomma(WriteMembers(members, r), Code) == WriteMembers(members, Uncomma(r, Code))
    ensures Quotes(WriteMembers(members, r), Code) == Quotes(r, Code)
    decreases members, 0
  {
    if members != [] {
      var m := members[0];
      var rest := members[1..];
      var more := WriteMoreMembers(rest, r);
      MembersFixed(rest, r);
      if rest != [] {
        KeyOpens(rest[0], Write(rest[0].node, rest[0].after + WriteMoreMembers(rest[1..], r)));
        CommaFixed(WriteMembers(rest, r));
      }
      WsFixed(m.after, more);
      NodeFixed(m.node, m.after + more);
      KeyFixed(m, Write(m.node, m.after + more));
    }
  }

  /** Text that is strict JSON already is left alone. */
  lemma StrictUnchanged(s: Bytes)
    requires ReadDocument(s).Some?
    ensures Blank(s) == s
  {
    TreeOfDocument(s);
    var n := ReadDocument(s).value;
    var lead := s[..Gap(s)];
    var trail := ReadNode(s[Gap(s)..]).rest;
    assert trail + [] == trail;
    WsFixed(trail, []);
    NodeFixed(n, trail);
    WsFixed(lead, Write(n, trail));
  }

  /** Blanking again changes nothing once the text is strict JSON. */
  lemma BlankIdempotent(s: Bytes)
    requires ReadDocument(Blank(s)).Some?
    ensures Blank(Blank(s)) == Blank(s)
  {
    StrictUnchanged(Blank(s));
  }

  /** In general it may: the first of two trailing commas goes only once the second is gone. */
  lemma BlankNotIdempotent()
    ensures Blank("[1,,]") == "[1, ]" && Blank("[1, ]") == "[1  ]"
  {
    var close := [']'];
    OneInert(']', []);
    OneInert(' ', close);
    assert ([','] + close)[1..] == close && ([','] + ([','] + close))[1..] == [','] + close;
    assert FirstSignificant(close) == Some(']') && FirstSignificant([','] + close) == Some(',');
    assert ([','] + ([' '] + close))[1..] == [' '] + close && ([' '] + close)[1..] == close;
    CommaFixed(close);
    CommaFixed([','] + close);
    CommaFixed([' '] + close);
    InertFixed("[1", [','] + ([','] + close));
    InertFixed("[1", [','] + ([' '] + close));
    assert "[1,,]" == "[1" + ([','] + ([','] + close)) && "[1, ]" == "[1" + ([','] + ([' '] + close));
    assert Uncomma([','] + close, Code) == [' '] + close;
    assert Uncomma([','] + ([' '] + close), Code) == [' '] + ([' '] + close);
    assert "[1  ]" == "[1" + ([' '] + ([' '] + close));
  }
}
