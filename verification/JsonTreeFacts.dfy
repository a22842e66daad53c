/** Reading a written tree gives the tree back, and everything read was written from a tree. */
module JsonTreeFacts {
  import opened Text
  import opened Json
  import opened JsonTree

  // ----- Gaps, strings, scalars -----

  /** Text that does not start with whitespace. */
  predicate NoGap(r: Bytes) { r == [] || !IsWs(r[0]) }

  /** Text before which a scalar may end. */
  predicate Delimited(r: Bytes) { r == [] || IsDelimiter(r[0]) }

  lemma {:induction false} GapIsWs(s: Bytes)
    ensures AllWs(s[..Gap(s)]) && NoGap(s[Gap(s)..])
  {
    if s != [] && IsWs(s[0]) {
      GapIsWs(s[1..]);
      assert s[..Gap(s)] == [s[0]] + s[1..][..Gap(s[1..])];
      assert s[Gap(s)..] == s[1..][Gap(s[1..])..];
    }
  }

  lemma {:induction false} GapOf(g: Bytes, t: Bytes)
    requires AllWs(g) && NoGap(t)
    ensures Gap(g + t) == |g| && (g + t)[..|g|] == g && (g + t)[|g|..] == t
  {
    if g == [] {
      assert g + t == t;
    } else {
      assert (g + t)[1..] == g[1..] + t;
      GapOf(g[1..], t);
    }
  }

  lemma {:induction false} ScalarEnds(text: Bytes, r: Bytes)
    requires ScalarChars(text) && Delimited(r)
    ensures ScalarLength(text + r) == |text|
  {
    if text == [] {
      assert text + r == r;
    } else {
      assert (text + r)[1..] == text[1..] + r;
      ScalarEnds(text[1..], r);
    }
  }

  /** Bytes that neither end a string nor escape anything are passed over. */
  lemma {:induction false} PassOver(plain: Bytes, s: Bytes)
    requires forall i :: 0 <= i < |plain| ==> plain[i] != '"' && plain[i] != '\\'
    ensures StringEnd(plain + s) == (if StringEnd(s).None? then None else Some(|plain| + StringEnd(s).value))
  {
    if plain == [] {
      assert plain + s == s;
    } else {
      assert (plain + s)[1..] == plain[1..] + s;
      PassOver(plain[1..], s);
    }
  }

  /** Where a string ends, `n` bytes further on. */
  function Later(n: nat, end: Option<nat>): Option<nat> { if end.None? then None else Some(n + end.value) }

  /** A backslash and the byte behind it are passed over together. */
  lemma PairPassed(pair: Bytes, s: Bytes)
    requires |pair| == 2 && pair[0] == '\\'
    ensures StringEnd(pair + s) == Later(2, StringEnd(s))
  {
    assert (pair + s)[2..] == s;
  }

  lemma {:induction false} HexPassed(raw: Bytes, at: nat, s: Bytes)
    requires at + 4 <= |raw| && Hex4(raw[at..]).Some?
    ensures StringEnd(raw[at..at + 4] + s) == Later(4, StringEnd(s))
  {
    var t := raw[at..];
    assert raw[at] == t[0] && raw[at + 1] == t[1] && raw[at + 2] == t[2] && raw[at + 3] == t[3];
    PassOver(raw[at..at + 4], s);
  }

  /** An escape is passed over whole. */
  lemma EscapePassed(raw: Bytes, s: Bytes)
    requires raw != [] && raw[0] == '\\' && ReadEscape(raw).Escape?
    ensures StringEnd(raw + s) == Later(ReadEscape(raw).size, StringEnd(raw[ReadEscape(raw).size..] + s))
  {
    var size := ReadEscape(raw).size;
    var rest := raw[size..] + s;
    if size == 2 {
      assert raw + s == raw[..2] + rest;
      PairPassed(raw[..2], rest);
    } else if size == 6 {
      assert raw + s == raw[..2] + (raw[2..6] + rest);
      PairPassed(raw[..2], raw[2..6] + rest);
      HexPassed(raw, 2, rest);
    } else {
      SurrogatesPassed(raw, s, rest);
    }
  }

  lemma SurrogatesPassed(raw: Bytes, s: Bytes, rest: Bytes)
    requires |raw| >= 12 && raw[0] == '\\' && raw[6] == '\\' && Hex4(raw[2..]).Some? && Hex4(raw[8..]).Some?
    requires rest == raw[12..] + s
    ensures StringEnd(raw + s) == Later(12, StringEnd(rest))
  {
    var low := raw[8..12] + rest;
    var second := raw[6..8] + low;
    assert raw + s == raw[..2] + (raw[2..6] + second);
    PairPassed(raw[..2], raw[2..6] + second);
    HexPassed(raw, 2, second);
    PairPassed(raw[6..8], low);
    HexPassed(raw, 8, rest);
  }

  /** A string's text ends at the quote that follows it. */
  lemma {:induction false} StringEnds(raw: Bytes, r: Bytes)
    requires Decode(raw).Some?
    ensures StringEnd(raw + (['"'] + r)) == Some(|raw|)
    decreases |raw|
  {
    var s := ['"'] + r;
    if raw == [] {
      assert raw + s == s;
    } else if raw[0] == '\\' {
      var size := ReadEscape(raw).size;
      EscapePassed(raw, s);
      StringEnds(raw[size..], r);
    } else {
      assert (raw + s)[1..] == raw[1..] + s;
      StringEnds(raw[1..], r);
    }
  }

  // ----- Reading what was written -----

  /** A value's text starts with a character of its own. */
  lemma NodeStart(n: Node, r: Bytes)
    requires WellFormed(n)
    ensures Write(n, r) != [] && NoGap(Write(n, r)) && Write(n, r)[0] !in [',', ']', '}', ':']
  {
    if n.Scalar? {
      ScalarText(n.text);
    }
  }

  /** What follows a value inside a container ends a scalar. */
  lemma AfterIsDelimited(after: Bytes, r: Bytes)
    requires AllWs(after) && Delimited(r)
    ensures Delimited(after + r)
  {
    if after == [] {
      assert after + r == r;
    }
  }

  lemma MoreItemsStart(items: seq<Item>, r: Bytes)
    ensures var t := WriteMoreItems(items, [']'] + r); t != [] && Delimited(t) && NoGap(t)
  {
  }

  lemma MoreMembersStart(members: seq<Member>, r: Bytes)
    ensures var t := WriteMoreMembers(members, ['}'] + r); t != [] && Delimited(t) && NoGap(t)
  {
  }

  lemma ReadQuoted(raw: Bytes, r: Bytes)
    requires Decode(raw).Some?
    ensures ReadNode(Write(Quoted(raw), r)) == Ok(Quoted(raw), r)
  {
    var s := Write(Quoted(raw), r);
    assert s[1..] == raw + (['"'] + r);
    StringEnds(raw, r);
    assert s[1..][..|raw|] == raw;
    assert s[1..][|raw| + 1..] == r;
  }

  lemma ScalarFrom(s: Bytes, n: nat)
    requires s != [] && s[0] !in ['"', '[', '{']
    requires ScalarLength(s) == n > 0 && IsScalar(s[..n])
    ensures ReadNode(s) == Ok(Scalar(s[..n]), s[n..])
  {
  }

  lemma ReadScalar(text: Bytes, r: Bytes)
    requires IsScalar(text) && Delimited(r)
    ensures ReadNode(Write(Scalar(text), r)) == Ok(Scalar(text), r)
  {
    ScalarText(text);
    ScalarEnds(text, r);
    assert (text + r)[..|text|] == text && (text + r)[|text|..] == r;
    ScalarFrom(text + r, |text|);
  }

  lemma ReadNameOf(lead: Bytes, name: Bytes, u: Bytes)
    requires AllWs(lead) && Decode(name).Some?
    ensures ReadName(lead + (['"'] + (name + (['"'] + u)))) == Ok((lead, name), u)
  {
    var t := ['"'] + (name + (['"'] + u));
    GapOf(lead, t);
    assert t[1..] == name + (['"'] + u);
    StringEnds(name, u);
    assert t[1..][..|name|] == name;
    assert t[1..][|name| + 1..] == u;
  }

  lemma ReadColonOf(colon: Bytes, gap: Bytes, value: Bytes)
    requires AllWs(colon) && AllWs(gap) && NoGap(value)
    ensures ReadColon(colon + ([':'] + (gap + value))) == Ok((colon, gap), value)
  {
    var u := colon + ([':'] + (gap + value));
    GapOf(colon, [':'] + (gap + value));
    assert u[|colon| + 1..] == gap + value;
    GapOf(gap, value);
  }

  /** The name, colon and gaps of a member read back, up to its value. */
  lemma ReadKeyOf(m: Member, value: Bytes)
    requires AllWs(m.lead) && AllWs(m.colon) && AllWs(m.gap) && Decode(m.name).Some? && NoGap(value)
    ensures ReadKey(KeyText(m, value)) == Ok(Key(m.lead, m.name, m.colon, m.gap), value)
  {
    ReadNameOf(m.lead, m.name, m.colon + ([':'] + (m.gap + value)));
    ReadColonOf(m.colon, m.gap, value);
  }

  // One step of reading, with everything read so far named.

  lemma ArrayFrom(s: Bytes, t: Bytes, items: seq<Item>, r: Bytes)
    requires s != [] && s[0] == '[' && s[1..] == t
    requires Gap(t) < |t| && t[Gap(t)] != ']' && ReadItems(t) == Ok(items, r)
    ensures ReadNode(s) == Ok(Array([], items), r)
  {
  }

  lemma ObjectFrom(s: Bytes, t: Bytes, members: seq<Member>, r: Bytes)
    requires s != [] && s[0] == '{' && s[1..] == t
    requires Gap(t) < |t| && t[Gap(t)] != '}' && ReadMembers(t) == Ok(members, r)
    ensures ReadNode(s) == Ok(Object([], members), r)
  {
  }

  lemma EmptyFrom(open: Byte, close: Byte, pad: Bytes, r: Bytes)
    requires AllWs(pad) && ((open == '[' && close == ']') || (open == '{' && close == '}'))
    ensures ReadNode([open] + (pad + ([close] + r)))
            == (if open == '[' then Ok(Array(pad, []), r) else Ok(Object(pad, []), r))
  {
    GapOf(pad, [close] + r);
    assert ([open] + (pad + ([close] + r)))[1..] == pad + ([close] + r);
    assert ([close] + r)[1..] == r;
    assert (pad + ([close] + r))[|pad| + 1..] == r;
  }

  lemma ItemsFrom(s: Bytes, lead: Bytes, value: Bytes, node: Node, w: Bytes, after: Bytes, u: Bytes)
    requires Gap(s) == |lead| && s[..|lead|] == lead && s[|lead|..] == value
    requires ReadNode(value) == Ok(node, w)
    requires Gap(w) == |after| && w[..|after|] == after && w[|after|..] == u && u != []
    ensures u[0] == ']' ==> ReadItems(s) == Ok([Item(lead, node, after)], u[1..])
    ensures u[0] == ',' && ReadItems(u[1..]).Ok? ==>
              ReadItems(s) == Ok([Item(lead, node, after)] + ReadItems(u[1..]).value, ReadItems(u[1..]).rest)
  {
  }

  lemma MembersFrom(s: Bytes, m: Member, value: Bytes, w: Bytes, u: Bytes)
    requires ReadKey(s) == Ok(Key(m.lead, m.name, m.colon, m.gap), value)
    requires ReadNode(value) == Ok(m.node, w)
    requires Gap(w) == |m.after| && w[..|m.after|] == m.after && w[|m.after|..] == u && u != []
    ensures u[0] == '}' ==> ReadMembers(s) == Ok([m], u[1..])
    ensures u[0] == ',' && ReadMembers(u[1..]).Ok? ==>
              ReadMembers(s) == Ok([m] + ReadMembers(u[1..]).value, ReadMembers(u[1..]).rest)
  {
  }

  lemma {:induction false} ReadWritten(n: Node, r: Bytes)
    requires WellFormed(n) && Delimited(r)
    ensures ReadNode(Write(n, r)) == Ok(n, r)
    decreases n
  {
    match n
    case Scalar(text) => ReadScalar(text, r);
    case Quoted(raw) => ReadQuoted(raw, r);
    case Array(pad, items) =>
      if items == [] { EmptyFrom('[', ']', pad, r); } else { ReadWrittenArray(items, r); }
    case Object(pad, members) =>
      if members == [] { EmptyFrom('{', '}', pad, r); } else { ReadWrittenObject(members, r); }
  }

  lemma {:induction false} ReadWrittenArray(items: seq<Item>, r: Bytes)
    requires items != [] && ItemsOk(items)
    ensures ReadNode(Write(Array([], items), r)) == Ok(Array([], items), r)
    decreases items, 1
  {
    var t := WriteItems(items, [']'] + r);
    assert [] + t == t;
    var body := Write(items[0].node, items[0].after + WriteMoreItems(items[1..], [']'] + r));
    NodeStart(items[0].node, items[0].after + WriteMoreItems(items[1..], [']'] + r));
    GapOf(items[0].lead, body);
    ReadWrittenItems(items, r);
    assert (['['] + t)[1..] == t;
    ArrayFrom(['['] + t, t, items, r);
  }

  lemma {:induction false} ReadWrittenItems(items: seq<Item>, r: Bytes)
    requires items != [] && ItemsOk(items)
    ensures ReadItems(WriteItems(items, [']'] + r)) == Ok(items, r)
    decreases items, 0
  {
    var Item(lead, node, after) := items[0];
    var rest := items[1..];
    assert items == [items[0]] + rest && (rest == [] ==> items == [items[0]]);
    var more := WriteMoreItems(rest, [']'] + r);
    MoreItemsStart(rest, r);
    AfterIsDelimited(after, more);
    NodeStart(node, after + more);
    var value := Write(node, after + more);
    GapOf(lead, value);
    ReadWritten(node, after + more);
    GapOf(after, more);
    if rest != [] {
      assert more[1..] == WriteItems(rest, [']'] + r);
      ReadWrittenItems(rest, r);
    } else {
      assert more[1..] == r;
    }
    ItemsFrom(lead + value, lead, value, node, after + more, after, more);
  }

  lemma {:induction false} ReadWrittenObject(members: seq<Member>, r: Bytes)
    requires members != [] && MembersOk(members)
    ensures ReadNode(Write(Object([], members), r)) == Ok(Object([], members), r)
    decreases members, 1
  {
    MembersStart(members, ['}'] + r);
    ReadWrittenMembers(members, r);
    WriteObject(members, r);
    ObjectFrom(Write(Object([], members), r), WriteMembers(members, ['}'] + r), members, r);
  }

  lemma WriteObject(members: seq<Member>, r: Bytes)
    ensures var s := Write(Object([], members), r);
            s != [] && s[0] == '{' && s[1..] == WriteMembers(members, ['}'] + r)
  {
  }

  /** After its gap, a list of members starts with a name. */
  lemma MembersStart(members: seq<Member>, r: Bytes)
    requires members != [] && MembersOk(members)
    ensures var t := WriteMembers(members, r); Gap(t) < |t| && t[Gap(t)] == '"'
  {
    var t := WriteMembers(members, r);
    GapOf(members[0].lead, t[|members[0].lead|..]);
    assert t == members[0].lead + t[|members[0].lead|..];
  }

  lemma {:induction false} ReadWrittenMembers(members: seq<Member>, r: Bytes)
    requires members != [] && MembersOk(members)
    ensures ReadMembers(WriteMembers(members, ['}'] + r)) == Ok(members, r)
    decreases members, 0
  {
    var m := members[0];
    var rest := members[1..];
    assert members == [m] + rest && (rest == [] ==> members == [m]);
    var more := WriteMoreMembers(rest, ['}'] + r);
    MoreMembersStart(rest, r);
    AfterIsDelimited(m.after, more);
    NodeStart(m.node, m.after + more);
    ReadKeyOf(m, Write(m.node, m.after + more));
    ReadWritten(m.node, m.after + more);
    GapOf(m.after, more);
    if rest != [] {
      assert more[1..] == WriteMembers(rest, ['}'] + r);
      ReadWrittenMembers(rest, r);
    } else {
      assert more[1..] == r;
    }
    MembersFrom(WriteMembers(members, ['}'] + r), m, Write(m.node, m.after + more), m.after + more, more);
  }

  // ----- Writing what was read -----

  lemma CutAt(s: Bytes, n: nat)
    requires n <= |s|
    ensures s[..n] + s[n..] == s
  {
  }

  lemma CutFirst(s: Bytes)
    requires s != []
    ensures [s[0]] + s[1..] == s
  {
  }

  /** The quote that ends a string is there. */
  lemma {:induction false} EndIsQuote(s: Bytes)
    requires StringEnd(s).Some?
    ensures s[StringEnd(s).value] == '"'
    ensures s == s[..StringEnd(s).value] + (['"'] + s[StringEnd(s).value + 1..])
    decreases |s|
  {
    var n := StringEnd(s).value;
    if s[0] != '"' {
      var size := if s[0] == '\\' then 2 else 1;
      EndIsQuote(s[size..]);
    }
  }

  lemma {:induction false} WriteRead(s: Bytes)
    requires ReadNode(s).Ok?
    ensures WellFormed(ReadNode(s).value) && Write(ReadNode(s).value, ReadNode(s).rest) == s
    decreases |s|, 0
  {
    CutFirst(s);
    if s[0] == '"' {
      EndIsQuote(s[1..]);
    } else if s[0] == '[' {
      WriteReadArray(s[1..]);
    } else if s[0] == '{' {
      WriteReadObject(s[1..]);
    } else {
      CutAt(s, ScalarLength(s));
    }
  }

  /** An array after its bracket: nothing but a gap, or items. */
  lemma {:induction false} WriteReadArray(t: Bytes)
    requires ReadNode(['['] + t).Ok?
    ensures var p := ReadNode(['['] + t); WellFormed(p.value) && Write(p.value, p.rest) == ['['] + t
    decreases |t|, 2
  {
    assert (['['] + t)[1..] == t;
    var g := Gap(t);
    GapIsWs(t);
    CutAt(t, g);
    if g < |t| && t[g] == ']' {
      assert t[g..] == [']'] + t[g + 1..];
    } else {
      WriteReadItems(t);
      var p := ReadItems(t);
      assert [] + WriteItems(p.value, [']'] + p.rest) == t;
    }
  }

  lemma {:induction false} WriteReadObject(t: Bytes)
    requires ReadNode(['{'] + t).Ok?
    ensures var p := ReadNode(['{'] + t); WellFormed(p.value) && Write(p.value, p.rest) == ['{'] + t
    decreases |t|, 2
  {
    assert (['{'] + t)[1..] == t;
    var g := Gap(t);
    GapIsWs(t);
    CutAt(t, g);
    if g < |t| && t[g] == '}' {
      assert t[g..] == ['}'] + t[g + 1..];
    } else {
      WriteReadMembers(t);
      var p := ReadMembers(t);
      assert [] + WriteMembers(p.value, ['}'] + p.rest) == t;
    }
  }

  lemma {:induction false} WriteReadItems(s: Bytes)
    requires ReadItems(s).Ok?
    ensures var p := ReadItems(s);
            p.value != [] && ItemsOk(p.value) && WriteItems(p.value, [']'] + p.rest) == s
    decreases |s|, 1
  {
    var g := Gap(s);
    GapIsWs(s);
    CutAt(s, g);
    WriteRead(s[g..]);
    var w := ReadNode(s[g..]).rest;
    GapIsWs(w);
    CutAt(w, Gap(w));
    var u := w[Gap(w)..];
    CutFirst(u);
    var items := ReadItems(s).value;
    if u[0] == ',' {
      WriteReadItems(u[1..]);
      assert items[1..] == ReadItems(u[1..]).value;
    } else {
      assert items[1..] == [];
    }
  }

  lemma WriteReadName(s: Bytes)
    requires ReadName(s).Ok?
    ensures var Ok((lead, name), u) := ReadName(s);
            AllWs(lead) && Decode(name).Some? && s == lead + (['"'] + (name + (['"'] + u)))
  {
    GapIsWs(s);
    CutAt(s, Gap(s));
    var t := s[Gap(s)..];
    CutFirst(t);
    EndIsQuote(t[1..]);
  }

  lemma WriteReadColon(u: Bytes)
    requires ReadColon(u).Ok?
    ensures var Ok((colon, gap), value) := ReadColon(u);
            AllWs(colon) && AllWs(gap) && u == colon + ([':'] + (gap + value))
  {
    var h := Gap(u);
    GapIsWs(u);
    CutAt(u, h);
    var v := u[h + 1..];
    assert u[h..] == [':'] + v;
    GapIsWs(v);
    CutAt(v, Gap(v));
  }

  /** A member's name, colon and gaps, written again. */
  lemma WriteReadKey(s: Bytes)
    requires ReadKey(s).Ok?
    ensures var Ok(k, value) := ReadKey(s);
            && AllWs(k.lead) && AllWs(k.colon) && AllWs(k.gap) && Decode(k.name).Some?
            && s == k.lead + (['"'] + (k.name + (['"'] + (k.colon + ([':'] + (k.gap + value))))))
  {
    WriteReadName(s);
    WriteReadColon(ReadName(s).rest);
  }

  lemma {:induction false} WriteReadMembers(s: Bytes)
    requires ReadMembers(s).Ok?
    ensures var p := ReadMembers(s);
            p.value != [] && MembersOk(p.value) && WriteMembers(p.value, ['}'] + p.rest) == s
    decreases |s|, 1
  {
    WriteReadKey(s);
    var value := ReadKey(s).rest;
    WriteRead(value);
    var w := ReadNode(value).rest;
    GapIsWs(w);
    CutAt(w, Gap(w));
    var u := w[Gap(w)..];
    CutFirst(u);
    var members := ReadMembers(s).value;
    if u[0] == ',' {
      WriteReadMembers(u[1..]);
      assert members[1..] == ReadMembers(u[1..]).value;
    } else {
      assert members[1..] == [];
    }
  }

  // ----- Documents -----

  /** A document is read exactly when it is a tree between two gaps, and then as that tree. */
  lemma DocumentIsTree(lead: Bytes, n: Node, trail: Bytes)
    requires AllWs(lead) && WellFormed(n) && AllWs(trail)
    ensures ReadDocument(lead + Write(n, trail)) == Some(n)
  {
    NodeStart(n, trail);
    GapOf(lead, Write(n, trail));
    ReadWritten(n, trail);
    GapOf(trail, []);
    assert trail + [] == trail;
  }

  lemma TreeOfDocument(s: Bytes)
    requires ReadDocument(s).Some?
    ensures var n := ReadDocument(s).value;
            var trail := ReadNode(s[Gap(s)..]).rest;
            WellFormed(n) && AllWs(trail) && AllWs(s[..Gap(s)]) && s == s[..Gap(s)] + Write(n, trail)
  {
    GapIsWs(s);
    CutAt(s, Gap(s));
    WriteRead(s[Gap(s)..]);
    var trail := ReadNode(s[Gap(s)..]).rest;
    GapIsWs(trail);
    assert trail[..|trail|] == trail;
  }

  /** What a document reads as. */
  function Meaning(s: Bytes): Option<Value> {
    var n := ReadDocument(s);
    if n.None? then None else TreeOfDocument(s); Some(Denote(n.value))
  }
}
