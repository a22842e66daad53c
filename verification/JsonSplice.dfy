/** Putting a new node in the place of one member's value, on the tree and in its text. */
module JsonSplice {
  import opened Text
  import opened Json
  import opened JsonTree
  import opened JsonTreeFacts
  import opened JsoncBlank
  import opened JsoncFixed
  import opened JsoncScan

  // ----- Text -----

  lemma KeyAppends(m: Member, a: Bytes, b: Bytes)
    ensures KeyText(m, a + b) == KeyText(m, a) + b
  {
  }

  lemma {:induction false} WriteAppends(n: Node, a: Bytes, b: Bytes)
    ensures Write(n, a + b) == Write(n, a) + b
    decreases n, 1
  {
    match n
    case Scalar(text) =>
    case Quoted(raw) =>
    case Array(pad, items) =>
      assert [']'] + (a + b) == ([']'] + a) + b;
      ItemsAppend(items, [']'] + a, b);
    case Object(pad, members) =>
      assert ['}'] + (a + b) == (['}'] + a) + b;
      MembersAppend(members, ['}'] + a, b);
  }

  lemma {:induction false} ItemsAppend(items: seq<Item>, a: Bytes, b: Bytes)
    ensures WriteItems(items, a + b) == WriteItems(items, a) + b
    decreases items, 0
  {
    if items != [] {
      var more := WriteMoreItems(items[1..], a);
      ItemsAppend(items[1..], a, b);
      assert WriteMoreItems(items[1..], a + b) == more + b;
      ConcatAssociative(items[0].after, more, b);
      WriteAppends(items[0].node, items[0].after + more, b);
      ConcatAssociative(items[0].lead, Write(items[0].node, items[0].after + more), b);
    }
  }

  lemma {:induction false} MembersAppend(members: seq<Member>, a: Bytes, b: Bytes)
    ensures WriteMembers(members, a + b) == WriteMembers(members, a) + b
    decreases members, 0
  {
    if members != [] {
      var m := members[0];
      var more := WriteMoreMembers(members[1..], a);
      MembersAppend(members[1..], a, b);
      assert WriteMoreMembers(members[1..], a + b) == more + b;
      ConcatAssociative(m.after, more, b);
      WriteAppends(m.node, m.after + more, b);
      KeyAppends(m, Write(m.node, m.after + more), b);
    }
  }

  /** The text of a list of members before the value of member `j`. */
  function UpTo(members: seq<Member>, j: nat): Bytes
    requires j < |members|
    decreases j
  {
    if j == 0 then KeyText(members[0], [])
    else KeyText(members[0], Write(members[0].node, members[0].after + ([','] + UpTo(members[1..], j - 1))))
  }

  /** Member `j` with another value. */
  function Replaced(members: seq<Member>, j: nat, n: Node): seq<Member>
    requires j < |members|
  {
    members[j := members[j].(node := n)]
  }

  /** Only that value's text changes. */
  lemma {:induction false} ReplacedText(members: seq<Member>, j: nat, n: Node, r: Bytes)
    requires j < |members|
    ensures WriteMembers(Replaced(members, j, n), r)
            == UpTo(members, j) + Write(n, members[j].after + WriteMoreMembers(members[j + 1..], r))
    decreases j
  {
    var m := members[0];
    var changed := Replaced(members, j, n);
    if j == 0 {
      assert changed[1..] == members[1..];
      var value := Write(n, m.after + WriteMoreMembers(members[1..], r));
      KeyAppends(m, [], value);
      assert [] + value == value;
    } else {
      var rest := members[1..];
      assert changed[1..] == Replaced(rest, j - 1, n);
      assert rest[j..] == members[j + 1..];
      ReplacedText(rest, j - 1, n, r);
      var up := [','] + UpTo(rest, j - 1);
      var value := Write(n, members[j].after + WriteMoreMembers(members[j + 1..], r));
      ConcatAssociative([','], UpTo(rest, j - 1), value);
      ConcatAssociative(m.after, up, value);
      WriteAppends(m.node, m.after + up, value);
      KeyAppends(m, Write(m.node, m.after + up), value);
    }
  }

  lemma SplitAtValue(members: seq<Member>, j: nat, r: Bytes)
    requires j < |members|
    ensures WriteMembers(members, r) == UpTo(members, j) + ValueText(members, j, r)
  {
    assert Replaced(members, j, members[j].node) == members;
    ReplacedText(members, j, members[j].node, r);
  }

  /** A value starts outside strings. */
  lemma {:induction false} UpToQuotes(members: seq<Member>, j: nat)
    requires j < |members| && MembersOk(members)
    ensures Quotes(UpTo(members, j), Code) == Code
    decreases j
  {
    var m := members[0];
    if j == 0 {
      KeyFixed(m, []);
    } else {
      var rest := members[1..];
      UpToQuotes(rest, j - 1);
      CommaFixed(UpTo(rest, j - 1));
      var up := [','] + UpTo(rest, j - 1);
      WsFixed(m.after, up);
      NodeFixed(m.node, m.after + up);
      KeyFixed(m, Write(m.node, m.after + up));
    }
  }

  // ----- Meaning -----

  /** The last member of a name gives the object's value for it, and a new value there is that name's new value. */
  lemma {:induction false} ReplacedMeans(members: seq<Member>, j: nat, n: Node, key: Bytes)
    requires MembersOk(members) && WellFormed(n) && LastNamed(members, key) == Some(j)
    ensures MembersOk(Replaced(members, j, n))
    ensures DenoteMembers(Replaced(members, j, n)) == DenoteMembers(members)[key := Denote(n)]
    ensures WellFormed(members[j].node) && key in DenoteMembers(members)
    ensures DenoteMembers(members)[key] == Denote(members[j].node)
    decreases members
  {
    var m, rest := members[0], members[1..];
    if j == 0 {
      AbsentMeans(rest, key);
      ReplacedFirst(members, n);
      FrontOnly(DenoteMembers(rest), key, Denote(m.node), Denote(n));
    } else {
      ReplacedMeans(rest, j - 1, n, key);
      ReplacedLater(members, j, n);
      FrontKept(DenoteMembers(rest), Decode(m.name).value, Denote(m.node), key, Denote(n));
    }
  }

  lemma ReplacedFirst(members: seq<Member>, n: Node)
    requires members != [] && MembersOk(members) && WellFormed(n)
    ensures MembersOk(Replaced(members, 0, n))
    ensures DenoteMembers(Replaced(members, 0, n))
            == map[Decode(members[0].name).value := Denote(n)] + DenoteMembers(members[1..])
  {
    assert Replaced(members, 0, n)[1..] == members[1..];
  }

  lemma ReplacedLater(members: seq<Member>, j: nat, n: Node)
    requires 0 < j < |members| && MembersOk(members) && MembersOk(Replaced(members[1..], j - 1, n))
    ensures MembersOk(Replaced(members, j, n))
    ensures DenoteMembers(Replaced(members, j, n))
            == map[Decode(members[0].name).value := Denote(members[0].node)] + DenoteMembers(Replaced(members[1..], j - 1, n))
  {
    var changed := Replaced(members, j, n);
    assert changed[1..] == Replaced(members[1..], j - 1, n) && changed[0] == members[0];
  }

  lemma FrontOnly(rest: map<Bytes, Value>, key: Bytes, before: Value, after: Value)
    requires key !in rest
    ensures map[key := after] + rest == (map[key := before] + rest)[key := after]
    ensures (map[key := before] + rest)[key] == before
  {
  }

  lemma FrontKept(rest: map<Bytes, Value>, name: Bytes, value: Value, key: Bytes, after: Value)
    requires key in rest
    ensures map[name := value] + rest[key := after] == (map[name := value] + rest)[key := after]
    ensures (map[name := value] + rest)[key] == rest[key]
  {
  }

  lemma {:induction false} AbsentMeans(members: seq<Member>, key: Bytes)
    requires MembersOk(members) && LastNamed(members, key).None?
    ensures key !in DenoteMembers(members)
    decreases members
  {
    if members != [] { AbsentMeans(members[1..], key); }
  }

  // ----- A value that cannot be read -----

  lemma BadNext(s: Bytes, m: Member, w: Bytes, u: Bytes)
    requires ReadKey(s).Ok? && ReadNode(ReadKey(s).rest) == Ok(m.node, w)
    requires w[Gap(w)..] == u && u != [] && u[0] == ',' && ReadMembers(u[1..]).Fail?
    ensures ReadMembers(s).Fail?
  {
  }

  /** A member, its comma, and the text after it. */
  function Preceded(m: Member, next: Bytes): Bytes { KeyText(m, Write(m.node, m.after + ([','] + next))) }

  /** A member whose successor cannot be read. */
  lemma BadTail(m: Member, next: Bytes)
    requires MembersOk([m]) && ReadMembers(next).Fail?
    ensures ReadMembers(Preceded(m, next)).Fail?
  {
    var tail := [','] + next;
    var w := m.after + tail;
    assert tail[1..] == next;
    NodeStart(m.node, w);
    ReadKeyOf(m, Write(m.node, w));
    AfterIsDelimited(m.after, tail);
    ReadWritten(m.node, w);
    GapOf(m.after, tail);
    BadNext(KeyText(m, Write(m.node, w)), m, w, tail);
  }

  /** The text before a value, with what follows it. */
  lemma UpToNext(members: seq<Member>, j: nat, r: Bytes)
    requires 0 < j < |members|
    ensures UpTo(members, j) + r == Preceded(members[0], UpTo(members[1..], j - 1) + r)
  {
    var m := members[0];
    var up := UpTo(members[1..], j - 1);
    assert ([','] + up) + r == [','] + (up + r);
    ConcatAssociative(m.after, [','] + up, r);
    WriteAppends(m.node, m.after + ([','] + up), r);
    KeyAppends(m, Write(m.node, m.after + ([','] + up)), r);
  }

  lemma BadHere(m: Member, bad: Bytes)
    requires MembersOk([m]) && NoGap(bad) && ReadNode(bad).Fail?
    ensures ReadMembers(KeyText(m, []) + bad).Fail?
  {
    KeyAppends(m, [], bad);
    assert [] + bad == bad;
    ReadKeyOf(m, bad);
  }

  lemma {:induction false} MemberOk(members: seq<Member>, j: nat)
    requires j < |members| && MembersOk(members)
    ensures MembersOk([members[j]])
  {
    assert [members[j]][1..] == [];
    if j > 0 { MemberOk(members[1..], j - 1); }
  }

  /** What passes from a text to the same text with a member before it. */
  ghost predicate Spreads(bad: Bytes -> bool) {
    forall m: Member, t: Bytes :: MembersOk([m]) && bad(t) ==> bad(Preceded(m, t))
  }

  lemma {:induction false} SpreadsUp(members: seq<Member>, j: nat, r: Bytes, bad: Bytes -> bool)
    requires j < |members| && MembersOk(members) && Spreads(bad) && bad(KeyText(members[j], []) + r)
    ensures bad(UpTo(members, j) + r)
    decreases j
  {
    if j > 0 {
      assert members[1..][j - 1] == members[j];
      SpreadsUp(members[1..], j - 1, r, bad);
      MemberOk(members, 0);
      UpToNext(members, j, r);
    }
  }

  lemma BadValue(members: seq<Member>, j: nat, bad: Bytes)
    requires j < |members| && MembersOk(members) && NoGap(bad) && ReadNode(bad).Fail?
    ensures ReadMembers(UpTo(members, j) + bad).Fail?
  {
    var unreadable := (t: Bytes) => ReadMembers(t).Fail?;
    assert Spreads(unreadable) by {
      forall m: Member, t: Bytes | MembersOk([m]) && unreadable(t) ensures unreadable(Preceded(m, t)) { BadTail(m, t); }
    }
    MemberOk(members, j);
    BadHere(members[j], bad);
    SpreadsUp(members, j, bad, unreadable);
  }

  lemma UpToStart(members: seq<Member>, j: nat, r: Bytes)
    requires j < |members| && MembersOk(members)
    ensures var t := UpTo(members, j) + r; Gap(t) < |t| && t[Gap(t)] == '"'
  {
    var t := UpTo(members, j) + r;
    var lead := members[0].lead;
    assert t == lead + t[|lead|..];
    GapOf(lead, t[|lead|..]);
  }

  lemma BadMember(lead: Bytes, members: seq<Member>, j: nat, bad: Bytes)
    requires AllWs(lead) && j < |members| && MembersOk(members) && NoGap(bad) && ReadNode(bad).Fail?
    ensures ReadDocument(lead + (['{'] + (UpTo(members, j) + bad))).None?
  {
    var t := UpTo(members, j) + bad;
    BadValue(members, j, bad);
    UpToStart(members, j, bad);
    assert (['{'] + t)[1..] == t;
    GapOf(lead, ['{'] + t);
  }

  /** An object whose first gap ends in a comma. */
  lemma CommaFirst(gap: Bytes, r: Bytes)
    requires AllWs(gap)
    ensures ReadNode(['{'] + (gap + ([','] + r))).Fail?
  {
    var t := gap + ([','] + r);
    GapOf(gap, [','] + r);
    assert (['{'] + t)[1..] == t;
  }
}
