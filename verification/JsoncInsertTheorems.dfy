/**
 * `insert_server` is sound and complete: it writes exactly when the entry can be added, what it
 * writes reads as the document plus the one entry, and the text around the entry is kept.
 */
module JsoncInsertTheorems {
  import opened Text
  import opened Json
  import opened JsonTree
  import opened JsonTreeFacts
  import opened JsoncBlank
  import opened JsoncFixed
  import opened JsoncScan
  import opened JsoncPretty
  import opened JsonSplice
  import opened JsoncInsert
  import opened JsoncInsertSite

  // ----- One object -----

  /** Either kind of filled, after the splice: one more member in front, or a stray comma in the way. */
  lemma ObjectSpliced(text: Bytes, before: Bytes, pad: Bytes, inner: seq<Member>, rest: Bytes, key: Bytes, value: Value)
    returns (filled: Node, bad: Bytes)
    requires ObjectAt(text, before, pad, inner, rest) && Printable(value)
    ensures |before| < |text| == |Blank(text)|
    ensures var blank := Blank(NewText(text, |before|, key, value));
            if HasStrayComma(text, |before|) then
              blank == before + bad && NoGap(bad) && ReadNode(bad).Fail?
            else
              && blank == before + Write(filled, rest) && WellFormed(filled)
              && Denote(filled) == Obj(map[key := value] + DenoteMembers(inner))
  {
    if inner == [] {
      var m, fail := SpliceInto(text, before, pad, rest, key, value);
      assert [m][1..] == [];
      filled, bad := Object([], [m]), fail;
    } else {
      var m := SpliceBefore(text, before, inner, rest, key, value);
      assert ([m] + inner)[1..] == inner;
      filled, bad := Object([], [m] + inner), [];
    }
  }

  lemma AddKey(members: map<Bytes, Value>, key: Bytes, value: Value)
    requires key !in members
    ensures map[key := value] + members == members[key := value]
  {
  }

  // ----- The place of the entry -----

  /** The document's tree, with the gaps around it. */
  ghost predicate DocumentOf(text: Bytes, lead: Bytes, pad: Bytes, members: seq<Member>, trail: Bytes) {
    Blank(text) == lead + Write(Object(pad, members), trail) && WellFormed(Object(pad, members)) && AllWs(lead) && AllWs(trail)
  }

  /** The text from the first member's name on. */
  function FirstMember(members: seq<Member>, tail: Bytes): Bytes {
    if members == [] then tail else FromName(members, tail)
  }

  lemma RootText(b: Bytes, lead: Bytes, pad: Bytes, members: seq<Member>, trail: Bytes)
    requires b == lead + Write(Object(pad, members), trail) && AllWs(lead) && WellFormed(Object(pad, members))
    ensures SkipWs(b) == ['{'] + (pad + WriteMembers(members, ['}'] + trail))
    ensures SkipWs(SkipWs(b)[1..]) == FirstMember(members, ['}'] + trail)
  {
    var body := pad + WriteMembers(members, ['}'] + trail);
    SkipGap(lead, ['{'] + body);
    assert (['{'] + body)[1..] == body;
    if members == [] {
      SkipGap(pad, ['}'] + trail);
    } else {
      NothingBefore(WriteMembers(members, ['}'] + trail));
      NameFollowsGap(members, ['}'] + trail);
    }
  }

  /** The search for `key`, from the root's members on. */
  lemma MemberFound(members: seq<Member>, trail: Bytes, key: Bytes)
    requires MembersOk(members)
    ensures var j := LastNamed(members, key);
            FindMember(FirstMember(members, ['}'] + trail), key, None)
            == if j.Some? then Some(ValueText(members, j.value, ['}'] + trail)) else None
  {
    if members != [] { FindsLast(members, trail, key, None); }
  }

  lemma SearchMember(b: Bytes, lead: Bytes, pad: Bytes, members: seq<Member>, trail: Bytes, key: Bytes)
    requires b == lead + Write(Object(pad, members), trail) && AllWs(lead) && WellFormed(Object(pad, members))
    ensures |SkipWs(b)| == |b| - |lead| > 0
    ensures var j := LastNamed(members, key);
            ServersText(b, key) == if j.Some? then Some(ValueText(members, j.value, ['}'] + trail)) else None
  {
    RootText(b, lead, pad, members, trail);
    MemberFound(members, trail, key);
  }

  lemma SiteOfMember(b: Bytes, lead: Bytes, members: seq<Member>, trail: Bytes, j: nat, before: Bytes, value: Bytes)
    requires b == lead + Write(Object([], members), trail) && j < |members| && members[j].node.Object?
    requires before == lead + (['{'] + UpTo(members, j)) && value == ValueText(members, j, ['}'] + trail)
    ensures |b| - |value| == |before| && value != [] && value[0] == '{'
  {
    SplitAtValue(members, j, ['}'] + trail);
    NothingBefore(WriteMembers(members, ['}'] + trail));
  }

  lemma SiteAtValue(b: Bytes, value: Bytes, key: Bytes, name: Bytes, entry: Value)
    requires ServersText(b, key) == Some(value) && value != [] && value[0] == '{' && |value| <= |b|
    ensures FindSite(b, key, name, entry) == Some(Site(|b| - |value|, name, entry))
  {
  }

  lemma SiteInRoot(b: Bytes, lead: Bytes, pad: Bytes, members: seq<Member>, trail: Bytes, key: Bytes, name: Bytes, entry: Value)
    requires b == lead + Write(Object(pad, members), trail) && AllWs(lead) && WellFormed(Object(pad, members))
    requires LastNamed(members, key).None?
    ensures FindSite(b, key, name, entry) == Some(Site(|lead|, key, Obj(map[name := entry])))
  {
    SearchMember(b, lead, pad, members, trail, key);
  }

  lemma SiteInMember(b: Bytes, lead: Bytes, members: seq<Member>, trail: Bytes, key: Bytes, name: Bytes, entry: Value,
                     j: nat, before: Bytes)
    requires b == lead + Write(Object([], members), trail) && j < |members| && members[j].node.Object?
    requires ServersText(b, key) == Some(ValueText(members, j, ['}'] + trail))
    requires before == lead + (['{'] + UpTo(members, j))
    ensures FindSite(b, key, name, entry) == Some(Site(|before|, name, entry))
  {
    var value := ValueText(members, j, ['}'] + trail);
    SiteOfMember(b, lead, members, trail, j, before, value);
    SiteAtValue(b, value, key, name, entry);
  }

  // ----- Documents -----

  lemma MeaningIs(lead: Bytes, n: Node, trail: Bytes)
    requires AllWs(lead) && WellFormed(n) && AllWs(trail)
    ensures Meaning(lead + Write(n, trail)) == Some(Denote(n))
  {
    DocumentIsTree(lead, n, trail);
  }

  lemma NoMeaning(lead: Bytes, bad: Bytes)
    requires AllWs(lead) && NoGap(bad) && ReadNode(bad).Fail?
    ensures Meaning(lead + bad).None?
  {
    GapOf(lead, bad);
  }

  /** A document that reads as an object is one. */
  lemma DocumentParts(text: Bytes, root: map<Bytes, Value>) returns (lead: Bytes, pad: Bytes, members: seq<Member>, trail: Bytes)
    requires Meaning(Blank(text)) == Some(Obj(root))
    ensures DocumentOf(text, lead, pad, members, trail) && DenoteMembers(members) == root
  {
    var b := Blank(text);
    TreeOfDocument(b);
    var n := ReadDocument(b).value;
    lead, trail := b[..Gap(b)], ReadNode(b[Gap(b)..]).rest;
    pad, members := n.pad, n.members;
  }

  /** The document is an object, and the entry can be added: what is under `key` is an object without it. */
  ghost predicate Insertable(text: Bytes, root: map<Bytes, Value>, key: Bytes, name: Bytes) {
    && Meaning(Blank(text)) == Some(Obj(root))
    && (key in root ==> root[key].Obj? && name !in root[key].members)
  }

  /** The text the entry is spliced into, before it is read again. */
  ghost function Spliced(text: Bytes, key: Bytes, name: Bytes, entry: Value): Bytes
    requires CanSplice(text, key, name, entry)
  {
    var site := FindSite(Blank(text), key, name, entry).value;
    NewText(text, site.open, site.key, site.value)
  }

  ghost predicate CanSplice(text: Bytes, key: Bytes, name: Bytes, entry: Value) {
    var site := FindSite(Blank(text), key, name, entry);
    site.Some? && site.value.open < |text| == |Blank(text)|
  }

  ghost predicate StrayCommaAtSite(text: Bytes, key: Bytes, name: Bytes, entry: Value)
    requires CanSplice(text, key, name, entry)
  {
    HasStrayComma(text, FindSite(Blank(text), key, name, entry).value.open)
  }

  /** A known place. */
  lemma SplicedAt(text: Bytes, key: Bytes, name: Bytes, entry: Value, site: Site)
    requires FindSite(Blank(text), key, name, entry) == Some(site) && site.open < |text| == |Blank(text)|
    ensures CanSplice(text, key, name, entry)
    ensures Spliced(text, key, name, entry) == NewText(text, site.open, site.key, site.value)
    ensures StrayCommaAtSite(text, key, name, entry) == HasStrayComma(text, site.open)
  {
  }

  /** No member is called `key`: the entry goes into the root, with an object of its own. */
  lemma SpliceIntoRoot(text: Bytes, lead: Bytes, pad: Bytes, members: seq<Member>, trail: Bytes, key: Bytes, name: Bytes, entry: Value)
    requires DocumentOf(text, lead, pad, members, trail) && Printable(entry) && LastNamed(members, key).None?
    ensures CanSplice(text, key, name, entry)
    ensures Meaning(Blank(Spliced(text, key, name, entry)))
            == if StrayCommaAtSite(text, key, name, entry) then None
               else Some(Plus(DenoteMembers(members), key, name, entry))
  {
    SiteInRoot(Blank(text), lead, pad, members, trail, key, name, entry);
    WsFixed(lead, []);
    assert lead + [] == lead;
    var value := Obj(map[name := entry]);
    var filled, bad := ObjectSpliced(text, lead, pad, members, trail, key, value);
    SplicedAt(text, key, name, entry, Site(|lead|, key, value));
    AbsentMeans(members, key);
    if HasStrayComma(text, |lead|) {
      NoMeaning(lead, bad);
    } else {
      MeaningIs(lead, filled, trail);
      AddKey(DenoteMembers(members), key, value);
    }
  }

  /** The last member called `key` is an object: the entry goes there. */
  lemma SpliceIntoMember(text: Bytes, lead: Bytes, members: seq<Member>, trail: Bytes, key: Bytes, name: Bytes, entry: Value, j: nat)
    requires DocumentOf(text, lead, [], members, trail) && Printable(entry)
    requires LastNamed(members, key) == Some(j) && members[j].node.Object? && WellFormed(members[j].node)
    requires name !in DenoteMembers(members[j].node.members)
    ensures CanSplice(text, key, name, entry)
    ensures Meaning(Blank(Spliced(text, key, name, entry)))
            == if StrayCommaAtSite(text, key, name, entry) then None
               else Some(Plus(DenoteMembers(members), key, name, entry))
  {
    var before := lead + (['{'] + UpTo(members, j));
    SearchMember(Blank(text), lead, [], members, trail, key);
    SiteInMember(Blank(text), lead, members, trail, key, name, entry, j, before);
    var rest := members[j].after + WriteMoreMembers(members[j + 1..], ['}'] + trail);
    MemberAt(text, lead, members, trail, j, before, rest);
    MemberSpliced(text, lead, members, trail, key, name, entry, j, before, rest);
    SplicedAt(text, key, name, entry, Site(|before|, name, entry));
  }

  lemma MemberSpliced(text: Bytes, lead: Bytes, members: seq<Member>, trail: Bytes, key: Bytes, name: Bytes, entry: Value,
                      j: nat, before: Bytes, rest: Bytes)
    requires AllWs(lead) && AllWs(trail) && MembersOk(members) && Printable(entry)
    requires LastNamed(members, key) == Some(j) && members[j].node.Object? && WellFormed(members[j].node)
    requires name !in DenoteMembers(members[j].node.members)
    requires before == lead + (['{'] + UpTo(members, j))
    requires rest == members[j].after + WriteMoreMembers(members[j + 1..], ['}'] + trail)
    requires ObjectAt(text, before, members[j].node.pad, members[j].node.members, rest)
    ensures |before| < |text| == |Blank(text)|
    ensures Meaning(Blank(NewText(text, |before|, name, entry)))
            == if HasStrayComma(text, |before|) then None
               else Some(Plus(DenoteMembers(members), key, name, entry))
  {
    var inner := members[j].node;
    var filled, bad := ObjectSpliced(text, before, inner.pad, inner.members, rest, name, entry);
    if HasStrayComma(text, |before|) {
      BadMember(lead, members, j, bad);
      ConcatAssociative(['{'], UpTo(members, j), bad);
      ConcatAssociative(lead, ['{'] + UpTo(members, j), bad);
    } else {
      MemberReplaced(lead, members, trail, key, j, filled, before, rest);
      AddKey(DenoteMembers(inner.members), name, entry);
    }
  }

  lemma MemberAt(text: Bytes, lead: Bytes, members: seq<Member>, trail: Bytes, j: nat, before: Bytes, rest: Bytes)
    requires DocumentOf(text, lead, [], members, trail) && j < |members|
    requires members[j].node.Object? && WellFormed(members[j].node)
    requires before == lead + (['{'] + UpTo(members, j))
    requires rest == members[j].after + WriteMoreMembers(members[j + 1..], ['}'] + trail)
    ensures ObjectAt(text, before, members[j].node.pad, members[j].node.members, rest)
  {
    SplitAtValue(members, j, ['}'] + trail);
    NothingBefore(WriteMembers(members, ['}'] + trail));
    NestRight(lead, ['{'], UpTo(members, j), Write(members[j].node, rest), [], []);
    ConcatAssociative(lead, ['{'], UpTo(members, j));
    UpToQuotes(members, j);
    OneInert('{', UpTo(members, j));
    WsFixed(lead, ['{'] + UpTo(members, j));
  }

  lemma MemberReplaced(lead: Bytes, members: seq<Member>, trail: Bytes, key: Bytes, j: nat, filled: Node, before: Bytes, rest: Bytes)
    requires AllWs(lead) && AllWs(trail) && MembersOk(members) && WellFormed(filled) && LastNamed(members, key) == Some(j)
    requires before == lead + (['{'] + UpTo(members, j))
    requires rest == members[j].after + WriteMoreMembers(members[j + 1..], ['}'] + trail)
    ensures Meaning(before + Write(filled, rest)) == Some(Obj(DenoteMembers(members)[key := Denote(filled)]))
    ensures WellFormed(members[j].node) && key in DenoteMembers(members)
    ensures DenoteMembers(members)[key] == Denote(members[j].node)
  {
    ReplacedText(members, j, filled, ['}'] + trail);
    ReplacedMeans(members, j, filled, key);
    var n := Object([], Replaced(members, j, filled));
    NothingBefore(WriteMembers(n.members, ['}'] + trail));
    NestRight(lead, ['{'], UpTo(members, j), Write(filled, rest), [], []);
    ConcatAssociative(lead, ['{'], UpTo(members, j));
    MeaningIs(lead, n, trail);
  }
}
