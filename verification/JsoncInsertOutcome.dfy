/** The outcome of `insert_server` on every input. */
module JsoncInsertOutcome {
  import opened Text
  import opened Json
  import opened JsonTree
  import opened JsonTreeFacts
  import opened JsoncBlank
  import opened JsoncFixed
  import opened JsoncSeams
  import opened JsoncScan
  import opened JsoncPretty
  import opened JsoncPrettyMeans
  import opened JsonSplice
  import opened JsoncInsert
  import opened Whitespace
  import opened JsoncInsertText
  import opened JsoncInsertLayout
  import opened JsoncInsertSite
  import opened JsoncInsertTheorems

  /** Splicing gives the document plus the entry, unless a comma stands between the braces of an empty object. */
  lemma SpliceMeans(text: Bytes, root: map<Bytes, Value>, key: Bytes, name: Bytes, entry: Value)
    requires Insertable(text, root, key, name) && Printable(entry)
    ensures CanSplice(text, key, name, entry)
    ensures Meaning(Blank(Spliced(text, key, name, entry)))
            == if StrayCommaAtSite(text, key, name, entry) then None else Some(Plus(root, key, name, entry))
  {
    var lead, pad, members, trail := DocumentParts(text, root);
    var j := LastNamed(members, key);
    if j.None? {
      SpliceIntoRoot(text, lead, pad, members, trail, key, name, entry);
    } else {
      MemberOk(members, j.value);
      ReplacedMeans(members, j.value, members[j.value].node, key);
      SpliceIntoMember(text, lead, members, trail, key, name, entry, j.value);
    }
  }

  /** A document is not blank, and no byte order mark is left in front of it. */
  lemma DocumentIsNotBlank(text: Bytes, root: map<Bytes, Value>)
    requires Meaning(Blank(text)) == Some(Obj(root))
    ensures TrimEnd(text) != [] && Bom(text) == []
  {
    var lead, pad, members, trail := DocumentParts(text, root);
    WsFixed(lead, []);
    assert lead + [] == lead;
    AfterOpen(text, lead, pad, members, trail);
    BraceIsCode(text, |lead|);
    TrimmedIsSpace(text);
    assert text[0..] == text && !SpaceByte(text[|lead|]);
    UncommentAt(text, Code, 0);
    UncommaAt(Uncomment(text, Code), Code, 0);
    assert Uncomment(text, Code)[0] == Out(Code, text[0], Peek(text));
    assert Blank(text)[0] == if lead == [] then '{' else lead[0];
  }

  /** What a run that starts from no document writes. */
  lemma FreshMeans(key: Bytes, name: Bytes, entry: Value)
    requires Printable(entry)
    ensures Fresh(key, name, entry).Wrote?
    ensures Meaning(Blank(Fresh(key, name, entry).text)) == Some(Plus(map[], key, name, entry))
    ensures var text := Fresh(key, name, entry).text; '\r' !in text && text != [] && text[|text| - 1] == '\n'
  {
    PrettyReturns(Obj(map[key := Obj(map[name := entry])]), "  ", [], "\n", false);
    var doc := Obj(map[key := Obj(map[name := entry])]);
    assert Printable(Obj(map[name := entry]));
    PrettyDocument(doc, "  ", [], "\n", "\n");
    StrictUnchanged(Fresh(key, name, entry).text);
  }

  /** The text without its byte order mark. */
  function Body(raw: Bytes): Bytes { raw[|Bom(raw)|..] }

  /** Nothing to insert into: no file, or only whitespace. */
  predicate Blankish(existing: Option<Bytes>) { existing.None? || TrimEnd(Body(existing.value)) == [] }

  /** The members of the document there is. */
  ghost function Root(existing: Option<Bytes>): Option<map<Bytes, Value>> {
    if Blankish(existing) then Some(map[])
    else
      var doc := Meaning(Blank(Body(existing.value)));
      if doc.Some? && doc.value.Obj? then Some(doc.value.members) else None
  }

  /** The entry can be added to the document. */
  ghost predicate Wanted(existing: Option<Bytes>, key: Bytes, name: Bytes) {
    Root(existing).Some? && var root := Root(existing).value;
    key in root ==> root[key].Obj? && name !in root[key].members
  }

  /** The one thing in the way: a comma between the braces of the empty object the entry would go into. */
  ghost predicate CommaInTheWay(existing: Option<Bytes>, key: Bytes, name: Bytes, entry: Value) {
    && !Blankish(existing) && CanSplice(Body(existing.value), key, name, entry)
    && StrayCommaAtSite(Body(existing.value), key, name, entry)
  }

  lemma InsertInto(raw: Bytes, key: Bytes, name: Bytes, entry: Value)
    requires Printable(entry) && !Blankish(Some(raw)) && Wanted(Some(raw), key, name)
    ensures CanSplice(Body(raw), key, name, entry)
    ensures InsertServer(Some(raw), key, name, entry)
            == if CommaInTheWay(Some(raw), key, name, entry) then Refused(Unverified)
               else Wrote(Bom(raw) + Spliced(Body(raw), key, name, entry))
  {
    var root := Root(Some(raw)).value;
    SpliceMeans(Body(raw), root, key, name, entry);
  }

  /** Every outcome, and exactly when it comes about. */
  lemma InsertOutcome(existing: Option<Bytes>, key: Bytes, name: Bytes, entry: Value)
    requires Printable(entry)
    ensures var out := InsertServer(existing, key, name, entry);
            && (out.Wrote? <==> Wanted(existing, key, name) && !CommaInTheWay(existing, key, name, entry))
            && (out == AlreadyPresent <==>
                  Root(existing).Some? && key in Root(existing).value
                  && Root(existing).value[key].Obj? && name in Root(existing).value[key].members)
            && (out == Refused(Unverified) <==> Wanted(existing, key, name) && CommaInTheWay(existing, key, name, entry))
            && out != Refused(UnexpectedShape)
  {
    if !Blankish(existing) && Wanted(existing, key, name) {
      InsertInto(existing.value, key, name, entry);
    }
  }

  /** What is written reads as the document there was plus exactly the one entry. */
  lemma WrittenIsPlus(existing: Option<Bytes>, key: Bytes, name: Bytes, entry: Value)
    requires Printable(entry) && InsertServer(existing, key, name, entry).Wrote?
    ensures Root(existing).Some?
    ensures Meaning(Blank(Body(InsertServer(existing, key, name, entry).text)))
            == Some(Plus(Root(existing).value, key, name, entry))
    ensures !Blankish(Some(InsertServer(existing, key, name, entry).text))
  {
    InsertOutcome(existing, key, name, entry);
    var out := InsertServer(existing, key, name, entry).text;
    var plus := Plus(Root(existing).value, key, name, entry);
    if Blankish(existing) {
      FreshMeans(key, name, entry);
      DocumentIsNotBlank(out, plus.members);
      assert Body(out) == out;
    } else {
      var raw := existing.value;
      InsertInto(raw, key, name, entry);
      SpliceMeans(Body(raw), Root(existing).value, key, name, entry);
      var text := Spliced(Body(raw), key, name, entry);
      DocumentIsNotBlank(text, plus.members);
      assert Body(out) == text by { BomKept(Bom(raw), text); }
    }
  }

  lemma BomKept(bom: Bytes, text: Bytes)
    requires (bom == BOM || bom == []) && Bom(text) == []
    ensures Body(bom + text) == text
  {
    if bom == [] { assert bom + text == text; } else { assert Bom(bom + text) == BOM; }
  }

  /** A second run finds the entry and leaves the file alone. */
  lemma InsertTwice(existing: Option<Bytes>, key: Bytes, name: Bytes, entry: Value, other: Value)
    requires Printable(entry) && InsertServer(existing, key, name, entry).Wrote?
    ensures InsertServer(Some(InsertServer(existing, key, name, entry).text), key, name, other) == AlreadyPresent
  {
    WrittenIsPlus(existing, key, name, entry);
  }

  /** The last whitespace character of a text is that of every suffix that holds it whole. */
  lemma SuffixSpace(s: Bytes, k: nat)
    requires k + LastSpace(s) <= |s| && LastSpace(s) > 0
    ensures LastSpace(s[k..]) == LastSpace(s)
  {
    var w := s[k..];
    var n := LastSpace(s);
    assert w[|w| - 1] == s[|s| - 1];
    if n > 1 { assert w[|w| - 2] == s[|s| - 2]; }
    if n > 2 { assert w[|w| - 3] == s[|s| - 3]; }
  }

  lemma SuffixCut(s: Bytes, k: nat, n: nat)
    requires k + n <= |s|
    ensures s[k..][..|s| - k - n] == s[..|s| - n][k..]
  {
  }

  /** What trimming drops is whitespace to the last character: nothing of it is left when it is trimmed in turn. */
  lemma {:induction false} TrimmedIsBlank(s: Bytes)
    ensures TrimEnd(s[|TrimEnd(s)|..]) == []
  {
    var n, k := LastSpace(s), |TrimEnd(s)|;
    if n > 0 {
      TrimmedIsBlank(s[..|s| - n]);
      SuffixSpace(s, k);
      SuffixCut(s, k, n);
    }
  }

  /**
   * The text of a new member: a line of its own in the document's line breaks and indentation, the
   * key, and text that reads as the value.
   */
  ghost predicate NewLine(text: Bytes, open: nat, key: Bytes, value: Value, line: Bytes, printed: Bytes)
    requires open <= |text|
  {
    && Meaning(printed) == Some(value)
    && (exists lead :: LeadsTo(text, open, lead) && line == Line(lead, key, printed))
    && BreaksLike(text, line)
  }

  /** The text before `p` and from `q` on is kept; between them lay whitespace at most, before a brace. */
  predicate KeepsAround(text: Bytes, p: nat, q: nat, tail: Bytes) {
    && p <= q <= |text| && TrimEnd(text[p..q]) == []
    && if tail == [','] then p == q else AllWs(tail) && q < |text| && text[q] == '}'
  }

  /** In an empty object: what was between the braces, trimmed, then the line and the line of the brace. */
  lemma EmptyKeeps(text: Bytes, open: nat, after: nat, nl: Bytes, line: Bytes, tail: Bytes) returns (p: nat)
    requires open < after < |text| && text[after] == '}' && AllWs(tail)
    ensures open < p <= after && KeepsAround(text, p, after, tail) && tail != [',']
    ensures text[..open + 1] + (TrimEnd(text[open + 1..after]) + (nl + (line + (tail + text[after..]))))
            == text[..p] + ((nl + line) + (tail + text[after..]))
  {
    assert tail != [','] by { assert tail == [','] ==> !IsWs(tail[0]); }
    var inside := text[open + 1..after];
    var kept := TrimEnd(inside);
    TrimmedIsBlank(inside);
    p := open + 1 + |kept|;
    assert text[p..after] == inside[|kept|..] && text[..p] == text[..open + 1] + kept;
    JoinParts(text[..open + 1], kept, nl, line, tail, text[after..]);
  }

  /** Before other members: right behind the brace. */
  lemma BeforeKeeps(text: Bytes, p: nat, nl: Bytes, line: Bytes)
    requires p <= |text|
    ensures KeepsAround(text, p, p, [','])
    ensures text[..p] + (nl + (line + ([','] + text[p..]))) == text[..p] + ((nl + line) + ([','] + text[p..]))
  {
    JoinParts(text[..p], [], nl, line, [','], text[p..]);
    assert text[..p] + [] == text[..p];
    NothingBefore(nl + (line + ([','] + text[p..])));
  }

  /** The place of the new line: right behind the brace, or behind all that stands between the two of an empty object. */
  predicate Behind(text: Bytes, open: nat, p: nat, q: nat, tail: Bytes)
    requires |text| == |Blank(text)|
  {
    && open < p <= q <= |text|
    && if tail == [','] then p == open + 1 else forall i :: open < i < q ==> IsAsciiWs(Blank(text)[i])
  }

  lemma {:induction false} SkippedIsWs(s: Bytes, i: nat)
    requires i < |s| - |SkipWs(s)|
    ensures IsAsciiWs(s[i])
  {
    if i > 0 { SkippedIsWs(s[1..], i - 1); }
  }

  lemma InsideIsWs(b: Bytes, open: nat, i: nat)
    requires open < |b| && open < i < Inside(b, open)
    ensures IsAsciiWs(b[i])
  {
    SkippedIsWs(b[open + 1..], i - open - 1);
  }

  lemma NewTextKeeps(text: Bytes, open: nat, key: Bytes, value: Value)
    returns (p: nat, q: nat, line: Bytes, printed: Bytes, tail: Bytes)
    requires open < |text| == |Blank(text)| && Printable(value)
    ensures Behind(text, open, p, q, tail) && KeepsAround(text, p, q, tail) && NewLine(text, open, key, value, line, printed)
    ensures EndsLine(text, open, tail) && BreaksLike(text, tail)
    ensures NewText(text, open, key, value) == text[..p] + (line + (tail + text[q..]))
  {
    hide KeepsAround, TrimEnd, Blank, Pretty, DetectIndent, LineIndent, Meaning, Line, LeadsTo, EndsLine, BreaksLike;
    var nl, unit, base := LineBreak(text), DetectIndent(text), LineIndent(text, open);
    printed := Pretty(value, unit, base + unit, nl);
    line := Line(nl + (base + unit), key, printed);
    PrintedMeans(value, unit, base + unit, nl);
    NewLineIs(text, open, key, value, printed);
    CommaEnds(text, open);
    var bare := Line(base + unit, key, printed);
    LineGrows(nl, base + unit, key, printed);
    if IsEmptyAt(Blank(text), open) {
      q, tail := Inside(Blank(text), open), nl + base;
      BraceInText(text, q);
      p := EmptyKeeps(text, open, q, nl, bare, tail);
      forall i | open < i < q ensures IsAsciiWs(Blank(text)[i]) { InsideIsWs(Blank(text), open, i); }
    } else {
      p, q, tail := open + 1, open + 1, [','];
      BeforeKeeps(text, p, nl, bare);
    }
  }

  lemma CommaEnds(text: Bytes, open: nat)
    requires open <= |text|
    ensures EndsLine(text, open, [',']) && BreaksLike(text, [','])
  {
  }

  lemma PrintedMeans(value: Value, unit: Bytes, base: Bytes, nl: Bytes)
    requires Printable(value) && Layout(unit, base, nl)
    ensures Meaning(Pretty(value, unit, base, nl)) == Some(value)
  {
    PrettyDocument(value, unit, base, nl, []);
    assert Pretty(value, unit, base, nl) + [] == Pretty(value, unit, base, nl);
  }

  lemma LineGrows(nl: Bytes, member: Bytes, key: Bytes, printed: Bytes)
    ensures nl + Line(member, key, printed) == Line(nl + member, key, printed)
  {
  }

  lemma BraceInText(text: Bytes, o: nat)
    requires o < |text| == |Blank(text)| && Blank(text)[o] in ['{', '}']
    ensures text[o] == Blank(text)[o]
  {
    UncommentAt(text, Code, o);
    UncommaAt(Uncomment(text, Code), Code, o);
  }

  lemma JoinParts(a: Bytes, b: Bytes, c: Bytes, d: Bytes, e: Bytes, f: Bytes)
    ensures a + (b + (c + (d + (e + f)))) == (a + b) + ((c + d) + (e + f))
  {
  }

  /** The member that is added: the entry under its name, or the one server under `key` if nothing is there. */
  lemma SiteHolds(text: Bytes, root: map<Bytes, Value>, key: Bytes, name: Bytes, entry: Value)
    requires Insertable(text, root, key, name) && CanSplice(text, key, name, entry)
    ensures var site := FindSite(Blank(text), key, name, entry).value;
            if key in root then site.key == name && site.value == entry
            else site.key == key && site.value == Obj(map[name := entry])
  {
    var lead, pad, members, trail := DocumentParts(text, root);
    SearchMember(Blank(text), lead, pad, members, trail, key);
    var j := LastNamed(members, key);
    if j.None? {
      AbsentMeans(members, key);
    } else {
      MemberOk(members, j.value);
      ReplacedMeans(members, j.value, members[j.value].node, key);
    }
  }

  lemma RootIsThere(b: Bytes, lead: Bytes, pad: Bytes, members: seq<Member>, trail: Bytes)
    requires b == lead + Write(Object(pad, members), trail)
    ensures |lead| < |b| && b[|lead|] == '{'
  {
  }

  lemma ValueIsThere(b: Bytes, lead: Bytes, members: seq<Member>, trail: Bytes, j: nat)
    requires b == lead + Write(Object([], members), trail) && j < |members| && members[j].node.Object?
    ensures var value := ValueText(members, j, ['}'] + trail); 0 < |value| <= |b| && b[|b| - |value|] == '{'
  {
    hide WriteMembers, ValueText, UpTo;
    var value, upTo := ValueText(members, j, ['}'] + trail), UpTo(members, j);
    SiteOfMember(b, lead, members, trail, j, lead + (['{'] + upTo), value);
    SplitAtValue(members, j, ['}'] + trail);
    NothingBefore(WriteMembers(members, ['}'] + trail));
    ValueLast(lead, upTo, value);
  }

  lemma ValueLast(lead: Bytes, upTo: Bytes, value: Bytes)
    requires value != []
    ensures var b := lead + (['{'] + (upTo + value)); b[|b| - |value|] == value[0]
  {
  }

  /** The place of the entry is an opening brace. */
  lemma SiteIsBrace(b: Bytes, lead: Bytes, pad: Bytes, members: seq<Member>, trail: Bytes, key: Bytes, name: Bytes, entry: Value)
    requires b == lead + Write(Object(pad, members), trail) && AllWs(lead) && WellFormed(Object(pad, members))
    requires var j := LastNamed(members, key); j.Some? ==> pad == [] && j.value < |members| && members[j.value].node.Object?
    ensures var site := FindSite(b, key, name, entry); site.Some? && site.value.open < |b| && b[site.value.open] == '{'
  {
    hide Write, WriteMembers, ValueText, UpTo, LastNamed, FindMember, ServersText;
    var j := LastNamed(members, key);
    if j.None? {
      SiteInRoot(b, lead, pad, members, trail, key, name, entry);
      RootIsThere(b, lead, pad, members, trail);
    } else {
      SearchMember(b, lead, pad, members, trail, key);
      ValueIsThere(b, lead, members, trail, j.value);
      SiteOfMember(b, lead, members, trail, j.value, lead + (['{'] + UpTo(members, j.value)), ValueText(members, j.value, ['}'] + trail));
      SiteAtValue(b, ValueText(members, j.value, ['}'] + trail), key, name, entry);
    }
  }

  lemma SiteOpens(text: Bytes, root: map<Bytes, Value>, key: Bytes, name: Bytes, entry: Value)
    requires Insertable(text, root, key, name) && CanSplice(text, key, name, entry)
    ensures text[FindSite(Blank(text), key, name, entry).value.open] == '{'
  {
    hide Write, WriteMembers, Blank, FindSite;
    var lead, pad, members, trail := DocumentParts(text, root);
    var j := LastNamed(members, key);
    if j.Some? {
      MemberOk(members, j.value);
      ReplacedMeans(members, j.value, members[j.value].node, key);
    }
    SiteIsBrace(Blank(text), lead, pad, members, trail, key, name, entry);
    BraceInText(text, FindSite(Blank(text), key, name, entry).value.open);
  }

  /** The new line holds the entry under its name, or `key` with an object of just the entry. */
  ghost predicate NewEntry(text: Bytes, open: nat, root: map<Bytes, Value>, key: Bytes, name: Bytes, entry: Value,
                           line: Bytes, printed: Bytes)
    requires open <= |text|
  {
    if key in root then NewLine(text, open, name, entry, line, printed)
    else NewLine(text, open, key, Obj(map[name := entry]), line, printed)
  }

  lemma SplicedKeeps(text: Bytes, root: map<Bytes, Value>, key: Bytes, name: Bytes, entry: Value)
    returns (open: nat, p: nat, q: nat, line: Bytes, printed: Bytes, tail: Bytes)
    requires Insertable(text, root, key, name) && CanSplice(text, key, name, entry) && Printable(entry)
    ensures |Blank(text)| == |text| && Behind(text, open, p, q, tail) && text[open] == '{' && KeepsAround(text, p, q, tail)
    ensures EndsLine(text, open, tail) && BreaksLike(text, tail)
    ensures NewEntry(text, open, root, key, name, entry, line, printed)
    ensures Spliced(text, key, name, entry) == text[..p] + (line + (tail + text[q..]))
  {
    SiteHolds(text, root, key, name, entry);
    SiteOpens(text, root, key, name, entry);
    var site := FindSite(Blank(text), key, name, entry).value;
    open := site.open;
    assert Printable(site.value);
    p, q, line, printed, tail := NewTextKeeps(text, open, site.key, site.value);
  }

  /**
   * All of the old text is kept around one new line and a comma or the line break before the brace,
   * but for whitespace before the closing brace of an empty object.
   */
  lemma TextIsKept(raw: Bytes, key: Bytes, name: Bytes, entry: Value)
    returns (open: nat, p: nat, q: nat, line: Bytes, printed: Bytes, tail: Bytes)
    requires Printable(entry) && !Blankish(Some(raw)) && InsertServer(Some(raw), key, name, entry).Wrote?
    ensures |Blank(Body(raw))| == |Body(raw)| && Behind(Body(raw), open, p, q, tail) && Body(raw)[open] == '{'
    ensures KeepsAround(Body(raw), p, q, tail) && Root(Some(raw)).Some?
    ensures EndsLine(Body(raw), open, tail) && BreaksLike(Body(raw), tail)
    ensures NewEntry(Body(raw), open, Root(Some(raw)).value, key, name, entry, line, printed)
    ensures InsertServer(Some(raw), key, name, entry).text == Bom(raw) + (Body(raw)[..p] + (line + (tail + Body(raw)[q..])))
  {
    InsertOutcome(Some(raw), key, name, entry);
    InsertInto(raw, key, name, entry);
    open, p, q, line, printed, tail := SplicedKeeps(Body(raw), Root(Some(raw)).value, key, name, entry);
    hide *;
  }
}
