/** The spliced text, blanked, is the old document with one more member in the chosen object. */
module JsoncInsertSite {
  import opened Text
  import opened Json
  import opened JsonTree
  import opened JsonTreeFacts
  import opened JsoncBlank
  import opened JsoncFixed
  import opened JsoncSeams
  import opened JsoncScan
  import opened JsoncPretty
  import opened JsoncInsert
  import opened Whitespace
  import opened JsoncInsertText

  /** In the blanked text, after `before` and outside strings, lies an object. */
  ghost predicate ObjectAt(text: Bytes, before: Bytes, pad: Bytes, inner: seq<Member>, rest: Bytes) {
    && Blank(text) == before + Write(Object(pad, inner), rest)
    && WellFormed(Object(pad, inner)) && Quotes(before, Code) == Code
  }

  /** An empty object with a comma between its braces, outside comments. */
  ghost predicate HasStrayComma(text: Bytes, open: nat)
    requires open < |text| == |Blank(text)|
  {
    IsEmptyAt(Blank(text), open) && ',' in Uncomment(text[open + 1..Inside(Blank(text), open)], Code)
  }

  lemma AfterOpen(text: Bytes, before: Bytes, pad: Bytes, inner: seq<Member>, rest: Bytes)
    requires ObjectAt(text, before, pad, inner, rest)
    ensures |before| < |text| == |Blank(text)| && Blank(text)[|before|] == '{'
    ensures Quotes(Blank(text)[..|before|], Code) == Code
    ensures Blank(text)[|before| + 1..] == pad + WriteMembers(inner, ['}'] + rest)
    ensures Blank(text[..|before| + 1]) == before + ['{']
    ensures Blank(text[|before| + 1..]) == pad + WriteMembers(inner, ['}'] + rest)
  {
    BlankLength(text);
    var o := |before|;
    var body := pad + WriteMembers(inner, ['}'] + rest);
    assert Blank(text)[..o] == before && Blank(text)[o..] == ['{'] + body;
    assert Blank(text)[o + 1..] == body;
    BlankAfterBrace(text, o, text[o + 1..]);
    assert text[..o + 1] + text[o + 1..] == text;
    BlankLength(text[..o + 1]);
    assert Blank(text)[..o + 1] == before + ['{'];
  }

  /** The text after a splice point, blanked. */
  lemma BlankAt(text: Bytes, before: Bytes, pad: Bytes, inner: seq<Member>, rest: Bytes, z: Bytes)
    requires ObjectAt(text, before, pad, inner, rest)
    ensures |before| < |text| && Blank(text[..|before| + 1] + z) == before + (['{'] + Blank(z))
  {
    AfterOpen(text, before, pad, inner, rest);
    BlankAfterBrace(text, |before|, z);
    ConcatAssociative(before, ['{'], Blank(z));
  }

  lemma InsideMembers(text: Bytes, before: Bytes, inner: seq<Member>, rest: Bytes)
    requires ObjectAt(text, before, [], inner, rest) && inner != []
    ensures |before| < |text| == |Blank(text)| && !IsEmptyAt(Blank(text), |before|)
  {
    AfterOpen(text, before, [], inner, rest);
    var members := WriteMembers(inner, ['}'] + rest);
    assert [] + members == members;
    NameFollowsGap(inner, ['}'] + rest);
    var b := Blank(text);
    var after := Inside(b, |before|);
    assert b[after..] == b[|before| + 1..][after - |before| - 1..];
    SuffixIs(members, FromName(inner, ['}'] + rest));
    assert b[after..] == FromName(inner, ['}'] + rest);
  }

  lemma SuffixIs(s: Bytes, r: Bytes)
    requires SkipWs(s) == r
    ensures |r| <= |s| && s[|s| - |r|..] == r
  {
    SkipIsSuffix(s);
  }

  lemma {:induction false} SkipIsSuffix(s: Bytes)
    ensures s[|s| - |SkipWs(s)|..] == SkipWs(s)
  {
    if s != [] && IsAsciiWs(s[0]) {
      SkipIsSuffix(s[1..]);
    }
  }

  lemma InsideEmpty(text: Bytes, before: Bytes, pad: Bytes, rest: Bytes)
    requires ObjectAt(text, before, pad, [], rest)
    ensures |before| < |text| == |Blank(text)| && IsEmptyAt(Blank(text), |before|)
    ensures Inside(Blank(text), |before|) == |before| + 1 + |pad|
  {
    AfterOpen(text, before, pad, [], rest);
    SkipGap(pad, ['}'] + rest);
    assert Blank(text)[|before| + 1..][|pad|] == '}';
  }

  // ----- An object with members -----

  /** The new text is the old one with a member's text after the brace. */
  lemma NewTextBefore(text: Bytes, open: nat, key: Bytes, value: Value) returns (m: Member)
    requires open < |text| == |Blank(text)| && !IsEmptyAt(Blank(text), open) && Printable(value)
    ensures NewText(text, open, key, value) == text[..open + 1] + KeyText(m, Write(m.node, [','] + text[open + 1..]))
    ensures m.after == [] && Decode(m.name) == Some(key) && WellFormed(m.node) && Denote(m.node) == value
    ensures forall inner :: MembersOk(inner) ==> MembersOk([m] + inner)
  {
    var nl, unit, base := LineBreak(text), DetectIndent(text), LineIndent(text, open);
    m := NewMember(nl + (base + unit), key, value, unit, base + unit, nl, []);
    NewMemberOk(nl + (base + unit), key, value, unit, base + unit, nl, []);
    LineWritten(nl, key, value, unit, base + unit, nl, [], [','] + text[open + 1..]);
  }

  lemma SpliceBefore(text: Bytes, before: Bytes, inner: seq<Member>, rest: Bytes, key: Bytes, value: Value) returns (m: Member)
    requires ObjectAt(text, before, [], inner, rest) && inner != [] && Printable(value)
    ensures |before| < |text| == |Blank(text)| && !IsEmptyAt(Blank(text), |before|)
    ensures Blank(NewText(text, |before|, key, value)) == before + Write(Object([], [m] + inner), rest)
    ensures MembersOk([m] + inner) && Decode(m.name) == Some(key) && WellFormed(m.node) && Denote(m.node) == value
  {
    InsideMembers(text, before, inner, rest);
    m := NewTextBefore(text, |before|, key, value);
    assert [m] + [] == [m] && MembersOk([m]);
    MemberBefore(text, before, inner, rest, m);
  }

  /** Blanking the text with a member's text after the brace. */
  lemma MemberBefore(text: Bytes, before: Bytes, inner: seq<Member>, rest: Bytes, m: Member)
    requires ObjectAt(text, before, [], inner, rest) && inner != [] && |before| < |text|
    requires MembersOk([m]) && m.after == []
    ensures Blank(text[..|before| + 1] + KeyText(m, Write(m.node, [','] + text[|before| + 1..])))
            == before + Write(Object([], [m] + inner), rest)
  {
    var tail := text[|before| + 1..];
    AfterOpen(text, before, [], inner, rest);
    NothingBefore(WriteMembers(inner, ['}'] + rest));
    BlankBeforeMembers(m, inner, tail, ['}'] + rest);
    BlankAt(text, before, [], inner, rest, KeyText(m, Write(m.node, [','] + tail)));
    NothingBefore(WriteMembers([m] + inner, ['}'] + rest));
  }

  // ----- An empty object -----

  /** Text that blanks to a gap and a closing brace. */
  lemma GapParts(r: Bytes, pad: Bytes, rest: Bytes)
    requires AllWs(pad) && Blank(r) == pad + (['}'] + rest)
    ensures |pad| <= |r| && After(r[..|pad|], Code) == Code && WsOrCommas(Uncomment(r[..|pad|], Code))
    ensures Blank(r[|pad|..]) == ['}'] + rest
  {
    var n := |pad|;
    BlankLength(r);
    assert Blank(r)[..n] == pad && Blank(r)[n..] == ['}'] + rest;
    WsFixed(pad, []);
    assert pad + [] == pad;
    BraceIsCode(r, n);
    BlankFromBrace(r, n);
    var g := r[..n];
    assert r == g + r[n..];
    UncommentSplit(g, r[n..], Code);
    UncommentLength(g, Code);
    PadIsBlanked(Uncomment(g, Code), Uncomment(r[n..], Code), pad);
  }

  /** The text between the braces and from the closing brace on. */
  lemma EmptyParts(text: Bytes, before: Bytes, pad: Bytes, rest: Bytes, after: nat, g: Bytes)
    requires ObjectAt(text, before, pad, [], rest) && after == |before| + 1 + |pad| <= |text|
    requires g == text[|before| + 1..after]
    ensures After(g, Code) == Code && WsOrCommas(Uncomment(g, Code))
    ensures Blank(text[after..]) == ['}'] + rest
  {
    AfterOpen(text, before, pad, [], rest);
    var r := text[|before| + 1..];
    GapParts(r, pad, rest);
    assert r[..|pad|] == g && r[|pad|..] == text[after..];
  }

  /** What follows the brace of an empty object after the splice, with its comments blanked. */
  lemma EmptySpliced(g: Bytes, nl: Bytes, m: Member, a: Bytes)
    requires After(g, Code) == Code && WsOrCommas(Uncomment(g, Code)) && IsLineBreak(nl) && MembersOk([m])
    ensures var kept := Uncomment(TrimEnd(g), Code);
            && Uncomment(TrimEnd(g) + (nl + KeyText(m, Write(m.node, m.after + a))), Code)
               == kept + (nl + KeyText(m, Write(m.node, m.after + Uncomment(a, Code))))
            && WsOrCommas(kept) && (',' in kept <==> ',' in Uncomment(g, Code))
  {
    KeptBlanks(g, nl, KeyText(m, Write(m.node, m.after + a)));
    UncommentMember(m, a);
    var kept := Uncomment(TrimEnd(g), Code);
    forall i | 0 <= i < |kept| ensures IsWs(kept[i]) || kept[i] == ',' {
      assert kept[i] == Uncomment(g, Code)[i];
    }
  }

  /** The object after the splice: one member, or unreadable. */
  lemma EmptyObject(g: Bytes, nl: Bytes, m: Member, a: Bytes, rest: Bytes) returns (alone: Member)
    requires After(g, Code) == Code && WsOrCommas(Uncomment(g, Code)) && IsLineBreak(nl) && MembersOk([m])
    requires Blank(a) == ['}'] + rest
    ensures var z := TrimEnd(g) + (nl + KeyText(m, Write(m.node, m.after + a)));
            if ',' in Uncomment(g, Code) then ReadNode(['{'] + Blank(z)).Fail?
            else Blank(z) == WriteMembers([alone], ['}'] + rest)
    ensures MembersOk([alone]) || ',' in Uncomment(g, Code)
    ensures alone == m.(lead := alone.lead)
  {
    var kept := Uncomment(TrimEnd(g), Code);
    var t := KeyText(m, Write(m.node, m.after + Uncomment(a, Code)));
    alone := m.(lead := kept + (nl + m.lead));
    EmptySpliced(g, nl, m, a);
    if ',' in kept {
      KeyOpens(m, Write(m.node, m.after + Uncomment(a, Code)));
      GapPassed(nl, t);
      StrayComma(kept, nl + t);
    } else {
      BlankAlone(kept, nl, m, Uncomment(a, Code));
      assert AllWs(alone.lead) && [alone][1..] == [];
    }
  }

  /** The new text is the old one with a member's text after what the braces held. */
  lemma NewTextInto(text: Bytes, open: nat, after: nat, key: Bytes, value: Value) returns (m: Member)
    requires open < |text| == |Blank(text)| && IsEmptyAt(Blank(text), open) && Printable(value)
    requires after == Inside(Blank(text), open)
    ensures NewText(text, open, key, value)
            == text[..open + 1]
               + (TrimEnd(text[open + 1..after]) + (LineBreak(text) + KeyText(m, Write(m.node, m.after + text[after..]))))
    ensures MembersOk([m]) && Decode(m.name) == Some(key) && WellFormed(m.node) && Denote(m.node) == value
  {
    var nl, unit, base := LineBreak(text), DetectIndent(text), LineIndent(text, open);
    var a := text[after..];
    m := NewMember(base + unit, key, value, unit, base + unit, nl, nl + base);
    NewMemberOk(base + unit, key, value, unit, base + unit, nl, nl + base);
    assert [m] + [] == [m];
    LineWritten([], key, value, unit, base + unit, nl, nl + base, (nl + base) + a);
    assert [] + (base + unit) == base + unit;
    NothingBefore(Line(base + unit, key, Pretty(value, unit, base + unit, nl)) + ((nl + base) + a));
  }

  lemma SpliceInto(text: Bytes, before: Bytes, pad: Bytes, rest: Bytes, key: Bytes, value: Value) returns (m: Member, bad: Bytes)
    requires ObjectAt(text, before, pad, [], rest) && Printable(value)
    ensures |before| < |text| == |Blank(text)|
    ensures var blank := Blank(NewText(text, |before|, key, value));
            if HasStrayComma(text, |before|) then
              blank == before + bad && NoGap(bad) && ReadNode(bad).Fail?
            else
              && blank == before + Write(Object([], [m]), rest) && MembersOk([m])
              && Decode(m.name) == Some(key) && WellFormed(m.node) && Denote(m.node) == value
  {
    InsideEmpty(text, before, pad, rest);
    var after := |before| + 1 + |pad|;
    var g, a := text[|before| + 1..after], text[after..];
    EmptyParts(text, before, pad, rest, after, g);
    var line := NewTextInto(text, |before|, after, key, value);
    var z := TrimEnd(g) + (LineBreak(text) + KeyText(line, Write(line.node, line.after + a)));
    BlankAt(text, before, pad, [], rest, z);
    m := EmptyObject(g, LineBreak(text), line, a, rest);
    bad := ['{'] + Blank(z);
    NothingBefore(WriteMembers([m], ['}'] + rest));
  }

  lemma NothingBefore(s: Bytes)
    ensures [] + s == s
  {
  }
}
