/** What blanking makes of the spliced text: the old blanked text with one more member in it. */
module JsoncInsertText {
  import opened Text
  import opened Json
  import opened JsonTree
  import opened JsoncBlank
  import opened JsoncFixed
  import opened JsoncSeams
  import opened JsoncPretty
  import opened JsoncPrettyMeans
  import opened JsonSplice
  import opened JsoncInsert
  import opened Whitespace

  // ----- The trimmed end -----

  /** A byte of a whitespace character. */
  predicate SpaceByte(c: Byte) { '\t' <= c <= '\r' || c == ' ' || c >= '\U{0080}' }

  predicate SpaceBytes(s: Bytes) { forall i :: 0 <= i < |s| ==> SpaceByte(s[i]) }

  lemma LastIsSpace(s: Bytes)
    ensures SpaceBytes(s[|s| - LastSpace(s)..])
  {
  }

  lemma SpacesJoin(s: Bytes, k: nat, n: nat)
    requires k <= n <= |s| && SpaceBytes(s[..n][k..]) && SpaceBytes(s[n..])
    ensures SpaceBytes(s[k..])
  {
    assert s[k..] == s[..n][k..] + s[n..];
  }

  lemma {:induction false} TrimmedIsSpace(s: Bytes)
    ensures SpaceBytes(s[|TrimEnd(s)|..])
  {
    var n := LastSpace(s);
    if n > 0 {
      var t := s[..|s| - n];
      TrimmedIsSpace(t);
      LastIsSpace(s);
      SpacesJoin(s, |TrimEnd(t)|, |s| - n);
    }
  }

  /** Whitespace that ends outside comments began there, or in a comment that ends with its line. */
  lemma {:induction false} SpaceEndsInCode(w: Bytes, m: Mode)
    requires SpaceBytes(w) && After(w, m) == Code
    ensures m in {Code, InLine, BlockCloses}
  {
    if w != [] { SpaceEndsInCode(w[1..], Next(m, w[0], Peek(w))); }
  }

  lemma {:induction false} SpaceHasNoComma(w: Bytes, m: Mode)
    requires SpaceBytes(w)
    ensures ',' !in Uncomment(w, m)
  {
    if w != [] {
      SpaceHasNoComma(w[1..], Next(m, w[0], Peek(w)));
      assert Uncomment(w, m) == [Out(m, w[0], Peek(w))] + Uncomment(w[1..], Next(m, w[0], Peek(w)));
    }
  }

  predicate IsLineBreak(nl: Bytes) { nl == "\n" || nl == "\r\n" }

  /** A line break leaves every such mode. */
  lemma BreakEndsComment(nl: Bytes, y: Bytes, m: Mode)
    requires IsLineBreak(nl) && m in {Code, InLine, BlockCloses}
    ensures Uncomment(nl + y, m) == nl + Uncomment(y, Code)
  {
    if nl == "\n" {
      assert (nl + y)[1..] == y;
    } else {
      var t := ['\n'] + y;
      assert (nl + y)[1..] == t && t[1..] == y;
      assert Uncomment(t, if m == InLine then InLine else Code) == ['\n'] + Uncomment(y, Code);
      assert Uncomment(nl + y, m) == ['\r'] + (['\n'] + Uncomment(y, Code));
    }
  }

  /** What was between the braces, without its trailing whitespace, and then a new line. */
  lemma KeptBlanks(g: Bytes, nl: Bytes, y: Bytes)
    requires After(g, Code) == Code && IsLineBreak(nl)
    ensures var kept := Uncomment(TrimEnd(g), Code);
            && Uncomment(TrimEnd(g) + (nl + y), Code) == kept + (nl + Uncomment(y, Code))
            && kept <= Uncomment(g, Code)
            && (',' in kept <==> ',' in Uncomment(g, Code))
  {
    var h := TrimEnd(g);
    var w := g[|h|..];
    assert g == h + w;
    TrimmedIsSpace(g);
    UncommentSplit(h, w, Code);
    var m := After(h, Code);
    SpaceEndsInCode(w, m);
    SpaceHasNoComma(w, m);
    BreakEndsComment(nl, y, m);
    UncommentSplit(h, nl + y, Code);
  }

  // ----- Between the braces of an empty object -----

  /** Only whitespace, and commas that blanking removes. */
  predicate WsOrCommas(s: Bytes) { forall i :: 0 <= i < |s| ==> IsWs(s[i]) || s[i] == ',' }

  lemma PadIsBlanked(g: Bytes, rest: Bytes, pad: Bytes)
    requires AllWs(pad) && |g| == |pad| && pad <= Uncomma(g + rest, Code)
    ensures WsOrCommas(g)
  {
    forall i | 0 <= i < |g| ensures IsWs(g[i]) || g[i] == ',' {
      UncommaAt(g + rest, Code, i);
      assert (g + rest)[i] == g[i] && Uncomma(g + rest, Code)[i] == pad[i];
    }
  }

  function FirstComma(s: Bytes): (n: nat)
    requires ',' in s
    ensures n < |s| && s[n] == ',' && ',' !in s[..n]
  {
    if s[0] == ',' then 0 else
      assert s == [s[0]] + s[1..];
      var n := FirstComma(s[1..]);
      assert s[..n + 1] == [s[0]] + s[1..][..n];
      n + 1
  }

  lemma {:induction false} KeptSignificant(v: Bytes, t: Bytes)
    requires WsOrCommas(v) && FirstSignificant(t) == Some('"')
    ensures !Closes(FirstSignificant(v + t))
  {
    if v == [] {
      assert v + t == t;
    } else {
      assert (v + t)[1..] == v[1..] + t;
      KeptSignificant(v[1..], t);
    }
  }

  /** A comma kept before the new member stays, and nothing can read it. */
  lemma StrayComma(v: Bytes, t: Bytes)
    requires WsOrCommas(v) && ',' in v && FirstSignificant(t) == Some('"')
    ensures ReadNode(['{'] + Uncomma(v + t, Code)).Fail?
  {
    var n := FirstComma(v);
    var gap, more := v[..n], v[n + 1..];
    assert AllWs(gap);
    assert v + t == gap + ([','] + (more + t));
    WsFixed(gap, [','] + (more + t));
    KeptSignificant(more, t);
    CommaFixed(more + t);
    CommaFirst(gap, Uncomma(more + t, Code));
  }

  // ----- The new member -----

  /** How the new member lies in the text. */
  ghost function NewMember(lead: Bytes, key: Bytes, value: Value, unit: Bytes, member: Bytes, nl: Bytes, after: Bytes): Member {
    Member(lead, Encode(key), [], " ", Tree(value, unit, member, nl), after)
  }

  lemma NewMemberOk(lead: Bytes, key: Bytes, value: Value, unit: Bytes, member: Bytes, nl: Bytes, after: Bytes)
    requires AllWs(lead) && AllWs(after) && Printable(value) && Layout(unit, member, nl)
    ensures var m := NewMember(lead, key, value, unit, member, nl, after);
            && WellFormed(m.node) && Denote(m.node) == value && Decode(m.name) == Some(key)
            && forall inner :: MembersOk(inner) ==> MembersOk([m] + inner)
  {
    DecodeEncode(key);
    TreeMeans(value, unit, member, nl);
    var m := NewMember(lead, key, value, unit, member, nl, after);
    forall inner | MembersOk(inner) ensures MembersOk([m] + inner) {
      assert ([m] + inner)[1..] == inner;
    }
  }

  /** The line of the new member is its text. */
  lemma LineWritten(lead: Bytes, key: Bytes, value: Value, unit: Bytes, member: Bytes, nl: Bytes, after: Bytes, r: Bytes)
    ensures var m := NewMember(lead + member, key, value, unit, member, nl, after);
            lead + (Line(member, key, Pretty(value, unit, member, nl)) + r) == KeyText(m, Write(m.node, r))
  {
    PrettyWritten(value, unit, member, nl, r);
    MemberNests(lead, member, Encode(key), Pretty(value, unit, member, nl), r);
  }

  // ----- The text after the brace -----

  /** Before other members: the new one, its comma, and the rest as it was. */
  lemma BlankBeforeMembers(m: Member, inner: seq<Member>, text: Bytes, r: Bytes)
    requires MembersOk([m]) && inner != [] && MembersOk(inner) && Blank(text) == WriteMembers(inner, r) && m.after == []
    ensures Blank(KeyText(m, Write(m.node, [','] + text))) == WriteMembers([m] + inner, r)
  {
    var u := Uncomment(text, Code);
    KeyOpens(inner[0], Write(inner[0].node, inner[0].after + WriteMoreMembers(inner[1..], r)));
    SignificantQuote(u);
    CommaFixed(text);
    NodeFixed(m.node, [','] + text);
    KeyFixed(m, Write(m.node, [','] + text));
    CommaFixed(u);
    NodeFixed(m.node, [','] + u);
    KeyFixed(m, Write(m.node, [','] + u));
    assert ([m] + inner)[1..] == inner;
    assert [] + ([','] + WriteMembers(inner, r)) == [','] + WriteMembers(inner, r);
  }

  /** In an empty object: the new member alone, on lines of its own. */
  lemma BlankAlone(kept: Bytes, nl: Bytes, m: Member, tail: Bytes)
    requires MembersOk([m]) && AllWs(kept) && AllWs(nl)
    ensures var alone := m.(lead := kept + (nl + m.lead));
            Uncomma(kept + (nl + KeyText(m, Write(m.node, m.after + tail))), Code)
            == WriteMembers([alone], Uncomma(tail, Code))
  {
    var alone := m.(lead := kept + (nl + m.lead));
    WsFixed(m.after, tail);
    NodeFixed(m.node, m.after + tail);
    KeyFixed(m, Write(m.node, m.after + tail));
    WsFixed(nl, KeyText(m, Write(m.node, m.after + tail)));
    WsFixed(kept, nl + KeyText(m, Write(m.node, m.after + tail)));
    assert [alone][1..] == [];
    LeadGrows(kept, nl, m, Write(m.node, m.after + Uncomma(tail, Code)));
  }

  lemma LeadGrows(kept: Bytes, nl: Bytes, m: Member, value: Bytes)
    ensures kept + (nl + KeyText(m, value)) == KeyText(m.(lead := kept + (nl + m.lead)), value)
  {
  }

  lemma UncommentMember(m: Member, tail: Bytes)
    requires MembersOk([m])
    ensures Uncomment(KeyText(m, Write(m.node, m.after + tail)), Code)
            == KeyText(m, Write(m.node, m.after + Uncomment(tail, Code)))
  {
    WsFixed(m.after, tail);
    NodeFixed(m.node, m.after + tail);
    KeyFixed(m, Write(m.node, m.after + tail));
  }
}
