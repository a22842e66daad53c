/**
 * How the inserted text is laid out, in terms of the document's own bytes: its line breaks, the
 * indentation of the line it goes into, and the unit its lines are indented by.
 */
module JsoncInsertLayout {
  import opened Text
  import opened Json
  import opened JsoncBlank
  import opened JsoncPretty
  import opened JsoncInsert
  import KeyOrder

  // ----- Line breaks -----

  predicate CrLfAt(text: Bytes, i: int) { 0 <= i < |text| - 1 && text[i] == '\r' && text[i + 1] == '\n' }

  /** The line break of the document: with a carriage return if one of its own has it. */
  ghost predicate IsBreakOf(text: Bytes, nl: Bytes) {
    if exists i :: CrLfAt(text, i) then nl == ['\r', '\n'] else nl == ['\n']
  }

  lemma LineBreakIs(text: Bytes)
    ensures IsBreakOf(text, LineBreak(text))
  {
    assert HasCrLf(text) <==> exists i :: CrLfAt(text, i) by {
      if HasCrLf(text) {
        var i :| 0 <= i < |text| - 1 && text[i] == '\r' && text[i + 1] == '\n';
        assert CrLfAt(text, i);
      }
    }
    assert "\r\n" == ['\r', '\n'] && "\n" == ['\n'];
  }

  /** With returns: a line feed only behind one. Without: no return at all. */
  predicate Returns(s: Bytes, crlf: bool) {
    if crlf then forall i :: 0 <= i < |s| && s[i] == '\n' ==> i > 0 && s[i - 1] == '\r' else '\r' !in s
  }

  /** The line breaks of the inserted text are those of the document. */
  ghost predicate BreaksLike(text: Bytes, s: Bytes) { Returns(s, exists i :: CrLfAt(text, i)) }

  lemma ReturnsConcat(a: Bytes, b: Bytes, crlf: bool)
    requires Returns(a, crlf) && Returns(b, crlf)
    ensures Returns(a + b, crlf)
  {
  }

  predicate OneLine(s: Bytes) { '\r' !in s && '\n' !in s }

  lemma OneLineReturns(s: Bytes, crlf: bool)
    requires OneLine(s)
    ensures Returns(s, crlf)
  {
  }

  lemma OneLineConcat(a: Bytes, b: Bytes)
    requires OneLine(a) && OneLine(b)
    ensures OneLine(a + b)
  {
  }

  lemma {:induction false} EncodeOneLine(s: Bytes)
    ensures OneLine(Encode(s))
  {
    if s != [] {
      EncodeOneLine(s[1..]);
      OneLineConcat(EncodeByte(s[0]), Encode(s[1..]));
    }
  }

  lemma QuoteOneLine(s: Bytes)
    ensures OneLine(Quote(s))
  {
    EncodeOneLine(s);
  }

  lemma PlainOneLine(v: Value)
    requires Printable(v) && !IsContainer(v)
    ensures OneLine(PlainText(v))
  {
    match v
    case Str(s) => QuoteOneLine(s);
    case Num(text) => NumberIsScalar(text);
    case _ =>
  }

  lemma NumberIsScalar(s: Bytes)
    requires IsNumber(s)
    ensures OneLine(s)
  {
    ScalarText(s);
  }

  // ----- The printed value -----

  lemma {:induction false} JoinPlainOneLine(items: seq<Value>)
    requires AllPlain(items) && forall i :: 0 <= i < |items| ==> Printable(items[i])
    ensures OneLine(JoinPlain(items))
  {
    if items != [] {
      PlainOneLine(items[0]);
      if |items| > 1 { JoinPlainOneLine(items[1..]); }
    }
  }

  /** `unit` and `base` hold no line breaks, and `nl` is one. */
  predicate Fit(unit: Bytes, base: Bytes, nl: Bytes, crlf: bool) {
    OneLine(unit) && OneLine(base) && Returns(nl, crlf)
  }

  lemma Five(a: Bytes, b: Bytes, c: Bytes, d: Bytes, e: Bytes, f: Bytes, crlf: bool)
    requires Returns(a, crlf) && Returns(b, crlf) && Returns(c, crlf) && Returns(d, crlf) && Returns(e, crlf) && Returns(f, crlf)
    ensures Returns(a + b + c + d + e + f, crlf)
  {
    hide Returns;
    ReturnsConcat(a, b, crlf);
    ReturnsConcat(a + b, c, crlf);
    ReturnsConcat(a + b + c, d, crlf);
    ReturnsConcat(a + b + c + d, e, crlf);
    ReturnsConcat(a + b + c + d + e, f, crlf);
  }

  lemma OneReturns(c: Byte, crlf: bool)
    requires c != '\r' && c != '\n'
    ensures Returns([c], crlf)
  {
  }

  lemma {:induction false} PrettyReturns(v: Value, unit: Bytes, base: Bytes, nl: Bytes, crlf: bool)
    requires Printable(v) && Fit(unit, base, nl, crlf)
    ensures Returns(Pretty(v, unit, base, nl), crlf)
    decreases v, 2, 0
  {
    hide Returns;
    OneLineReturns(base, crlf);
    match v
    case Arr(items) =>
      OneReturns('[', crlf);
      OneReturns(']', crlf);
      if AllPlain(items) {
        JoinPlainOneLine(items);
        OneLineReturns(JoinPlain(items), crlf);
        ReturnsConcat(['['], JoinPlain(items), crlf);
        ReturnsConcat(['['] + JoinPlain(items), [']'], crlf);
      } else {
        OneLineConcat(base, unit);
        ItemsReturn(items, unit, base + unit, nl, crlf);
        Five(['['], nl, JoinItems(items, unit, base + unit, nl), nl, base, [']'], crlf);
      }
    case Obj(members) =>
      ObjectReturns(v, unit, base, nl, crlf);
    case _ =>
      PlainOneLine(v);
      OneLineReturns(PlainText(v), crlf);
  }

  lemma {:induction false} ItemsReturn(items: seq<Value>, unit: Bytes, inner: Bytes, nl: Bytes, crlf: bool)
    requires (forall i :: 0 <= i < |items| ==> Printable(items[i])) && Fit(unit, inner, nl, crlf)
    ensures Returns(JoinItems(items, unit, inner, nl), crlf)
    decreases items, 1, |items|
  {
    if items == [] {
    } else {
      var text := Pretty(items[0], unit, inner, nl);
      PrettyReturns(items[0], unit, inner, nl, crlf);
      OneLineReturns(inner, crlf);
      ReturnsConcat(inner, text, crlf);
      if |items| > 1 {
        ItemsReturn(items[1..], unit, inner, nl, crlf);
        LinesReturn(inner + text, nl, JoinItems(items[1..], unit, inner, nl), crlf);
      }
    }
  }

  lemma LinesReturn(first: Bytes, nl: Bytes, rest: Bytes, crlf: bool)
    requires Returns(first, crlf) && Returns(nl, crlf) && Returns(rest, crlf)
    ensures Returns(first + [','] + nl + rest, crlf)
  {
    hide Returns;
    OneReturns(',', crlf);
    ReturnsConcat(first, [','], crlf);
    ReturnsConcat(first + [','], nl, crlf);
    ReturnsConcat(first + [','] + nl, rest, crlf);
  }

  lemma ObjectReturns(v: Value, unit: Bytes, base: Bytes, nl: Bytes, crlf: bool)
    requires v.Obj? && Printable(v) && Fit(unit, base, nl, crlf)
    ensures Returns(Pretty(v, unit, base, nl), crlf)
    decreases v, 1, 0
  {
    hide Returns;
    if v.members == map[] {
      OneLineReturns("{}", crlf);
    } else {
      KeyOrder.SortedKeys(true, v.members.Keys);
      var keys := Keys(v.members);
      OneReturns('{', crlf);
      OneReturns('}', crlf);
      OneLineReturns(base, crlf);
      OneLineConcat(base, unit);
      MembersReturn(v, keys, unit, base + unit, nl, crlf);
      Five(['{'], nl, JoinMembers(v, keys, unit, base + unit, nl), nl, base, ['}'], crlf);
    }
  }

  lemma {:induction false} MembersReturn(v: Value, keys: seq<Bytes>, unit: Bytes, inner: Bytes, nl: Bytes, crlf: bool)
    requires v.Obj? && Printable(v) && Fit(unit, inner, nl, crlf) && forall k :: k in keys ==> k in v.members
    ensures Returns(JoinMembers(v, keys, unit, inner, nl), crlf)
    decreases v, 0, |keys|
  {
    if keys == [] {
    } else {
      var text := Pretty(v.members[keys[0]], unit, inner, nl);
      PrettyReturns(v.members[keys[0]], unit, inner, nl, crlf);
      LineReturns(inner, keys[0], text, crlf);
      if |keys| > 1 {
        MembersReturn(v, keys[1..], unit, inner, nl, crlf);
        LinesReturn(inner + Quote(keys[0]) + ": " + text, nl, JoinMembers(v, keys[1..], unit, inner, nl), crlf);
      }
    }
  }

  lemma LineReturns(lead: Bytes, key: Bytes, text: Bytes, crlf: bool)
    requires Returns(lead, crlf) && Returns(text, crlf)
    ensures Returns(lead + Quote(key) + ": " + text, crlf)
  {
    hide Returns, Quote;
    QuoteOneLine(key);
    OneLineReturns(Quote(key), crlf);
    OneLineReturns(": ", crlf);
    ReturnsConcat(lead, Quote(key), crlf);
    ReturnsConcat(lead + Quote(key), ": ", crlf);
    ReturnsConcat(lead + Quote(key) + ": ", text, crlf);
  }

  // ----- The line the text goes into -----

  predicate IsIndent(c: Byte) { c == ' ' || c == '\t' }

  predicate AllIndent(s: Bytes) { forall i :: 0 <= i < |s| ==> IsIndent(s[i]) }

  /** The line that holds `open` starts at `b`. */
  predicate LineFrom(text: Bytes, b: nat, open: nat)
    requires open <= |text|
  {
    b <= open && (b == 0 || text[b - 1] == '\n') && '\n' !in text[b..open]
  }

  /** `run` is all the spaces and tabs from `b` on. */
  predicate RunAt(text: Bytes, b: nat, run: Bytes) {
    b + |run| <= |text| && text[b..b + |run|] == run && AllIndent(run) && (b + |run| < |text| ==> !IsIndent(text[b + |run|]))
  }

  /** The spaces and tabs that the line of `open` starts with. */
  ghost predicate IsBaseOf(text: Bytes, open: nat, base: Bytes)
    requires open <= |text|
  {
    exists b: nat :: LineFrom(text, b, open) && RunAt(text, b, base)
  }

  lemma {:induction false} IndentIs(s: Bytes)
    ensures AllIndent(Indent(s)) && (|Indent(s)| < |s| ==> !IsIndent(s[|Indent(s)|]))
  {
    if s != [] && IsIndent(s[0]) { IndentIs(s[1..]); }
  }

  lemma {:induction false} LineStartIs(s: Bytes)
    ensures var n := LineStart(s); (n == 0 || s[n - 1] == '\n') && '\n' !in s[n..]
  {
    if s != [] && s[|s| - 1] != '\n' {
      var t := s[..|s| - 1];
      LineStartIs(t);
      assert s[LineStart(t)..] == t[LineStart(t)..] + [s[|s| - 1]];
    }
  }

  lemma LineIndentIs(text: Bytes, open: nat)
    requires open <= |text|
    ensures IsBaseOf(text, open, LineIndent(text, open)) && AllIndent(LineIndent(text, open))
  {
    var b := LineStart(text[..open]);
    LineStartIs(text[..open]);
    IndentIs(text[b..]);
    assert text[..open][b..] == text[b..open];
    assert RunAt(text, b, LineIndent(text, open));
    assert LineFrom(text, b, open);
  }

  // ----- The unit -----

  /** The line from `b` on, not the first, starts with `run`, which is not all of it. */
  predicate Indented(text: Bytes, b: nat, run: Bytes) {
    && b > 0 && run != [] && RunAt(text, b, run) && b + |run| < |text|
    && text[b - 1] == '\n' && text[b + |run|] != '\n' && !CrLfAt(text, b + |run|)
  }

  /** The first such line gives the unit: a tab if it starts with one, else its whole run; two spaces if there is none. */
  ghost predicate IsUnitOf(text: Bytes, unit: Bytes) {
    if exists b: nat, run: Bytes :: Indented(text, b, run) then
      exists b: nat, run: Bytes ::
        && Indented(text, b, run) && (forall c: nat, other: Bytes :: c < b ==> !Indented(text, c, other))
        && unit == if text[b] == '\t' then ['\t'] else run
    else unit == [' ', ' ']
  }

  /** The same for the lines from `at` on. */
  ghost predicate IsUnitFrom(text: Bytes, at: nat, unit: Bytes) {
    if exists b: nat, run: Bytes :: b >= at && Indented(text, b, run) then
      exists b: nat, run: Bytes ::
        && b >= at && Indented(text, b, run) && (forall c: nat, other: Bytes :: at <= c < b ==> !Indented(text, c, other))
        && unit == if text[b] == '\t' then ['\t'] else run
    else unit == [' ', ' ']
  }

  lemma {:induction false} LineLengthIs(s: Bytes)
    ensures var n := LineLength(s); '\n' !in s[..n] && (n < |s| ==> s[n] == '\n')
  {
    if s != [] && s[0] != '\n' {
      LineLengthIs(s[1..]);
      var n := LineLength(s);
      assert s[..n] == [s[0]] + s[1..][..n - 1];
    }
  }

  lemma RunHolds(text: Bytes, b: nat, run: Bytes, k: nat)
    requires RunAt(text, b, run) && k < |run|
    ensures IsIndent(text[b + k])
  {
    assert text[b + k] == text[b..b + |run|][k];
  }

  lemma RunIsOnly(text: Bytes, b: nat, run: Bytes, other: Bytes)
    requires RunAt(text, b, run) && RunAt(text, b, other)
    ensures run == other
  {
    if |run| < |other| {
      RunHolds(text, b, other, |run|);
    } else if |other| < |run| {
      RunHolds(text, b, run, |other|);
    }
  }

  /** The line that `s` starts with, as `lines` has it. */
  function FirstLine(s: Bytes): Bytes {
    var n := LineLength(s);
    if n < |s| && n > 0 && s[n - 1] == '\r' then s[..n - 1] else s[..n]
  }

  lemma {:induction false} IndentPrefix(line: Bytes, s: Bytes)
    requires line <= s && (|line| < |s| ==> !IsIndent(s[|line|]))
    ensures Indent(line) == Indent(s)
  {
    if line != [] && IsIndent(line[0]) { IndentPrefix(line[1..], s[1..]); }
  }

  /** Whether the line at `at` is indented, and by what. */
  lemma FirstLineIs(text: Bytes, at: nat, s: Bytes)
    requires 0 < at <= |text| && text[at - 1] == '\n' && s == text[at..]
    ensures var ws, line := Indent(FirstLine(s)), FirstLine(s);
            if ws == [] || |ws| == |line| then forall run :: !Indented(text, at, run) else Indented(text, at, ws)
  {
    var n, line, run := LineLength(s), FirstLine(s), Indent(s);
    LineLengthIs(s);
    IndentPrefix(line, s);
    IndentIs(s);
    assert RunAt(text, at, run);
    if run != [] && |run| < |line| {
      var at' := at + |run|;
      assert text[at'] == s[|run|] == s[..n][|run|];
    } else {
      forall other ensures !Indented(text, at, other) {
        if RunAt(text, at, other) { RunIsOnly(text, at, run, other); }
      }
    }
  }

  /** No line starts inside the one at `at`. */
  lemma NoneInside(text: Bytes, at: nat, s: Bytes, c: nat, run: Bytes)
    requires 0 < at <= |text| && s == text[at..] && at < c <= at + LineLength(s)
    ensures !Indented(text, c, run)
  {
    LineLengthIs(s);
    if c <= |text| { assert text[c - 1] == s[..LineLength(s)][c - 1 - at]; }
  }

  ghost predicate NoneWithin(text: Bytes, from: nat, to: nat) {
    forall c: nat, run: Bytes :: from <= c < to ==> !Indented(text, c, run)
  }

  function OneUnit(run: Bytes): Bytes { if run != [] && run[0] == '\t' then ['\t'] else run }

  /** Nothing on the line at `at` gives the unit. */
  lemma LinePassed(text: Bytes, at: nat, s: Bytes)
    requires 0 < at <= |text| && text[at - 1] == '\n' && s == text[at..]
    requires var ws := Indent(FirstLine(s)); ws == [] || |ws| == |FirstLine(s)|
    ensures NoneWithin(text, at, at + LineLength(s) + 1)
  {
    hide Indented;
    FirstLineIs(text, at, s);
    forall c: nat, run: Bytes | at <= c < at + LineLength(s) + 1 ensures !Indented(text, c, run) {
      if c > at { NoneInside(text, at, s, c, run); }
    }
  }

  lemma {:induction false} UnitFrom(text: Bytes, at: nat, s: Bytes)
    requires 0 < at <= |text| && text[at - 1] == '\n' && s == text[at..]
    ensures IsUnitFrom(text, at, IndentUnit(s))
    decreases |s|
  {
    hide Indented, IsUnitFrom, Indent, FirstLine, NoneWithin, OneUnit, IndentUnit, LineLength;
    var n, ws := LineLength(s), Indent(FirstLine(s));
    UnitUnfolds(s);
    if ws == [] || |ws| == |FirstLine(s)| {
      LinePassed(text, at, s);
      if n < |s| {
        LineLengthIs(s);
        assert s[n + 1..] == text[at + n + 1..] && text[at + n] == s[n];
        UnitFrom(text, at + n + 1, s[n + 1..]);
        LaterLines(text, at, at + n + 1, IndentUnit(s));
      } else {
        NoneAtAll(text, at);
      }
    } else {
      FirstLineIs(text, at, s);
      FirstCounts(text, at, ws, IndentUnit(s));
    }
  }

  lemma UnitUnfolds(s: Bytes)
    ensures var n, ws := LineLength(s), Indent(FirstLine(s));
            IndentUnit(s) == if ws == [] || |ws| == |FirstLine(s)| then if n == |s| then [' ', ' '] else IndentUnit(s[n + 1..])
                             else OneUnit(ws)
  {
  }

  lemma FirstCounts(text: Bytes, at: nat, run: Bytes, unit: Bytes)
    requires Indented(text, at, run) && unit == OneUnit(run)
    ensures IsUnitFrom(text, at, unit)
  {
    assert text[at] == text[at..at + |run|][0];
  }

  lemma NoneAtAll(text: Bytes, at: nat)
    requires NoneWithin(text, at, |text| + 1)
    ensures IsUnitFrom(text, at, [' ', ' '])
  {
    assert forall c: nat, run: Bytes :: c > |text| ==> !Indented(text, c, run);
  }

  lemma LaterLines(text: Bytes, at: nat, next: nat, unit: Bytes)
    requires at <= next && IsUnitFrom(text, next, unit)
    requires NoneWithin(text, at, next)
    ensures IsUnitFrom(text, at, unit)
  {
    if b: nat, run: Bytes :| b >= at && Indented(text, b, run) {
      assert b >= next;
    }
  }

  lemma DetectIndentIs(text: Bytes)
    ensures IsUnitOf(text, DetectIndent(text))
  {
    var n := LineLength(text);
    LineLengthIs(text);
    forall c: nat, run: Bytes | c <= n ensures !Indented(text, c, run) {
      if 0 < c <= |text| { assert text[c - 1] == text[..n][c - 1]; }
    }
    assert NoneWithin(text, 0, n + 1);
    if n == |text| {
      NoneAtAll(text, 0);
    } else {
      UnitFrom(text, n + 1, text[n + 1..]);
      LaterLines(text, 0, n + 1, DetectIndent(text));
    }
    FromTheStart(text, DetectIndent(text));
  }

  lemma FromTheStart(text: Bytes, unit: Bytes)
    requires IsUnitFrom(text, 0, unit)
    ensures IsUnitOf(text, unit)
  {
    assert forall b: nat, run: Bytes :: Indented(text, b, run) ==> b >= 0 && Indented(text, b, run);
  }

  // ----- A new line -----

  lemma UnitIsIndent(text: Bytes, unit: Bytes)
    requires IsUnitOf(text, unit)
    ensures AllIndent(unit)
  {
  }

  lemma IndentOneLine(s: Bytes)
    requires AllIndent(s)
    ensures OneLine(s)
  {
  }

  /** What stands before the key of a new member: a line break, the indentation of the line of `open`, and one unit more. */
  ghost predicate LeadsTo(text: Bytes, open: nat, lead: Bytes)
    requires open <= |text|
  {
    exists nl, base, unit ::
      IsBreakOf(text, nl) && IsBaseOf(text, open, base) && IsUnitOf(text, unit) && lead == nl + (base + unit)
  }

  /** Behind a new member: a comma, or a line break and the indentation of the line of `open`. */
  ghost predicate EndsLine(text: Bytes, open: nat, tail: Bytes)
    requires open <= |text|
  {
    tail == [','] || exists nl, base :: IsBreakOf(text, nl) && IsBaseOf(text, open, base) && tail == nl + base
  }

  lemma NewLineIs(text: Bytes, open: nat, key: Bytes, value: Value, printed: Bytes)
    requires open <= |text| && Printable(value)
    requires printed == Pretty(value, DetectIndent(text), LineIndent(text, open) + DetectIndent(text), LineBreak(text))
    ensures var nl, base, unit := LineBreak(text), LineIndent(text, open), DetectIndent(text);
            var lead := nl + (base + unit);
            && LeadsTo(text, open, lead) && BreaksLike(text, Line(lead, key, printed))
            && EndsLine(text, open, nl + base) && BreaksLike(text, nl + base)
  {
    hide Pretty, Returns, DetectIndent, LineIndent, LineBreak, IsBaseOf, IsUnitOf, AllIndent, OneLine;
    var nl, base, unit := LineBreak(text), LineIndent(text, open), DetectIndent(text);
    ghost var crlf := exists i :: CrLfAt(text, i);
    LineBreakIs(text);
    LineIndentIs(text, open);
    DetectIndentIs(text);
    UnitIsIndent(text, unit);
    IndentOneLine(unit);
    IndentOneLine(base);
    OneLineConcat(base, unit);
    BreakReturns(nl, crlf);
    PrettyReturns(value, unit, base + unit, nl, crlf);
    OneLineReturns(base, crlf);
    OneLineReturns(base + unit, crlf);
    ReturnsConcat(nl, base, crlf);
    ReturnsConcat(nl, base + unit, crlf);
    LineReturns(nl + (base + unit), key, printed, crlf);
  }

  lemma BreakReturns(nl: Bytes, crlf: bool)
    requires nl == if crlf then ['\r', '\n'] else ['\n']
    ensures Returns(nl, crlf)
  {
  }
}
