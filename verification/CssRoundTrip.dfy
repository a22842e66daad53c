/** Reading a recorded selector gives back what was recorded, whatever its text contains. */
module CssRoundTrip {
  import opened Text
  import Json
  import opened CssSelector

  /** NUL cannot be written in CSS: it becomes the replacement character. */
  function WithoutNul(s: string): string {
    if s == [] then [] else [if s[0] == '\0' then REPLACEMENT else s[0]] + WithoutNul(s[1..])
  }

  lemma {:induction false} WithoutNulIs(s: string)
    ensures '\0' !in s <==> WithoutNul(s) == s
  {
    if s != [] {
      WithoutNulIs(s[1..]);
      assert s == [s[0]] + s[1..];
      if '\0' in s && s[0] != '\0' { assert '\0' in s[1..]; }
      assert WithoutNul(s)[0] == if s[0] == '\0' then REPLACEMENT else s[0];
      assert WithoutNul(s)[1..] == WithoutNul(s[1..]);
    }
  }

  // ----- Escapes -----

  /** The codes that are written in hex: at most two digits, and the two line separators. */
  predicate IsShortCode(n: nat) { n < 256 || n == 0x2028 || n == 0x2029 }

  lemma HexShape(n: nat)
    requires IsShortCode(n)
    ensures n < 16 ==> HexText(n) == [Json.HexDigit(n)]
    ensures 16 <= n < 256 ==> HexText(n) == [Json.HexDigit(n / 16), Json.HexDigit(n % 16)]
    ensures n == 0x2028 ==> HexText(n) == "2028"
    ensures n == 0x2029 ==> HexText(n) == "2029"
  {
    if n >= 0x2028 {
      assert n / 16 == 0x202 && 0x202 / 16 == 0x20 && 0x20 / 16 == 2;
      assert HexText(2) == "2";
      assert HexText(0x20) == "20";
      assert HexText(0x202) == "202";
    }
  }

  lemma HexCharReads(n: nat)
    requires n < 16
    ensures Json.HexValue(Json.HexDigit(n)) == Some(n)
  {
  }

  lemma OneHexDigit(d: nat, rest: string, code: nat, k: nat)
    requires d < 16 && k > 0
    ensures ReadHex([Json.HexDigit(d)] + rest, code, k) == ReadHex(rest, code * 16 + d, k - 1)
  {
    HexCharReads(d);
    assert ([Json.HexDigit(d)] + rest)[1..] == rest;
  }

  /** No more digits. */
  lemma HexEnds(r: string, code: nat, k: nat)
    ensures ReadHex([' '] + r, code, k) == Hex(code, [' '] + r) && DropSpace([' '] + r) == r
  {
    assert ([' '] + r)[1..] == r;
  }

  lemma FirstHexDigit(d: nat, rest: string)
    requires d < 16
    ensures var h := ReadHex(rest, d, 5); ReadEscape([Json.HexDigit(d)] + rest) == Escaped(CharOf(h.code), DropSpace(h.rest))
  {
    HexCharReads(d);
    assert ([Json.HexDigit(d)] + rest)[1..] == rest;
  }

  /** Hex digits read back as their number, and take the space behind them along. */
  lemma HexReads(n: nat, r: string)
    requires IsShortCode(n)
    ensures ReadEscape(HexText(n) + ([' '] + r)) == Escaped(CharOf(n), r)
  {
    HexShape(n);
    var end := [' '] + r;
    if n < 16 {
      FirstHexDigit(n, end);
      HexEnds(r, n, 5);
    } else if n < 256 {
      TwoDigits(n / 16, n % 16, r);
    } else {
      SeparatorReads(n, r);
    }
  }

  lemma SeparatorReads(n: nat, r: string)
    requires n == 0x2028 || n == 0x2029
    ensures ReadEscape(HexText(n) + ([' '] + r)) == Escaped(CharOf(n), r)
  {
    HexShape(n);
    FourDigits(n - 0x2020, r);
    assert HexText(n) == "202" + [Json.HexDigit(n - 0x2020)];
  }

  lemma TwoDigits(c: nat, d: nat, r: string)
    requires c < 16 && d < 16
    ensures ReadEscape([Json.HexDigit(c), Json.HexDigit(d)] + ([' '] + r)) == Escaped(CharOf(c * 16 + d), r)
  {
    var end := [' '] + r;
    var rest := [Json.HexDigit(d)] + end;
    assert [Json.HexDigit(c), Json.HexDigit(d)] + end == [Json.HexDigit(c)] + rest;
    FirstHexDigit(c, rest);
    OneHexDigit(d, end, c, 5);
    HexEnds(r, c * 16 + d, 4);
  }

  lemma FourDigits(d: nat, r: string)
    requires d == 8 || d == 9
    ensures ReadEscape(("202" + [Json.HexDigit(d)]) + ([' '] + r)) == Escaped(CharOf(0x2020 + d), r)
  {
    var end := [' '] + r;
    var s3 := [Json.HexDigit(d)] + end;
    var s2 := [Json.HexDigit(2)] + s3;
    var s1 := [Json.HexDigit(0)] + s2;
    assert ("202" + [Json.HexDigit(d)]) + end == [Json.HexDigit(2)] + s1;
    FirstHexDigit(2, s1);
    OneHexDigit(0, s2, 2, 5);
    OneHexDigit(2, s3, 0x20, 4);
    OneHexDigit(d, end, 0x202, 3);
    HexEnds(r, 0x2020 + d, 2);
  }

  lemma EscapeReads(c: char, r: string)
    requires IsShortCode(c as int)
    ensures HexEscape(c) + r == ['\\'] + (HexText(c as int) + ([' '] + r))
    ensures ReadEscape(HexText(c as int) + ([' '] + r)) == Escaped(if c == '\0' then REPLACEMENT else c, r)
  {
    HexReads(c as int, r);
  }

  // ----- Strings -----

  lemma StringCharReads(c: char, r: string)
    ensures ReadString(StringChar(c) + r) == Before([if c == '\0' then REPLACEMENT else c], ReadString(r))
  {
    if c < ' ' || c == '\U{007F}' || c == '\U{2028}' || c == '\U{2029}' {
      EscapeReads(c, r);
      var s := HexText(c as int) + ([' '] + r);
      assert (['\\'] + s)[1..] == s;
    } else if c == '\\' || c == '"' {
      assert ['\\', c] + r == ['\\'] + ([c] + r) && (['\\'] + ([c] + r))[1..] == [c] + r && ([c] + r)[1..] == r;
    } else {
      assert ([c] + r)[1..] == r;
    }
  }

  /** A written string reads back, to its own closing quote and no further. */
  lemma {:induction false} StringReads(t: string, r: string)
    ensures ReadString(WriteString(t, ['"'] + r)) == Read(WithoutNul(t), r)
  {
    if t == [] {
      assert (['"'] + r)[1..] == r;
    } else {
      StringCharReads(t[0], WriteString(t[1..], ['"'] + r));
      StringReads(t[1..], r);
    }
  }

  lemma QuotedReads(t: string, r: string)
    ensures CssString(Quoted(t, r)) == Read(WithoutNul(t), r)
  {
    StringReads(t, r);
    assert Quoted(t, r)[1..] == WriteString(t, ['"'] + r);
  }

  // ----- Identifiers -----

  function Ahead(c: char, r: string): Option<string> {
    if ReadIdent(r).None? then None else Some([c] + ReadIdent(r).value)
  }

  lemma IdentCharReads(c: char, noDigit: bool, alone: bool, r: string)
    ensures ReadIdent(IdentChar(c, noDigit, alone) + r) == Ahead(if c == '\0' then REPLACEMENT else c, r)
  {
    if c == '\0' {
      assert ([REPLACEMENT] + r)[1..] == r;
    } else if c < ' ' || c == '\U{007F}' || (noDigit && IsAsciiDigit(c)) {
      EscapeReads(c, r);
      var s := HexText(c as int) + ([' '] + r);
      assert (['\\'] + s)[1..] == s;
    } else if (alone && c == '-') || !IsIdentChar(c) {
      assert ['\\', c] + r == ['\\'] + ([c] + r) && (['\\'] + ([c] + r))[1..] == [c] + r && ([c] + r)[1..] == r;
    } else {
      assert ([c] + r)[1..] == r;
    }
  }

  lemma {:induction false} IdentReads(s: string, i: nat)
    requires i <= |s|
    ensures ReadIdent(WriteIdentFrom(s, i)) == Some(WithoutNul(s[i..]))
    decreases |s| - i
  {
    if i < |s| {
      IdentCharReads(s[i], i == 0 || (i == 1 && s[0] == '-'), |s| == 1, WriteIdentFrom(s, i + 1));
      IdentReads(s, i + 1);
      assert s[i..][1..] == s[i + 1..];
    }
  }

  /** A written identifier reads back. */
  lemma IdentRoundTrips(id: string)
    requires id != []
    ensures CssIdent(WriteIdentFrom(id, 0)) == Some(WithoutNul(id))
  {
    IdentReads(id, 0);
    assert id[0..] == id;
  }

  /** It starts as an identifier may (section 4.3.9 of CSS Syntax Level 3): no digit first, nor behind a first hyphen, nor a hyphen alone. */
  lemma IdentStarts(id: string)
    requires id != []
    ensures var w := WriteIdentFrom(id, 0);
            && w != [] && !('0' <= w[0] <= '9')
            && (w[0] == '-' ==> |w| > 1 && !('0' <= w[1] <= '9'))
  {
    assert WriteIdentFrom(id, 0) == IdentChar(id[0], true, |id| == 1) + WriteIdentFrom(id, 1);
    if id[0] == '-' && |id| > 1 {
      assert WriteIdentFrom(id, 1) == IdentChar(id[1], true, false) + WriteIdentFrom(id, 2);
    }
  }

  // ----- Selectors -----

  /** What can be recorded: an id is not empty, a tag is a name. */
  predicate Recordable(r: Recorded) {
    match r
    case Id(id) => id != []
    case HasText(Tag(tag), _) => IsTag(tag)
    case Css => false
    case _ => true
  }

  /** Letters, digits and hyphens, and no hyphen first. */
  predicate IsTag(tag: string) { tag != [] && tag[0] != '-' && AllTagChars(tag) }

  predicate AllTagChars(tag: string) { forall i :: 0 <= i < |tag| ==> IsAsciiAlnum(tag[i]) || tag[i] == '-' }

  function ScopeWithoutNul(s: Scope): Scope {
    match s
    case Role(role) => Role(WithoutNul(role))
    case Tag(tag) => Tag(tag)
  }

  function RecordedWithoutNul(r: Recorded): Recorded {
    match r
    case TestId(id) => TestId(WithoutNul(id))
    case Id(id) => Id(WithoutNul(id))
    case RoleOnly(role) => RoleOnly(WithoutNul(role))
    case HasText(scope, text) => HasText(ScopeWithoutNul(scope), WithoutNul(text))
    case Css => Css
  }

  lemma HasTextReads(text: string)
    ensures HasTextSuffix(":has-text(" + Quoted(text, ")")) == Some(WithoutNul(text))
  {
    QuotedReads(text, ")");
    var s := ":has-text(" + Quoted(text, ")");
    assert s[|":has-text("|..] == Quoted(text, ")");
  }

  lemma TestIdReads(id: string)
    ensures ParseSelector(WriteSelector(TestId(id))) == TestId(WithoutNul(id))
  {
    QuotedReads(id, "]");
    var s := WriteSelector(TestId(id));
    assert s[|"[data-testid="|..] == Quoted(id, "]");
  }

  lemma IdSelectorReads(id: string)
    requires id != []
    ensures ParseSelector(WriteSelector(Id(id))) == Id(WithoutNul(id))
  {
    IdentRoundTrips(id);
    var s := WriteSelector(Id(id));
    assert s[0] == '#' && s[1..] == WriteIdentFrom(id, 0);
    assert !("[data-testid=" <= s);
  }

  lemma RoleReads(role: string, r: string)
    ensures var s := WriteScope(Role(role), r);
            TestIdOf(s).None? && IdOf(s).None? && RoleOf(s) == Read(WithoutNul(role), r)
  {
    QuotedReads(role, "]" + r);
    var s := WriteScope(Role(role), r);
    assert s[|"[role="|..] == Quoted(role, "]" + r);
    assert ("]" + r)[1..] == r;
    assert s[1] == 'r' && s[0] == '[';
    assert !("[data-testid=" <= s);
    assert !("#" <= s);
  }

  lemma {:induction false} TagLengthIs(tag: string, r: string)
    requires AllTagChars(tag) && r != [] && !(IsAsciiAlnum(r[0]) || r[0] == '-')
    ensures TagLength(tag + r) == |tag|
  {
    if tag == [] {
      assert tag + r == r;
    } else {
      assert (tag + r)[1..] == tag[1..] + r;
      TagLengthIs(tag[1..], r);
    }
  }

  /** A selector that starts with a letter or digit is none of the bracketed or hashed ones. */
  lemma TagIsFirst(s: string)
    requires s != [] && IsAsciiAlnum(s[0])
    ensures ParseSelector(s) == ParseTag(s)
  {
    assert !("[data-testid=" <= s);
    assert !("#" <= s);
    assert !("[role=" <= s);
  }

  lemma TagReads(tag: string, text: string)
    requires IsTag(tag)
    ensures ParseSelector(WriteSelector(HasText(Tag(tag), text))) == HasText(Tag(tag), WithoutNul(text))
  {
    var rest := ":has-text(" + Quoted(text, ")");
    TagLengthIs(tag, rest);
    HasTextReads(text);
    var s := tag + rest;
    assert s[..|tag|] == tag && s[|tag|..] == rest && s[0] == tag[0];
    TagIsFirst(s);
  }

  /** Every recorded selector reads back as what was recorded, NUL aside, even when a quoted value
      contains the marks of another shape. */
  lemma SelectorRoundTrips(r: Recorded)
    requires Recordable(r)
    ensures ParseSelector(WriteSelector(r)) == RecordedWithoutNul(r)
  {
    match r
    case TestId(id) => TestIdReads(id);
    case Id(id) => IdSelectorReads(id);
    case RoleOnly(role) => RoleReads(role, "");
    case HasText(Role(role), text) =>
      RoleReads(role, ":has-text(" + Quoted(text, ")"));
      HasTextReads(text);
    case HasText(Tag(tag), text) => TagReads(tag, text);
  }

  predicate NulFree(r: Recorded) { RecordedWithoutNul(r) == r }

  /** So no two different recordings are written alike. */
  lemma SelectorsAreUnambiguous(a: Recorded, b: Recorded)
    requires Recordable(a) && Recordable(b) && NulFree(a) && NulFree(b) && WriteSelector(a) == WriteSelector(b)
    ensures a == b
  {
    SelectorRoundTrips(a);
    SelectorRoundTrips(b);
  }

  /** Where a tag's name could end, no `:` stands. */
  lemma {:induction false} TagEnds(tag: string, rest: string)
    requires ':' !in tag && (rest == [] || rest[0] == '[' || rest[0] == '.')
    ensures var s := tag + rest; TagLength(s) == |s| || s[TagLength(s)] != ':'
  {
    var s := tag + rest;
    if tag == [] {
      assert s == rest;
    } else {
      assert s[1..] == tag[1..] + rest && s[0] == tag[0];
      TagEnds(tag[1..], rest);
      if IsAsciiAlnum(s[0]) || s[0] == '-' {
        assert TagLength(s) == 1 + TagLength(s[1..]);
      }
    }
  }

  /** A tag of any kind, custom elements included, with a name or classes behind it, or nothing, stays plain CSS. */
  lemma OthersStayCss(tag: string, rest: string)
    requires tag != [] && IsAsciiAlnum(tag[0]) && ':' !in tag
    requires rest == [] || rest[0] == '[' || rest[0] == '.'
    ensures ParseSelector(tag + rest) == Css
  {
    var s := tag + rest;
    TagIsFirst(s);
    TagEnds(tag, rest);
    var end := s[TagLength(s)..];
    assert !(":has-text(" <= end);
  }
}
