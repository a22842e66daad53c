/**
 * Recorded selectors: how the page's observer writes them (`bestSelector`,
 * crates/victauri-plugin/src/js_bridge.rs) and how test generation reads them back
 * (`parse_recorded_selector`, crates/victauri-core/src/codegen.rs).
 */
module CssSelector {
  import opened Text
  import Json

  const REPLACEMENT: char := '\U{FFFD}'

  // ----- Writing -----

  function HexText(n: nat): string {
    if n < 16 then [Json.HexDigit(n)] else HexText(n / 16) + [Json.HexDigit(n % 16)]
  }

  /** A character by its code: a backslash, hex digits, one space. */
  function HexEscape(c: char): string { ['\\'] + (HexText(c as int) + [' ']) }

  /** How one character is written between the quotes of a CSS string. */
  function StringChar(c: char): string {
    if c < ' ' || c == '\U{007F}' || c == '\U{2028}' || c == '\U{2029}' then HexEscape(c)
    else if c == '\\' || c == '"' then ['\\', c]
    else [c]
  }

  /** The inside of a string, followed by `r`. */
  function WriteString(t: string, r: string): string {
    if t == [] then r else StringChar(t[0]) + WriteString(t[1..], r)
  }

  predicate IsAsciiDigit(c: char) { '0' <= c <= '9' }

  predicate IsAsciiAlnum(c: char) { IsAsciiDigit(c) || 'a' <= c <= 'z' || 'A' <= c <= 'Z' }

  /** A character an identifier may hold as it is. */
  predicate IsIdentChar(c: char) { c >= '\U{0080}' || c == '-' || c == '_' || IsAsciiAlnum(c) }

  /** One character of an identifier; a digit is escaped where an identifier may not start with one. */
  function IdentChar(c: char, noDigit: bool, alone: bool): string {
    if c == '\0' then [REPLACEMENT]
    else if c < ' ' || c == '\U{007F}' || (noDigit && IsAsciiDigit(c)) then HexEscape(c)
    else if alone && c == '-' then ['\\', '-']
    else if IsIdentChar(c) then [c]
    else ['\\', c]
  }

  /** The identifier from its `i`-th character on (section 2.1 of CSSOM, "serialize an identifier"). */
  function WriteIdentFrom(s: string, i: nat): string
    requires i <= |s|
    decreases |s| - i
  {
    if i == |s| then []
    else IdentChar(s[i], i == 0 || (i == 1 && s[0] == '-'), |s| == 1) + WriteIdentFrom(s, i + 1)
  }

  datatype Scope = Role(role: string) | Tag(tag: string)

  /** What a selector says, and how it was written. */
  datatype Recorded = TestId(id: string) | Id(id: string) | RoleOnly(role: string) | HasText(scope: Scope, text: string) | Css

  function Quoted(t: string, r: string): string { ['"'] + WriteString(t, ['"'] + r) }

  function WriteScope(scope: Scope, r: string): string {
    match scope
    case Role(role) => "[role=" + Quoted(role, "]" + r)
    case Tag(tag) => tag + r
  }

  /** The selector the observer records. */
  function WriteSelector(r: Recorded): string
    requires !r.Css?
  {
    match r
    case TestId(id) => "[data-testid=" + Quoted(id, "]")
    case Id(id) => "#" + WriteIdentFrom(id, 0)
    case RoleOnly(role) => WriteScope(Role(role), "")
    case HasText(scope, text) => WriteScope(scope, ":has-text(" + Quoted(text, ")"))
  }

  // ----- Reading -----

  /** Up to `k` more hex digits. */
  datatype Hex = Hex(code: nat, rest: string)

  function ReadHex(s: string, code: nat, k: nat): (h: Hex)
    ensures |h.rest| <= |s|
    decreases k
  {
    if k > 0 && s != [] && Json.HexValue(s[0]).Some? then ReadHex(s[1..], code * 16 + Json.HexValue(s[0]).value, k - 1)
    else Hex(code, s)
  }

  function CharOf(code: nat): char {
    if code == 0 || 0xD800 <= code < 0xE000 || code >= 0x110000 then REPLACEMENT else code as char
  }

  /** An escape after its backslash: nothing left, a line continuation, or a character. */
  datatype Escape = NoEscape | Continuation(rest: string) | Escaped(c: char, rest: string)

  /** One optional whitespace character. */
  function DropSpace(s: string): (r: string)
    ensures |r| <= |s|
  {
    if s != [] && (s[0] == ' ' || s[0] == '\t' || s[0] == '\n') then s[1..] else s
  }

  function ReadEscape(s: string): (e: Escape)
    ensures !e.NoEscape? ==> |e.rest| < |s|
  {
    if s == [] then NoEscape
    else if s[0] == '\n' then Continuation(s[1..])
    else if Json.HexValue(s[0]).None? then Escaped(s[0], s[1..])
    else
      var h := ReadHex(s[1..], Json.HexValue(s[0]).value, 5);
      Escaped(CharOf(h.code), DropSpace(h.rest))
  }

  datatype Read = Bad | Read(text: string, rest: string)

  function Before(prefix: string, r: Read): Read { if r.Bad? then Bad else Read(prefix + r.text, r.rest) }

  /** A double-quoted string after its opening quote. */
  function ReadString(s: string): Read
    decreases |s|
  {
    if s == [] then Bad
    else if s[0] == '"' then Read([], s[1..])
    else if s[0] == '\\' then
      match ReadEscape(s[1..])
      case NoEscape => Bad
      case Continuation(rest) => ReadString(rest)
      case Escaped(c, rest) => Before([c], ReadString(rest))
    else Before([s[0]], ReadString(s[1..]))
  }

  function CssString(s: string): Read {
    if s == [] || s[0] != '"' then Bad else ReadString(s[1..])
  }

  /** An identifier's characters, to the end of `s`. */
  function ReadIdent(s: string): Option<string>
    decreases |s|
  {
    if s == [] then Some([])
    else if s[0] == '\\' then
      match ReadEscape(s[1..])
      case Escaped(c, rest) =>
        var more := ReadIdent(rest);
        if more.None? then None else Some([c] + more.value)
      case _ => None
    else if IsIdentChar(s[0]) then
      var more := ReadIdent(s[1..]);
      if more.None? then None else Some([s[0]] + more.value)
    else None
  }

  function CssIdent(s: string): Option<string> {
    var id := ReadIdent(s);
    if id.Some? && id.value != [] then id else None
  }

  function Strip(prefix: string, s: string): Option<string> {
    if prefix <= s then Some(s[|prefix|..]) else None
  }

  function HasTextSuffix(s: string): Option<string> {
    var rest := Strip(":has-text(", s);
    if rest.None? then None
    else
      var r := CssString(rest.value);
      if r.Read? && r.rest == ")" then Some(r.text) else None
  }

  /** How many characters could name a tag. */
  function TagLength(s: string): (n: nat)
    ensures n <= |s|
  {
    if s != [] && (IsAsciiAlnum(s[0]) || s[0] == '-') then 1 + TagLength(s[1..]) else 0
  }

  function ParseTag(s: string): Recorded {
    var n := TagLength(s);
    var text := HasTextSuffix(s[n..]);
    if n > 0 && text.Some? then HasText(Tag(s[..n]), text.value) else Css
  }

  function ParseRole(role: string, rest: string): Recorded {
    if rest == [] then RoleOnly(role)
    else
      var text := HasTextSuffix(rest);
      if text.Some? then HasText(Role(role), text.value) else Css
  }

  function TestIdOf(s: string): Option<string> {
    var rest := Strip("[data-testid=", s);
    if rest.None? then None
    else
      var r := CssString(rest.value);
      if r.Read? && r.rest == "]" then Some(r.text) else None
  }

  function IdOf(s: string): Option<string> {
    var rest := Strip("#", s);
    if rest.None? then None else CssIdent(rest.value)
  }

  /** A role, and what follows its bracket. */
  function RoleOf(s: string): Read {
    var rest := Strip("[role=", s);
    if rest.None? then Bad
    else
      var r := CssString(rest.value);
      if r.Bad? then Bad
      else
        var after := Strip("]", r.rest);
        if after.None? then Bad else Read(r.text, after.value)
  }

  function ParseSelector(s: string): Recorded {
    if TestIdOf(s).Some? then TestId(TestIdOf(s).value)
    else if IdOf(s).Some? then Id(IdOf(s).value)
    else if RoleOf(s).Read? then ParseRole(RoleOf(s).text, RoleOf(s).rest)
    else ParseTag(s)
  }
}
