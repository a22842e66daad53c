/**
 * `blank_jsonc` (crates/victauri-cli/src/jsonc.rs): comments and trailing commas become spaces,
 * byte for byte, so that JSONC text turns into JSON text with the same offsets.
 */
module JsoncBlank {
  import opened Text
  import opened Json

  // ----- First pass: comments -----

  /** Where the text is: plain JSON, in a string, after its backslash, or in a comment. */
  datatype Mode = Code | InString | Escaped | InLine | BlockOpens | InBlock | BlockCloses

  /** The character after the first. */
  function Peek(s: Bytes): Option<Byte> {
    if |s| > 1 then Some(s[1]) else None
  }

  function Next(m: Mode, c: Byte, next: Option<Byte>): Mode {
    match m
    case Code =>
      if c == '"' then InString
      else if c == '/' && next == Some('/') then InLine
      else if c == '/' && next == Some('*') then BlockOpens
      else Code
    case InString => if c == '\\' then Escaped else if c == '"' then Code else InString
    case Escaped => InString
    case InLine => if c == '\n' then Code else InLine
    case BlockOpens => InBlock
    case InBlock => if c == '*' && next == Some('/') then BlockCloses else InBlock
    case BlockCloses => Code
  }

  /** A blanked byte: line structure stays. */
  function Space(c: Byte): Byte { if c == '\n' || c == '\r' then c else ' ' }

  function Out(m: Mode, c: Byte, next: Option<Byte>): Byte {
    match m
    case Code => if c == '/' && (next == Some('/') || next == Some('*')) then ' ' else c
    case InString => c
    case Escaped => c
    case _ => Space(c)
  }

  /** The text with its comments blanked, from mode `m` on. */
  function Uncomment(s: Bytes, m: Mode): Bytes {
    if s == [] then []
    else [Out(m, s[0], Peek(s))] + Uncomment(s[1..], Next(m, s[0], Peek(s)))
  }

  function Spaces(s: Bytes): Bytes {
    if s == [] then [] else [Space(s[0])] + Spaces(s[1..])
  }

  // ----- Second pass: trailing commas -----

  /** What Rust's `is_ascii_whitespace` accepts: JSON whitespace and form feed. */
  predicate IsAsciiWs(c: Byte) { IsWs(c) || c == '\U{000C}' }

  /** The first byte that is not whitespace. */
  function FirstSignificant(s: Bytes): Option<Byte> {
    if s == [] then None else if IsAsciiWs(s[0]) then FirstSignificant(s[1..]) else Some(s[0])
  }

  predicate Closes(c: Option<Byte>) { c == Some('}') || c == Some(']') }

  /** In or out of a string; there are no comments any more. */
  function NextQuote(m: Mode, c: Byte): Mode {
    match m
    case InString => if c == '\\' then Escaped else if c == '"' then Code else InString
    case Escaped => InString
    case _ => if c == '"' then InString else Code
  }

  function Uncomma(s: Bytes, m: Mode): Bytes {
    if s == [] then []
    else
      [if m == Code && s[0] == ',' && Closes(FirstSignificant(s[1..])) then ' ' else s[0]]
      + Uncomma(s[1..], NextQuote(m, s[0]))
  }

  function Blank(s: Bytes): Bytes { Uncomma(Uncomment(s, Code), Code) }

  // ----- Lengths -----

  lemma {:induction false} UncommentLength(s: Bytes, m: Mode)
    ensures |Uncomment(s, m)| == |s|
  {
    if s != [] { UncommentLength(s[1..], Next(m, s[0], Peek(s))); }
  }

  lemma {:induction false} UncommaLength(s: Bytes, m: Mode)
    ensures |Uncomma(s, m)| == |s|
  {
    if s != [] { UncommaLength(s[1..], NextQuote(m, s[0])); }
  }

  /** Blanking keeps the length, so every offset. */
  lemma BlankLength(s: Bytes)
    ensures |Blank(s)| == |s|
  {
    UncommentLength(s, Code);
    UncommaLength(Uncomment(s, Code), Code);
  }

  lemma {:induction false} SpacesLength(s: Bytes)
    ensures |Spaces(s)| == |s|
  {
    if s != [] { SpacesLength(s[1..]); }
  }

  lemma {:induction false} SpacesAt(s: Bytes, k: nat)
    requires k < |s|
    ensures |Spaces(s)| == |s| && Spaces(s)[k] == Space(s[k])
  {
    SpacesLength(s);
    if k > 0 { SpacesAt(s[1..], k - 1); }
  }

  // ----- Comments, one at a time -----

  /** The length of a line comment's text: up to its newline. */
  function LineLength(s: Bytes): (n: nat)
    ensures n <= |s|
  {
    if s == [] || s[0] == '\n' then 0 else 1 + LineLength(s[1..])
  }

  /** The length of a block comment's text: through its closing mark, or to the end. */
  function BlockLength(s: Bytes): (n: nat)
    ensures n <= |s|
  {
    if s == [] then 0
    else if s[0] == '*' && Peek(s) == Some('/') then 2
    else 1 + BlockLength(s[1..])
  }

  lemma {:induction false} InLineBlanks(s: Bytes)
    ensures Uncomment(s, InLine) == Spaces(s[..LineLength(s)]) + Uncomment(s[LineLength(s)..], Code)
  {
    if s == [] {
    } else if s[0] == '\n' {
      assert s[..0] == [] && s[0..] == s;
      assert Uncomment(s, InLine) == Uncomment(s, Code);
    } else {
      var n := LineLength(s[1..]);
      InLineBlanks(s[1..]);
      assert s[..1 + n][1..] == s[1..][..n];
      assert s[1..][n..] == s[1 + n..];
    }
  }

  lemma {:induction false} InBlockBlanks(s: Bytes)
    ensures Uncomment(s, InBlock) == Spaces(s[..BlockLength(s)]) + Uncomment(s[BlockLength(s)..], Code)
  {
    if s == [] {
    } else if s[0] == '*' && Peek(s) == Some('/') {
      assert s[..2] == ['*', '/'] && s[1..][1..] == s[2..];
      assert Spaces(['*', '/']) == [' ', ' '] by {
        assert ['*', '/'][1..] == ['/'] && ['/'][1..] == [];
      }
      assert Uncomment(s, InBlock) == [' '] + Uncomment(s[1..], BlockCloses);
      assert Uncomment(s[1..], BlockCloses) == [' '] + Uncomment(s[2..], Code);
    } else {
      var n := BlockLength(s[1..]);
      InBlockBlanks(s[1..]);
      assert s[..1 + n][1..] == s[1..][..n];
      assert s[1..][n..] == s[1 + n..];
    }
  }
}
