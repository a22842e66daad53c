/**
 * `rust_code_only` (crates/victauri-cli/src/main.rs): Rust source with its comments and literals
 * blanked, byte for byte. The scan goes from region to region; a region is a comment or a
 * literal, and anything else is code, one byte at a time.
 */
module RustCode {
  import opened Text
  import opened JsonTree
  import opened JsoncBlank

  predicate IsIdent(c: Byte) {
    'a' <= c <= 'z' || 'A' <= c <= 'Z' || '0' <= c <= '9' || c == '_'
  }

  // ----- Where each kind of region ends, from its text on -----

  /** A block comment, with the comments inside it, through the mark that closes the outermost. */
  function NestedLength(s: Bytes, depth: nat): (n: nat)
    ensures n <= |s|
    decreases |s|
  {
    if s == [] then 0
    else if s[0] == '/' && Peek(s) == Some('*') then 2 + NestedLength(s[2..], depth + 1)
    else if s[0] == '*' && Peek(s) == Some('/') then
      if depth <= 1 then 2 else 2 + NestedLength(s[2..], depth - 1)
    else 1 + NestedLength(s[1..], depth)
  }

  /** A string after its opening quote, through the closing one. */
  function StringLength(s: Bytes): (n: nat)
    ensures n <= |s|
  {
    if StringEnd(s).None? then |s| else StringEnd(s).value + 1
  }

  function Hashes(s: Bytes): (n: nat)
    ensures n <= |s|
  {
    if s != [] && s[0] == '#' then 1 + Hashes(s[1..]) else 0
  }

  /** A raw string after its opening quote, through a quote followed by `hashes` hashes. */
  function RawLength(s: Bytes, hashes: nat): (n: nat)
    ensures n <= |s|
  {
    if s == [] then 0
    else if s[0] == '"' && Hashes(s[1..]) >= hashes then 1 + hashes
    else 1 + RawLength(s[1..], hashes)
  }

  /** The bytes before a closing `'` or the end of the line. */
  function CharLength(s: Bytes): (n: nat)
    ensures n <= |s|
  {
    if s == [] || s[0] == '\'' || s[0] == '\n' then 0 else 1 + CharLength(s[1..])
  }

  /** How many bytes the character with this first byte takes. */
  function CharSize(c: Byte): nat {
    if c <= '\U{007F}' then 1
    else if '\U{00C0}' <= c <= '\U{00DF}' then 2
    else if '\U{00E0}' <= c <= '\U{00EF}' then 3
    else 4
  }

  // ----- Regions -----

  /** An `r` here can start a raw string: it does not end an identifier, `b` or `c` before it aside. */
  predicate RawAllowed(b: Bytes, i: nat)
    requires i < |b|
  {
    || i == 0 || !IsIdent(b[i - 1])
    || ((b[i - 1] == 'b' || b[i - 1] == 'c') && (i < 2 || !IsIdent(b[i - 2])))
  }

  /** The length of the region that starts with `s`; 0 if `s` starts with code. */
  function RegionLength(s: Bytes, rawAllowed: bool): (n: nat)
    requires s != []
    ensures n <= |s|
  {
    if s[0] == '/' && Peek(s) == Some('/') then LineLength(s)
    else if s[0] == '/' && Peek(s) == Some('*') then NestedLength(s, 0)
    else if s[0] == '"' then 1 + StringLength(s[1..])
    else if s[0] == 'r' && rawAllowed && OpensRaw(s[1..]) then
      var open := 2 + Hashes(s[1..]);
      open + RawLength(s[open..], open - 2)
    else if s[0] == '\'' && Peek(s) == Some('\\') then
      if |s| < 3 then |s| else Min(|s|, 3 + CharLength(s[3..]) + 1)
    else if s[0] == '\'' && |s| > 1 then
      var n := CharSize(s[1]);
      if 1 + n < |s| && s[1 + n] == '\'' then n + 2 else 0
    else 0
  }

  /** Hashes and a quote. */
  predicate OpensRaw(s: Bytes) { Hashes(s) < |s| && s[Hashes(s)] == '"' }

  function RegionEnd(b: Bytes, i: nat): (e: nat)
    requires i < |b|
    ensures i <= e <= |b|
  {
    i + RegionLength(b[i..], RawAllowed(b, i))
  }

  /** The code from `i` on, with everything else blanked. */
  function CodeFrom(b: Bytes, i: nat): (r: Bytes)
    requires i <= |b|
    decreases |b| - i
  {
    if i == |b| then []
    else if RegionEnd(b, i) == i then [b[i]] + CodeFrom(b, i + 1)
    else Spaces(b[i..RegionEnd(b, i)]) + CodeFrom(b, RegionEnd(b, i))
  }

  function CodeOnly(b: Bytes): Bytes { CodeFrom(b, 0) }

  // ----- Byte by byte -----

  /** The region that byte `k` lies in, when the scan is at `i`; empty if the byte is code. */
  datatype Region = Region(start: nat, end: nat)

  function Owner(b: Bytes, i: nat, k: nat): (r: Region)
    requires i <= k < |b|
    ensures i <= r.start <= k && r.end == RegionEnd(b, r.start)
    ensures if r.start == r.end then r.start == k else k < r.end
    decreases |b| - i
  {
    var e := RegionEnd(b, i);
    if e == i then if k == i then Region(i, i) else Owner(b, i + 1, k)
    else if k < e then Region(i, e) else Owner(b, e, k)
  }

  predicate IsCode(b: Bytes, i: nat, k: nat)
    requires i <= k < |b|
  {
    Owner(b, i, k).start == Owner(b, i, k).end
  }

  lemma {:induction false} CodeLength(b: Bytes, i: nat)
    requires i <= |b|
    ensures |CodeFrom(b, i)| == |b| - i
    decreases |b| - i
  {
    if i < |b| {
      var e := RegionEnd(b, i);
      if e == i {
        CodeLength(b, i + 1);
      } else {
        SpacesLength(b[i..e]);
        CodeLength(b, e);
      }
    }
  }

  /** Byte `k` of what the scan from `i` leaves. */
  ghost function ByteOf(b: Bytes, i: nat, k: nat): Byte
    requires i <= k < |b|
  {
    CodeLength(b, i);
    CodeFrom(b, i)[k - i]
  }

  lemma CodeHere(b: Bytes, i: nat)
    requires i < |b| && RegionEnd(b, i) == i
    ensures ByteOf(b, i, i) == b[i]
    ensures forall k :: i < k < |b| ==> ByteOf(b, i, k) == ByteOf(b, i + 1, k)
  {
    CodeLength(b, i);
    CodeLength(b, i + 1);
    assert CodeFrom(b, i) == [b[i]] + CodeFrom(b, i + 1);
  }

  lemma RegionHere(b: Bytes, i: nat, k: nat)
    requires i <= k < |b| && RegionEnd(b, i) > i
    ensures ByteOf(b, i, k) == if k < RegionEnd(b, i) then Space(b[k]) else ByteOf(b, RegionEnd(b, i), k)
  {
    var e := RegionEnd(b, i);
    CodeLength(b, i);
    CodeLength(b, e);
    SpacesLength(b[i..e]);
    assert CodeFrom(b, i) == Spaces(b[i..e]) + CodeFrom(b, e);
    if k < e {
      SpacesAt(b[i..e], k - i);
      assert b[i..e][k - i] == b[k];
    }
  }

  lemma {:induction false} ByteIs(b: Bytes, i: nat, k: nat)
    requires i <= k < |b|
    ensures ByteOf(b, i, k) == if IsCode(b, i, k) then b[k] else Space(b[k])
    decreases |b| - i
  {
    var e := RegionEnd(b, i);
    if e == i {
      CodeHere(b, i);
      if k > i { ByteIs(b, i + 1, k); }
    } else {
      RegionHere(b, i, k);
      if k >= e { ByteIs(b, e, k); }
    }
  }

  /** Code stays, everything else becomes a space, line breaks aside. */
  lemma CodeAt(b: Bytes, i: nat, k: nat)
    requires i <= k < |b|
    ensures |CodeFrom(b, i)| == |b| - i
    ensures CodeFrom(b, i)[k - i] == if IsCode(b, i, k) then b[k] else Space(b[k])
  {
    CodeLength(b, i);
    ByteIs(b, i, k);
  }

  /** After a byte of code the scan goes on right behind it. */
  lemma {:induction false} ScanGoesOn(b: Bytes, i: nat, k: nat, k': nat)
    requires i <= k < k' < |b| && IsCode(b, i, k)
    ensures Owner(b, i, k') == Owner(b, k + 1, k')
    decreases |b| - i
  {
    var e := RegionEnd(b, i);
    if e == i {
      if k > i { ScanGoesOn(b, i + 1, k, k'); }
    } else {
      ScanGoesOn(b, e, k, k');
    }
  }
}
