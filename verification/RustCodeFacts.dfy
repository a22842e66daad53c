/** What `rust_code_only` leaves: the same places, no literal and no comment, and valid UTF-8. */
module RustCodeFacts {
  import opened Text
  import opened JsonTree
  import opened JsonTreeFacts
  import opened JsoncBlank
  import opened Utf8Text
  import opened RustCode

  /** Every byte keeps its place; a byte that changes becomes a space, and line breaks never change. */
  lemma PlacesKept(b: Bytes, k: nat)
    requires k < |b|
    ensures |CodeOnly(b)| == |b|
    ensures CodeOnly(b)[k] in [b[k], ' '] && (b[k] in ['\n', '\r'] ==> CodeOnly(b)[k] == b[k])
  {
    CodeAt(b, 0, k);
  }

  /** A byte that no blank can be is code. */
  lemma VisibleIsCode(b: Bytes, k: nat)
    requires k < |b| && |CodeOnly(b)| == |b| && CodeOnly(b)[k] !in [' ', '\n', '\r']
    ensures IsCode(b, 0, k) && b[k] == CodeOnly(b)[k] && RegionEnd(b, k) == k
  {
    CodeAt(b, 0, k);
  }

  /** A region takes at least two bytes, unless the text ends before. */
  lemma RegionsAreLong(s: Bytes, rawAllowed: bool)
    requires |s| > 1 && RegionLength(s, rawAllowed) > 0
    ensures RegionLength(s, rawAllowed) >= 2
  {
    if s[0] == '/' && Peek(s) == Some('/') {
      assert LineLength(s) == 1 + LineLength(s[1..]) && LineLength(s[1..]) == 1 + LineLength(s[1..][1..]);
    }
  }

  lemma NoQuoteLeft(b: Bytes, k: nat)
    requires k < |b|
    ensures |CodeOnly(b)| == |b| && CodeOnly(b)[k] != '"'
  {
    CodeLength(b, 0);
    if CodeOnly(b)[k] == '"' {
      VisibleIsCode(b, k);
    }
  }

  lemma NoOpenerLeft(b: Bytes, k: nat)
    requires k + 1 < |b|
    ensures |CodeOnly(b)| == |b| && !(CodeOnly(b)[k] == '/' && CodeOnly(b)[k + 1] in ['/', '*'])
  {
    CodeLength(b, 0);
    var out := CodeOnly(b);
    if out[k] == '/' && out[k + 1] in ['/', '*'] {
      VisibleIsCode(b, k);
      VisibleIsCode(b, k + 1);
      OpenerIsRegion(b[k..], RawAllowed(b, k));
    }
  }

  lemma OpenerIsRegion(s: Bytes, rawAllowed: bool)
    requires |s| > 1 && s[0] == '/' && s[1] in ['/', '*']
    ensures RegionLength(s, rawAllowed) > 0
  {
  }

  /** A quote character of the code starts no character literal in what is left. */
  lemma NoCharLeft(b: Bytes, k: nat, n: nat)
    requires k + 1 < |b| && |CodeOnly(b)| == |b| && CodeOnly(b)[k] == '\''
    requires n == CharSize(CodeOnly(b)[k + 1]) && k + 1 + n < |b|
    ensures CodeOnly(b)[k + 1 + n] != '\''
  {
    var out := CodeOnly(b);
    if out[k + 1 + n] == '\'' {
      VisibleIsCode(b, k);
      VisibleIsCode(b, k + 1 + n);
      NextIsCode(b, k, n);
      CharIsRegion(b[k..], RawAllowed(b, k), n);
    }
  }

  /** The byte behind a quote is code when what would close a literal is. */
  lemma NextIsCode(b: Bytes, k: nat, n: nat)
    requires k + 1 + n < |b| == |CodeOnly(b)| && n == CharSize(CodeOnly(b)[k + 1])
    requires IsCode(b, 0, k) && IsCode(b, 0, k + 1 + n)
    ensures IsCode(b, 0, k + 1) && CodeOnly(b)[k + 1] == b[k + 1]
  {
    CodeAt(b, 0, k + 1);
    if n == 1 { NoShortRegion(b, k); }
  }

  /** Between two bytes of code with one byte between them, that one is code too. */
  lemma NoShortRegion(b: Bytes, k: nat)
    requires k + 2 < |b| && IsCode(b, 0, k) && IsCode(b, 0, k + 2)
    ensures IsCode(b, 0, k + 1)
  {
    ScanGoesOn(b, 0, k, k + 1);
    ScanGoesOn(b, 0, k, k + 2);
    if RegionEnd(b, k + 1) > k + 1 { RegionsAreLong(b[k + 1..], RawAllowed(b, k + 1)); }
  }

  lemma CharIsRegion(s: Bytes, rawAllowed: bool, n: nat)
    requires |s| > 1 && s[0] == '\'' && n == CharSize(s[1]) && 1 + n < |s| && s[1 + n] == '\''
    ensures RegionLength(s, rawAllowed) > 0
  {
  }

  lemma NoEscapeLeft(b: Bytes, k: nat)
    requires k + 1 < |b|
    ensures |CodeOnly(b)| == |b| && !(CodeOnly(b)[k] == '\'' && CodeOnly(b)[k + 1] == '\\')
  {
    CodeLength(b, 0);
    var out := CodeOnly(b);
    if out[k] == '\'' && out[k + 1] == '\\' {
      VisibleIsCode(b, k);
      VisibleIsCode(b, k + 1);
    }
  }

  /** What is left is code all through. */
  lemma AllCode(b: Bytes, k: nat)
    requires k < |b|
    ensures |CodeOnly(b)| == |b| && RegionEnd(CodeOnly(b), k) == k
  {
    CodeLength(b, 0);
    var out := CodeOnly(b);
    var s := out[k..];
    NoQuoteLeft(b, k);
    if k + 1 < |b| {
      NoOpenerLeft(b, k);
      NoEscapeLeft(b, k);
      assert s[1] == out[k + 1];
      var n := Hashes(s[1..]);
      if k + 1 + n < |b| {
        NoQuoteLeft(b, k + 1 + n);
        assert s[1..][n] == out[k + 1 + n];
      }
      if s[0] == '\'' {
        var n := CharSize(s[1]);
        if 1 + n < |s| {
          NoCharLeft(b, k, n);
          assert s[1 + n] == out[k + 1 + n];
        }
      }
    }
  }

  lemma {:induction false} AllCodeStays(b: Bytes, i: nat)
    requires i <= |b| && forall k :: i <= k < |b| ==> RegionEnd(b, k) == k
    ensures CodeFrom(b, i) == b[i..]
    decreases |b| - i
  {
    if i < |b| {
      AllCodeStays(b, i + 1);
      assert b[i..] == [b[i]] + b[i + 1..];
    }
  }

  /** A second pass changes nothing. */
  lemma Idempotent(b: Bytes)
    ensures CodeOnly(CodeOnly(b)) == CodeOnly(b)
  {
    CodeLength(b, 0);
    var out := CodeOnly(b);
    forall k | 0 <= k < |out| ensures RegionEnd(out, k) == k { AllCode(b, k); }
    AllCodeStays(out, 0);
  }

  // ----- UTF-8 -----

  lemma {:induction false} NestedEnds(s: Bytes, depth: nat)
    ensures var n := NestedLength(s, depth); n == |s| || (n > 0 && s[n - 1] == '/')
    decreases |s|
  {
    if s == [] {
    } else if s[0] == '/' && Peek(s) == Some('*') {
      NestedEnds(s[2..], depth + 1);
    } else if s[0] == '*' && Peek(s) == Some('/') {
      if depth > 1 { NestedEnds(s[2..], depth - 1); }
    } else {
      NestedEnds(s[1..], depth);
    }
  }

  lemma {:induction false} HashesAre(s: Bytes, k: nat)
    requires k < Hashes(s)
    ensures s[k] == '#'
  {
    if k > 0 { HashesAre(s[1..], k - 1); }
  }

  lemma {:induction false} RawEnds(s: Bytes, hashes: nat)
    ensures var n := RawLength(s, hashes); n == |s| || (n > 0 && s[n - 1] in ['"', '#'])
  {
    if s == [] {
    } else if s[0] == '"' && Hashes(s[1..]) >= hashes {
      if hashes > 0 { HashesAre(s[1..], hashes - 1); }
    } else {
      RawEnds(s[1..], hashes);
    }
  }

  lemma {:induction false} CharEnds(s: Bytes)
    ensures var n := CharLength(s); n == |s| || s[n] in ['\'', '\n']
  {
    if s != [] && s[0] != '\'' && s[0] != '\n' { CharEnds(s[1..]); }
  }

  lemma {:induction false} LineEnds(s: Bytes)
    ensures var n := LineLength(s); n == |s| || s[n] == '\n'
  {
    if s != [] && s[0] != '\n' { LineEnds(s[1..]); }
  }

  /** A region starts at an ASCII byte, and ends behind one, before one, or with the text. */
  predicate Boundary(s: Bytes, n: nat)
    requires n <= |s|
  {
    n == |s| || IsAscii(s[n]) || (n > 0 && IsAscii(s[n - 1]))
  }

  lemma RegionBoundary(s: Bytes, rawAllowed: bool)
    requires s != [] && RegionLength(s, rawAllowed) > 0
    ensures IsAscii(s[0]) && Boundary(s, RegionLength(s, rawAllowed))
  {
    if s[0] == '/' && Peek(s) == Some('/') {
      LineEnds(s);
    } else if s[0] == '/' && Peek(s) == Some('*') {
      NestedEnds(s, 0);
    } else if s[0] == '"' {
      if StringEnd(s[1..]).Some? { EndIsQuote(s[1..]); }
    } else if s[0] == 'r' && rawAllowed && OpensRaw(s[1..]) {
      var open := 2 + Hashes(s[1..]);
      RawEnds(s[open..], open - 2);
    } else if s[0] == '\'' && Peek(s) == Some('\\') {
      if |s| >= 3 { CharEnds(s[3..]); }
    }
  }

  /** In valid UTF-8 a boundary is between characters. */
  lemma BetweenCharacters(q: State, s: Bytes, n: nat)
    requires Sound(q) && n <= |s| && Boundary(s, n) && Steps(q, s) == Start && (n == 0 ==> q == Start || IsAscii(s[0]))
    ensures Steps(q, s[..n]) == Start && Steps(Start, s[n..]) == Start
  {
    var x, y := s[..n], s[n..];
    assert s == x + y;
    StepsSplit(q, x, y);
    StepsSound(q, x);
    if n == |s| {
      assert y == [];
    } else if IsAscii(s[n]) {
      AsciiAlone(Steps(q, x), y[0]);
      BrokenStays(y[1..]);
    } else if n > 0 {
      var w := s[..n - 1];
      assert x == w + [s[n - 1]] && [s[n - 1]][1..] == [];
      StepsSplit(q, w, [s[n - 1]]);
      StepsSound(q, w);
      AsciiAlone(Steps(q, w), s[n - 1]);
      BrokenStays(y);
    }
  }

  lemma {:induction false} SpacesUtf8(s: Bytes)
    ensures Steps(Start, Spaces(s)) == Start
  {
    if s != [] {
      SpacesUtf8(s[1..]);
      assert Spaces(s)[1..] == Spaces(s[1..]);
    }
  }

  lemma {:induction false} CodeUtf8(b: Bytes, i: nat, q: State)
    requires i <= |b| && Sound(q) && Steps(q, b[i..]) == Start
    ensures Steps(q, CodeFrom(b, i)) == Start
    decreases |b| - i
  {
    if i < |b| {
      var s, e := b[i..], RegionEnd(b, i);
      if e == i {
        assert s[1..] == b[i + 1..];
        StepSound(q, b[i]);
        CodeUtf8(b, i + 1, Step(q, b[i]));
        assert CodeFrom(b, i)[1..] == CodeFrom(b, i + 1);
      } else {
        RegionBoundary(s, RawAllowed(b, i));
        BetweenCharacters(q, s, 0);
        assert s[..0] == [];
        BetweenCharacters(q, s, e - i);
        assert s[e - i..] == b[e..];
        CodeUtf8(b, e, Start);
        SpacesUtf8(b[i..e]);
        StepsSplit(q, Spaces(b[i..e]), CodeFrom(b, e));
      }
    }
  }

  /** Valid UTF-8 stays valid, so the scan never falls back to an empty string. */
  lemma StaysUtf8(b: Bytes)
    requires IsUtf8(b)
    ensures IsUtf8(CodeOnly(b))
  {
    assert b[0..] == b;
    CodeUtf8(b, 0, Start);
  }

  // ----- Characters -----

  /** One character: valid UTF-8 of which no shorter part from its start is. */
  predicate IsOneCharacter(s: Bytes) {
    s != [] && IsUtf8(s) && forall n :: 0 < n < |s| ==> !IsUtf8(s[..n])
  }

  /** The size read off its first byte is that of the character. */
  lemma CharSizeIs(s: Bytes)
    requires IsOneCharacter(s)
    ensures |s| == CharSize(s[0])
  {
    assert s[..0] == [];
    var k := 0;
    while k < |s|
      invariant k <= |s| && (k > 0 ==> k <= CharSize(s[0]))
      invariant k > 0 && k == CharSize(s[0]) ==> Steps(Start, s[..k]) == Start
      invariant 0 < k < CharSize(s[0]) ==> Steps(Start, s[..k]).Want? && Steps(Start, s[..k]).n == CharSize(s[0]) - k
      decreases |s| - k
    {
      OneMore(s, k);
      NotBroken(s, k + 1);
      if 0 < k < |s| { assert !IsUtf8(s[..k]); }
      k := k + 1;
    }
    assert s[..|s|] == s;
  }
}
