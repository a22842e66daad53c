/** Blanking JSONC text piece by piece: where a text may be cut, and in which mode the cut is. */
module JsoncSeams {
  import opened Text
  import opened JsoncBlank
  import opened JsoncFixed

  // ----- Comments -----

  /** The mode after `s`. */
  function After(s: Bytes, m: Mode): Mode {
    if s == [] then m else After(s[1..], Next(m, s[0], Peek(s)))
  }

  /** The quote mode of a mode: comments are outside strings. */
  function Outside(m: Mode): Mode { if m == InString || m == Escaped then m else Code }

  /** A byte of a comment mark. */
  predicate IsMark(c: Byte) { c == '/' || c == '*' }

  /** No comment mark crosses from `p` to `s`. */
  predicate Seam(p: Bytes, s: Bytes) {
    p == [] || s == [] || !IsMark(p[|p| - 1]) || !IsMark(s[0])
  }

  /** Across a seam the first byte is taken the same. */
  lemma SameNext(p: Bytes, s: Bytes, m: Mode)
    requires p != [] && Seam(p, s)
    ensures Next(m, p[0], Peek(p + s)) == Next(m, p[0], Peek(p))
    ensures Out(m, p[0], Peek(p + s)) == Out(m, p[0], Peek(p))
  {
  }

  lemma {:induction false} UncommentSplit(p: Bytes, s: Bytes, m: Mode)
    requires Seam(p, s)
    ensures Uncomment(p + s, m) == Uncomment(p, m) + Uncomment(s, After(p, m))
    ensures After(p + s, m) == After(s, After(p, m))
    decreases |p|
  {
    if p == [] {
      assert p + s == s;
    } else {
      var t := p + s;
      assert t[1..] == p[1..] + s && t[0] == p[0];
      SameNext(p, s, m);
      var next := Next(m, p[0], Peek(p));
      UncommentSplit(p[1..], s, next);
      ConcatAssociative([Out(m, p[0], Peek(p))], Uncomment(p[1..], next), Uncomment(s, After(p, m)));
    }
  }

  lemma {:induction false} UncommentAt(s: Bytes, m: Mode, i: nat)
    requires i < |s|
    ensures |Uncomment(s, m)| == |s| && Uncomment(s, m)[i] in [s[i], ' ']
  {
    UncommentLength(s, m);
    if i > 0 {
      UncommentAt(s[1..], Next(m, s[0], Peek(s)), i - 1);
    }
  }

  /** Quotes are where they were. */
  lemma {:induction false} UncommentQuotes(s: Bytes, m: Mode)
    ensures Quotes(Uncomment(s, m), Outside(m)) == Outside(After(s, m))
  {
    if s != [] {
      var next := Next(m, s[0], Peek(s));
      UncommentQuotes(s[1..], next);
      assert NextQuote(Outside(m), Out(m, s[0], Peek(s))) == Outside(next);
    }
  }

  // ----- Commas -----

  lemma {:induction false} UncommaAt(s: Bytes, m: Mode, i: nat)
    requires i < |s|
    ensures |Uncomma(s, m)| == |s|
    ensures Uncomma(s, m)[i] == s[i] || (s[i] == ',' && Uncomma(s, m)[i] == ' ')
  {
    UncommaLength(s, m);
    if i > 0 {
      UncommaAt(s[1..], NextQuote(m, s[0]), i - 1);
    }
  }

  lemma {:induction false} UncommaSplit(p: Bytes, s: Bytes, m: Mode)
    ensures |Uncomma(p + s, m)| == |p| + |s|
    ensures Uncomma(p + s, m)[|p|..] == Uncomma(s, Quotes(p, m))
    ensures Quotes(Uncomma(p + s, m)[..|p|], m) == Quotes(p, m)
  {
    UncommaLength(p + s, m);
    if p == [] {
      assert p + s == s;
    } else {
      var t := p + s;
      assert t[1..] == p[1..] + s;
      UncommaSplit(p[1..], s, NextQuote(m, p[0]));
      var rest := Uncomma(p[1..] + s, NextQuote(m, p[0]));
      assert Uncomma(t, m)[|p|..] == rest[|p| - 1..];
      assert Uncomma(t, m)[..|p|][1..] == rest[..|p| - 1];
    }
  }

  /** A significant byte ends `p`. */
  predicate EndsSolid(p: Bytes) { p != [] && !IsAsciiWs(p[|p| - 1]) && p[|p| - 1] != ',' }

  lemma {:induction false} SignificantInside(p: Bytes, s: Bytes)
    requires EndsSolid(p)
    ensures FirstSignificant(p + s) == FirstSignificant(p)
  {
    assert (p + s)[1..] == p[1..] + s;
    if |p| > 1 { SignificantInside(p[1..], s); }
  }

  /** What follows a significant byte does not decide about the commas before it. */
  lemma {:induction false} UncommaAfterSolid(p: Bytes, s: Bytes, m: Mode)
    requires EndsSolid(p)
    ensures Uncomma(p + s, m) == Uncomma(p, m) + Uncomma(s, Quotes(p, m))
  {
    var t := p + s;
    assert t[1..] == p[1..] + s;
    if |p| == 1 {
      assert t[1..] == s;
    } else {
      SignificantInside(p[1..], s);
      UncommaAfterSolid(p[1..], s, NextQuote(m, p[0]));
    }
  }

  /** A quote that comes first in the blanked text comes first in the text. */
  lemma {:induction false} SignificantQuote(s: Bytes)
    requires FirstSignificant(Uncomma(s, Code)) == Some('"')
    ensures FirstSignificant(s) == Some('"')
  {
    var t := Uncomma(s, Code);
    assert t[1..] == Uncomma(s[1..], NextQuote(Code, s[0]));
    if IsAsciiWs(s[0]) {
      SignificantQuote(s[1..]);
    } else if s[0] == ',' {
      CloserStays(s[1..]);
    }
  }

  lemma {:induction false} CloserStays(s: Bytes)
    requires Closes(FirstSignificant(s))
    ensures FirstSignificant(Uncomma(s, Code)) == FirstSignificant(s)
  {
    assert Uncomma(s, Code)[1..] == Uncomma(s[1..], NextQuote(Code, s[0]));
    if IsAsciiWs(s[0]) { CloserStays(s[1..]); }
  }

  // ----- Both -----

  /** A brace of the blanked text, outside strings, is a brace of the text, outside comments too. */
  lemma BraceIsCode(text: Bytes, o: nat)
    requires o < |text| && |Blank(text)| == |text| && Blank(text)[o] in ['{', '}']
    requires Quotes(Blank(text)[..o], Code) == Code
    ensures text[o] == Blank(text)[o] && After(text[..o], Code) == Code
  {
    var u := Uncomment(text, Code);
    UncommentAt(text, Code, o);
    UncommaAt(u, Code, o);
    var p, s := text[..o], text[o..];
    assert text == p + s;
    UncommentSplit(p, s, Code);
    UncommentLength(p, Code);
    var m := After(p, Code);
    assert u[o] == Uncomment(s, m)[0] == Out(m, s[0], Peek(s));
    UncommaSplit(u[..o], u[o..], Code);
    assert u == u[..o] + u[o..] && u[..o] == Uncomment(p, Code);
    UncommentQuotes(p, Code);
  }

  /** Whatever follows an opening brace is blanked on its own. */
  lemma BlankAfterBrace(text: Bytes, o: nat, z: Bytes)
    requires o < |text| && |Blank(text)| == |text| && Blank(text)[o] == '{'
    requires Quotes(Blank(text)[..o], Code) == Code
    ensures Blank(text[..o + 1] + z) == Blank(text[..o + 1]) + Blank(z)
  {
    BraceIsCode(text, o);
    var p, brace := text[..o], [text[o]];
    assert text[..o + 1] == p + brace;
    UncommentSplit(p, brace, Code);
    assert brace[1..] == [];
    assert Uncomment(brace, Code) == ['{'] + [] && After(brace, Code) == Code;
    var q := p + brace;
    UncommentSplit(q, z, Code);
    UncommentQuotes(q, Code);
    var u := Uncomment(q, Code);
    assert u[|u| - 1] == '{';
    UncommaAfterSolid(u, Uncomment(z, Code), Code);
  }

  /** A text before its closing brace does not decide about what follows. */
  lemma BlankFromBrace(text: Bytes, o: nat)
    requires o < |text| && |Blank(text)| == |text| && Blank(text)[o] == '}'
    requires Quotes(Blank(text)[..o], Code) == Code
    ensures Blank(text[o..]) == Blank(text)[o..]
  {
    BraceIsCode(text, o);
    var p, s := text[..o], text[o..];
    assert text == p + s;
    UncommentSplit(p, s, Code);
    UncommentLength(p, Code);
    UncommentQuotes(p, Code);
    UncommaSplit(Uncomment(p, Code), Uncomment(s, Code), Code);
  }
}
