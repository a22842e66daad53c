/**
 * When blanking twice is blanking once. A comma before a trailing comma is not itself trailing
 * until that one is gone; exactly the texts with such a comma change when blanked again.
 */
module JsoncTwice {
  import opened Text
  import opened JsoncBlank
  import opened JsoncSeams

  /** What comes next, apart from whitespace, is a trailing comma. */
  predicate TrailNext(s: Bytes) {
    s != [] && if IsAsciiWs(s[0]) then TrailNext(s[1..]) else s[0] == ',' && Closes(FirstSignificant(s[1..]))
  }

  /** Somewhere outside strings a comma stands before a trailing comma. */
  predicate Doubled(s: Bytes, m: Mode) {
    s != [] && ((m == Code && s[0] == ',' && TrailNext(s[1..])) || Doubled(s[1..], NextQuote(m, s[0])))
  }

  // ----- Commas -----

  lemma {:induction false} TrailIsComma(s: Bytes)
    requires TrailNext(s)
    ensures FirstSignificant(s) == Some(',')
  {
    if IsAsciiWs(s[0]) { TrailIsComma(s[1..]); }
  }

  /** A closing bracket comes next in the blanked text if it did, or if only a trailing comma was before it. */
  lemma {:induction false} ClosesAfter(s: Bytes)
    ensures Closes(FirstSignificant(Uncomma(s, Code))) <==> Closes(FirstSignificant(s)) || TrailNext(s)
  {
    if s != [] {
      ClosesAfter(s[1..]);
      var u := Uncomma(s[1..], NextQuote(Code, s[0]));
      var c := if s[0] == ',' && Closes(FirstSignificant(s[1..])) then ' ' else s[0];
      assert Uncomma(s, Code) == [c] + u && ([c] + u)[1..] == u;
    }
  }

  /** The second pass does more the second time exactly when some comma was doubled. */
  lemma {:induction false} UncommaTwice(s: Bytes, m: Mode)
    ensures Uncomma(Uncomma(s, m), m) == Uncomma(s, m) <==> !Doubled(s, m)
  {
    if s != [] {
      var c := if m == Code && s[0] == ',' && Closes(FirstSignificant(s[1..])) then ' ' else s[0];
      var next := NextQuote(m, s[0]);
      var u := Uncomma(s[1..], next);
      UncommaTwice(s[1..], next);
      assert NextQuote(m, c) == next;
      assert Uncomma(s, m) == [c] + u && ([c] + u)[1..] == u;
      var d := if m == Code && c == ',' && Closes(FirstSignificant(u)) then ' ' else c;
      assert Uncomma([c] + u, m) == [d] + Uncomma(u, next);
      SameFirst(c, u, d, Uncomma(u, next));
      if m == Code && c == ',' {
        ClosesAfter(s[1..]);
        if TrailNext(s[1..]) { TrailIsComma(s[1..]); }
      } else if m == Code && s[0] == ',' && TrailNext(s[1..]) {
        TrailIsComma(s[1..]);
      }
    }
  }

  lemma SameFirst(c: Byte, a: Bytes, d: Byte, b: Bytes)
    ensures [d] + b == [c] + a <==> d == c && b == a
  {
    if [d] + b == [c] + a {
      assert ([d] + b)[0] == d && ([c] + a)[0] == c && ([d] + b)[1..] == b && ([c] + a)[1..] == a;
    }
  }

  // ----- Comments -----

  lemma FirstOut(s: Bytes, m: Mode)
    ensures Uncomment(s, m) == [] <==> s == []
    ensures s != [] ==> Uncomment(s, m)[0] == Out(m, s[0], Peek(s))
  {
  }

  /** The first pass leaves no comment. */
  lemma {:induction false} UncommentTwice(s: Bytes, m: Mode)
    ensures Uncomment(Uncomment(s, m), Outside(m)) == Uncomment(s, m)
  {
    if s != [] {
      var c, next := Out(m, s[0], Peek(s)), Next(m, s[0], Peek(s));
      var u := Uncomment(s[1..], next);
      UncommentTwice(s[1..], next);
      FirstOut(s[1..], next);
      assert Uncomment(s, m) == [c] + u && ([c] + u)[1..] == u;
      assert Out(Outside(m), c, Peek([c] + u)) == c && Next(Outside(m), c, Peek([c] + u)) == Outside(next);
    }
  }

  /** A comma that becomes a space opens no comment. */
  lemma {:induction false} StillNoComment(t: Bytes, m: Mode)
    requires Uncomment(t, m) == t && m == Outside(m)
    ensures Uncomment(Uncomma(t, m), m) == Uncomma(t, m)
  {
    if t != [] {
      var c := if m == Code && t[0] == ',' && Closes(FirstSignificant(t[1..])) then ' ' else t[0];
      var next := NextQuote(m, t[0]);
      SameFirst(t[0], t[1..], Out(m, t[0], Peek(t)), Uncomment(t[1..], Next(m, t[0], Peek(t))));
      assert t == [t[0]] + t[1..];
      assert Next(m, t[0], Peek(t)) == next;
      StillNoComment(t[1..], next);
      var u := Uncomma(t[1..], next);
      assert Uncomma(t, m) == [c] + u && ([c] + u)[1..] == u;
      assert Out(m, c, Peek([c] + u)) == c && Next(m, c, Peek([c] + u)) == next;
    }
  }

  /** Blanking again changes nothing exactly when, comments aside, no comma stands before a trailing comma. */
  lemma BlankTwiceIff(s: Bytes)
    ensures Blank(Blank(s)) == Blank(s) <==> !Doubled(Uncomment(s, Code), Code)
  {
    var t := Uncomment(s, Code);
    UncommentTwice(s, Code);
    StillNoComment(t, Code);
    UncommaTwice(t, Code);
  }
}
