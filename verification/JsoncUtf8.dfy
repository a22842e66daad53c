/** Blanking JSONC keeps valid UTF-8 valid, so `blank_jsonc` never falls back to an empty string. */
module JsoncUtf8 {
  import opened Text
  import opened Utf8Text
  import opened JsoncBlank

  predicate InComment(m: Mode) { m.InLine? || m.BlockOpens? || m.InBlock? || m.BlockCloses? }

  /** The text is in state `q` and in mode `m`; its blanked form is between characters in a comment. */
  function Blanked(q: State, m: Mode): State { if InComment(m) then Start else q }

  /** The marks that open and close a comment are the bytes expected there. */
  predicate MarkNext(m: Mode, s: Bytes) {
    && (m.BlockOpens? ==> s != [] && s[0] == '*')
    && (m.BlockCloses? ==> s != [] && s[0] == '/')
  }

  lemma {:induction false} UncommentUtf8(s: Bytes, m: Mode, q: State)
    requires Sound(q) && q != Broken && MarkNext(m, s) && Steps(q, s) == Start
    ensures Steps(Blanked(q, m), Uncomment(s, m)) == Start
  {
    if s != [] {
      var c := s[0];
      var m' := Next(m, c, Peek(s));
      var q' := Step(q, c);
      BrokenStays(s[1..]);
      StepSound(q, c);
      if IsAscii(c) { AsciiAlone(q, c); }
      UncommentUtf8(s[1..], m', q');
      assert Step(Blanked(q, m), Out(m, c, Peek(s))) == Blanked(q', m');
      var u := Uncomment(s, m);
      assert u[0] == Out(m, c, Peek(s)) && u[1..] == Uncomment(s[1..], m');
    }
  }

  lemma {:induction false} UncommaUtf8(s: Bytes, m: Mode, q: State)
    requires Sound(q)
    ensures Steps(q, Uncomma(s, m)) == Steps(q, s)
  {
    if s != [] {
      StepSound(q, s[0]);
      AsciiAlone(q, ',');
      AsciiAlone(q, ' ');
      UncommaUtf8(s[1..], NextQuote(m, s[0]), Step(q, s[0]));
      assert Uncomma(s, m)[1..] == Uncomma(s[1..], NextQuote(m, s[0]));
    }
  }

  lemma BlankUtf8(text: Bytes)
    requires IsUtf8(text)
    ensures IsUtf8(Blank(text))
  {
    UncommentUtf8(text, Code, Start);
    UncommaUtf8(Uncomment(text, Code), Code, Start);
  }
}
