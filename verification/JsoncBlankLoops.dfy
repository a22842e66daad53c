/** The two in-place loops of `blank_jsonc`, proved against `JsoncBlank.Blank`. */
module JsoncBlankLoops {
  import opened Text
  import opened JsoncBlank

  /** Blank `buf[from..to]`, keeping line breaks. */
  method BlankRange(buf: array<Byte>, from: nat, to: nat)
    requires from <= to <= buf.Length
    modifies buf
    ensures forall k :: 0 <= k < buf.Length ==>
              buf[k] == if from <= k < to then Space(old(buf[k])) else old(buf[k])
  {
    for i := from to to
      invariant forall k :: 0 <= k < buf.Length ==>
                  buf[k] == if from <= k < i then Space(old(buf[k])) else old(buf[k])
    {
      buf[i] := Space(buf[i]);
    }
  }

  /** Where a line comment that starts at `from` ends. */
  method LineEnd(src: Bytes, from: nat) returns (i: nat)
    requires from <= |src|
    ensures i == from + LineLength(src[from..])
  {
    i := from;
    while i < |src| && src[i] != '\n'
      invariant from <= i <= |src|
      invariant i + LineLength(src[i..]) == from + LineLength(src[from..])
    {
      assert src[i..][1..] == src[i + 1..];
      i := i + 1;
    }
  }

  /** Where a block comment whose text starts at `from` ends. */
  method BlockEnd(src: Bytes, from: nat) returns (i: nat)
    requires from <= |src|
    ensures i == from + BlockLength(src[from..])
  {
    i := from;
    while i < |src| && !(src[i] == '*' && i + 1 < |src| && src[i + 1] == '/')
      invariant from <= i <= |src|
      invariant i + BlockLength(src[i..]) == from + BlockLength(src[from..])
    {
      assert src[i..][1..] == src[i + 1..];
      i := i + 1;
    }
    i := Min(i + 2, |src|);
  }

  /** Everything before `i` is final, everything from `i` on untouched. */
  ghost predicate DoneTo(now: Bytes, src: Bytes, want: Bytes, i: nat, m: Mode) {
    && i <= |src| == |now| == |want|
    && now[..i] == want[..i]
    && now[i..] == src[i..]
    && want[i..] == Uncomment(src[i..], m)
  }

  /** The next `n` bytes of the text and what becomes of them. */
  lemma Advance(now: Bytes, later: Bytes, src: Bytes, want: Bytes, i: nat, n: nat, m: Mode, piece: Bytes, m': Mode)
    requires DoneTo(now, src, want, i, m) && i + n <= |src| && |piece| == n
    requires Uncomment(src[i..], m) == piece + Uncomment(src[i + n..], m')
    requires |later| == |src| && later[..i] == now[..i] && later[i..i + n] == piece && later[i + n..] == src[i + n..]
    ensures DoneTo(later, src, want, i + n, m')
  {
    assert want[i..][n..] == want[i + n..];
    assert later[..i + n] == later[..i] + later[i..i + n];
    assert want[..i + n] == want[..i] + want[i..][..n];
  }

  /** One byte that stays, in code or in a string. */
  lemma KeepOne(now: Bytes, src: Bytes, want: Bytes, i: nat, m: Mode, m': Mode)
    requires DoneTo(now, src, want, i, m) && i < |src|
    requires Out(m, src[i], Peek(src[i..])) == src[i] && Next(m, src[i], Peek(src[i..])) == m'
    ensures DoneTo(now, src, want, i + 1, m')
  {
    assert src[i..][1..] == src[i + 1..];
    assert now[i..i + 1] == now[i..][..1] == [src[i]];
    assert now[i + 1..] == now[i..][1..];
    Advance(now, now, src, want, i, 1, m, [src[i]], m');
  }

  lemma LineBlanked(now: Bytes, later: Bytes, src: Bytes, want: Bytes, i: nat, j: nat)
    requires DoneTo(now, src, want, i, Code) && i + 1 < |src| && src[i] == '/' && src[i + 1] == '/'
    requires j == i + LineLength(src[i..])
    requires |later| == |now|
    requires forall k :: 0 <= k < |now| ==> later[k] == if i <= k < j then Space(now[k]) else now[k]
    ensures DoneTo(later, src, want, j, Code)
  {
    var s, n := src[i..], j - i;
    InLineBlanks(s);
    assert Uncomment(s, Code) == Uncomment(s, InLine);
    assert s[n..] == src[j..];
    BlankedPiece(now, later, src, want, i, n, Code);
    Advance(now, later, src, want, i, n, Code, Spaces(s[..n]), Code);
  }

  lemma BlockBlanked(now: Bytes, later: Bytes, src: Bytes, want: Bytes, i: nat, j: nat)
    requires DoneTo(now, src, want, i, Code) && i + 1 < |src| && src[i] == '/' && src[i + 1] == '*'
    requires j == i + 2 + BlockLength(src[i + 2..])
    requires |later| == |now|
    requires forall k :: 0 <= k < |now| ==> later[k] == if i <= k < j then Space(now[k]) else now[k]
    ensures DoneTo(later, src, want, j, Code)
  {
    var s, n := src[i..], j - i;
    BlockFromStart(s);
    assert s[2..] == src[i + 2..] && s[n..] == src[j..];
    BlankedPiece(now, later, src, want, i, n, Code);
    Advance(now, later, src, want, i, n, Code, Spaces(s[..n]), Code);
  }

  /** One blanked byte in front of a blanked comment. */
  lemma OneMoreBlank(s: Bytes, n: nat, m: Mode, m': Mode)
    requires s != [] && n < |s|
    requires Out(m, s[0], Peek(s)) == Space(s[0]) && Next(m, s[0], Peek(s)) == m'
    requires Uncomment(s[1..], m') == Spaces(s[1..][..n]) + Uncomment(s[1..][n..], Code)
    ensures Uncomment(s, m) == Spaces(s[..n + 1]) + Uncomment(s[n + 1..], Code)
  {
    assert s[..n + 1][1..] == s[1..][..n];
    assert s[1..][n..] == s[n + 1..];
    ConcatAssociative([Space(s[0])], Spaces(s[1..][..n]), Uncomment(s[n + 1..], Code));
  }

  /** A block comment from its opening mark. */
  lemma BlockFromStart(s: Bytes)
    requires |s| > 1 && s[0] == '/' && s[1] == '*'
    ensures var n := 2 + BlockLength(s[2..]);
            n <= |s| && Uncomment(s, Code) == Spaces(s[..n]) + Uncomment(s[n..], Code)
  {
    var u := s[1..];
    assert u[1..] == s[2..];
    InBlockBlanks(u[1..]);
    OneMoreBlank(u, BlockLength(u[1..]), BlockOpens, InBlock);
    OneMoreBlank(s, 1 + BlockLength(u[1..]), Code, BlockOpens);
  }

  lemma BlankedPiece(now: Bytes, later: Bytes, src: Bytes, want: Bytes, i: nat, n: nat, m: Mode)
    requires DoneTo(now, src, want, i, m) && i + n <= |src|
    requires |later| == |now|
    requires forall k :: 0 <= k < |now| ==> later[k] == if i <= k < i + n then Space(now[k]) else now[k]
    ensures later[..i] == now[..i] && later[i..i + n] == Spaces(src[i..][..n]) && later[i + n..] == src[i + n..]
  {
    var s := src[i..][..n];
    SpacesLength(s);
    forall k | 0 <= k < n ensures later[i..i + n][k] == Spaces(s)[k] {
      SpacesAt(s, k);
      assert now[i..][k] == src[i..][k];
    }
    assert later[i + n..] == now[i + n..] == now[i..][n..];
  }

  /** Blank the comment that starts at `i`. */
  method BlankComment(src: Bytes, buf: array<Byte>, i: nat, ghost want: Bytes) returns (end: nat)
    requires DoneTo(buf[..], src, want, i, Code)
    requires i + 1 < |src| && src[i] == '/' && (src[i + 1] == '/' || src[i + 1] == '*')
    modifies buf
    ensures i < end && DoneTo(buf[..], src, want, end, Code)
  {
    ghost var now := buf[..];
    if src[i + 1] == '/' {
      end := LineEnd(src, i);
      BlankRange(buf, i, end);
      LineBlanked(now, buf[..], src, want, i, end);
    } else {
      end := BlockEnd(src, i + 2);
      BlankRange(buf, i, end);
      BlockBlanked(now, buf[..], src, want, i, end);
    }
  }

  /** The first loop: strings are passed over, comments blanked. */
  method UncommentLoop(src: Bytes, buf: array<Byte>)
    requires buf[..] == src
    modifies buf
    ensures buf[..] == Uncomment(src, Code)
  {
    ghost var want := Uncomment(src, Code);
    UncommentLength(src, Code);
    var i := 0;
    var inString := false;
    assert src[0..] == src;
    while i < |src|
      invariant buf.Length == |src|
      invariant i <= |src| ==> DoneTo(buf[..], src, want, i, if inString then InString else Code)
      invariant i > |src| ==> buf[..] == want
    {
      var c := src[i];
      if inString {
        if c == '\\' {
          KeepOne(buf[..], src, want, i, InString, Escaped);
          if i + 1 < |src| { KeepOne(buf[..], src, want, i + 1, Escaped, InString); }
          i := i + 2;
          continue;
        }
        KeepOne(buf[..], src, want, i, InString, if c == '"' then Code else InString);
        if c == '"' { inString := false; }
        i := i + 1;
        continue;
      }
      ghost var now := buf[..];
      if c == '"' {
        KeepOne(now, src, want, i, Code, InString);
        inString := true;
        i := i + 1;
      } else if c == '/' && i + 1 < |src| && (src[i + 1] == '/' || src[i + 1] == '*') {
        i := BlankComment(src, buf, i, want);
      } else {
        KeepOne(now, src, want, i, Code, Code);
        i := i + 1;
      }
    }
    assert buf[..] == want;
  }

  /** The same for the second pass. */
  ghost predicate CommasDoneTo(now: Bytes, src: Bytes, want: Bytes, i: nat, m: Mode) {
    && i <= |src| == |now| == |want|
    && now[..i] == want[..i]
    && now[i..] == src[i..]
    && want[i..] == Uncomma(src[i..], m)
  }

  lemma OneComma(now: Bytes, later: Bytes, src: Bytes, want: Bytes, i: nat, m: Mode)
    requires CommasDoneTo(now, src, want, i, m) && i < |src|
    requires later == now[i := if m == Code && now[i] == ',' && Closes(FirstSignificant(now[i + 1..])) then ' ' else now[i]]
    ensures CommasDoneTo(later, src, want, i + 1, NextQuote(m, src[i]))
  {
    assert now[i] == now[i..][0] == src[i];
    assert now[i + 1..] == now[i..][1..] == src[i..][1..] == src[i + 1..];
    assert later[i + 1..] == now[i + 1..];
    assert want[i..][1..] == want[i + 1..];
    assert want[i..][0] == later[i];
    assert want[..i + 1] == want[..i] + [want[i]];
    assert later[..i + 1] == now[..i] + [later[i]];
  }

  /** The second loop, over the commas that no longer stand before anything. */
  method UncommaLoop(buf: array<Byte>)
    modifies buf
    ensures buf[..] == Uncomma(old(buf[..]), Code)
  {
    ghost var src := buf[..];
    ghost var want := Uncomma(src, Code);
    UncommaLength(src, Code);
    var i := 0;
    var inString := false;
    assert src[0..] == src;
    while i < buf.Length
      invariant i <= |src| ==> CommasDoneTo(buf[..], src, want, i, if inString then InString else Code)
      invariant i > |src| ==> buf[..] == want
    {
      ghost var now := buf[..];
      var c := buf[i];
      assert c == now[i..][0] == src[i];
      if inString && c == '\\' {
        assert now[i := now[i]] == now;
        OneComma(now, now, src, want, i, InString);
        if i + 1 < buf.Length {
          assert now[i + 1 := now[i + 1]] == now;
          OneComma(now, now, src, want, i + 1, Escaped);
        }
        i := i + 2;
        continue;
      }
      ghost var m := if inString then InString else Code;
      if inString {
        if c == '"' { inString := false; }
      } else if c == '"' {
        inString := true;
      } else if c == ',' && Closes(FirstSignificant(buf[i + 1..])) {
        buf[i] := ' ';
      }
      assert buf[..] == now[i := buf[i]];
      OneComma(now, buf[..], src, want, i, m);
      i := i + 1;
    }
    assert buf[..] == want;
  }

  /** `blank_jsonc`: both loops over one buffer. */
  method BlankJsonc(text: Bytes) returns (out: Bytes)
    ensures out == Blank(text)
    ensures |out| == |text|
  {
    var buf := new Byte[|text|](i requires 0 <= i < |text| => text[i]);
    assert buf[..] == text;
    UncommentLoop(text, buf);
    UncommaLoop(buf);
    out := buf[..];
    BlankLength(text);
  }
}
