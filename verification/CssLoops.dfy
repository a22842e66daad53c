/** The decoders' loops over the text, proved against `CssSelector`. */
module CssLoops {
  import opened Text
  import Json
  import opened CssSelector

  lemma MoreHex(s: string, next: nat, code: nat, left: nat)
    requires next < |s| && left > 0 && Json.HexValue(s[next]).Some?
    ensures ReadHex(s[next..], code, left) == ReadHex(s[next + 1..], code * 16 + Json.HexValue(s[next]).value, left - 1)
  {
    assert s[next..][1..] == s[next + 1..];
  }

  /** Up to five more hex digits. */
  method HexFrom(s: string, i: nat, first: nat) returns (code: nat, next: nat)
    requires i <= |s|
    ensures i <= next <= |s| && ReadHex(s[i..], first, 5) == Hex(code, s[next..])
  {
    code, next := first, i;
    var left := 5;
    while left > 0 && next < |s| && Json.HexValue(s[next]).Some?
      invariant i <= next <= |s| && 0 <= left <= 5
      invariant ReadHex(s[next..], code, left) == ReadHex(s[i..], first, 5)
      decreases left
    {
      MoreHex(s, next, code, left);
      code := code * 16 + Json.HexValue(s[next]).value;
      next := next + 1;
      left := left - 1;
    }
  }

  /** `css_escape`: the escape that starts at `i`, and where it ends. */
  method EscapeFrom(s: string, i: nat) returns (e: Escape, next: nat)
    requires i <= |s|
    ensures e == ReadEscape(s[i..])
    ensures !e.NoEscape? ==> i < next <= |s| && s[next..] == e.rest
  {
    if i == |s| {
      return NoEscape, i;
    }
    assert s[i..][1..] == s[i + 1..];
    if s[i] == '\n' {
      return Continuation(s[i + 1..]), i + 1;
    }
    if Json.HexValue(s[i]).None? {
      return Escaped(s[i], s[i + 1..]), i + 1;
    }
    var code;
    code, next := HexFrom(s, i + 1, Json.HexValue(s[i]).value);
    if next < |s| && (s[next] == ' ' || s[next] == '\t' || s[next] == '\n') {
      assert s[next..][1..] == s[next + 1..];
      next := next + 1;
    }
    e := Escaped(CharOf(code), s[next..]);
  }

  lemma BeforeTwice(a: string, b: string, r: Read)
    ensures Before(a + b, r) == Before(a, Before(b, r))
  {
    if r.Read? { ConcatAssociative(a, b, r.text); }
  }

  /** `css_string`: the decoded string and what follows its closing quote. */
  method DecodeString(s: string) returns (r: Read)
    ensures r == CssString(s)
  {
    if s == [] || s[0] != '"' {
      return Bad;
    }
    var out: string := [];
    var i := 1;
    ghost var want := ReadString(s[1..]);
    assert want.Read? ==> [] + want.text == want.text;
    while i < |s|
      invariant 1 <= i <= |s|
      invariant Before(out, ReadString(s[i..])) == want
      decreases |s| - i
    {
      assert s[i..][1..] == s[i + 1..];
      if s[i] == '"' {
        assert out + [] == out;
        return Read(out, s[i + 1..]);
      }
      if s[i] == '\\' {
        var e, next := EscapeFrom(s, i + 1);
        if e.NoEscape? {
          return Bad;
        }
        if e.Escaped? {
          BeforeTwice(out, [e.c], ReadString(s[next..]));
          out := out + [e.c];
        }
        i := next;
      } else {
        BeforeTwice(out, [s[i]], ReadString(s[i + 1..]));
        out := out + [s[i]];
        i := i + 1;
      }
    }
    return Bad;
  }

  function Joined(out: string, more: Option<string>): Option<string> {
    if more.None? then None else Some(out + more.value)
  }

  lemma JoinedOne(out: string, c: char, more: Option<string>)
    ensures Joined(out + [c], more) == Joined(out, if more.None? then None else Some([c] + more.value))
  {
    if more.Some? { ConcatAssociative(out, [c], more.value); }
  }

  /** `css_ident`: the decoded identifier, if all of `s` is one. */
  method DecodeIdent(s: string) returns (id: Option<string>)
    ensures id == CssIdent(s)
  {
    var out: string := [];
    var i := 0;
    assert s[0..] == s;
    ghost var want := ReadIdent(s);
    assert want.Some? ==> [] + want.value == want.value;
    while i < |s|
      invariant 0 <= i <= |s|
      invariant Joined(out, ReadIdent(s[i..])) == want
      decreases |s| - i
    {
      assert s[i..][1..] == s[i + 1..];
      if s[i] == '\\' {
        var e, next := EscapeFrom(s, i + 1);
        if !e.Escaped? {
          return None;
        }
        JoinedOne(out, e.c, ReadIdent(s[next..]));
        out := out + [e.c];
        i := next;
      } else if IsIdentChar(s[i]) {
        JoinedOne(out, s[i], ReadIdent(s[i + 1..]));
        out := out + [s[i]];
        i := i + 1;
      } else {
        return None;
      }
    }
    assert out + [] == out;
    return if out == [] then None else Some(out);
  }
}
