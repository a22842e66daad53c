/** `patch_optional_wiring` (crates/victauri-cli/src/main.rs): wrap the one builder call there is in code. */
module RustPatch {
  import opened Text
  import opened RustCode
  import opened RustCodeFacts
  import opened JsoncInsert
  import Layout = JsoncInsertLayout

  const BUILDER: Bytes := "tauri::Builder::default()"

  predicate OccursAt(s: Bytes, word: Bytes, at: nat) {
    at + |word| <= |s| && s[at..at + |word|] == word
  }

  /** The first place from `from` on where `word` occurs. */
  function FindFrom(s: Bytes, word: Bytes, from: nat): (at: Option<nat>)
    ensures at.Some? ==> from <= at.value && OccursAt(s, word, at.value)
    decreases |s| - from
  {
    if from + |word| > |s| then None
    else if OccursAt(s, word, from) then Some(from)
    else if from >= |s| then None
    else FindFrom(s, word, from + 1)
  }

  lemma {:induction false} FindFirst(s: Bytes, word: Bytes, from: nat, k: nat)
    requires from <= k && OccursAt(s, word, k)
    ensures FindFrom(s, word, from).Some? && FindFrom(s, word, from).value <= k
    decreases |s| - from
  {
    if !OccursAt(s, word, from) && from < |s| { FindFirst(s, word, from + 1, k); }
  }

  function WithEol(s: Bytes, eol: Bytes): Bytes {
    if s == [] then [] else (if s[0] == '\n' then eol else [s[0]]) + WithEol(s[1..], eol)
  }

  /** The content with the builder call at `at` wrapped, and the snippet behind it. */
  ghost function Wrapped(content: Bytes, at: nat, snippet: Bytes): Bytes
    requires at + |BUILDER| <= |content|
  {
    var eol := LineBreak(content);
    var out := content[..at] + ("with_victauri(" + (BUILDER + (")" + content[at + |BUILDER|..])));
    out + (if out[|out| - 1] == '\n' then [] else eol) + WithEol(snippet, eol)
  }

  ghost function PatchOptionalWiring(content: Bytes, snippet: Bytes): Option<Bytes> {
    CodeLength(content, 0);
    var code := CodeOnly(content);
    var at := FindFrom(code, BUILDER, 0);
    if at.None? || FindFrom(code, BUILDER, at.value + |BUILDER|).Some? then None
    else Some(Wrapped(content, at.value, snippet))
  }

  /** The builder call lies there, and every byte of it is code. */
  ghost predicate CallAt(content: Bytes, at: nat) {
    OccursAt(content, BUILDER, at) && forall k :: at <= k < at + |BUILDER| ==> IsCode(content, 0, k)
  }

  lemma CallIsVisible(content: Bytes, at: nat)
    ensures CallAt(content, at) <==> OccursAt(CodeOnly(content), BUILDER, at)
  {
    CodeLength(content, 0);
    var code := CodeOnly(content);
    if OccursAt(code, BUILDER, at) {
      forall k | at <= k < at + |BUILDER| ensures IsCode(content, 0, k) && content[k] == BUILDER[k - at] {
        assert code[at..at + |BUILDER|][k - at] == code[k];
        VisibleIsCode(content, k);
      }
    } else if CallAt(content, at) {
      forall k | at <= k < at + |BUILDER| ensures code[k] == BUILDER[k - at] {
        assert content[at..at + |BUILDER|][k - at] == content[k];
        CodeAt(content, 0, k);
      }
    }
  }

  /** Two builder calls do not overlap. */
  lemma CallsApart(s: Bytes, p: nat, q: nat)
    requires OccursAt(s, BUILDER, p) && OccursAt(s, BUILDER, q) && p < q
    ensures p + |BUILDER| <= q
  {
    forall j | p <= j < p + |BUILDER| ensures s[j] == BUILDER[j - p] { assert s[j] == s[p..p + |BUILDER|][j - p]; }
    assert s[q] == s[q..q + |BUILDER|][0] && s[q + 1] == s[q..q + |BUILDER|][1];
  }

  /** The only builder call in code. */
  ghost predicate OnlyCall(content: Bytes, at: nat) {
    CallAt(content, at) && forall other: nat :: CallAt(content, other) ==> other == at
  }

  lemma OnlyVisible(content: Bytes, at: nat)
    ensures OnlyCall(content, at) <==>
              OccursAt(CodeOnly(content), BUILDER, at)
              && forall other: nat :: OccursAt(CodeOnly(content), BUILDER, other) ==> other == at
  {
    forall k: nat ensures CallAt(content, k) <==> OccursAt(CodeOnly(content), BUILDER, k) { CallIsVisible(content, k); }
  }

  /** It patches exactly when there is one builder call in code, and then that one. */
  lemma PatchesTheOne(content: Bytes, snippet: Bytes)
    ensures PatchOptionalWiring(content, snippet).Some? <==> exists at: nat :: OnlyCall(content, at)
  {
    var code := CodeOnly(content);
    var first := FindFrom(code, BUILDER, 0);
    if first.Some? {
      OnlyVisible(content, first.value);
      var second := FindFrom(code, BUILDER, first.value + |BUILDER|);
      if second.None? {
        forall other: nat | OccursAt(code, BUILDER, other) ensures other == first.value { OnlyOne(code, first.value, other); }
      } else {
        forall at: nat ensures !OnlyCall(content, at) { OnlyVisible(content, at); }
      }
    } else {
      forall at: nat ensures !OnlyCall(content, at) {
        OnlyVisible(content, at);
        if OccursAt(code, BUILDER, at) { FindFirst(code, BUILDER, 0, at); }
      }
    }
  }

  // ----- What it writes -----

  /** Lines with the same text between every two of them. */
  function Joined(lines: seq<Bytes>, between: Bytes): Bytes
    requires lines != []
  {
    if |lines| == 1 then lines[0] else lines[0] + between + Joined(lines[1..], between)
  }

  /** `t` is `s` with another line break. */
  ghost predicate OtherBreaks(s: Bytes, nl: Bytes, t: Bytes) {
    exists lines: seq<Bytes> ::
      lines != [] && (forall i :: 0 <= i < |lines| ==> '\n' !in lines[i]) && Joined(lines, ['\n']) == s && Joined(lines, nl) == t
  }

  lemma {:induction false} EolJoins(s: Bytes, eol: Bytes) returns (lines: seq<Bytes>)
    ensures lines != [] && forall i :: 0 <= i < |lines| ==> '\n' !in lines[i]
    ensures Joined(lines, ['\n']) == s && Joined(lines, eol) == WithEol(s, eol)
  {
    if s == [] {
      lines := [[]];
    } else {
      var rest := EolJoins(s[1..], eol);
      if s[0] == '\n' {
        lines := [[]] + rest;
        assert lines[1..] == rest;
        assert [] + ['\n'] + s[1..] == s && [] + eol + WithEol(s[1..], eol) == WithEol(s, eol);
      } else {
        lines := [[s[0]] + rest[0]] + rest[1..];
        assert lines[1..] == rest[1..];
        JoinedLonger(s[0], rest, ['\n']);
        JoinedLonger(s[0], rest, eol);
        assert [s[0]] + s[1..] == s;
      }
    }
  }

  lemma JoinedLonger(c: Byte, lines: seq<Bytes>, between: Bytes)
    requires lines != []
    ensures Joined([[c] + lines[0]] + lines[1..], between) == [c] + Joined(lines, between)
  {
    var more := [[c] + lines[0]] + lines[1..];
    assert more[1..] == lines[1..];
    if |lines| > 1 {
      var rest := Joined(lines[1..], between);
      assert ([c] + lines[0]) + between + rest == [c] + (lines[0] + between + rest);
    }
  }

  lemma EolIsOther(s: Bytes, nl: Bytes)
    ensures OtherBreaks(s, nl, WithEol(s, nl))
  {
    var lines := EolJoins(s, nl);
  }

  /** Behind `out`: a line break if it does not end with one, and the snippet, in the line breaks of the content. */
  ghost predicate Finished(content: Bytes, snippet: Bytes, out: Bytes, end: Bytes, tail: Bytes) {
    exists nl ::
      && Layout.IsBreakOf(content, nl) && OtherBreaks(snippet, nl, tail)
      && end == if out != [] && out[|out| - 1] == '\n' then [] else nl
  }

  lemma WrappedFinishes(content: Bytes, at: nat, snippet: Bytes) returns (out: Bytes, end: Bytes, tail: Bytes)
    requires at + |BUILDER| <= |content|
    ensures Wrapped(content, at, snippet) == out + end + tail && Finished(content, snippet, out, end, tail)
    ensures out == content[..at] + ("with_victauri(" + (BUILDER + (")" + content[at + |BUILDER|..])))
  {
    hide WithEol, LineBreak, OtherBreaks, Layout.IsBreakOf;
    var nl := LineBreak(content);
    Layout.LineBreakIs(content);
    EolIsOther(snippet, nl);
    out := content[..at] + ("with_victauri(" + (BUILDER + (")" + content[at + |BUILDER|..])));
    end, tail := if out[|out| - 1] == '\n' then [] else nl, WithEol(snippet, nl);
  }

  /**
   * What it writes is the text up to the one builder call, the call wrapped, all that follows it,
   * a line break if none ends it, and the snippet, in the line breaks of the text.
   */
  lemma PatchWraps(content: Bytes, at: nat, snippet: Bytes) returns (out: Bytes, end: Bytes, tail: Bytes)
    requires OnlyCall(content, at)
    ensures content == content[..at] + (BUILDER + content[at + |BUILDER|..])
    ensures out == content[..at] + ("with_victauri(" + (BUILDER + (")" + content[at + |BUILDER|..])))
    ensures PatchOptionalWiring(content, snippet) == Some(out + end + tail) && Finished(content, snippet, out, end, tail)
  {
    hide CodeOnly, FindFrom, Wrapped, Finished;
    OnlyVisible(content, at);
    OnlyAt(CodeOnly(content), at);
    CutWord(content, BUILDER, at);
    CallFound(content, at, snippet);
    out, end, tail := WrappedFinishes(content, at, snippet);
  }

  lemma CallFound(content: Bytes, at: nat, snippet: Bytes)
    requires FindFrom(CodeOnly(content), BUILDER, 0) == Some(at)
    requires FindFrom(CodeOnly(content), BUILDER, at + |BUILDER|).None? && at + |BUILDER| <= |content|
    ensures PatchOptionalWiring(content, snippet) == Some(Wrapped(content, at, snippet))
  {
  }

  lemma CutWord(s: Bytes, word: Bytes, at: nat)
    requires OccursAt(s, word, at)
    ensures s == s[..at] + (word + s[at + |word|..])
  {
    assert s[at..] == word + s[at + |word|..];
  }

  /** A word that occurs once is found there, and not again. */
  lemma OnlyAt(code: Bytes, at: nat)
    requires OccursAt(code, BUILDER, at) && forall other: nat :: OccursAt(code, BUILDER, other) ==> other == at
    ensures FindFrom(code, BUILDER, 0) == Some(at) && FindFrom(code, BUILDER, at + |BUILDER|).None?
  {
    FindFirst(code, BUILDER, 0, at);
  }

  lemma OnlyOne(code: Bytes, first: nat, other: nat)
    requires FindFrom(code, BUILDER, 0) == Some(first) && FindFrom(code, BUILDER, first + |BUILDER|).None?
    requires OccursAt(code, BUILDER, other)
    ensures other == first
  {
    FindFirst(code, BUILDER, 0, other);
    if first < other {
      CallsApart(code, first, other);
      FindFirst(code, BUILDER, first + |BUILDER|, other);
    }
  }
}
