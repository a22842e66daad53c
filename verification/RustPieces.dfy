/**
 * Rust source as pieces of its lexical grammar, and the proof that `rust_code_only` blanks
 * exactly the comments and literals among them: nested comments, raw strings by their hashes,
 * character literals but not lifetimes.
 */
module RustPieces {
  import opened Text
  import opened JsoncBlank
  import opened JsoncTokens
  import opened RustCode

  /** What a block comment holds: bytes, and comments of its own. */
  datatype Part = Single(c: Byte) | Nested(parts: seq<Part>)

  datatype RustPiece =
    | Bare(c: Byte)
    | Line(text: Bytes)
    | Block(parts: seq<Part>)
    | Str(raw: Bytes)
    | Raw(hashes: nat, body: Bytes)
    | Char(symbol: Bytes)
    | EscapedChar(first: Byte, more: Bytes)

  // ----- Nested comments -----

  function WriteParts(parts: seq<Part>, r: Bytes): Bytes
    decreases parts
  {
    if parts == [] then r
    else
      match parts[0]
      case Single(c) => [c] + WriteParts(parts[1..], r)
      case Nested(inner) => ['/', '*'] + WriteParts(inner, ['*', '/'] + WriteParts(parts[1..], r))
  }

  predicate Starts(s: Bytes, c: Byte) { s != [] && s[0] == c }

  /** No byte forms a comment mark with the one after it. */
  predicate PartsOk(parts: seq<Part>, r: Bytes)
    decreases parts
  {
    parts != [] ==>
      var rest := WriteParts(parts[1..], r);
      && PartsOk(parts[1..], r)
      && match parts[0]
         case Single(c) => !(c == '/' && Starts(rest, '*')) && !(c == '*' && Starts(rest, '/'))
         case Nested(inner) => PartsOk(inner, ['*', '/'] + rest)
  }

  lemma TwoThen(x: Bytes, r: Bytes)
    requires |x| == 2
    ensures (x + r)[2..] == r && Peek(x + r) == Some(x[1])
  {
  }

  /** The inside of a comment leaves the level as it was. */
  lemma {:induction false} PartsPassed(parts: seq<Part>, r: Bytes, depth: nat)
    requires PartsOk(parts, r) && depth > 0
    ensures |WriteParts(parts, r)| >= |r|
    ensures NestedLength(WriteParts(parts, r), depth) == |WriteParts(parts, r)| - |r| + NestedLength(r, depth)
    decreases parts
  {
    if parts != [] {
      var rest := WriteParts(parts[1..], r);
      PartsPassed(parts[1..], r, depth);
      match parts[0]
      case Single(c) => BytePassed(c, rest, depth);
      case Nested(inner) =>
        PartsPassed(inner, ['*', '/'] + rest, depth + 1);
        TwoThen(['*', '/'], rest);
        TwoThen(['/', '*'], WriteParts(inner, ['*', '/'] + rest));
    }
  }

  lemma BytePassed(c: Byte, rest: Bytes, depth: nat)
    requires !(c == '/' && Starts(rest, '*')) && !(c == '*' && Starts(rest, '/'))
    ensures NestedLength([c] + rest, depth) == 1 + NestedLength(rest, depth)
  {
    assert ([c] + rest)[1..] == rest;
  }

  lemma BlockEnds(parts: seq<Part>, r: Bytes)
    requires PartsOk(parts, ['*', '/'] + r)
    ensures var s := ['/', '*'] + WriteParts(parts, ['*', '/'] + r); NestedLength(s, 0) == |s| - |r|
  {
    PartsPassed(parts, ['*', '/'] + r, 1);
    TwoThen(['*', '/'], r);
    TwoThen(['/', '*'], WriteParts(parts, ['*', '/'] + r));
  }

  // ----- Raw strings -----

  function HashRun(n: nat): Bytes { if n == 0 then [] else ['#'] + HashRun(n - 1) }

  lemma {:induction false} HashRunLength(n: nat, r: Bytes)
    ensures |HashRun(n)| == n
    ensures !Starts(r, '#') ==> Hashes(HashRun(n) + r) == n
    ensures Hashes(HashRun(n) + r) >= n
  {
    if n == 0 {
      assert HashRun(n) + r == r;
    } else {
      HashRunLength(n - 1, r);
      assert (HashRun(n) + r)[1..] == HashRun(n - 1) + r;
    }
  }

  /** No quote inside is followed by as many hashes as would close the string. */
  predicate BodyOk(body: Bytes, hashes: nat) {
    body != [] ==> BodyOk(body[1..], hashes) && (body[0] == '"' ==> Hashes(body[1..]) < hashes)
  }

  /** Hashes are counted up to the first other byte. */
  lemma {:induction false} HashesInside(s: Bytes, r: Bytes)
    requires Starts(r, '"')
    ensures Hashes(s + r) == Hashes(s)
  {
    if s == [] {
      assert s + r == r;
    } else {
      assert (s + r)[1..] == s[1..] + r;
      HashesInside(s[1..], r);
    }
  }

  lemma {:induction false} RawBodyPassed(body: Bytes, hashes: nat, r: Bytes)
    requires BodyOk(body, hashes)
    ensures RawLength(body + (['"'] + (HashRun(hashes) + r)), hashes) == |body| + 1 + hashes
  {
    var close := ['"'] + (HashRun(hashes) + r);
    HashRunLength(hashes, r);
    if body == [] {
      assert body + close == close && close[1..] == HashRun(hashes) + r;
    } else {
      assert (body + close)[1..] == body[1..] + close;
      HashesInside(body[1..], close);
      RawBodyPassed(body[1..], hashes, r);
    }
  }

  // ----- Pieces -----

  /** The text of a piece, followed by `r`. */
  function WritePiece(p: RustPiece, r: Bytes): Bytes {
    match p
    case Bare(c) => [c] + r
    case Line(text) => ['/', '/'] + (text + r)
    case Block(parts) => ['/', '*'] + WriteParts(parts, ['*', '/'] + r)
    case Str(raw) => ['"'] + ((raw + ['"']) + r)
    case Raw(hashes, body) => ['r'] + (HashRun(hashes) + (['"'] + (body + (['"'] + (HashRun(hashes) + r)))))
    case Char(symbol) => ['\''] + (symbol + (['\''] + r))
    case EscapedChar(first, more) => ['\'', '\\', first] + (more + (['\''] + r))
  }

  /** An `r` after `before` does not end an identifier, `b` or `c` aside. */
  predicate MayStartRaw(before: Bytes) {
    var n := |before|;
    n == 0 || !IsIdent(before[n - 1]) || ((before[n - 1] == 'b' || before[n - 1] == 'c') && (n == 1 || !IsIdent(before[n - 2])))
  }

  /** What follows a quote that opens no literal, as of a lifetime or a label: no escape, and no closing quote after one character. */
  predicate IsLifetime(r: Bytes) {
    r == [] || (r[0] != '\\' && !(CharSize(r[0]) < |r| && r[CharSize(r[0])] == '\''))
  }

  /** What a piece must be, after `before` and in front of `r`. */
  predicate PieceOk(before: Bytes, p: RustPiece, r: Bytes) {
    match p
    case Bare(c) =>
      && c != '"' && (c == '/' ==> !Starts(r, '/') && !Starts(r, '*'))
      && (c == 'r' ==> !(MayStartRaw(before) && OpensRaw(r))) && (c == '\'' ==> IsLifetime(r))
    case Line(text) => '\n' !in text && (r == [] || Starts(r, '\n'))
    case Block(parts) => PartsOk(parts, ['*', '/'] + r)
    case Str(raw) => IsLiteral(raw)
    case Raw(hashes, body) => MayStartRaw(before) && BodyOk(body, hashes)
    case Char(symbol) => symbol != [] && symbol[0] != '\\' && |symbol| == CharSize(symbol[0])
    case EscapedChar(_, more) => '\'' !in more && '\n' !in more
  }

  predicate IsRegion(p: RustPiece) { !p.Bare? }

  /** The text of the pieces. */
  function WritePieces(pieces: seq<RustPiece>): Bytes {
    if pieces == [] then [] else WritePiece(pieces[0], WritePieces(pieces[1..]))
  }

  /** The piece's own bytes. */
  function PieceText(p: RustPiece, r: Bytes): Bytes {
    var s := WritePiece(p, r);
    if |r| <= |s| then s[..|s| - |r|] else s
  }

  predicate PiecesOk(before: Bytes, pieces: seq<RustPiece>)
    decreases |pieces|
  {
    pieces != [] ==>
      var r := WritePieces(pieces[1..]);
      PieceOk(before, pieces[0], r) && PiecesOk(before + PieceText(pieces[0], r), pieces[1..])
  }

  /** Code as it is, comments and literals as spaces. */
  function CodeOf(pieces: seq<RustPiece>): Bytes {
    if pieces == [] then []
    else
      var text := PieceText(pieces[0], WritePieces(pieces[1..]));
      (if IsRegion(pieces[0]) then Spaces(text) else text) + CodeOf(pieces[1..])
  }

  // ----- Each piece is one region -----

  lemma CharLengthIs(more: Bytes, r: Bytes)
    requires '\'' !in more && '\n' !in more
    ensures CharLength(more + (['\''] + r)) == |more|
    decreases |more|
  {
    var s := more + (['\''] + r);
    if more != [] {
      assert s[1..] == more[1..] + (['\''] + r);
      CharLengthIs(more[1..], r);
    }
  }

  lemma LineRegion(text: Bytes, r: Bytes, raw: bool)
    requires '\n' !in text && (r == [] || Starts(r, '\n'))
    ensures RegionLength(WritePiece(Line(text), r), raw) == 2 + |text|
  {
    var s := ['/', '/'] + (text + r);
    assert s == (['/', '/'] + text) + r;
    LineLengthIs(['/', '/'] + text, r);
  }

  lemma StrRegion(raw: Bytes, r: Bytes, allowed: bool)
    requires IsLiteral(raw)
    ensures RegionLength(WritePiece(Str(raw), r), allowed) == 2 + |raw|
  {
    LiteralText(raw);
    EndKept(raw + ['"'], r);
    assert WritePiece(Str(raw), r)[1..] == (raw + ['"']) + r;
  }

  lemma RawRegion(hashes: nat, body: Bytes, r: Bytes)
    requires BodyOk(body, hashes)
    ensures RegionLength(WritePiece(Raw(hashes, body), r), true) == 3 + 2 * hashes + |body|
  {
    var inside := body + (['"'] + (HashRun(hashes) + r));
    var t := HashRun(hashes) + (['"'] + inside);
    var s := WritePiece(Raw(hashes, body), r);
    assert s[1..] == t;
    HashRunLength(hashes, ['"'] + inside);
    HashRunLength(hashes, r);
    assert t[hashes] == '"' && s[2 + hashes..] == inside;
    RawBodyPassed(body, hashes, r);
  }

  lemma EscapedRegion(first: Byte, more: Bytes, r: Bytes, raw: bool)
    requires '\'' !in more && '\n' !in more
    ensures RegionLength(WritePiece(EscapedChar(first, more), r), raw) == 4 + |more|
  {
    var s := WritePiece(EscapedChar(first, more), r);
    assert s[3..] == more + (['\''] + r);
    CharLengthIs(more, r);
  }

  lemma CharRegion(symbol: Bytes, r: Bytes, raw: bool)
    requires symbol != [] && symbol[0] != '\\' && |symbol| == CharSize(symbol[0])
    ensures RegionLength(WritePiece(Char(symbol), r), raw) == 2 + |symbol|
  {
    var s := WritePiece(Char(symbol), r);
    assert s[1] == symbol[0] && s[1 + |symbol|] == '\'';
  }

  lemma CodeRegion(before: Bytes, c: Byte, r: Bytes)
    requires PieceOk(before, Bare(c), r)
    ensures RegionLength(WritePiece(Bare(c), r), MayStartRaw(before)) == 0
  {
    var s := [c] + r;
    assert s[1..] == r;
    if c == '\'' && r != [] {
      assert s[1] == r[0];
      assert CharSize(r[0]) < |r| ==> s[1 + CharSize(r[0])] == r[CharSize(r[0])];
    }
  }

  /** A comment or a literal is one region, its own length; a byte of code is none. */
  lemma PieceRegion(before: Bytes, p: RustPiece, r: Bytes)
    requires PieceOk(before, p, r)
    ensures |WritePiece(p, r)| > |r|
    ensures RegionLength(WritePiece(p, r), MayStartRaw(before))
            == if IsRegion(p) then |WritePiece(p, r)| - |r| else 0
  {
    var raw := MayStartRaw(before);
    match p
    case Bare(c) => CodeRegion(before, c, r);
    case Line(text) => LineRegion(text, r, raw);
    case Block(parts) =>
      PartsPassed(parts, ['*', '/'] + r, 1);
      BlockEnds(parts, r);
    case Str(text) => StrRegion(text, r, raw);
    case Raw(hashes, body) =>
      RawRegion(hashes, body, r);
      HashRunLength(hashes, r);
    case Char(symbol) => CharRegion(symbol, r, raw);
    case EscapedChar(first, more) => EscapedRegion(first, more, r, raw);
  }

  /** `r` ends `s`. */
  predicate EndsWith(s: Bytes, r: Bytes) { |r| <= |s| && s[|s| - |r|..] == r }

  lemma EndsAfter(x: Bytes, s: Bytes, r: Bytes)
    requires EndsWith(s, r)
    ensures EndsWith(x + s, r)
  {
  }

  lemma EndsThrough(s: Bytes, mid: Bytes, r: Bytes)
    requires EndsWith(s, mid) && EndsWith(mid, r)
    ensures EndsWith(s, r)
  {
    assert s == s[..|s| - |mid|] + mid;
    EndsAfter(s[..|s| - |mid|], mid, r);
  }

  lemma {:induction false} PartsKeepTail(parts: seq<Part>, r: Bytes)
    ensures EndsWith(WriteParts(parts, r), r)
    decreases parts
  {
    if parts != [] {
      var rest := WriteParts(parts[1..], r);
      PartsKeepTail(parts[1..], r);
      match parts[0]
      case Single(c) => EndsAfter([c], rest, r);
      case Nested(inner) =>
        var close := ['*', '/'] + rest;
        EndsAfter(['*', '/'], rest, r);
        PartsKeepTail(inner, close);
        EndsThrough(WriteParts(inner, close), close, r);
        EndsAfter(['/', '*'], WriteParts(inner, close), r);
    }
  }

  lemma PieceKeepsTail(p: RustPiece, r: Bytes)
    ensures var s := WritePiece(p, r); |r| <= |s| && s == PieceText(p, r) + r
  {
    var s := WritePiece(p, r);
    assert EndsWith(s, r) by {
      if p.Block? { BlockKeepsTail(p.parts, r); }
    }
  }

  lemma BlockKeepsTail(parts: seq<Part>, r: Bytes)
    ensures EndsWith(WritePiece(Block(parts), r), r)
  {
    var close := ['*', '/'] + r;
    PartsKeepTail(parts, close);
    assert EndsWith(close, r);
    EndsThrough(WriteParts(parts, close), close, r);
    EndsAfter(['/', '*'], WriteParts(parts, close), r);
  }

  /** One turn of the scan. */
  lemma OneTurn(b: Bytes, i: nat, text: Bytes, region: bool)
    requires i + |text| <= |b| && b[i..i + |text|] == text && text != [] && (!region ==> |text| == 1)
    requires RegionLength(b[i..], RawAllowed(b, i)) == if region then |text| else 0
    ensures CodeFrom(b, i) == (if region then Spaces(text) else text) + CodeFrom(b, i + |text|)
  {
    assert RegionEnd(b, i) == if region then i + |text| else i;
    assert !region ==> text == [b[i]];
  }

  lemma RawAfter(before: Bytes, r: Bytes)
    requires r != []
    ensures RawAllowed(before + r, |before|) == MayStartRaw(before)
  {
  }

  /** The scan blanks the comments and the literals, and nothing else. */
  lemma {:induction false} CodeOfPieces(before: Bytes, pieces: seq<RustPiece>)
    requires PiecesOk(before, pieces)
    ensures CodeFrom(before + WritePieces(pieces), |before|) == CodeOf(pieces)
    decreases |pieces|
  {
    var b, i := before + WritePieces(pieces), |before|;
    if pieces != [] {
      var r := WritePieces(pieces[1..]);
      var text := PieceText(pieces[0], r);
      PieceKeepsTail(pieces[0], r);
      PieceRegion(before, pieces[0], r);
      RawAfter(before, text + r);
      assert b[i..] == text + r && b[i..i + |text|] == text;
      OneTurn(b, i, text, IsRegion(pieces[0]));
      CodeOfPieces(before + text, pieces[1..]);
      ConcatAssociative(before, text, r);
    }
  }

  /** On whole files. */
  lemma CodeOnlyOfPieces(pieces: seq<RustPiece>)
    requires PiecesOk([], pieces)
    ensures CodeOnly(WritePieces(pieces)) == CodeOf(pieces)
  {
    CodeOfPieces([], pieces);
    assert [] + WritePieces(pieces) == WritePieces(pieces);
  }
}
