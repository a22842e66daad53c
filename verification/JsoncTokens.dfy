/**
 * JSONC text as pieces: what `blank_jsonc` promises of it. Every piece keeps its place and its
 * length; only comments and trailing commas change, and they become whitespace.
 */
module JsoncTokens {
  import opened Text
  import opened Json
  import opened JsonTree
  import opened JsoncBlank
  import opened JsoncFixed

  /** One byte of a token or a gap, a string, a comma, a comment. */
  datatype Piece =
    | Plain(c: Byte)
    | Literal(raw: Bytes)
    | Comma
    | LineComment(line: Bytes)
    | BlockComment(block: Bytes)

  predicate IsComment(p: Piece) { p.LineComment? || p.BlockComment? }

  predicate Whole(p: Piece) {
    match p
    case Plain(c) => Inert(c)
    case Literal(raw) => IsLiteral(raw)
    case Comma => true
    case LineComment(line) => '\n' !in line
    case BlockComment(block) => HoldsNoClose(block)
  }

  /** What may stand between quotes: no quote but behind a backslash, and no backslash alone at the end. */
  predicate IsLiteral(raw: Bytes)
    decreases |raw|
  {
    raw != [] ==>
      if raw[0] == '\\' then |raw| > 1 && IsLiteral(raw[2..]) else raw[0] != '"' && IsLiteral(raw[1..])
  }

  /** No mark that closes a comment. */
  predicate HoldsNoClose(block: Bytes) {
    forall i :: 0 <= i < |block| - 1 ==> block[i] != '*' || block[i + 1] != '/'
  }

  /** Whole pieces; a line comment lasts to the end of its line. */
  predicate Proper(pieces: seq<Piece>) {
    pieces != [] ==>
      && Whole(pieces[0]) && Proper(pieces[1..])
      && (pieces[0].LineComment? ==> |pieces| == 1 || pieces[1] == Plain('\n'))
  }

  function Source(p: Piece): Bytes {
    match p
    case Plain(c) => [c]
    case Literal(raw) => ['"'] + (raw + ['"'])
    case Comma => [',']
    case LineComment(line) => ['/'] + (['/'] + line)
    case BlockComment(block) => ['/'] + (['*'] + (block + ['*', '/']))
  }

  function Render(pieces: seq<Piece>): Bytes {
    if pieces == [] then [] else Source(pieces[0]) + Render(pieces[1..])
  }

  /** The first piece that is neither a comment nor whitespace. */
  function NextPiece(pieces: seq<Piece>): Option<Piece> {
    if pieces == [] then None
    else if IsComment(pieces[0]) || (pieces[0].Plain? && IsAsciiWs(pieces[0].c)) then NextPiece(pieces[1..])
    else Some(pieces[0])
  }

  /** A closing bracket comes next. */
  predicate ClosesNext(pieces: seq<Piece>) {
    NextPiece(pieces) == Some(Plain('}')) || NextPiece(pieces) == Some(Plain(']'))
  }

  /** What is left of the first piece: spaces of a comment or a trailing comma, all of anything else. */
  function Left(pieces: seq<Piece>): Bytes
    requires pieces != []
  {
    if IsComment(pieces[0]) then Spaces(Source(pieces[0]))
    else if pieces[0].Comma? && ClosesNext(pieces[1..]) then [' ']
    else Source(pieces[0])
  }

  function Cleaned(pieces: seq<Piece>): Bytes {
    if pieces == [] then [] else Left(pieces) + Cleaned(pieces[1..])
  }

  // ----- First pass -----

  /** Comments blanked, commas not yet. */
  function Commentless(pieces: seq<Piece>): Bytes {
    if pieces == [] then []
    else (if IsComment(pieces[0]) then Spaces(Source(pieces[0])) else Source(pieces[0])) + Commentless(pieces[1..])
  }

  lemma {:induction false} LineLengthIs(line: Bytes, r: Bytes)
    requires '\n' !in line && (r == [] || r[0] == '\n')
    ensures LineLength(line + r) == |line|
  {
    if line == [] {
      assert line + r == r;
    } else {
      assert (line + r)[1..] == line[1..] + r;
      LineLengthIs(line[1..], r);
    }
  }

  lemma {:induction false} BlockLengthIs(s: Bytes, r: Bytes)
    requires BlockLength(s) == |s| && |s| >= 2 && s[|s| - 1] == '/' && s[|s| - 2] == '*'
    ensures BlockLength(s + r) == |s|
  {
    assert (s + r)[1..] == s[1..] + r;
    if !(s[0] == '*' && Peek(s) == Some('/')) {
      BlockLengthIs(s[1..], r);
    }
  }

  lemma {:induction false} BlockText(block: Bytes)
    requires HoldsNoClose(block)
    ensures BlockLength(block + ['*', '/']) == |block| + 2
  {
    var s := block + ['*', '/'];
    if block == [] {
      assert s == ['*', '/'];
    } else {
      assert s[1..] == block[1..] + ['*', '/'];
      assert HoldsNoClose(block[1..]);
      BlockText(block[1..]);
    }
  }

  lemma {:induction false} LiteralText(raw: Bytes)
    requires IsLiteral(raw)
    ensures StringEnd(raw + ['"']) == Some(|raw|)
    decreases |raw|
  {
    var s := raw + ['"'];
    if raw == [] {
      assert s == ['"'];
    } else {
      var size := if raw[0] == '\\' then 2 else 1;
      assert s[size..] == raw[size..] + ['"'];
      LiteralText(raw[size..]);
    }
  }

  /** The mark that opens a line comment. */
  lemma SlashSlash(t: Bytes)
    requires t != [] && t[0] == '/'
    ensures Uncomment(['/'] + t, Code) == [' '] + Uncomment(t, InLine)
  {
    assert (['/'] + t)[1..] == t;
  }

  /** The mark that opens a block comment. */
  lemma SlashStar(t: Bytes)
    ensures Uncomment(['/'] + (['*'] + t), Code) == [' '] + ([' '] + Uncomment(t, InBlock))
  {
    var u := ['*'] + t;
    assert u[1..] == t && (['/'] + u)[1..] == u;
    assert Uncomment(u, BlockOpens) == [' '] + Uncomment(t, InBlock);
  }

  lemma SpaceFirst(c: Byte, s: Bytes)
    requires c != '\n' && c != '\r'
    ensures Spaces([c] + s) == [' '] + Spaces(s)
  {
    assert ([c] + s)[1..] == s;
  }

  lemma LineCommentBlanks(line: Bytes, r: Bytes)
    requires '\n' !in line && (r == [] || r[0] == '\n')
    ensures Uncomment(Source(LineComment(line)) + r, Code) == Spaces(Source(LineComment(line))) + Uncomment(r, Code)
  {
    var s := ['/'] + line;
    var t := s + r;
    LineLengthIs(s, r);
    LineTextBlanks(t, s, r);
    SlashSlash(t);
    SpaceFirst('/', s);
    ConcatAssociative(['/'], s, r);
    ConcatAssociative([' '], Spaces(s), Uncomment(r, Code));
  }

  lemma LineTextBlanks(t: Bytes, s: Bytes, r: Bytes)
    requires t == s + r && LineLength(t) == |s|
    ensures Uncomment(t, InLine) == Spaces(s) + Uncomment(r, Code)
  {
    InLineBlanks(t);
    assert t[..|s|] == s && t[|s|..] == r;
  }

  lemma BlockTextBlanks(t: Bytes, s: Bytes, r: Bytes)
    requires t == s + r && BlockLength(t) == |s|
    ensures Uncomment(t, InBlock) == Spaces(s) + Uncomment(r, Code)
  {
    InBlockBlanks(t);
    assert t[..|s|] == s && t[|s|..] == r;
  }

  lemma BlockCommentBlanks(block: Bytes, r: Bytes)
    requires Whole(BlockComment(block))
    ensures Uncomment(Source(BlockComment(block)) + r, Code) == Spaces(Source(BlockComment(block))) + Uncomment(r, Code)
  {
    var s := block + ['*', '/'];
    BlockText(block);
    BlockLengthIs(s, r);
    BlockTextBlanks(s + r, s, r);
    SlashStar(s + r);
    SpaceFirst('*', s);
    SpaceFirst('/', ['*'] + s);
    NestRight(['/'], ['*'], s, r, [], []);
    ConcatAssociative(['/'], ['*'], s);
    NestRight([' '], [' '], Spaces(s), Uncomment(r, Code), [], []);
    ConcatAssociative([' '], [' '], Spaces(s));
  }

  lemma LiteralPasses(raw: Bytes, r: Bytes)
    requires Whole(Literal(raw))
    ensures Uncomment(Source(Literal(raw)) + r, Code) == Source(Literal(raw)) + Uncomment(r, Code)
    ensures Uncomma(Source(Literal(raw)) + r, Code) == Source(Literal(raw)) + Uncomma(r, Code)
  {
    var inside := raw + ['"'];
    LiteralText(raw);
    EndKept(inside, r);
    QuotedFixed(inside, r);
    ConcatAssociative(['"'], inside, r);
    ConcatAssociative(['"'], inside, Uncomment(r, Code));
    ConcatAssociative(['"'], inside, Uncomma(r, Code));
  }

  /** Where a string ends does not depend on what follows. */
  lemma {:induction false} EndKept(s: Bytes, r: Bytes)
    requires StringEnd(s).Some?
    ensures StringEnd(s + r) == StringEnd(s)
    decreases |s|
  {
    if s[0] != '"' {
      var size := if s[0] == '\\' then 2 else 1;
      assert (s + r)[size..] == s[size..] + r;
      EndKept(s[size..], r);
    }
  }

  lemma {:induction false} UncommentPieces(pieces: seq<Piece>)
    requires Proper(pieces)
    ensures Uncomment(Render(pieces), Code) == Commentless(pieces)
  {
    if pieces != [] {
      var r := Render(pieces[1..]);
      UncommentPieces(pieces[1..]);
      match pieces[0]
      case Plain(c) => OneInert(c, r);
      case Literal(raw) => LiteralPasses(raw, r);
      case Comma => CommaFixed(r);
      case LineComment(line) =>
        assert r == [] || r[0] == '\n';
        LineCommentBlanks(line, r);
      case BlockComment(block) => BlockCommentBlanks(block, r);
    }
  }

  // ----- Second pass -----

  lemma {:induction false} SpacesAreWs(s: Bytes)
    ensures AllWs(Spaces(s))
  {
    if s != [] { SpacesAreWs(s[1..]); }
  }

  lemma {:induction false} NextSignificant(pieces: seq<Piece>)
    requires Proper(pieces)
    ensures Closes(FirstSignificant(Commentless(pieces))) == ClosesNext(pieces)
  {
    if pieces != [] {
      var r := Commentless(pieces[1..]);
      NextSignificant(pieces[1..]);
      if IsComment(pieces[0]) {
        SpacesAreWs(Source(pieces[0]));
        GapPassed(Spaces(Source(pieces[0])), r);
      } else if pieces[0].Plain? {
        assert ([pieces[0].c] + r)[1..] == r;
      }
    }
  }

  lemma {:induction false} UncommaPieces(pieces: seq<Piece>)
    requires Proper(pieces)
    ensures Uncomma(Commentless(pieces), Code) == Cleaned(pieces)
  {
    if pieces != [] {
      var r := Commentless(pieces[1..]);
      UncommaPieces(pieces[1..]);
      match pieces[0]
      case Plain(c) => OneInert(c, r);
      case Literal(raw) => LiteralPasses(raw, r);
      case Comma =>
        NextSignificant(pieces[1..]);
        assert ([','] + r)[1..] == r;
      case _ =>
        SpacesAreWs(Source(pieces[0]));
        WsFixed(Spaces(Source(pieces[0])), r);
    }
  }

  /** Blanking cleans each piece where it stands. */
  lemma BlankCleans(pieces: seq<Piece>)
    requires Proper(pieces)
    ensures Blank(Render(pieces)) == Cleaned(pieces)
  {
    UncommentPieces(pieces);
    UncommaPieces(pieces);
  }

  /** Every piece starts where it started. */
  lemma {:induction false} SamePlaces(pieces: seq<Piece>, k: nat)
    requires k <= |pieces|
    ensures var at := |Render(pieces[..k])|;
            at <= |Cleaned(pieces)| && Cleaned(pieces)[at..] == Cleaned(pieces[k..])
    decreases k
  {
    if k == 0 {
      assert pieces[0..] == pieces && pieces[..0] == [];
    } else {
      LeftLength(pieces);
      var rest := pieces[1..];
      SamePlaces(rest, k - 1);
      RenderFirst(pieces, k);
      assert rest[k - 1..] == pieces[k..];
      DropBoth(Left(pieces), Cleaned(rest), |Render(rest[..k - 1])|);
    }
  }

  lemma RenderFirst(pieces: seq<Piece>, k: nat)
    requires 0 < k <= |pieces|
    ensures Render(pieces[..k]) == Source(pieces[0]) + Render(pieces[1..][..k - 1])
  {
    assert pieces[..k][1..] == pieces[1..][..k - 1];
  }

  lemma DropBoth(a: Bytes, b: Bytes, n: nat)
    requires n <= |b|
    ensures (a + b)[|a| + n..] == b[n..]
  {
  }

  lemma LeftLength(pieces: seq<Piece>)
    requires pieces != []
    ensures |Left(pieces)| == |Source(pieces[0])|
  {
    SpacesLength(Source(pieces[0]));
  }
}
