/** UTF-8 validity as an automaton over bytes (section 4 of RFC 3629). */
module Utf8Text {
  import opened Text

  /** Between characters, `n` more bytes to come (the next one from `lo` to `hi`), or not UTF-8. */
  datatype State = Start | Want(n: nat, lo: Byte, hi: Byte) | Broken

  predicate IsAscii(c: Byte) { c < '\U{0080}' }

  function Step(q: State, c: Byte): State {
    match q
    case Broken => Broken
    case Want(n, lo, hi) =>
      if !(lo <= c <= hi) || n == 0 then Broken
      else if n == 1 then Start else Want(n - 1, '\U{0080}', '\U{00BF}')
    case Start =>
      if IsAscii(c) then Start
      else if '\U{00C2}' <= c <= '\U{00DF}' then Want(1, '\U{0080}', '\U{00BF}')
      else if c == '\U{00E0}' then Want(2, '\U{00A0}', '\U{00BF}')
      else if c == '\U{00ED}' then Want(2, '\U{0080}', '\U{009F}')
      else if '\U{00E1}' <= c <= '\U{00EF}' then Want(2, '\U{0080}', '\U{00BF}')
      else if c == '\U{00F0}' then Want(3, '\U{0090}', '\U{00BF}')
      else if '\U{00F1}' <= c <= '\U{00F3}' then Want(3, '\U{0080}', '\U{00BF}')
      else if c == '\U{00F4}' then Want(3, '\U{0080}', '\U{008F}')
      else Broken
  }

  function Steps(q: State, s: Bytes): State
    decreases |s|
  {
    if s == [] then q else Steps(Step(q, s[0]), s[1..])
  }

  predicate IsUtf8(s: Bytes) { Steps(Start, s) == Start }

  /** A state a text can be in: continuation bytes are never ASCII. */
  predicate Sound(q: State) { q.Want? ==> IsContinuation(q.lo) && IsContinuation(q.hi) }

  predicate IsContinuation(c: Byte) { '\U{0080}' <= c <= '\U{00BF}' }

  /** An ASCII byte stands between characters. */
  lemma AsciiAlone(q: State, c: Byte)
    requires Sound(q) && IsAscii(c)
    ensures Step(q, c) == if q == Start then Start else Broken
  {
  }

  lemma StepSound(q: State, c: Byte)
    requires Sound(q)
    ensures Sound(Step(q, c))
  {
  }

  lemma {:induction false} BrokenStays(s: Bytes)
    ensures Steps(Broken, s) == Broken
  {
    if s != [] { BrokenStays(s[1..]); }
  }

  lemma {:induction false} StepsSplit(q: State, x: Bytes, y: Bytes)
    ensures Steps(q, x + y) == Steps(Steps(q, x), y)
    decreases |x|
  {
    if x == [] {
      assert x + y == y;
    } else {
      assert (x + y)[1..] == x[1..] + y;
      StepsSplit(Step(q, x[0]), x[1..], y);
    }
  }

  lemma {:induction false} StepsSound(q: State, x: Bytes)
    requires Sound(q)
    ensures Sound(Steps(q, x))
    decreases |x|
  {
    if x != [] {
      StepSound(q, x[0]);
      StepsSound(Step(q, x[0]), x[1..]);
    }
  }

  // ----- Boundaries -----

  /** At most three bytes are ever to come, and they continue a character. */
  predicate Small(q: State) { q.Want? ==> 1 <= q.n <= 3 && IsContinuation(q.lo) && IsContinuation(q.hi) }

  lemma {:induction false} StepsSmall(q: State, s: Bytes)
    requires Small(q)
    ensures Small(Steps(q, s))
    decreases |s|
  {
    if s != [] { StepsSmall(Step(q, s[0]), s[1..]); }
  }

  lemma OneMore(s: Bytes, n: nat)
    requires n < |s|
    ensures Steps(Start, s[..n + 1]) == Step(Steps(Start, s[..n]), s[n])
  {
    assert s[..n + 1] == s[..n] + [s[n]] && [s[n]][1..] == [];
    StepsSplit(Start, s[..n], [s[n]]);
  }

  lemma NotBroken(s: Bytes, n: nat)
    requires IsUtf8(s) && n <= |s|
    ensures Steps(Start, s[..n]) != Broken
  {
    assert s == s[..n] + s[n..];
    StepsSplit(Start, s[..n], s[n..]);
    BrokenStays(s[n..]);
  }

  /** In valid UTF-8, exactly before bytes that continue no character the text so far is valid. */
  lemma BoundaryIff(s: Bytes, n: nat)
    requires IsUtf8(s) && n < |s|
    ensures IsUtf8(s[..n]) <==> !IsContinuation(s[n])
  {
    StepsSmall(Start, s[..n]);
    OneMore(s, n);
    NotBroken(s, n + 1);
  }

  /** No four bytes in a row continue a character. */
  lemma BoundaryIsNear(s: Bytes, n: nat)
    requires IsUtf8(s) && n + 3 < |s|
    ensures IsUtf8(s[..n]) || IsUtf8(s[..n + 1]) || IsUtf8(s[..n + 2]) || IsUtf8(s[..n + 3])
  {
    StepsSmall(Start, s[..n]);
    OneMore(s, n);
    OneMore(s, n + 1);
    OneMore(s, n + 2);
    NotBroken(s, n + 3);
  }
}
