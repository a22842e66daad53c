/** The loops of `rust_code_only`, proved against `RustCode.CodeOnly`. */
module RustCodeLoops {
  import opened Text
  import opened JsoncBlank
  import opened JsoncBlankLoops
  import opened RustCode

  method NestedFrom(b: Bytes, from: nat) returns (i: nat)
    requires from <= |b|
    ensures i == from + NestedLength(b[from..], 0)
  {
    i := from;
    var depth := 0;
    while i < |b|
      invariant from <= i <= |b| && depth >= 0
      invariant i + NestedLength(b[i..], depth) == from + NestedLength(b[from..], 0)
    {
      assert b[i..][1..] == b[i + 1..];
      if b[i] == '/' && i + 1 < |b| && b[i + 1] == '*' {
        assert b[i..][2..] == b[i + 2..];
        depth := depth + 1;
        i := i + 2;
      } else if b[i] == '*' && i + 1 < |b| && b[i + 1] == '/' {
        assert b[i..][2..] == b[i + 2..];
        i := i + 2;
        if depth <= 1 {
          return;
        }
        depth := depth - 1;
      } else {
        i := i + 1;
      }
    }
  }

  /** Past a string whose opening quote is before `from`. */
  method StringFrom(b: Bytes, from: nat) returns (i: nat)
    requires from <= |b|
    ensures i == from + StringLength(b[from..])
  {
    i := from;
    while i < |b| && b[i] != '"'
      invariant from <= i
      invariant from + StringLength(b[from..]) == if i <= |b| then i + StringLength(b[i..]) else |b|
      decreases |b| - i
    {
      var size := if b[i] == '\\' then 2 else 1;
      assert i + size <= |b| ==> b[i..][size..] == b[i + size..];
      i := i + size;
    }
    i := Min(i + 1, |b|);
  }

  method HashesFrom(b: Bytes, from: nat) returns (n: nat)
    requires from <= |b|
    ensures n == Hashes(b[from..])
  {
    n := 0;
    while from + n < |b| && b[from + n] == '#'
      invariant from + n <= |b|
      invariant n + Hashes(b[from + n..]) == Hashes(b[from..])
    {
      assert b[from + n..][1..] == b[from + n + 1..];
      n := n + 1;
    }
  }

  method RawFrom(b: Bytes, from: nat, hashes: nat) returns (i: nat)
    requires from <= |b|
    ensures i == from + RawLength(b[from..], hashes)
  {
    i := from;
    while i < |b|
      invariant from <= i <= |b|
      invariant i + RawLength(b[i..], hashes) == from + RawLength(b[from..], hashes)
    {
      assert b[i..][1..] == b[i + 1..];
      var run := HashesFrom(b, i + 1);
      if b[i] == '"' && run >= hashes {
        return i + 1 + hashes;
      }
      i := i + 1;
    }
  }

  method CharFrom(b: Bytes, from: nat) returns (i: nat)
    requires from <= |b|
    ensures i == from + CharLength(b[from..])
  {
    i := from;
    while i < |b| && b[i] != '\'' && b[i] != '\n'
      invariant from <= i <= |b|
      invariant i + CharLength(b[i..]) == from + CharLength(b[from..])
    {
      assert b[i..][1..] == b[i + 1..];
      i := i + 1;
    }
  }

  /** Where the raw string that may start at `i` ends; `i` if there is none. */
  method RawStringFrom(b: Bytes, i: nat) returns (e: nat)
    requires i < |b| && b[i] == 'r' && RawAllowed(b, i)
    ensures e == RegionEnd(b, i)
  {
    var s := b[i..];
    var hashes := HashesFrom(b, i + 1);
    assert s[1..] == b[i + 1..];
    var open := i + 1 + hashes;
    if open < |b| && b[open] == '"' {
      assert s[2 + hashes..] == b[open + 1..] && s[1..][hashes] == b[open];
      e := RawFrom(b, open + 1, hashes);
    } else {
      e := i;
    }
  }

  method RegionFrom(b: Bytes, i: nat) returns (e: nat)
    requires i < |b|
    ensures e == RegionEnd(b, i)
  {
    var s := b[i..];
    if b[i] == '/' && i + 1 < |b| && b[i + 1] == '/' {
      e := LineEnd(b, i);
    } else if b[i] == '/' && i + 1 < |b| && b[i + 1] == '*' {
      e := NestedFrom(b, i);
    } else if b[i] == '"' {
      assert s[1..] == b[i + 1..];
      e := StringFrom(b, i + 1);
    } else if b[i] == 'r' && RawAllowed(b, i) {
      e := RawStringFrom(b, i);
    } else if b[i] == '\'' && i + 1 < |b| && b[i + 1] == '\\' {
      if i + 3 <= |b| {
        assert s[3..] == b[i + 3..];
        e := CharFrom(b, i + 3);
        e := Min(e + 1, |b|);
      } else {
        e := |b|;
      }
    } else if b[i] == '\'' && i + 1 < |b| {
      var n := CharSize(b[i + 1]);
      e := if i + 1 + n < |b| && b[i + 1 + n] == '\'' then i + n + 2 else i;
    } else {
      e := i;
    }
  }

  /** Everything before `i` is final, everything from `i` on untouched. */
  ghost predicate DoneTo(now: Bytes, b: Bytes, i: nat) {
    i <= |b| == |now| && now[..i] + CodeFrom(b, i) == CodeOnly(b) && now[i..] == b[i..]
  }

  lemma CodeDone(now: Bytes, b: Bytes, i: nat)
    requires DoneTo(now, b, i) && i < |b| && RegionEnd(b, i) == i
    ensures DoneTo(now, b, i + 1)
  {
    assert now[i..][0] == b[i..][0] && now[i + 1..] == now[i..][1..];
    assert now[..i + 1] == now[..i] + [b[i]];
    ConcatAssociative(now[..i], [b[i]], CodeFrom(b, i + 1));
  }

  /** The blanked piece of the buffer, after those already done. */
  lemma PieceDone(now: Bytes, later: Bytes, b: Bytes, i: nat, e: nat)
    requires DoneTo(now, b, i) && i < e <= |b| == |later| && e == RegionEnd(b, i)
    requires forall k :: 0 <= k < |now| ==> later[k] == if i <= k < e then Space(now[k]) else now[k]
    ensures DoneTo(later, b, e)
  {
    PieceBlanked(now, later, b, i, e);
    ConcatAssociative(now[..i], Spaces(b[i..e]), CodeFrom(b, e));
  }

  lemma PieceBlanked(now: Bytes, later: Bytes, b: Bytes, i: nat, e: nat)
    requires i < e <= |b| == |now| == |later| && now[i..] == b[i..]
    requires forall k :: 0 <= k < |now| ==> later[k] == if i <= k < e then Space(now[k]) else now[k]
    ensures later[..e] == now[..i] + Spaces(b[i..e]) && later[e..] == b[e..]
  {
    var piece := b[i..e];
    SpacesLength(piece);
    forall k | i <= k < |b| ensures now[k] == b[k] { assert now[i..][k - i] == b[i..][k - i]; }
    forall k | i <= k < e ensures later[k] == Spaces(piece)[k - i] {
      SpacesAt(piece, k - i);
      assert piece[k - i] == b[k];
    }
  }

  method RustCodeOnly(b: Bytes) returns (out: Bytes)
    ensures out == CodeOnly(b)
  {
    var buf := new Byte[|b|](k requires 0 <= k < |b| => b[k]);
    var i := 0;
    assert buf[..] == b && buf[..][..0] == [] && b[0..] == b;
    while i < |b|
      invariant buf.Length == |b| && DoneTo(buf[..], b, i)
    {
      var e := RegionFrom(b, i);
      ghost var now := buf[..];
      if e > i {
        BlankRange(buf, i, e);
        PieceDone(now, buf[..], b, i, e);
        i := e;
      } else {
        CodeDone(now, b, i);
        i := i + 1;
      }
    }
    assert buf[..][..i] == buf[..];
    return buf[..];
  }
}
