/**
 * How the launcher cuts a stream into stored lines (`Capture::feed`, crates/victauri-cli/src/run.rs):
 * at newlines, and where a line outgrows one record.
 */
module CaptureSplit {
  import opened Text
  import opened CaptureFile

  /** Longest line stored in one record. */
  const MAX_LINE_BYTES: nat := 64 * 1024

  /** Raw bytes handed to `record`; `ended` tells whether a newline of the stream follows them. */
  datatype Fragment = Fragment(bytes: Bytes, ended: bool)

  /** A line that is complete: full fragments while it is too long, then the rest of it. */
  function CutLine(line: Bytes): seq<Fragment> {
    if |line| > MAX_LINE_BYTES then [Fragment(line[..MAX_LINE_BYTES], false)] + CutLine(line[MAX_LINE_BYTES..])
    else [Fragment(line, true)]
  }

  /** A line that goes on: full fragments as long as there is one. */
  function CutPartial(p: Bytes): seq<Fragment> {
    if |p| >= MAX_LINE_BYTES then [Fragment(p[..MAX_LINE_BYTES], false)] + CutPartial(p[MAX_LINE_BYTES..]) else []
  }

  /** What stays pending of it. */
  function PendingOf(p: Bytes): (r: Bytes)
    ensures |r| < MAX_LINE_BYTES
  {
    if |p| >= MAX_LINE_BYTES then PendingOf(p[MAX_LINE_BYTES..]) else p
  }

  /** The fragments of one chunk that arrives with `pending` before it. */
  function Split(pending: Bytes, chunk: Bytes): seq<Fragment>
    decreases |chunk|
  {
    var n := FirstNewline(chunk);
    if n < |chunk| then CutLine(pending + chunk[..n]) + Split([], chunk[n + 1..]) else CutPartial(pending + chunk)
  }

  function Rest(pending: Bytes, chunk: Bytes): (r: Bytes)
    ensures |r| < MAX_LINE_BYTES
    decreases |chunk|
  {
    var n := FirstNewline(chunk);
    if n < |chunk| then Rest([], chunk[n + 1..]) else PendingOf(pending + chunk)
  }

  // ----- Nothing is lost -----

  /** The stream that fragments came from. */
  function Rebuild(frags: seq<Fragment>): Bytes {
    if frags == [] then []
    else frags[0].bytes + ((if frags[0].ended then ['\n'] else []) + Rebuild(frags[1..]))
  }

  lemma {:induction false} RebuildConcat(a: seq<Fragment>, b: seq<Fragment>)
    ensures Rebuild(a + b) == Rebuild(a) + Rebuild(b)
  {
    if a == [] {
      assert a + b == b;
    } else {
      assert (a + b)[1..] == a[1..] + b;
      RebuildConcat(a[1..], b);
    }
  }

  lemma {:induction false} CutLineKeeps(line: Bytes)
    ensures Rebuild(CutLine(line)) == line + ['\n']
  {
    if |line| > MAX_LINE_BYTES {
      CutLineKeeps(line[MAX_LINE_BYTES..]);
      assert CutLine(line)[1..] == CutLine(line[MAX_LINE_BYTES..]);
    } else {
      assert CutLine(line)[1..] == [];
    }
  }

  lemma FullKept(first: Bytes, built: Bytes, pending: Bytes, more: Bytes)
    requires built + pending == more
    ensures (first + ([] + built)) + pending == first + more
  {
    assert [] + built == built;
    ConcatAssociative(first, built, pending);
  }

  lemma {:induction false} CutPartialKeeps(p: Bytes)
    ensures Rebuild(CutPartial(p)) + PendingOf(p) == p
  {
    if |p| >= MAX_LINE_BYTES {
      var first, more := p[..MAX_LINE_BYTES], p[MAX_LINE_BYTES..];
      CutPartialKeeps(more);
      assert CutPartial(p)[1..] == CutPartial(more);
      FullKept(first, Rebuild(CutPartial(more)), PendingOf(more), more);
      assert p == first + more;
    }
  }

  lemma LineKept(pending: Bytes, chunk: Bytes, n: nat, built: Bytes, rest: Bytes)
    requires n < |chunk| && chunk[n] == '\n' && built + rest == chunk[n + 1..]
    ensures (pending + chunk[..n] + ['\n']) + built + rest == pending + chunk
  {
    assert chunk == chunk[..n] + (['\n'] + chunk[n + 1..]);
    ConcatAssociative(pending + chunk[..n] + ['\n'], built, rest);
  }

  /** The fragments and what stays pending are the pending bytes and the chunk, to the byte. */
  lemma {:induction false} SplitKeeps(pending: Bytes, chunk: Bytes)
    ensures Rebuild(Split(pending, chunk)) + Rest(pending, chunk) == pending + chunk
    decreases |chunk|
  {
    var n := FirstNewline(chunk);
    if n < |chunk| {
      var line, more := pending + chunk[..n], chunk[n + 1..];
      CutLineKeeps(line);
      SplitKeeps([], more);
      assert [] + more == more;
      LineKept(pending, chunk, n, Rebuild(Split([], more)), Rest([], more));
      RebuildSplit(pending, chunk, n);
    } else {
      CutPartialKeeps(pending + chunk);
      assert Split(pending, chunk) == CutPartial(pending + chunk);
    }
  }

  lemma RebuildSplit(pending: Bytes, chunk: Bytes, n: nat)
    requires n == FirstNewline(chunk) < |chunk|
    ensures Rebuild(Split(pending, chunk)) == Rebuild(CutLine(pending + chunk[..n])) + Rebuild(Split([], chunk[n + 1..]))
    ensures Rest(pending, chunk) == Rest([], chunk[n + 1..])
  {
    RebuildConcat(CutLine(pending + chunk[..n]), Split([], chunk[n + 1..]));
  }

  // ----- Every fragment is a line or a full part of one -----

  predicate FragmentOk(f: Fragment) {
    '\n' !in f.bytes && |f.bytes| <= MAX_LINE_BYTES && (!f.ended ==> |f.bytes| == MAX_LINE_BYTES)
  }

  predicate FragmentsOk(frags: seq<Fragment>) { forall i :: 0 <= i < |frags| ==> FragmentOk(frags[i]) }

  lemma {:induction false} CutLineOk(line: Bytes)
    requires '\n' !in line
    ensures FragmentsOk(CutLine(line))
  {
    if |line| > MAX_LINE_BYTES { CutLineOk(line[MAX_LINE_BYTES..]); }
  }

  lemma {:induction false} CutPartialOk(p: Bytes)
    requires '\n' !in p
    ensures FragmentsOk(CutPartial(p)) && '\n' !in PendingOf(p)
  {
    if |p| >= MAX_LINE_BYTES { CutPartialOk(p[MAX_LINE_BYTES..]); }
  }

  lemma {:induction false} SplitOk(pending: Bytes, chunk: Bytes)
    requires '\n' !in pending
    ensures FragmentsOk(Split(pending, chunk)) && '\n' !in Rest(pending, chunk)
    decreases |chunk|
  {
    var n := FirstNewline(chunk);
    NoneBefore(chunk);
    if n < |chunk| {
      CutLineOk(pending + chunk[..n]);
      SplitOk([], chunk[n + 1..]);
    } else {
      assert chunk[..n] == chunk;
      CutPartialOk(pending + chunk);
    }
  }

  // ----- When the cuts do not depend on the chunks -----

  /** A line whose length is a full number of records, and not empty. */
  predicate IsFull(line: Bytes) { line != [] && |line| % MAX_LINE_BYTES == 0 }

  /** No complete line of `pending + chunk` is such a line. */
  predicate NoFullLine(pending: Bytes, chunk: Bytes)
    decreases |chunk|
  {
    var n := FirstNewline(chunk);
    n < |chunk| ==> !IsFull(pending + chunk[..n]) && NoFullLine([], chunk[n + 1..])
  }

  lemma Fewer(n: nat)
    requires n >= MAX_LINE_BYTES
    ensures (n - MAX_LINE_BYTES) % MAX_LINE_BYTES == n % MAX_LINE_BYTES
  {
  }

  /** Cutting a line before it is complete cuts it the same. */
  lemma {:induction false} CutEarly(u: Bytes, v: Bytes)
    requires !IsFull(u + v)
    ensures CutLine(u + v) == CutPartial(u) + CutLine(PendingOf(u) + v)
    decreases |u|
  {
    if |u| >= MAX_LINE_BYTES {
      var rest := u[MAX_LINE_BYTES..];
      assert (u + v)[MAX_LINE_BYTES..] == rest + v && (u + v)[..MAX_LINE_BYTES] == u[..MAX_LINE_BYTES];
      Fewer(|u + v|);
      CutEarly(rest, v);
      ConcatAssociative([Fragment(u[..MAX_LINE_BYTES], false)], CutPartial(rest), CutLine(PendingOf(u) + v));
    } else {
      assert CutPartial(u) + CutLine(u + v) == CutLine(u + v);
    }
  }

  lemma {:induction false} PendingEarly(u: Bytes, v: Bytes)
    ensures CutPartial(u + v) == CutPartial(u) + CutPartial(PendingOf(u) + v)
    ensures PendingOf(u + v) == PendingOf(PendingOf(u) + v)
    decreases |u|
  {
    if |u| >= MAX_LINE_BYTES {
      var rest := u[MAX_LINE_BYTES..];
      assert (u + v)[MAX_LINE_BYTES..] == rest + v && (u + v)[..MAX_LINE_BYTES] == u[..MAX_LINE_BYTES];
      PendingEarly(rest, v);
      ConcatAssociative([Fragment(u[..MAX_LINE_BYTES], false)], CutPartial(rest), CutPartial(PendingOf(u) + v));
    } else {
      assert CutPartial(u) + CutPartial(u + v) == CutPartial(u + v);
    }
  }

  lemma {:induction false} NewlineAt(a: Bytes, b: Bytes)
    ensures FirstNewline(a + b) == if FirstNewline(a) < |a| then FirstNewline(a) else |a| + FirstNewline(b)
  {
    var t := a + b;
    NoneBefore(a);
    NoneBefore(b);
    if FirstNewline(a) < |a| {
      assert t[..FirstNewline(a)] == a[..FirstNewline(a)];
      FirstIs(t, FirstNewline(a));
    } else {
      var n := |a| + FirstNewline(b);
      assert a[..|a|] == a && t[..n] == a + b[..FirstNewline(b)];
      FirstIs(t, n);
    }
  }

  /** A boundary in the middle of a line. */
  lemma SplitInside(pending: Bytes, a: Bytes, b: Bytes)
    requires NoFullLine(pending, a + b) && FirstNewline(a) == |a|
    ensures Split(pending, a + b) == Split(pending, a) + Split(Rest(pending, a), b)
    ensures Rest(pending, a + b) == Rest(Rest(pending, a), b)
  {
    NewlineAt(a, b);
    var k := FirstNewline(b);
    if k < |b| {
      SplitAtLine(pending, a, b, k);
    } else {
      ConcatAssociative(pending, a, b);
      PendingEarly(pending + a, b);
    }
  }

  /** One that the next newline follows. */
  lemma SplitAtLine(pending: Bytes, a: Bytes, b: Bytes, k: nat)
    requires FirstNewline(a) == |a| && k == FirstNewline(b) < |b| && FirstNewline(a + b) == |a| + k
    requires !IsFull(pending + (a + b)[..|a| + k])
    ensures Split(pending, a + b) == Split(pending, a) + Split(Rest(pending, a), b)
    ensures Rest(pending, a + b) == Rest(Rest(pending, a), b)
  {
    var u, c := pending + a, a + b;
    var head, more := b[..k], b[k + 1..];
    CutSlices(a, b, k);
    FirstLineOf(pending, c, |a| + k, a + head, more);
    FirstLineOf(PendingOf(u), b, k, head, more);
    ConcatAssociative(pending, a, head);
    CutEarly(u, head);
    ConcatAssociative(CutPartial(u), CutLine(PendingOf(u) + head), Split([], more));
  }

  lemma CutSlices(a: Bytes, b: Bytes, k: nat)
    requires k < |b|
    ensures (a + b)[..|a| + k] == a + b[..k] && (a + b)[|a| + k + 1..] == b[k + 1..]
  {
  }

  /** A chunk with a newline: its first line, then the rest. */
  lemma FirstLineOf(pending: Bytes, chunk: Bytes, n: nat, line: Bytes, more: Bytes)
    requires n == FirstNewline(chunk) < |chunk| && line == chunk[..n] && more == chunk[n + 1..]
    ensures Split(pending, chunk) == CutLine(pending + line) + Split([], more)
    ensures Rest(pending, chunk) == Rest([], more)
  {
  }

  /** A boundary between chunks makes no difference unless a line is full. */
  lemma {:induction false} SplitTwice(pending: Bytes, a: Bytes, b: Bytes)
    requires NoFullLine(pending, a + b)
    ensures Split(pending, a + b) == Split(pending, a) + Split(Rest(pending, a), b)
    ensures Rest(pending, a + b) == Rest(Rest(pending, a), b)
    decreases |a|
  {
    NewlineAt(a, b);
    var n := FirstNewline(a);
    var c := a + b;
    if n < |a| {
      var line, more := a[..n], a[n + 1..];
      assert c[..n] == line && c[n + 1..] == more + b;
      FirstLineOf(pending, c, n, line, more + b);
      FirstLineOf(pending, a, n, line, more);
      assert NoFullLine([], more + b);
      SplitTwice([], more, b);
      ConcatAssociative(CutLine(pending + line), Split([], more), Split(Rest([], more), b));
    } else {
      SplitInside(pending, a, b);
    }
  }

  /** Where some line is full, there is a boundary that makes a difference. */
  lemma {:induction false} BoundaryMatters(pending: Bytes, chunk: Bytes) returns (a: Bytes, b: Bytes)
    requires !NoFullLine(pending, chunk)
    ensures chunk == a + b && Split(pending, chunk) != Split(pending, a) + Split(Rest(pending, a), b)
    decreases |chunk|
  {
    var n := FirstNewline(chunk);
    var line, more := pending + chunk[..n], chunk[n + 1..];
    if IsFull(line) {
      a, b := chunk[..n], chunk[n..];
      assert chunk == a + b;
      CutAtFullLine(pending, chunk, n);
    } else {
      var a', b' := BoundaryMatters([], more);
      a, b := chunk[..n + 1] + a', b';
      assert chunk == chunk[..n + 1] + more;
      ConcatAssociative(chunk[..n + 1], a', b');
      FirstLine(pending, chunk, n, a');
      SameFront(CutLine(line), Split([], more), Split([], a'), Split(Rest([], a'), b'));
    }
  }

  lemma FirstLine(pending: Bytes, chunk: Bytes, n: nat, more: Bytes)
    requires n == FirstNewline(chunk) < |chunk|
    ensures Split(pending, chunk[..n + 1] + more) == CutLine(pending + chunk[..n]) + Split([], more)
    ensures Rest(pending, chunk[..n + 1] + more) == Rest([], more)
  {
    var a := chunk[..n + 1] + more;
    assert a[..n] == chunk[..n] && a[n + 1..] == more;
    NoneBefore(chunk);
    FirstIs(a, n);
    FirstLineOf(pending, a, n, chunk[..n], more);
  }

  lemma CutAtFullLine(pending: Bytes, chunk: Bytes, n: nat)
    requires n == FirstNewline(chunk) < |chunk| && IsFull(pending + chunk[..n])
    ensures Split(pending, chunk) != Split(pending, chunk[..n]) + Split(Rest(pending, chunk[..n]), chunk[n..])
  {
    var a, b, rest := chunk[..n], chunk[n..], chunk[n + 1..];
    FullLineCuts(pending + a);
    NoneBefore(chunk);
    assert a[..n] == a;
    FirstIs(a, n);
    assert FirstNewline(b) == 0 && b[1..] == rest && b[..0] == [];
    FirstLineOf(pending, chunk, n, a, rest);
    FirstLineOf([], b, 0, [], rest);
    assert [] + b[..0] == [];
  }

  lemma SameFront(front: seq<Fragment>, x: seq<Fragment>, y: seq<Fragment>, z: seq<Fragment>)
    requires x != y + z
    ensures front + x != (front + y) + z
  {
    assert (front + x)[|front|..] == x;
    assert ((front + y) + z)[|front|..] == y + z;
  }

  /** A full line cut late ends in a full fragment; cut early, in an empty one more. */
  lemma {:induction false} FullLineCuts(line: Bytes)
    requires IsFull(line)
    ensures |CutLine(line)| == |CutPartial(line)| && PendingOf(line) == [] && |CutLine([])| == 1
  {
    Fewer(|line|);
    if |line| > MAX_LINE_BYTES { FullLineCuts(line[MAX_LINE_BYTES..]); }
  }
}
