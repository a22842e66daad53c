/**
 * Reading a console capture: newline-terminated records, read a bounded window at a time
 * from an offset (crates/victauri-cli/src/logs.rs).
 */
module CaptureFile {
  import opened Text

  /** The window of one read, in bytes. */
  const MAX_READ: nat := 32 * 1024 * 1024

  /** A capture file is recognised by so many bytes from its start. */
  const CAPTURE_HEAD_BYTES: nat := 256

  /** One record as the launcher writes it: a single line with its newline. */
  predicate IsRecord(r: Bytes) {
    |r| > 0 && r[|r| - 1] == '\n' && forall i :: 0 <= i < |r| - 1 ==> r[i] != '\n'
  }

  predicate AllRecords(rs: seq<Bytes>) {
    forall i :: 0 <= i < |rs| ==> IsRecord(rs[i]) && |rs[i]| <= MAX_READ
  }

  /** The index of the first newline, or the length when there is none. */
  function FirstNewline(buf: Bytes): (n: nat)
    ensures n <= |buf|
    ensures n < |buf| ==> buf[n] == '\n'
  {
    if buf == [] || buf[0] == '\n' then 0 else 1 + FirstNewline(buf[1..])
  }

  /** It is the first. */
  lemma {:induction false} NoneBefore(buf: Bytes)
    ensures '\n' !in buf[..FirstNewline(buf)]
  {
    var n := FirstNewline(buf);
    if n > 0 {
      NoneBefore(buf[1..]);
      assert buf[..n] == [buf[0]] + buf[1..][..n - 1];
    }
  }

  lemma {:induction false} FirstIs(buf: Bytes, n: nat)
    requires n <= |buf| && '\n' !in buf[..n] && (n < |buf| ==> buf[n] == '\n')
    ensures FirstNewline(buf) == n
  {
    if n > 0 {
      assert buf[..n] == [buf[0]] + buf[1..][..n - 1];
      FirstIs(buf[1..], n - 1);
    }
  }

  lemma FirstLineIsRecord(buf: Bytes)
    requires FirstNewline(buf) < |buf|
    ensures IsRecord(buf[..FirstNewline(buf) + 1])
  {
    NoneBefore(buf);
    var n := FirstNewline(buf);
    var before, line := buf[..n], buf[..n + 1];
    forall i | 0 <= i < |line| - 1 ensures line[i] != '\n' {
      assert before[i] == line[i] && before[i] in before;
    }
  }

  /** The newline-terminated lines of a buffer; an unterminated last line is left out. */
  function CompleteLines(buf: Bytes): seq<Bytes> {
    var n := FirstNewline(buf);
    if n == |buf| then [] else [buf[..n + 1]] + CompleteLines(buf[n + 1..])
  }

  /** The bytes those lines take up. */
  function Consumed(buf: Bytes): (n: nat)
    ensures n <= |buf|
  {
    var n := FirstNewline(buf);
    if n == |buf| then 0 else n + 1 + Consumed(buf[n + 1..])
  }

  /** The lines of a buffer that parse as JSON: the others are skipped, not reported. */
  function ParsedLines(buf: Bytes, parses: Bytes -> bool): seq<Bytes> {
    var n := FirstNewline(buf);
    if n == |buf| then []
    else (if parses(buf[..n + 1]) then [buf[..n + 1]] else []) + ParsedLines(buf[n + 1..], parses)
  }

  /** The lines are exactly the consumed bytes. */
  lemma {:induction false} CompleteLinesCover(buf: Bytes)
    ensures Flatten(CompleteLines(buf)) == buf[..Consumed(buf)]
  {
    var n := FirstNewline(buf);
    if n < |buf| {
      var line, rest := buf[..n + 1], buf[n + 1..];
      CompleteLinesCover(rest);
      FirstOfAll(line, CompleteLines(rest));
      TakeBoth(line, rest, Consumed(rest));
      assert buf == line + rest;
      assert CompleteLines(buf) == [line] + CompleteLines(rest);
      assert Consumed(buf) == |line| + Consumed(rest);
    }
  }

  lemma FirstOfAll(line: Bytes, lines: seq<Bytes>)
    ensures Flatten([line] + lines) == line + Flatten(lines)
  {
    assert ([line] + lines)[1..] == lines;
  }

  /** Each of them is one record. */
  lemma {:induction false} LinesAreRecords(buf: Bytes, line: Bytes)
    requires line in CompleteLines(buf)
    ensures IsRecord(line)
  {
    var n := FirstNewline(buf);
    FirstLineIsRecord(buf);
    if line != buf[..n + 1] { LinesAreRecords(buf[n + 1..], line); }
  }

  lemma TakeBoth(a: Bytes, b: Bytes, n: nat)
    requires n <= |b|
    ensures (a + b)[..|a| + n] == a + b[..n]
  {
  }

  /** Only an unterminated last line stays behind. */
  lemma {:induction false} NoLineLeft(buf: Bytes)
    ensures '\n' !in buf[Consumed(buf)..]
  {
    var n := FirstNewline(buf);
    if n < |buf| {
      NoLineLeft(buf[n + 1..]);
      assert buf[n + 1..][Consumed(buf[n + 1..])..] == buf[Consumed(buf)..];
    } else {
      NoneBefore(buf);
      assert buf[..n] == buf[0..];
    }
  }

  /** A buffer that ends with a newline is consumed whole. */
  lemma {:induction false} AllConsumed(buf: Bytes)
    requires buf != [] ==> buf[|buf| - 1] == '\n'
    ensures Consumed(buf) == |buf|
  {
    var n := FirstNewline(buf);
    if n < |buf| {
      AllConsumed(buf[n + 1..]);
    } else {
      NoneBefore(buf);
      assert buf[..n] == buf;
    }
  }

  /** When every line parses, none is skipped. */
  lemma {:induction false} AllParsed(buf: Bytes, parses: Bytes -> bool)
    requires forall line :: IsRecord(line) ==> parses(line)
    ensures ParsedLines(buf, parses) == CompleteLines(buf)
  {
    var n := FirstNewline(buf);
    if n < |buf| {
      var line, rest := buf[..n + 1], buf[n + 1..];
      FirstLineIsRecord(buf);
      AllParsed(rest, parses);
      ParsedStep(buf, parses, n, line, rest);
      assert parses(line);
      assert CompleteLines(buf) == [line] + CompleteLines(rest);
    }
  }

  /** How many whole records, from the first, fit in `cap` bytes. */
  function Fits(rs: seq<Bytes>, cap: nat): (n: nat)
    ensures n <= |rs|
  {
    if rs == [] || |rs[0]| > cap then 0 else 1 + Fits(rs[1..], cap - |rs[0]|)
  }

  /** No more records fit. */
  lemma {:induction false} FitsIs(rs: seq<Bytes>, cap: nat)
    ensures var n := Fits(rs, cap); |Flatten(rs[..n])| <= cap && (n < |rs| ==> |Flatten(rs[..n + 1])| > cap)
  {
    if rs != [] && |rs[0]| <= cap {
      FitsIs(rs[1..], cap - |rs[0]|);
      var n := Fits(rs[1..], cap - |rs[0]|);
      assert rs[..n + 1] == [rs[0]] + rs[1..][..n];
      FirstOfAll(rs[0], rs[1..][..n]);
      if n < |rs[1..]| {
        assert rs[..n + 2] == [rs[0]] + rs[1..][..n + 1];
        FirstOfAll(rs[0], rs[1..][..n + 1]);
      }
    } else {
      assert rs[..0] == [];
      if rs != [] { assert rs[..1] == [rs[0]] && [rs[0]][1..] == []; }
    }
  }

  /** The first record of a window is its first line, when it fits. */
  lemma WindowFirst(first: Bytes, rest: Bytes, cap: nat)
    requires IsRecord(first)
    ensures var buf := (first + rest)[..Min(cap, |first + rest|)];
            CompleteLines(buf) ==
            if cap < |first| then []
            else [first] + CompleteLines(rest[..Min(cap - |first|, |rest|)])
  {
    var buf := (first + rest)[..Min(cap, |first + rest|)];
    if cap < |first| {
      assert buf == first[..cap] && buf[..cap] == buf;
      FirstIs(buf, cap);
    } else {
      var n := |first| - 1;
      assert buf[..n + 1] == first && buf[..n] == first[..n] && buf[n] == first[n];
      FirstIs(buf, n);
      assert buf[n + 1..] == rest[..Min(cap - |first|, |rest|)];
    }
  }

  /** A window of `cap` bytes over whole records shows exactly the records that fit in it. */
  lemma {:induction false} LinesOfWindow(rs: seq<Bytes>, cap: nat)
    requires AllRecords(rs)
    ensures CompleteLines(Flatten(rs)[..Min(cap, |Flatten(rs)|)]) == rs[..Fits(rs, cap)]
  {
    if rs != [] {
      WindowFirst(rs[0], Flatten(rs[1..]), cap);
      if |rs[0]| <= cap {
        var rest, left := rs[1..], cap - |rs[0]|;
        LinesOfWindow(rest, left);
        assert rs[..1 + Fits(rest, left)] == [rs[0]] + rest[..Fits(rest, left)];
        assert Fits(rs, cap) == 1 + Fits(rest, left);
      }
    }
  }

  /** Where a read starts, and the bytes it returns. `len` is the length taken just before. */
  function StartAt(len: nat, from: Option<nat>): nat {
    var start := if from.Some? then from.value else if len > MAX_READ then len - MAX_READ else 0;
    if start > len then 0 else start
  }

  function WindowAt(file: Bytes, start: nat): Bytes
    requires start <= |file|
  {
    file[start..Min(start + MAX_READ, |file|)]
  }

  /** Where the first whole line of a read starts: a tail read begins mid-record. */
  function SkipIn(buf: Bytes, len: nat, from: Option<nat>): (n: nat)
    ensures n <= |buf|
  {
    if from.Some? || len <= MAX_READ then 0
    else Min(FirstNewline(buf) + 1, |buf|)
  }

  /** The records one read returns, and the offset it leaves behind. */
  function ReadFrom(file: Bytes, len: nat, from: Option<nat>): (r: (seq<Bytes>, nat))
    requires len <= |file|
  {
    var start := StartAt(len, from);
    var buf := WindowAt(file, start);
    var skip := SkipIn(buf, len, from);
    (CompleteLines(buf[skip..]), start + skip + Consumed(buf[skip..]))
  }

  /**
   * One read of an open capture. With an offset it continues there; without one it shows the
   * newest `MAX_READ` bytes and, when those start mid-file, skips to the first whole line.
   */
  method ReadOpenCapture(file: Bytes, len: nat, from: Option<nat>, parses: Bytes -> bool)
    returns (out: seq<Bytes>, next: nat)
    requires len <= |file|
    ensures next == ReadFrom(file, len, from).1
    ensures var buf := WindowAt(file, StartAt(len, from));
            out == ParsedLines(buf[SkipIn(buf, len, from)..], parses)
    ensures (forall line :: IsRecord(line) ==> parses(line)) ==> out == ReadFrom(file, len, from).0
  {
    var start := StartAt(len, from);
    var buf := WindowAt(file, start);
    var consumed := 0;
    if from.None? && len > MAX_READ {
      var i := FirstNewline(buf);
      if i == |buf| {
        assert buf[|buf|..] == [];
        return [], start + |buf|;
      }
      consumed := i + 1;
    }
    var used;
    out, used := ReadLines(buf[consumed..], parses);
    if forall line :: IsRecord(line) ==> parses(line) {
      AllParsed(buf[consumed..], parses);
    }
    next := start + consumed + used;
  }

  /** The loop from `at` on, with `out` gathered so far. */
  function LinesFrom(buf: Bytes, parses: Bytes -> bool, at: nat, out: seq<Bytes>): (seq<Bytes>, nat)
    requires at <= |buf|
    decreases |buf| - at
  {
    var n := FirstNewline(buf[at..]);
    if n == |buf| - at then (out, at)
    else
      var chunk := buf[at..at + n + 1];
      LinesFrom(buf, parses, at + n + 1, out + if parses(chunk) then [chunk] else [])
  }

  /** One turn of the loop. */
  lemma LinesFromStep(buf: Bytes, parses: Bytes -> bool, at: nat, out: seq<Bytes>, n: nat, chunk: Bytes)
    requires at <= |buf| && n == FirstNewline(buf[at..]) < |buf| - at && chunk == buf[at..at + n + 1]
    ensures LinesFrom(buf, parses, at, out)
            == LinesFrom(buf, parses, at + n + 1, out + if parses(chunk) then [chunk] else [])
  {
  }

  /** The first line of a text that has one. */
  lemma ParsedStep(s: Bytes, parses: Bytes -> bool, n: nat, chunk: Bytes, rest: Bytes)
    requires n == FirstNewline(s) < |s| && s[..n + 1] == chunk && s[n + 1..] == rest
    ensures ParsedLines(s, parses) == (if parses(chunk) then [chunk] else []) + ParsedLines(rest, parses)
    ensures Consumed(s) == n + 1 + Consumed(rest)
  {
  }

  /** From `at` on the loop yields the lines that parse, and stops where they end. */
  ghost predicate ParsedFrom(buf: Bytes, parses: Bytes -> bool, at: nat, out: seq<Bytes>)
    requires at <= |buf|
  {
    var r := LinesFrom(buf, parses, at, out);
    r.0 == out + ParsedLines(buf[at..], parses) && r.1 == at + Consumed(buf[at..])
  }

  lemma ParsedBefore(buf: Bytes, parses: Bytes -> bool, at: nat, out: seq<Bytes>, n: nat, chunk: Bytes, kept: seq<Bytes>)
    requires at <= |buf| && n == FirstNewline(buf[at..]) < |buf| - at && chunk == buf[at..at + n + 1]
    requires kept == (if parses(chunk) then [chunk] else []) && ParsedFrom(buf, parses, at + n + 1, out + kept)
    ensures ParsedFrom(buf, parses, at, out)
  {
    var rest := buf[at + n + 1..];
    LinesFromStep(buf, parses, at, out, n, chunk);
    ParsedStep(buf[at..], parses, n, chunk, rest);
    ConcatAssociative(out, kept, ParsedLines(rest, parses));
  }

  lemma {:induction false} LinesFromIsParsed(buf: Bytes, parses: Bytes -> bool, at: nat, out: seq<Bytes>)
    requires at <= |buf|
    ensures ParsedFrom(buf, parses, at, out)
    decreases |buf| - at
  {
    var n := FirstNewline(buf[at..]);
    if n == |buf| - at {
      assert out + [] == out;
    } else {
      var chunk := buf[at..at + n + 1];
      var kept := if parses(chunk) then [chunk] else [];
      LinesFromIsParsed(buf, parses, at + n + 1, out + kept);
      ParsedBefore(buf, parses, at, out, n, chunk, kept);
    }
  }

  /** The loop of a read: take whole lines until the last newline is reached. */
  method ReadLines(buf: Bytes, parses: Bytes -> bool) returns (out: seq<Bytes>, consumed: nat)
    ensures out == ParsedLines(buf, parses)
    ensures consumed == Consumed(buf)
  {
    out, consumed := [], 0;
    while true
      invariant consumed <= |buf|
      invariant LinesFrom(buf, parses, consumed, out) == LinesFrom(buf, parses, 0, [])
      decreases |buf| - consumed
    {
      var n := FirstNewline(buf[consumed..]);
      if n == |buf| - consumed { break; }
      var chunk := buf[consumed..consumed + n + 1];
      LinesFromStep(buf, parses, consumed, out, n, chunk);
      out := out + if parses(chunk) then [chunk] else [];
      consumed := consumed + n + 1;
    }
    LinesFromIsParsed(buf, parses, 0, []);
    assert buf[0..] == buf;
    assert LinesFrom(buf, parses, consumed, out) == (out, consumed);
    assert [] + ParsedLines(buf, parses) == ParsedLines(buf, parses);
  }

  /** What a read at a record boundary sees: the records that follow, as many as fit. */
  lemma LinesAtBoundary(rs: seq<Bytes>, k: nat)
    requires AllRecords(rs)
    requires k <= |rs|
    ensures |Flatten(rs[..k])| <= |Flatten(rs)|
    ensures CompleteLines(WindowAt(Flatten(rs), |Flatten(rs[..k])|)) == rs[k..][..Fits(rs[k..], MAX_READ)]
  {
    FlattenSplit(rs, k);
    var tail := Flatten(rs[k..]);
    assert WindowAt(Flatten(rs), |Flatten(rs[..k])|) == tail[..Min(MAX_READ, |tail|)];
    LinesOfWindow(rs[k..], MAX_READ);
  }

  /** A read at a record boundary returns the records that follow it and stops at a boundary. */
  lemma ReadAtBoundary(rs: seq<Bytes>, len: nat, k: nat) returns (n: nat)
    requires AllRecords(rs)
    requires k <= |rs|
    requires |Flatten(rs[..k])| <= len <= |Flatten(rs)|
    ensures k + n <= |rs|
    ensures ReadFrom(Flatten(rs), len, Some(|Flatten(rs[..k])|)) == (rs[k..k + n], |Flatten(rs[..k + n])|)
    ensures n == 0 ==> k == |rs|
    ensures |Flatten(rs[k..k + n])| <= MAX_READ && (k + n < |rs| ==> |Flatten(rs[k..k + n + 1])| > MAX_READ)
  {
    n := LinesConsumed(rs, k);
    ReadOn(Flatten(rs), len, |Flatten(rs[..k])|);
    FlattenRun(rs, k, n);
  }

  /** The records of a window at a boundary, and the bytes they take. */
  lemma LinesConsumed(rs: seq<Bytes>, k: nat) returns (n: nat)
    requires AllRecords(rs) && k <= |rs|
    ensures |Flatten(rs[..k])| <= |Flatten(rs)| && k + n <= |rs| && (n == 0 ==> k == |rs|)
    ensures var buf := WindowAt(Flatten(rs), |Flatten(rs[..k])|);
            CompleteLines(buf) == rs[k..k + n] && Consumed(buf) == |Flatten(rs[k..k + n])|
    ensures |Flatten(rs[k..k + n])| <= MAX_READ && (k + n < |rs| ==> |Flatten(rs[k..k + n + 1])| > MAX_READ)
  {
    LinesAtBoundary(rs, k);
    n := Fits(rs[k..], MAX_READ);
    FitsIs(rs[k..], MAX_READ);
    assert rs[k..][..n] == rs[k..k + n];
    if k + n < |rs| { assert rs[k..][..n + 1] == rs[k..k + n + 1]; }
    CompleteLinesCover(WindowAt(Flatten(rs), |Flatten(rs[..k])|));
  }

  /** A read that continues at an offset. */
  lemma ReadOn(file: Bytes, len: nat, offset: nat)
    requires offset <= len <= |file|
    ensures var buf := WindowAt(file, offset);
            ReadFrom(file, len, Some(offset)) == (CompleteLines(buf), offset + Consumed(buf))
  {
    var buf := WindowAt(file, offset);
    assert buf[0..] == buf;
  }

  /** A read that shows the end of a long file. */
  lemma ReadTail(file: Bytes, len: nat)
    requires MAX_READ < len <= |file|
    ensures var buf := WindowAt(file, len - MAX_READ);
            var skip := SkipIn(buf, len, None);
            |buf| == MAX_READ && ReadFrom(file, len, None).1 == len - MAX_READ + skip + Consumed(buf[skip..])
  {
  }
}
