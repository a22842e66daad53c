/** The capture writer fed one line at a time, until it rotates, and where that leads the protocol. */
module RotationLines {
  import opened Text
  import opened Json
  import opened CaptureFile
  import opened CaptureSplit
  import opened CaptureRecord
  import opened CaptureModel
  import opened CaptureTheorems
  import opened CaptureComplete
  import opened CaptureFollowed
  import opened RotationLimits
  import opened RotationHeads

  // ----- Lines on stdout, one chunk each -----

  function LineEvent(x: Bytes): Event { Chunk(Out, x + ['\n']) }

  function Lines(x: Bytes, n: nat): seq<Event> { if n == 0 then [] else [LineEvent(x)] + Lines(x, n - 1) }

  predicate IsLine(x: Bytes) { |x| <= MAX_LINE_BYTES && '\n' !in x }

  function TextOf(env: Env, x: Bytes): Bytes { Stored(env.clean(x)) }

  /** The record of the line when it is written at `tick`. */
  function LineAt(env: Env, tick: nat, x: Bytes): Bytes { LineRecord(env.now(tick), Out, TextOf(env, x)) }

  /** The records of `n` such lines. */
  function LinesAt(env: Env, tick: nat, x: Bytes, n: nat): seq<Bytes>
    decreases n
  {
    if n == 0 then [] else [LineAt(env, tick, x)] + LinesAt(env, tick + 1, x, n - 1)
  }

  /** Writes succeed, and all times are equally long; those of 2001 to 2286 have thirteen digits. */
  ghost predicate Steady(env: Env, digits: nat) {
    WritesSucceed(env) && Timely(env) && forall i :: |Digits(env.now(i))| == digits
  }

  /** How long the record of the line is, at any time. */
  function LineSize(env: Env, x: Bytes, digits: nat): nat { |Front(TextOf(env, x))| + 14 + |Encode("out")| + digits }

  lemma LineHasSize(env: Env, tick: nat, x: Bytes, digits: nat)
    requires Steady(env, digits)
    ensures |LineAt(env, tick, x)| == LineSize(env, x, digits) <= MAX_RECORD
  {
    RecordLength(env.now(tick), Out, TextOf(env, x));
    LineIsRecord(env.now(tick), Out, TextOf(env, x));
  }

  /** The line's record is so long whenever it is written. */
  ghost predicate Sized(env: Env, x: Bytes, size: nat) {
    IsLine(x) && 0 < size <= MAX_RECORD && forall tick: nat :: |LineAt(env, tick, x)| == size
  }

  lemma LineIsSized(env: Env, x: Bytes, digits: nat)
    requires Steady(env, digits) && IsLine(x)
    ensures Sized(env, x, LineSize(env, x, digits))
  {
    forall tick: nat ensures |LineAt(env, tick, x)| == LineSize(env, x, digits) && LineSize(env, x, digits) <= MAX_RECORD {
      LineHasSize(env, tick, x, digits);
    }
    LineHasSize(env, 0, x, digits);
  }

  lemma LineOk(env: Env, tick: nat, x: Bytes)
    requires Timely(env)
    ensures AllRecords([LineAt(env, tick, x)])
  {
    LineIsRecord(env.now(tick), Out, TextOf(env, x));
  }

  lemma SplitLine(x: Bytes)
    requires IsLine(x)
    ensures Split([], x + ['\n']) == [Fragment(x, true)] && CaptureSplit.Rest([], x + ['\n']) == []
  {
    var chunk := x + ['\n'];
    FirstIs(chunk, |x|);
    assert chunk[..|x|] == x && chunk[|x| + 1..] == [] && [] + x == x;
    assert FirstNewline([]) == 0;
    assert [Fragment(x, true)] + [] == [Fragment(x, true)];
  }

  /** A line is one attempt to write. */
  lemma LineApplied(s: Writer, env: Env, x: Bytes)
    requires IsLine(x) && s.out == [] && !s.sink.stopped
    ensures Apply(s, env, LineEvent(x)) == s.(sink := CaptureModel.Written(s.sink, env, LineAt(env, s.sink.tick, x), false))
  {
    SplitLine(x);
    RecordFirst(s.sink, env, Out, Fragment(x, true), []);
    assert [Fragment(x, true)] + [] == [Fragment(x, true)];
  }

  /** The capture with one more line in its file. */
  function WithLine(s: Writer, env: Env, x: Bytes, size: nat): Writer {
    s.(sink := s.sink.(disk := Appended(s.sink.disk, LineAt(env, s.sink.tick, x)), written := s.sink.written + size, tick := s.sink.tick + 1))
  }

  /** A line that fits. */
  lemma LineFits(s: Writer, env: Env, x: Bytes, size: nat)
    requires s.out == [] && !s.sink.stopped && WritesSucceed(env)
    requires Sized(env, x, size) && s.sink.written + size <= MAX_CAPTURE_BYTES
    ensures Apply(s, env, LineEvent(x)) == WithLine(s, env, x, size)
  {
    LineApplied(s, env, x);
  }

  /** A capture that took `n` of these lines, none of which made it rotate. */
  predicate Took(s: Writer, env: Env, x: Bytes, n: nat, t: Writer) {
    && t.out == s.out && t.err == s.err && !t.sink.stopped && t.sink.tick == s.sink.tick + n
    && t.sink.disk == Disk(s.sink.disk.aside, File(s.sink.disk.file.name, s.sink.disk.file.records + LinesAt(env, s.sink.tick, x, n)))
  }

  lemma TookOneMore(s: Writer, env: Env, x: Bytes, size: nat, m: nat, t: Writer)
    requires Took(WithLine(s, env, x, size), env, x, m, t)
    ensures Took(s, env, x, m + 1, t)
  {
    ConcatAssociative(s.sink.disk.file.records, [LineAt(env, s.sink.tick, x)], LinesAt(env, s.sink.tick + 1, x, m));
  }

  lemma RunLines(s: Writer, env: Env, x: Bytes, size: nat, m: nat)
    requires s.out == [] && !s.sink.stopped && WritesSucceed(env)
    requires Sized(env, x, size) && s.sink.written + size <= MAX_CAPTURE_BYTES
    ensures CaptureTheorems.Run(s, env, Lines(x, m + 1)) == CaptureTheorems.Run(WithLine(s, env, x, size), env, Lines(x, m))
  {
    LineFits(s, env, x, size);
    assert Lines(x, m + 1)[0] == LineEvent(x) && Lines(x, m + 1)[1..] == Lines(x, m);
  }

  /** However much there is in a file: so many lines bring it to where a longer record no longer fits. */
  lemma {:induction false} FillsUp(s: Writer, env: Env, x: Bytes, size: nat, longer: nat) returns (n: nat)
    requires s.out == [] && !s.sink.stopped && WritesSucceed(env)
    requires Sized(env, x, size) && size <= longer
    ensures var t := CaptureTheorems.Run(s, env, Lines(x, n)); Took(s, env, x, n, t) && t.sink.written + longer > MAX_CAPTURE_BYTES
    decreases MAX_CAPTURE_BYTES - s.sink.written
  {
    hide LineAt, Apply;
    if s.sink.written + longer > MAX_CAPTURE_BYTES {
      n := 0;
      assert s.sink.disk.file.records + [] == s.sink.disk.file.records;
    } else {
      var m := FillsUp(WithLine(s, env, x, size), env, x, size, longer);
      n := m + 1;
      RunLines(s, env, x, size, m);
      TookOneMore(s, env, x, size, m, CaptureTheorems.Run(WithLine(s, env, x, size), env, Lines(x, m)));
    }
  }

  // ----- Runs of the launcher that lose lines silently -----

  lemma {:induction false} RunOn(s: Writer, env: Env, a: seq<Event>, b: seq<Event>)
    ensures CaptureTheorems.Run(s, env, a + b) == CaptureTheorems.Run(CaptureTheorems.Run(s, env, a), env, b)
    decreases |a|
  {
    if a == [] {
      assert a + b == b;
    } else {
      assert (a + b)[1..] == a[1..] + b;
      RunOn(Apply(s, env, a[0]), env, a[1..], b);
    }
  }

  predicate OnlyChunks(events: seq<Event>) { forall i :: 0 <= i < |events| ==> events[i].Chunk? }

  lemma {:induction false} ChunksHaveNoExit(events: seq<Event>)
    requires OnlyChunks(events)
    ensures OneExit(events, false)
  {
    if events != [] {
      assert events[0].Chunk?;
      ChunksHaveNoExit(events[1..]);
    }
  }

  lemma {:induction false} LinesAreChunks(x: Bytes, n: nat)
    ensures OnlyChunks(Lines(x, n))
  {
    if n > 0 { LinesAreChunks(x, n - 1); }
  }

  /** The capture after a line that opens a new file. */
  function InNewFile(s: Writer, env: Env, x: Bytes, size: nat): Writer {
    var disk := Appended(Rotated(s.sink.disk, env.rotation(s.sink.tick)), LineAt(env, s.sink.tick, x));
    s.(sink := Sink(disk, size, s.sink.recentErr, false, s.sink.tick + 1))
  }

  /** A line that does not fit, and a rotation that starts a new file. */
  lemma LineRotates(s: Writer, env: Env, x: Bytes, size: nat)
    requires s.out == [] && !s.sink.stopped && WritesSucceed(env) && Sized(env, x, size)
    requires s.sink.written + size > MAX_CAPTURE_BYTES && CaptureModel.Rotates(s.sink.disk, env.rotation(s.sink.tick))
    ensures Apply(s, env, LineEvent(x)) == InNewFile(s, env, x, size)
  {
    LineApplied(s, env, x);
  }

  /** A writer with these files that is not in the middle of a line on stdout and has not stopped. */
  ghost predicate Begun(s: Writer, d: Disk) { s.sink.disk == d && s.out == [] && !s.sink.stopped && Bounded(s.sink, false) }

  /** Where a run of the writer leads the protocol. */
  lemma LauncherLeads(r: Protocol, s: Writer, env: Env, events: seq<Event>, end: Disk)
    requires Alone(r) && Shows(r, s.sink.disk) && Bounded(s.sink, false) && Timely(env) && OnlyChunks(events)
    requires end == CaptureTheorems.Run(s, env, events).sink.disk && end.file.name == Current
    ensures Leads(r, RunSteps(s, env, events), Contents(CaptureFollowed.Files(end)), OldAt(CaptureFollowed.Files(end)))
  {
    ChunksHaveNoExit(events);
    RunReaches(r, s, env, events, false);
    ContentsThen(end.aside, end.file);
  }

  lemma TwoFiles(x: File, y: File)
    ensures Contents(CaptureFollowed.Files(Disk([x], y))) == [x.records, y.records]
    ensures x.name == OLD ==> OldAt(CaptureFollowed.Files(Disk([x], y))) == Some(0)
  {
    assert [x, y][1..] == [y] && [y][1..] == [];
    assert Contents([y]) == [y.records];
    assert CaptureFollowed.Files(Disk([x], y)) == [x, y];
  }

  lemma OneFile(y: File)
    requires y.name != OLD
    ensures Contents(CaptureFollowed.Files(Disk([], y))) == [y.records] && OldAt(CaptureFollowed.Files(Disk([], y))) == None
  {
    assert CaptureFollowed.Files(Disk([], y)) == [y] && [y][1..] == [];
  }

  lemma RunThenOne(s: Writer, env: Env, events: seq<Event>, e: Event)
    ensures CaptureTheorems.Run(s, env, events + [e]) == Apply(CaptureTheorems.Run(s, env, events), env, e)
  {
    RunOn(s, env, events, [e]);
    assert [e][1..] == [];
  }

  ghost predicate CanRotate(env: Env) {
    forall i :: (env.rotation(i).renames || env.rotation(i).renamesAside) && env.rotation(i).opens
  }

  /** Lines until `next` no longer fits, then `next`, which opens a new file. */
  lemma FillsAndRotates(s: Writer, env: Env, x: Bytes, size: nat, next: Bytes, longer: nat) returns (n: nat, full: Writer)
    requires s.sink.disk.file.name == Current && s.out == [] && !s.sink.stopped
    requires WritesSucceed(env) && CanRotate(env) && Sized(env, x, size) && Sized(env, next, longer) && size <= longer
    ensures Took(s, env, x, n, full)
    ensures CaptureTheorems.Run(s, env, Lines(x, n) + [LineEvent(next)]) == InNewFile(full, env, next, longer)
    ensures n == 0 ==> s.sink.written + longer > MAX_CAPTURE_BYTES
  {
    n := FillsUp(s, env, x, size, longer);
    full := CaptureTheorems.Run(s, env, Lines(x, n));
    LineRotates(full, env, next, longer);
    RunThenOne(s, env, Lines(x, n), LineEvent(next));
  }

  lemma {:induction false} SuchLinesAreRecords(env: Env, tick: nat, x: Bytes, n: nat)
    requires Timely(env)
    ensures AllRecords(LinesAt(env, tick, x, n))
    decreases n
  {
    if n > 0 {
      LineOk(env, tick, x);
      SuchLinesAreRecords(env, tick + 1, x, n - 1);
      RecordsJoin([LineAt(env, tick, x)], LinesAt(env, tick + 1, x, n - 1), []);
    }
  }

  /** A line of another text is none of them. */
  lemma {:induction false} OtherLines(env: Env, tick: nat, x: Bytes, n: nat, at: nat, z: Bytes)
    requires TextOf(env, z) != TextOf(env, x)
    ensures NotAmong(LineAt(env, at, z), LinesAt(env, tick, x, n))
    decreases n
  {
    if n > 0 {
      TextsTellApart(env.now(at), env.now(tick), Out, TextOf(env, z), TextOf(env, x));
      OtherLines(env, tick + 1, x, n - 1, at, z);
    }
  }

  lemma OneUnnamed(f: File, name: Name)
    ensures AllUnnamed([], name) == [] && AllUnnamed([f], name) == [Unnamed(f, name)]
  {
    assert [f][1..] == [];
  }

  lemma ThreeFiles(x: File, y: File, z: File)
    requires x.name == OLD
    ensures Contents(CaptureFollowed.Files(Disk([x, y], z))) == [x.records, y.records, z.records]
    ensures OldAt(CaptureFollowed.Files(Disk([x, y], z))) == Some(0)
  {
    assert CaptureFollowed.Files(Disk([x, y], z)) == [x, y, z];
    assert [x, y, z][1..] == [y, z] && [y, z][1..] == [z] && [z][1..] == [];
    assert Contents([z]) == [z.records] && Contents([y, z]) == [y.records, z.records];
  }
}
