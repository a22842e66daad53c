/**
 * What is left on disk. Each rotation removes the file the one before it moved aside, so of
 * everything written the disk holds the last two files; and after a rotation that fails half-way,
 * the exit record can go into a file that has no name any more.
 */
module CaptureDisk {
  import opened Text
  import opened Whitespace
  import opened CaptureSplit
  import opened CaptureRecord
  import opened CaptureModel
  import opened CaptureTheorems
  import opened CaptureComplete

  /** The records that can still be read under some name. */
  function StillIn(files: seq<File>): seq<Bytes> {
    if files == [] then [] else (if files[0].name == Removed then [] else files[0].records) + StillIn(files[1..])
  }

  function OnDisk(d: Disk): seq<Bytes> { StillIn(d.aside) + StillIn([d.file]) }

  lemma {:induction false} StillInConcat(a: seq<File>, b: seq<File>)
    ensures StillIn(a + b) == StillIn(a) + StillIn(b)
  {
    if a == [] {
      assert a + b == b;
    } else {
      assert (a + b)[1..] == a[1..] + b;
      StillInConcat(a[1..], b);
    }
  }

  lemma StillInOne(f: File)
    ensures StillIn([f]) == if f.name == Removed then [] else f.records
  {
    assert [f][1..] == [];
  }

  predicate NothingIn(files: seq<File>) { forall i :: 0 <= i < |files| ==> files[i].name == Removed }

  lemma {:induction false} NothingStill(files: seq<File>)
    requires NothingIn(files)
    ensures StillIn(files) == []
  {
    if files != [] {
      assert files[0].name == Removed;
      NothingStill(files[1..]);
    }
  }

  /** A record is missing: some file that lost its name held one. */
  predicate Missing(files: seq<File>) { exists i :: 0 <= i < |files| && files[i].name == Removed && files[i].records != [] }

  /** Everything is still there exactly when no file with records lost its name. */
  lemma {:induction false} AllThereIff(files: seq<File>)
    ensures |StillIn(files)| <= |RecordsIn(files)|
    ensures Missing(files) <==> |StillIn(files)| < |RecordsIn(files)|
    ensures !Missing(files) <==> StillIn(files) == RecordsIn(files)
  {
    if files != [] {
      AllThereIff(files[1..]);
      if Missing(files[1..]) {
        var i :| 0 <= i < |files[1..]| && files[1..][i].name == Removed && files[1..][i].records != [];
        assert files[i + 1] == files[1..][i];
      }
      if Missing(files) && !(files[0].name == Removed && files[0].records != []) {
        var i :| 0 <= i < |files| && files[i].name == Removed && files[i].records != [];
        assert files[1..][i - 1] == files[i];
      }
    }
  }

  // ----- One rotation -----

  lemma {:induction false} UnnamedAt(files: seq<File>, name: Name, i: nat)
    requires i < |files|
    ensures AllUnnamed(files, name)[i] == Unnamed(files[i], name)
  {
    if i > 0 { UnnamedAt(files[1..], name, i - 1); }
  }

  lemma {:induction false} UnnamedTwice(files: seq<File>, name: Name)
    ensures AllUnnamed(AllUnnamed(files, name), name) == AllUnnamed(files, name)
  {
    if files != [] { UnnamedTwice(files[1..], name); }
  }

  /** A rotation takes `.jsonl.1` from its file, and the name the full file gets. */
  predicate Takes(d: Disk, a: Answers, name: Name) { (a.removes && name == OLD) || (Moves(d, a) && name == Aside(a)) }

  /** No rotation changes records, and exactly the files of those two names lose theirs. */
  lemma RotationTakes(d: Disk, a: Answers, i: nat)
    requires i < |d.aside|
    ensures |Rotated(d, a).aside| == |d.aside| + if Rotates(d, a) then 1 else 0
    ensures Rotated(d, a).aside[i] == if Takes(d, a, d.aside[i].name) then File(Removed, d.aside[i].records) else d.aside[i]
  {
    var removed := if a.removes then Without(d, OLD) else d;
    UnnamedAt(d.aside, OLD, i);
    UnnamedAt(removed.aside, Aside(a), i);
  }

  /** The system moves every full file to `.jsonl.1` and opens a new one. */
  ghost predicate Cooperates(env: Env) { forall i :: env.rotation(i).renames && env.rotation(i).opens }

  lemma RotatedWell(d: Disk, a: Answers)
    requires d.file.name == Current && a.renames && a.opens
    ensures Rotates(d, a) && Rotated(d, a) == Disk(AllUnnamed(d.aside, OLD) + [File(OLD, d.file.records)], File(Current, []))
  {
    UnnamedTwice(d.aside, OLD);
  }

  // ----- A run in which rotations succeed -----

  /** How much the current file counts, and how often there was a new one. */
  datatype Tally = Tally(written: nat, rotations: nat)

  function CountOne(t: Tally, record: Bytes): Tally {
    if t.written + |record| <= MAX_CAPTURE_BYTES then t.(written := t.written + |record|) else Tally(|record|, t.rotations + 1)
  }

  function Count(t: Tally, records: seq<Bytes>): Tally
    decreases |records|
  {
    if records == [] then t else Count(CountOne(t, records[0]), records[1..])
  }

  /** How often records of these sizes make a capture rotate that has written so much. */
  function Rotations(written: nat, records: seq<Bytes>): nat { Count(Tally(written, 0), records).rotations }

  lemma {:induction false} CountConcat(t: Tally, a: seq<Bytes>, b: seq<Bytes>)
    ensures Count(t, a + b) == Count(Count(t, a), b)
    decreases |a|
  {
    if a == [] {
      assert a + b == b;
    } else {
      assert (a + b)[1..] == a[1..] + b;
      CountConcat(CountOne(t, a[0]), a[1..], b);
    }
  }

  predicate NoneMissing(d: Disk) { forall i :: 0 <= i < |d.aside| ==> d.aside[i].name.Moved? }

  /** A capture not stopped, next to files of earlier captures. */
  predicate Started(s: Sink) { !s.stopped && s.disk.file.name == Current && NoneMissing(s.disk) }

  /** A file moved aside because the next record did not fit. */
  predicate Full(f: File) { Size(f) + MAX_EXIT > MAX_CAPTURE_BYTES }

  /** The files of a capture: the last one moved aside is `.jsonl.1`, and those before it are gone. */
  predicate Chain(moved: seq<File>) {
    && (forall i :: 0 <= i < |moved| ==> Full(moved[i]))
    && (moved != [] ==> moved[|moved| - 1].name == OLD && NothingIn(moved[..|moved| - 1]))
  }

  /** What was there before: as it was, until a rotation takes `.jsonl.1` from it. */
  function Earlier(start: Disk, rotated: bool): seq<File> { if rotated then AllUnnamed(start.aside, OLD) else start.aside }

  /** After records that count as `t`, from a started capture. */
  predicate Holds(start: Disk, t: Tally, s: Sink) {
    var k := |start.aside|;
    && !s.stopped && s.disk.file.name == Current
    && s.written == t.written <= Size(s.disk.file)
    && |s.disk.aside| == k + t.rotations
    && s.disk.aside[..k] == Earlier(start, t.rotations > 0)
    && Chain(s.disk.aside[k..])
  }

  lemma {:induction false} UnnamedConcat(a: seq<File>, b: seq<File>, name: Name)
    ensures AllUnnamed(a + b, name) == AllUnnamed(a, name) + AllUnnamed(b, name)
  {
    if a == [] {
      assert a + b == b;
    } else {
      assert (a + b)[1..] == a[1..] + b;
      UnnamedConcat(a[1..], b, name);
    }
  }

  /** One more file at the end of the chain takes the name of the last. */
  lemma ChainGrows(moved: seq<File>, f: File)
    requires Chain(moved) && f.name == OLD && Full(f)
    ensures Chain(AllUnnamed(moved, OLD) + [f])
  {
    var m := AllUnnamed(moved, OLD);
    forall i | 0 <= i < |m| ensures m[i].name == Removed && Full(m[i]) {
      UnnamedAt(moved, OLD, i);
      if i < |moved| - 1 { assert moved[..|moved| - 1][i].name == Removed; }
    }
    assert (m + [f])[..|m|] == m;
  }

  lemma CutThere(a: seq<File>, b: seq<File>, f: File)
    ensures ((a + b) + [f])[..|a|] == a && ((a + b) + [f])[|a|..] == b + [f]
  {
  }

  lemma ChainRotates(start: Disk, n: nat, aside: seq<File>, full: File)
    requires |aside| == |start.aside| + n && aside[..|start.aside|] == Earlier(start, n > 0) && Chain(aside[|start.aside|..])
    requires full.name == OLD && Full(full)
    ensures var t := AllUnnamed(aside, OLD) + [full];
            t[..|start.aside|] == Earlier(start, true) && Chain(t[|start.aside|..])
  {
    hide Chain;
    var k := |start.aside|;
    var earlier, moved := AllUnnamed(aside[..k], OLD), AllUnnamed(aside[k..], OLD);
    UnnamedConcat(aside[..k], aside[k..], OLD);
    assert aside == aside[..k] + aside[k..];
    UnnamedTwice(start.aside, OLD);
    ChainGrows(aside[k..], full);
    CutThere(earlier, moved, full);
  }

  lemma WriteHolds(start: Disk, t: Tally, s: Sink, env: Env, record: Bytes, isExit: bool)
    requires Holds(start, t, s) && |record| <= MAX_EXIT
    requires env.rotation(s.tick).renames && env.rotation(s.tick).opens && env.writes(s.tick)
    ensures Holds(start, CountOne(t, record), Written(s, env, record, isExit))
  {
    SizeOf(Target(s, env.rotation(s.tick), record), record);
    if !HasRoom(s, record) {
      RotatedWell(s.disk, env.rotation(s.tick));
      ChainRotates(start, t.rotations, s.disk.aside, File(OLD, s.disk.file.records));
    }
  }

  /** Rotations and writes succeed, and times fit in 64 bits. */
  ghost predicate AllWell(env: Env) { Cooperates(env) && WritesSucceed(env) && Timely(env) }

  lemma RecordHolds(start: Disk, t: Tally, s: Sink, env: Env, stream: Stream, f: Fragment)
    requires AllWell(env) && Holds(start, t, s)
    ensures Holds(start, CountOne(t, RecordOf(env, s.tick, stream, f)), Recorded(s, env, stream, f.bytes))
    ensures Recorded(s, env, stream, f.bytes).tick == s.tick + 1
  {
    var text := Stored(env.clean(f.bytes));
    LineIsRecord(env.now(s.tick), stream, text);
    var recent := if stream == Err && TrimEnd(text) != [] then Remember(s.recentErr, text) else s.recentErr;
    WriteHolds(start, t, s.(recentErr := recent), env, RecordOf(env, s.tick, stream, f), false);
  }

  lemma {:induction false} FragmentsHold(start: Disk, t: Tally, s: Sink, env: Env, stream: Stream, frags: seq<Fragment>)
    requires AllWell(env) && Holds(start, t, s)
    ensures Holds(start, Count(t, RecordsOf(env, s.tick, stream, frags)), RecordAll(s, env, stream, frags))
    decreases |frags|
  {
    if frags != [] {
      var first, rest := RecordOf(env, s.tick, stream, frags[0]), RecordsOf(env, s.tick + 1, stream, frags[1..]);
      RecordHolds(start, t, s, env, stream, frags[0]);
      assert ([first] + rest)[1..] == rest;
      FragmentsHold(start, CountOne(t, first), Recorded(s, env, stream, frags[0].bytes), env, stream, frags[1..]);
    }
  }

  lemma ExitSize(s: State, env: Env, summary: Bytes, f: State, g: Sink)
    requires Timely(env) && Bounded(s.sink, false) && |summary| <= MAX_LINE_BYTES
    requires f == Flushed(s, env, Out) && g == Flushed(f, env, Err).sink
    ensures |ExitRecord(env.now(g.tick), summary, g.recentErr)| <= MAX_EXIT
  {
    RecordAllBounded(s.sink, env, Out, Unfinished(s.out), false);
    RecordAllBounded(f.sink, env, Err, Unfinished(f.err), false);
    ExitIsRecord(env.now(g.tick), summary, g.recentErr);
  }

  lemma ExitHolds(start: Disk, t: Tally, s: State, env: Env, summary: Bytes)
    requires AllWell(env) && Holds(start, t, s.sink) && Bounded(s.sink, false) && |summary| <= MAX_LINE_BYTES
    ensures Holds(start, Count(t, RecordsBy(s, env, Exits(summary))), Exited(s, env, summary).sink)
  {
    var f := Flushed(s, env, Out);
    var g := Flushed(f, env, Err).sink;
    var a, b := RecordsOf(env, s.sink.tick, Out, Unfinished(s.out)), RecordsOf(env, f.sink.tick, Err, Unfinished(f.err));
    var last := ExitRecord(env.now(g.tick), summary, g.recentErr);
    ExitSize(s, env, summary, f, g);
    FragmentsHold(start, t, s.sink, env, Out, Unfinished(s.out));
    FragmentsHold(start, Count(t, a), f.sink, env, Err, Unfinished(f.err));
    WriteHolds(start, Count(Count(t, a), b), g, env, last, true);
    CountThree(t, a, b, last);
  }

  lemma CountThree(t: Tally, a: seq<Bytes>, b: seq<Bytes>, last: Bytes)
    ensures Count(t, a + b + [last]) == CountOne(Count(Count(t, a), b), last)
  {
    CountConcat(t, a + b, [last]);
    CountConcat(t, a, b);
    assert [last][1..] == [];
  }

  lemma EventHolds(start: Disk, t: Tally, s: State, env: Env, e: Event, exited: bool)
    requires AllWell(env) && Holds(start, t, s.sink) && Bounded(s.sink, exited)
    requires e.Exits? ==> !exited && |e.summary| <= MAX_LINE_BYTES
    ensures Holds(start, Count(t, RecordsBy(s, env, e)), Apply(s, env, e).sink)
  {
    match e
    case Chunk(stream, bytes) => FragmentsHold(start, t, s.sink, env, stream, Split(Pending(s, stream), bytes));
    case EndOf(stream) => FragmentsHold(start, t, s.sink, env, stream, Unfinished(Pending(s, stream)));
    case Exits(summary) => ExitHolds(start, t, s, env, summary);
  }

  lemma {:induction false} RunHolds(start: Disk, t: Tally, s: State, env: Env, events: seq<Event>, exited: bool)
    requires AllWell(env) && Holds(start, t, s.sink) && Bounded(s.sink, exited) && OneExit(events, exited)
    ensures Holds(start, Count(t, AllRecordsOf(s, env, events)), Run(s, env, events).sink)
    decreases |events|
  {
    if events != [] {
      var next, records := Apply(s, env, events[0]), RecordsBy(s, env, events[0]);
      EventHolds(start, t, s, env, events[0], exited);
      ApplyBounded(s, env, events[0], exited);
      RunHolds(start, Count(t, records), next, env, events[1..], exited || events[0].Exits?);
      CountConcat(t, records, AllRecordsOf(next, env, events[1..]));
    }
  }

  /** Of the files a capture filled, the last; `.jsonl.1` is it. */
  function LastMoved(moved: seq<File>): seq<Bytes> { if moved == [] then [] else moved[|moved| - 1].records }

  lemma ChainStill(moved: seq<File>)
    requires Chain(moved)
    ensures StillIn(moved) == LastMoved(moved)
  {
    if moved != [] {
      var k := |moved| - 1;
      assert moved == moved[..k] + [moved[k]];
      StillInConcat(moved[..k], [moved[k]]);
      NothingStill(moved[..k]);
      StillInOne(moved[k]);
    }
  }

  /** What is on disk of a capture that never failed to rotate: other captures' files, `.jsonl.1` and its own. */
  lemma DiskHoldsTheEnd(start: Disk, t: Tally, s: Sink)
    requires Holds(start, t, s)
    ensures var moved := s.disk.aside[|start.aside|..];
            && |moved| == t.rotations
            && OnDisk(s.disk) == StillIn(Earlier(start, moved != [])) + LastMoved(moved) + s.disk.file.records
  {
    var k := |start.aside|;
    assert s.disk.aside == s.disk.aside[..k] + s.disk.aside[k..];
    StillInConcat(s.disk.aside[..k], s.disk.aside[k..]);
    ChainStill(s.disk.aside[k..]);
    StillInOne(s.disk.file);
  }

  predicate HasOld(files: seq<File>) { exists i :: 0 <= i < |files| && files[i].name == OLD && files[i].records != [] }

  lemma MissingEarlier(start: Disk, rotated: bool)
    requires NoneMissing(start)
    ensures Missing(Earlier(start, rotated)) <==> rotated && HasOld(start.aside)
  {
    var files := start.aside;
    forall i | 0 <= i < |files| ensures AllUnnamed(files, OLD)[i] == Unnamed(files[i], OLD) {
      UnnamedAt(files, OLD, i);
    }
    if rotated && HasOld(files) {
      var i :| 0 <= i < |files| && files[i].name == OLD && files[i].records != [];
      assert AllUnnamed(files, OLD)[i].name == Removed;
    }
  }

  lemma MissingConcat(a: seq<File>, b: seq<File>)
    ensures Missing(a + b) <==> Missing(a) || Missing(b)
  {
    var all := a + b;
    if Missing(a) {
      var i :| 0 <= i < |a| && a[i].name == Removed && a[i].records != [];
      assert all[i] == a[i];
    }
    if Missing(b) {
      var i :| 0 <= i < |b| && b[i].name == Removed && b[i].records != [];
      assert all[|a| + i] == b[i];
    }
  }

  lemma MissingInChain(moved: seq<File>)
    requires Chain(moved)
    ensures Missing(moved) <==> |moved| >= 2
  {
    if |moved| >= 2 {
      assert moved[0] == moved[..|moved| - 1][0];
      assert Full(moved[0]) && moved[0].name == Removed;
    }
  }

  /** With rotations that succeed, everything is still there if there was none, or one that found no `.jsonl.1`; and only then. */
  lemma AllStillThereIff(start: Disk, t: Tally, s: Sink)
    requires NoneMissing(start) && Holds(start, t, s)
    ensures OnDisk(s.disk) == History(s) <==> t.rotations == 0 || (t.rotations == 1 && !HasOld(start.aside))
  {
    var k := |start.aside|;
    var earlier, moved := s.disk.aside[..k], s.disk.aside[k..];
    assert s.disk.aside == earlier + moved;
    MissingEarlier(start, moved != []);
    MissingInChain(moved);
    MissingConcat(earlier, moved);
    AllThereIff(s.disk.aside);
    StillInOne(s.disk.file);
  }

  /**
   * Over every run in which rotations and writes succeed: how often the capture rotated follows
   * from the sizes of its records; the disk holds the end of what was written, the last full file
   * and the current one; and it holds everything exactly when there was no rotation, or one that
   * found no `.jsonl.1` with records.
   */
  lemma WhatIsOnDisk(s: State, env: Env, events: seq<Event>)
    requires AllWell(env) && Started(s.sink) && Bounded(s.sink, false) && OneExit(events, false)
    ensures var end, records := Run(s, env, events).sink, AllRecordsOf(s, env, events);
            var start, n := s.sink.disk, Rotations(s.sink.written, records);
            && |end.disk.aside| == |start.aside| + n
            && History(end) == History(s.sink) + records
            && var moved := LastMoved(end.disk.aside[|start.aside|..]);
               && OnDisk(end.disk) == StillIn(Earlier(start, n > 0)) + moved + end.disk.file.records
               && (n > 0 ==> |Flatten(moved)| > MAX_CAPTURE_BYTES - MAX_EXIT)
               && (OnDisk(end.disk) == History(end) <==> n == 0 || (n == 1 && !HasOld(start.aside)))
  {
    var end, records := Run(s, env, events).sink, AllRecordsOf(s, env, events);
    var t := Tally(s.sink.written, 0);
    assert s.sink.disk.aside[..|s.sink.disk.aside|] == s.sink.disk.aside;
    RunHolds(s.sink.disk, t, s, env, events, false);
    EverythingIsWritten(s, env, events);
    DiskHoldsTheEnd(s.sink.disk, Count(t, records), end);
    AllStillThereIff(s.sink.disk, Count(t, records), end);
  }

  // ----- A rotation that fails half-way -----

  /** The file being written has a name: its own, or that of a moved file once the capture has stopped. */
  predicate HasName(s: Sink) { s.disk.file.name == Current || (s.stopped && s.disk.file.name.Moved?) }

  lemma LineKeepsName(s: Sink, env: Env, record: Bytes)
    requires HasName(s) && !s.stopped
    ensures HasName(Written(s, env, record, false))
  {
  }

  lemma {:induction false} FragmentsKeepName(s: Sink, env: Env, stream: Stream, frags: seq<Fragment>)
    requires HasName(s)
    ensures HasName(RecordAll(s, env, stream, frags))
    decreases |frags|
  {
    if frags != [] {
      if !s.stopped {
        var text := Stored(env.clean(frags[0].bytes));
        var recent := if stream == Err && TrimEnd(text) != [] then Remember(s.recentErr, text) else s.recentErr;
        LineKeepsName(s.(recentErr := recent), env, LineRecord(env.now(s.tick), stream, text));
      }
      FragmentsKeepName(Recorded(s, env, stream, frags[0].bytes), env, stream, frags[1..]);
    }
  }

  lemma {:induction false} RunKeepsName(s: State, env: Env, events: seq<Event>)
    requires HasName(s.sink) && !HasExit(events)
    ensures HasName(Run(s, env, events).sink)
    decreases |events|
  {
    if events != [] {
      match events[0] {
        case Chunk(stream, bytes) => FragmentsKeepName(s.sink, env, stream, Split(Pending(s, stream), bytes));
        case EndOf(stream) => FragmentsKeepName(s.sink, env, stream, Unfinished(Pending(s, stream)));
      }
      RunKeepsName(Apply(s, env, events[0]), env, events[1..]);
    }
  }

  /** The exit record's own attempt to rotate removes the file it is then written to. */
  predicate RemovesItsOwn(s: Sink, env: Env, record: Bytes) {
    !HasRoom(s, record) && s.disk.file.name == OLD && env.rotation(s.tick).removes
  }

  lemma ExitGoesIn(s: Sink, env: Env, record: Bytes)
    requires HasName(s) && env.writes(s.tick)
    ensures var file := Written(s, env, record, true).disk.file;
            && file.records != [] && file.records[|file.records| - 1] == record
            && (file.name == Removed <==> RemovesItsOwn(s, env, record))
  {
  }

  /**
   * Whatever the system answers to rotations, the exit record is written to a file that can be
   * read, except when the file had become `.jsonl.1` without a new one and the exit record does
   * not fit: then and only then it goes into a removed file.
   */
  lemma ExitRecordIsThere(s: State, env: Env, events: seq<Event>, summary: Bytes)
    requires HasName(s.sink) && !HasExit(events) && WritesSucceed(env)
    ensures var g := Flushed(Flushed(Run(s, env, events), env, Out), env, Err).sink;
            var record := ExitRecord(env.now(g.tick), summary, g.recentErr);
            var file := Exited(Run(s, env, events), env, summary).sink.disk.file;
            && file.records != [] && file.records[|file.records| - 1] == record
            && (file.name == Removed <==> RemovesItsOwn(g, env, record))
  {
    var at := Run(s, env, events);
    var f := Flushed(at, env, Out);
    var g := Flushed(f, env, Err).sink;
    RunKeepsName(s, env, events);
    FragmentsKeepName(at.sink, env, Out, Unfinished(at.out));
    FragmentsKeepName(f.sink, env, Err, Unfinished(f.err));
    ExitGoesIn(g, env, ExitRecord(env.now(g.tick), summary, g.recentErr));
  }

  /**
   * It does happen: the full file is moved and no new one can be opened, so the capture stops;
   * the exit record no longer fits either, and making room for it removes all that was captured.
   */
  lemma FailedOpenLosesCapture(s: Sink, env: Env, line: Bytes, exit: Bytes)
    requires !s.stopped && s.disk.file.name == Current && !HasRoom(s, line) && !HasRoom(s, exit)
    requires env.rotation(s.tick).renames && !env.rotation(s.tick).opens && env.rotation(s.tick + 1).removes
    ensures var end := Written(Written(s, env, line, false), env, exit, true);
            OnDisk(end.disk) == StillIn(AllUnnamed(s.disk.aside, OLD))
  {
    var a := env.rotation(s.tick);
    UnnamedTwice(s.disk.aside, OLD);
    var mid := Written(s, env, line, false);
    assert mid.disk.aside == AllUnnamed(s.disk.aside, OLD) && mid.disk.file.name == OLD && mid.written == s.written;
    var end := Written(mid, env, exit, true);
    assert end.disk.aside == mid.disk.aside && end.disk.file.name == Removed;
    StillInOne(end.disk.file);
  }
}
