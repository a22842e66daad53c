/**
 * The capture writer takes the launcher's steps of the rotation protocol, so what the follower
 * prints of it is what came in on its two streams.
 */
module CaptureFollowed {
  import opened Text
  import opened CaptureFile
  import opened CaptureSplit
  import opened CaptureRecord
  import opened CaptureModel
  import Runs = CaptureTheorems
  import Complete = CaptureComplete
  import Log = CaptureLog
  import opened Rotation
  import opened RotationTheorems

  type Writer = CaptureModel.State

  type Protocol = Rotation.State

  // ----- The files of the writer, as the protocol sees them -----

  function Contents(files: seq<File>): seq<seq<Bytes>> {
    if files == [] then [] else [files[0].records] + Contents(files[1..])
  }

  /** The first file that has the name `.jsonl.1`. */
  function OldAt(files: seq<File>): Option<nat> {
    if files == [] then None
    else if files[0].name == OLD then Some(0)
    else match OldAt(files[1..]) case None => None case Some(i) => Some(i + 1)
  }

  function Files(d: Disk): seq<File> { d.aside + [d.file] }

  /** The launcher is between two operations, and its files and names are these. */
  predicate Shows(r: Protocol, d: Disk) {
    && r.gens == Contents(Files(d))
    && r.current == (if d.file.name == Current then Some(|d.aside|) else None)
    && r.rotated == OldAt(Files(d))
    && r.phase == Writing
  }

  lemma {:induction false} ContentsConcat(a: seq<File>, b: seq<File>)
    ensures Contents(a + b) == Contents(a) + Contents(b) && |Contents(a)| == |a|
  {
    if a == [] {
      assert a + b == b;
    } else {
      assert (a + b)[1..] == a[1..] + b;
      ContentsConcat(a[1..], b);
    }
  }

  lemma ContentsThen(a: seq<File>, f: File)
    ensures Contents(a + [f]) == Contents(a) + [f.records] && |Contents(a)| == |a|
  {
    ContentsConcat(a, [f]);
    assert [f][1..] == [];
  }

  lemma {:induction false} ContentsUnnamed(files: seq<File>, name: Name)
    ensures Contents(AllUnnamed(files, name)) == Contents(files)
  {
    if files != [] { ContentsUnnamed(files[1..], name); }
  }

  lemma {:induction false} OldAtThen(a: seq<File>, f: File)
    ensures OldAt(a + [f]) == if OldAt(a).Some? then OldAt(a) else if f.name == OLD then Some(|a|) else None
  {
    if a == [] {
      assert a + [f] == [f];
    } else {
      assert (a + [f])[1..] == a[1..] + [f];
      OldAtThen(a[1..], f);
    }
  }

  lemma {:induction false} OldAtUnnamed(files: seq<File>, name: Name)
    ensures OldAt(AllUnnamed(files, name)) == if name == OLD then None else OldAt(files)
  {
    if files != [] { OldAtUnnamed(files[1..], name); }
  }

  lemma {:induction false} WrittenIsContents(files: seq<File>)
    ensures Flatten(Contents(files)) == Complete.RecordsIn(files)
  {
    if files != [] { WrittenIsContents(files[1..]); }
  }

  // ----- The steps of the writer -----

  function RotationSteps(d: Disk, a: Answers): seq<Action> {
    if !Moves(d, a) then [RemoveOld(a.removes), RenameFails]
    else [RemoveOld(a.removes), if Aside(a) == OLD then RenameToOld else RenameAside, if a.opens then Create else CreateFails]
  }

  function WriteSteps(s: Sink, env: Env, record: Bytes, isExit: bool): seq<Action> {
    var a := env.rotation(s.tick);
    (if HasRoom(s, record) then [] else RotationSteps(s.disk, a))
    + (if !env.writes(s.tick) then []
       else if Accepts(s, a, record, isExit) then [Append(record)]
       else if s.stopped then [] else [Append(Note(env.now(s.tick)))])
  }

  function FragmentSteps(s: Sink, env: Env, stream: Stream, frags: seq<Fragment>): seq<Action>
    decreases |frags|
  {
    if frags == [] || s.stopped then []
    else
      WriteSteps(s, env, Complete.RecordOf(env, s.tick, stream, frags[0]), false)
      + FragmentSteps(Recorded(s, env, stream, frags[0].bytes), env, stream, frags[1..])
  }

  function EventSteps(s: Writer, env: Env, e: Runs.Event): seq<Action> {
    match e
    case Chunk(stream, bytes) => FragmentSteps(s.sink, env, stream, Split(CaptureModel.Pending(s, stream), bytes))
    case EndOf(stream) => FragmentSteps(s.sink, env, stream, Unfinished(CaptureModel.Pending(s, stream)))
    case Exits(summary) =>
      var f := Flushed(s, env, Out);
      var g := Flushed(f, env, Err).sink;
      FragmentSteps(s.sink, env, Out, Unfinished(s.out)) + FragmentSteps(f.sink, env, Err, Unfinished(f.err))
      + WriteSteps(g, env, ExitRecord(env.now(g.tick), summary, g.recentErr), true)
  }

  function RunSteps(s: Writer, env: Env, events: seq<Runs.Event>): seq<Action>
    decreases |events|
  {
    if events == [] then []
    else EventSteps(s, env, events[0]) + RunSteps(Runs.Apply(s, env, events[0]), env, events[1..])
  }

  // ----- The protocol can take them, and then shows the same files -----

  /** No poll is under way. */
  predicate Alone(r: Protocol) { WellFormed(r) && r.reader.Between? }

  /** The follower has not moved. */
  predicate SameFollower(r: Protocol, t: Protocol) {
    r.cursor == t.cursor && r.reader == t.reader && r.polls == t.polls && r.at == t.at && r.done == t.done && r.starts == t.starts
  }

  predicate Reaches(r: Protocol, actions: seq<Action>, d: Disk) {
    Possible(r, actions) && Alone(Run(r, actions)) && Shows(Run(r, actions), d) && SameFollower(r, Run(r, actions))
  }

  lemma ReachesThen(r: Protocol, a: seq<Action>, d: Disk, b: seq<Action>, e: Disk)
    requires Reaches(r, a, d) && Reaches(Run(r, a), b, e)
    ensures Reaches(r, a + b, e)
  {
    RunConcat(r, a, b);
  }

  predicate RecordOk(r: Bytes) { IsRecord(r) && |r| <= MAX_READ }

  lemma AppendReaches(r: Protocol, d: Disk, record: Bytes)
    requires Alone(r) && Shows(r, d) && RecordOk(record)
    ensures Reaches(r, [Append(record)], Appended(d, record))
  {
    assert [Append(record)][1..] == [];
    var f := Appended(d, record).file;
    ContentsThen(d.aside, d.file);
    ContentsThen(d.aside, f);
    OldAtThen(d.aside, d.file);
    OldAtThen(d.aside, f);
    assert (Contents(d.aside) + [d.file.records])[|d.aside| := f.records] == Contents(d.aside) + [f.records];
  }

  /** `.jsonl.1` removed, or not. */
  function Cleared(d: Disk, a: Answers): Disk { if a.removes then Without(d, OLD) else d }

  lemma ClearedShows(d: Disk, a: Answers)
    ensures Contents(Files(Cleared(d, a))) == Contents(Files(d))
    ensures OldAt(Files(Cleared(d, a))) == if a.removes then None else OldAt(Files(d))
    ensures Moves(d, a) ==> Cleared(d, a).file == d.file
  {
    var c := Cleared(d, a);
    ContentsThen(d.aside, d.file);
    ContentsThen(c.aside, c.file);
    ContentsUnnamed(d.aside, OLD);
    OldAtThen(c.aside, c.file);
    OldAtUnnamed(d.aside, OLD);
  }

  lemma MovedShows(d: Disk, a: Answers)
    requires Moves(d, a)
    ensures var m := MovedAside(d, a);
            && |m.aside| == |d.aside|
            && Contents(Files(m)) == Contents(Files(d))
            && m.file.name != Current
            && OldAt(Files(m)) == if Aside(a) == OLD then Some(|d.aside|) else OldAt(Files(Cleared(d, a)))
  {
    var c, m := Cleared(d, a), MovedAside(d, a);
    ClearedShows(d, a);
    ContentsThen(c.aside, c.file);
    ContentsThen(m.aside, m.file);
    ContentsUnnamed(c.aside, Aside(a));
    OldAtThen(c.aside, c.file);
    OldAtThen(m.aside, m.file);
    OldAtUnnamed(c.aside, Aside(a));
  }

  lemma RunOfTwo(r: Protocol, a: Action, b: Action)
    requires WellFormed(r) && Enabled(r, a)
    requires WellFormed(Step(r, a)) && Enabled(Step(r, a), b)
    ensures Possible(r, [a, b]) && Run(r, [a, b]) == Step(Step(r, a), b)
  {
    assert [a, b][1..] == [b] && [b][1..] == [];
    assert Possible(Step(r, a), [b]) && Run(Step(r, a), [b]) == Step(Step(r, a), b);
  }

  lemma RunOfThree(r: Protocol, a: Action, b: Action, c: Action)
    requires WellFormed(r) && Enabled(r, a)
    requires WellFormed(Step(r, a)) && Enabled(Step(r, a), b)
    requires WellFormed(Step(Step(r, a), b)) && Enabled(Step(Step(r, a), b), c)
    ensures Possible(r, [a, b, c]) && Run(r, [a, b, c]) == Step(Step(Step(r, a), b), c)
  {
    assert [a, b, c][1..] == [b, c];
    RunOfTwo(Step(r, a), b, c);
  }

  lemma RotationReaches(r: Protocol, d: Disk, a: Answers)
    requires Alone(r) && Shows(r, d)
    ensures Reaches(r, RotationSteps(d, a), Rotated(d, a))
  {
    ClearedShows(d, a);
    ContentsThen(d.aside, d.file);
    if Moves(d, a) {
      var moves, opens := if Aside(a) == OLD then RenameToOld else RenameAside, if a.opens then Create else CreateFails;
      var m := MovedAside(d, a);
      MovedShows(d, a);
      RunOfThree(r, RemoveOld(a.removes), moves, opens);
      if a.opens {
        var empty := File(Current, []);
        ContentsThen(Files(m), empty);
        OldAtThen(Files(m), empty);
      }
    } else {
      RunOfTwo(r, RemoveOld(a.removes), RenameFails);
    }
  }

  lemma NothingReaches(r: Protocol, d: Disk)
    requires Alone(r) && Shows(r, d)
    ensures Reaches(r, [], d)
  {
  }

  lemma NoteOk(t: nat)
    requires t <= MAX_TIME
    ensures RecordOk(Note(t))
  {
    LineIsRecord(t, Err, NOTE);
  }

  /** What is appended after the attempt to rotate. */
  lemma LastReaches(r: Protocol, s: Sink, env: Env, record: Bytes, isExit: bool, target: Disk, last: seq<Action>)
    requires Alone(r) && Shows(r, target) && RecordOk(record) && Runs.Timely(env)
    requires target == Target(s, env.rotation(s.tick), record)
    requires last == if !env.writes(s.tick) then []
                     else if Accepts(s, env.rotation(s.tick), record, isExit) then [Append(record)]
                     else if s.stopped then [] else [Append(Note(env.now(s.tick)))]
    ensures Reaches(r, last, CaptureModel.Written(s, env, record, isExit).disk)
  {
    NothingReaches(r, target);
    AppendReaches(r, target, record);
    NoteOk(env.now(s.tick));
    AppendReaches(r, target, Note(env.now(s.tick)));
  }

  lemma WriteReaches(r: Protocol, s: Sink, env: Env, record: Bytes, isExit: bool)
    requires Alone(r) && Shows(r, s.disk) && RecordOk(record) && Runs.Timely(env)
    ensures Reaches(r, WriteSteps(s, env, record, isExit), CaptureModel.Written(s, env, record, isExit).disk)
  {
    var a := env.rotation(s.tick);
    var first := if HasRoom(s, record) then [] else RotationSteps(s.disk, a);
    var last := if !env.writes(s.tick) then []
                else if Accepts(s, a, record, isExit) then [Append(record)]
                else if s.stopped then [] else [Append(Note(env.now(s.tick)))];
    NothingReaches(r, s.disk);
    RotationReaches(r, s.disk, a);
    LastReaches(Run(r, first), s, env, record, isExit, Target(s, a, record), last);
    ReachesThen(r, first, Target(s, a, record), last, CaptureModel.Written(s, env, record, isExit).disk);
  }

  lemma {:induction false} FragmentsReach(r: Protocol, s: Sink, env: Env, stream: Stream, frags: seq<Fragment>)
    requires Alone(r) && Shows(r, s.disk) && Runs.Timely(env)
    ensures Reaches(r, FragmentSteps(s, env, stream, frags), RecordAll(s, env, stream, frags).disk)
    decreases |frags|
  {
    if s.stopped {
      Runs.StoppedStays(s, env, stream, frags);
      NothingReaches(r, s.disk);
    } else if frags == [] {
      NothingReaches(r, s.disk);
    } else {
      var next := Recorded(s, env, stream, frags[0].bytes);
      var steps := WriteSteps(s, env, Complete.RecordOf(env, s.tick, stream, frags[0]), false);
      RecordReaches(r, s, env, stream, frags[0]);
      FragmentsReach(Run(r, steps), next, env, stream, frags[1..]);
      ReachesThen(r, steps, next.disk, FragmentSteps(next, env, stream, frags[1..]), RecordAll(s, env, stream, frags).disk);
    }
  }

  lemma RecordReaches(r: Protocol, s: Sink, env: Env, stream: Stream, f: Fragment)
    requires Alone(r) && Shows(r, s.disk) && Runs.Timely(env) && !s.stopped
    ensures Reaches(r, WriteSteps(s, env, Complete.RecordOf(env, s.tick, stream, f), false), Recorded(s, env, stream, f.bytes).disk)
  {
    var text := Stored(env.clean(f.bytes));
    LineIsRecord(env.now(s.tick), stream, text);
    WriteReaches(r, s, env, Complete.RecordOf(env, s.tick, stream, f), false);
  }

  lemma ExitReaches(r: Protocol, s: Writer, env: Env, summary: Bytes)
    requires Alone(r) && Shows(r, s.sink.disk) && Runs.Timely(env)
    requires Runs.Bounded(s.sink, false) && |summary| <= MAX_LINE_BYTES
    ensures Reaches(r, EventSteps(s, env, Runs.Exits(summary)), Exited(s, env, summary).sink.disk)
  {
    var f := Flushed(s, env, Out);
    var g := Flushed(f, env, Err).sink;
    var record := ExitRecord(env.now(g.tick), summary, g.recentErr);
    Complete.ExitReadable(s, env, summary, false);
    assert RecordOk([record][0]);
    var a, b := FragmentSteps(s.sink, env, Out, Unfinished(s.out)), FragmentSteps(f.sink, env, Err, Unfinished(f.err));
    FragmentsReach(r, s.sink, env, Out, Unfinished(s.out));
    FragmentsReach(Run(r, a), f.sink, env, Err, Unfinished(f.err));
    ReachesThen(r, a, f.sink.disk, b, g.disk);
    WriteReaches(Run(r, a + b), g, env, record, true);
    ReachesThen(r, a + b, g.disk, WriteSteps(g, env, record, true), CaptureModel.Written(g, env, record, true).disk);
  }

  lemma EventReaches(r: Protocol, s: Writer, env: Env, e: Runs.Event, exited: bool)
    requires Alone(r) && Shows(r, s.sink.disk) && Runs.Timely(env) && Runs.Bounded(s.sink, exited)
    requires e.Exits? ==> !exited && |e.summary| <= MAX_LINE_BYTES
    ensures Reaches(r, EventSteps(s, env, e), Runs.Apply(s, env, e).sink.disk)
  {
    match e
    case Chunk(stream, bytes) => FragmentsReach(r, s.sink, env, stream, Split(CaptureModel.Pending(s, stream), bytes));
    case EndOf(stream) => FragmentsReach(r, s.sink, env, stream, Unfinished(CaptureModel.Pending(s, stream)));
    case Exits(summary) => ExitReaches(r, s, env, summary);
  }

  /** Every run of the writer, whatever the system answers, is a run of the protocol's launcher on the same files. */
  lemma {:induction false} RunReaches(r: Protocol, s: Writer, env: Env, events: seq<Runs.Event>, exited: bool)
    requires Alone(r) && Shows(r, s.sink.disk) && Runs.Timely(env)
    requires Runs.Bounded(s.sink, exited) && Runs.OneExit(events, exited)
    ensures Reaches(r, RunSteps(s, env, events), Runs.Run(s, env, events).sink.disk)
    decreases |events|
  {
    if events == [] {
      NothingReaches(r, s.sink.disk);
    } else {
      var e, next := events[0], Runs.Apply(s, env, events[0]);
      EventReaches(r, s, env, e, exited);
      Runs.ApplyBounded(s, env, e, exited);
      RunReaches(Run(r, EventSteps(s, env, e)), next, env, events[1..], exited || e.Exits?);
      ReachesThen(r, EventSteps(s, env, e), next.sink.disk, RunSteps(next, env, events[1..]),
                  Runs.Run(s, env, events).sink.disk);
    }
  }

  // ----- Polls in between change no file -----

  predicate OfLauncher(a: Action) {
    a.Append? || a.RemoveOld? || a.RenameToOld? || a.RenameAside? || a.RenameFails? || a.Create? || a.CreateFails?
  }

  /** The launcher's steps of an interleaving. */
  function LauncherSteps(actions: seq<Action>): seq<Action> {
    if actions == [] then []
    else (if OfLauncher(actions[0]) then [actions[0]] else []) + LauncherSteps(actions[1..])
  }

  predicate SameFiles(r: Protocol, t: Protocol) {
    r.gens == t.gens && r.current == t.current && r.rotated == t.rotated && r.phase == t.phase
  }

  lemma PollStep(r: Protocol, t: Protocol, a: Action)
    requires SameFiles(r, t) && WellFormed(r) && Enabled(r, a) && !OfLauncher(a)
    ensures SameFiles(Step(r, a), t)
  {
  }

  lemma LauncherStep(r: Protocol, t: Protocol, a: Action)
    requires SameFiles(r, t) && WellFormed(r) && Enabled(r, a) && OfLauncher(a) && Alone(t)
    ensures Enabled(t, a) && SameFiles(Step(r, a), Step(t, a)) && Alone(Step(t, a))
  {
  }

  /** The files after an interleaving are those after the launcher's steps alone. */
  lemma {:induction false} PollsLeaveFiles(r: Protocol, t: Protocol, actions: seq<Action>)
    requires SameFiles(r, t) && Alone(t) && Possible(r, actions)
    ensures Possible(t, LauncherSteps(actions)) && SameFiles(Run(r, actions), Run(t, LauncherSteps(actions)))
    decreases |actions|
  {
    if actions != [] {
      var a, rest := actions[0], LauncherSteps(actions[1..]);
      if OfLauncher(a) {
        LauncherStep(r, t, a);
        PollsLeaveFiles(Step(r, a), Step(t, a), actions[1..]);
        assert ([a] + rest)[1..] == rest && LauncherSteps(actions) == [a] + rest;
      } else {
        PollStep(r, t, a);
        PollsLeaveFiles(Step(r, a), t, actions[1..]);
        assert LauncherSteps(actions) == rest;
      }
    }
  }

  // ----- From the streams to what is printed -----

  /** Whatever polls come between, the protocol's files are the writer's, and so is everything written. */
  lemma SameHistory(r: Protocol, actions: seq<Action>, s: Writer, env: Env, events: seq<Runs.Event>)
    requires Alone(r) && Shows(r, s.sink.disk) && Possible(r, actions) && LauncherSteps(actions) == RunSteps(s, env, events)
    requires Runs.Timely(env) && Runs.Bounded(s.sink, false) && Runs.OneExit(events, false)
    ensures Shows(Run(r, actions), Runs.Run(s, env, events).sink.disk)
    ensures Rotation.Written(Run(r, actions)) == Complete.History(Runs.Run(s, env, events).sink)
  {
    var d := Runs.Run(s, env, events).sink.disk;
    PollsLeaveFiles(r, r, actions);
    RunReaches(r, s, env, events, false);
    ContentsThen(d.aside, d.file);
    WrittenIsContents(d.aside);
    FlattenConcat(Contents(d.aside), [d.file.records]);
    assert [d.file.records][1..] == [];
  }

  /**
   * End to end: while writes succeed and the capture has not stopped, and if no poll says that
   * lines were lost, what the follower prints is a stretch, from where it attached, of the earlier
   * records and then one record for each entry of the run; and the entries of each stream, with
   * what is pending, are its input to the byte.
   */
  lemma PrintedIsInput(r: Protocol, actions: seq<Action>, s: Writer, env: Env, events: seq<Runs.Event>, stream: Stream)
    requires Attached(r) && Legal(r, actions) && Shows(r, s.sink.disk) && LauncherSteps(actions) == RunSteps(s, env, events)
    requires Runs.Timely(env) && Runs.Bounded(s.sink, false) && Runs.OneExit(events, false)
    requires Complete.WritesSucceed(env) && !Runs.Run(s, env, events).sink.stopped
    ensures Possible(r, actions)
    ensures var t, end := Run(r, actions), Runs.Run(s, env, events);
            var entries := Log.Entries(s, env, events);
            var all := Complete.History(s.sink) + Log.Written(Log.RecordIn(env), s.sink.tick, entries);
            && Rebuild(Log.OfStream(entries, stream)) + CaptureModel.Pending(end, stream)
               == CaptureModel.Pending(s, stream) + Runs.Input(events, stream)
            && ((forall i :: 0 <= i < |t.polls| ==> !t.polls[i].lost) ==> IsStretch(Emitted(t.polls), all, Position(r)))
  {
    NothingSkipped(r, actions);
    SameHistory(r, actions, s, env, events);
    Log.InputIsWritten(s, env, events, stream);
  }
}
