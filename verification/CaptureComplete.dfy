/** While the system cooperates, every line of both streams is written, whole and in order. */
module CaptureComplete {
  import opened Text
  import opened Whitespace
  import opened CaptureFile
  import opened CaptureSplit
  import opened CaptureRecord
  import opened CaptureModel
  import opened CaptureTheorems

  /** The records in some files, one after another. */
  function RecordsIn(files: seq<File>): seq<Bytes> {
    if files == [] then [] else files[0].records + RecordsIn(files[1..])
  }

  /** Everything written so far, in order, also what is in files that lost their names. */
  function History(s: Sink): seq<Bytes> { RecordsIn(s.disk.aside) + s.disk.file.records }

  lemma {:induction false} RecordsInConcat(a: seq<File>, b: seq<File>)
    ensures RecordsIn(a + b) == RecordsIn(a) + RecordsIn(b)
  {
    if a == [] {
      assert a + b == b;
    } else {
      assert (a + b)[1..] == a[1..] + b;
      RecordsInConcat(a[1..], b);
    }
  }

  lemma RecordsInOne(f: File)
    ensures RecordsIn([f]) == f.records
  {
    assert [f][1..] == [];
  }

  /** Names come and go; records stay where they are. */
  lemma {:induction false} UnnamedKeeps(files: seq<File>, name: Name)
    ensures RecordsIn(AllUnnamed(files, name)) == RecordsIn(files)
  {
    if files != [] { UnnamedKeeps(files[1..], name); }
  }

  lemma RotatedKeeps(d: Disk, a: Answers)
    ensures RecordsIn(Rotated(d, a).aside) + Rotated(d, a).file.records == RecordsIn(d.aside) + d.file.records
  {
    var removed := if a.removes then Without(d, OLD) else d;
    var moved := MovedAside(d, a);
    UnnamedKeeps(d.aside, OLD);
    UnnamedKeeps(removed.aside, Aside(a));
    RecordsInConcat(moved.aside, [moved.file]);
    RecordsInOne(moved.file);
  }

  function RecordOf(env: Env, tick: nat, stream: Stream, f: Fragment): Bytes {
    LineRecord(env.now(tick), stream, Stored(env.clean(f.bytes)))
  }

  /** The records of some fragments, the first written at `tick`. */
  function RecordsOf(env: Env, tick: nat, stream: Stream, frags: seq<Fragment>): seq<Bytes>
    decreases |frags|
  {
    if frags == [] then [] else [RecordOf(env, tick, stream, frags[0])] + RecordsOf(env, tick + 1, stream, frags[1..])
  }

  function RecordsBy(s: State, env: Env, e: Event): seq<Bytes> {
    match e
    case Chunk(stream, bytes) => RecordsOf(env, s.sink.tick, stream, Split(Pending(s, stream), bytes))
    case EndOf(stream) => RecordsOf(env, s.sink.tick, stream, Unfinished(Pending(s, stream)))
    case Exits(summary) =>
      var f := Flushed(s, env, Out);
      var g := Flushed(f, env, Err).sink;
      RecordsOf(env, s.sink.tick, Out, Unfinished(s.out)) + RecordsOf(env, f.sink.tick, Err, Unfinished(f.err))
      + [ExitRecord(env.now(g.tick), summary, g.recentErr)]
  }

  function AllRecordsOf(s: State, env: Env, events: seq<Event>): seq<Bytes>
    decreases |events|
  {
    if events == [] then [] else RecordsBy(s, env, events[0]) + AllRecordsOf(Apply(s, env, events[0]), env, events[1..])
  }

  ghost predicate WritesSucceed(env: Env) { forall i :: env.writes(i) }

  lemma WrittenIsLast(s: Sink, env: Env, record: Bytes, isExit: bool)
    requires env.writes(s.tick) && !Written(s, env, record, isExit).stopped
    ensures History(Written(s, env, record, isExit)) == History(s) + [record]
  {
    RotatedKeeps(s.disk, env.rotation(s.tick));
    var target := Target(s, env.rotation(s.tick), record);
    ConcatAssociative(RecordsIn(target.aside), target.file.records, [record]);
  }

  lemma {:induction false} StopIsFinal(s: Sink, env: Env, stream: Stream, frags: seq<Fragment>)
    requires !RecordAll(s, env, stream, frags).stopped
    ensures !s.stopped
  {
    if s.stopped { StoppedStays(s, env, stream, frags); }
  }

  lemma RecordedIsLast(s: Sink, env: Env, stream: Stream, f: Fragment)
    requires env.writes(s.tick) && !s.stopped && !Recorded(s, env, stream, f.bytes).stopped
    ensures History(Recorded(s, env, stream, f.bytes)) == History(s) + [RecordOf(env, s.tick, stream, f)]
    ensures Recorded(s, env, stream, f.bytes).tick == s.tick + 1
  {
    var text := Stored(env.clean(f.bytes));
    var recent := if stream == Err && TrimEnd(text) != [] then Remember(s.recentErr, text) else s.recentErr;
    var noted := s.(recentErr := recent);
    WrittenIsLast(noted, env, RecordOf(env, s.tick, stream, f), false);
    assert History(noted) == History(s);
  }

  lemma {:induction false} FragmentsAreLast(s: Sink, env: Env, stream: Stream, frags: seq<Fragment>)
    requires WritesSucceed(env) && !RecordAll(s, env, stream, frags).stopped
    ensures History(RecordAll(s, env, stream, frags)) == History(s) + RecordsOf(env, s.tick, stream, frags)
    decreases |frags|
  {
    StopIsFinal(s, env, stream, frags);
    if frags != [] {
      var next := Recorded(s, env, stream, frags[0].bytes);
      StopIsFinal(next, env, stream, frags[1..]);
      FragmentsAreLast(next, env, stream, frags[1..]);
      RecordedIsLast(s, env, stream, frags[0]);
      ConcatAssociative(History(s), [RecordOf(env, s.tick, stream, frags[0])], RecordsOf(env, s.tick + 1, stream, frags[1..]));
    }
  }

  lemma ExitIsLast(s: State, env: Env, summary: Bytes)
    requires WritesSucceed(env) && !Exited(s, env, summary).sink.stopped
    ensures History(Exited(s, env, summary).sink) == History(s.sink) + RecordsBy(s, env, Exits(summary))
  {
    var f := Flushed(s, env, Out);
    var g := Flushed(f, env, Err).sink;
    StopIsFinal(f.sink, env, Err, Unfinished(f.err));
    FragmentsAreLast(s.sink, env, Out, Unfinished(s.out));
    FragmentsAreLast(f.sink, env, Err, Unfinished(f.err));
    var last := ExitRecord(env.now(g.tick), summary, g.recentErr);
    WrittenIsLast(g, env, last, true);
    NestRight(History(s.sink), RecordsOf(env, s.sink.tick, Out, Unfinished(s.out)),
              RecordsOf(env, f.sink.tick, Err, Unfinished(f.err)), [last], [], []);
    NestRight(RecordsOf(env, s.sink.tick, Out, Unfinished(s.out)),
              RecordsOf(env, f.sink.tick, Err, Unfinished(f.err)), [last], [], [], []);
  }

  lemma EventIsLast(s: State, env: Env, e: Event)
    requires WritesSucceed(env) && !Apply(s, env, e).sink.stopped
    ensures History(Apply(s, env, e).sink) == History(s.sink) + RecordsBy(s, env, e)
  {
    match e
    case Chunk(stream, bytes) => FragmentsAreLast(s.sink, env, stream, Split(Pending(s, stream), bytes));
    case EndOf(stream) => FragmentsAreLast(s.sink, env, stream, Unfinished(Pending(s, stream)));
    case Exits(summary) => ExitIsLast(s, env, summary);
  }

  lemma {:induction false} RunStopIsFinal(s: State, env: Env, events: seq<Event>)
    requires !Run(s, env, events).sink.stopped
    ensures !s.sink.stopped
    decreases |events|
  {
    if events != [] {
      RunStopIsFinal(Apply(s, env, events[0]), env, events[1..]);
      if s.sink.stopped { OnlyExitWhenStopped(s, env, events[0]); }
    }
  }

  /** A capture that has not stopped wrote one record for every fragment, in the order they came. */
  lemma {:induction false} EverythingIsWritten(s: State, env: Env, events: seq<Event>)
    requires WritesSucceed(env) && !Run(s, env, events).sink.stopped
    ensures History(Run(s, env, events).sink) == History(s.sink) + AllRecordsOf(s, env, events)
    decreases |events|
  {
    if events != [] {
      var next := Apply(s, env, events[0]);
      RunStopIsFinal(next, env, events[1..]);
      EventIsLast(s, env, events[0]);
      EverythingIsWritten(next, env, events[1..]);
      ConcatAssociative(History(s.sink), RecordsBy(s, env, events[0]), AllRecordsOf(next, env, events[1..]));
    }
  }

  // ----- The reader can take every one of them -----

  lemma {:induction false} FragmentsReadable(env: Env, tick: nat, stream: Stream, frags: seq<Fragment>)
    requires Timely(env)
    ensures AllRecords(RecordsOf(env, tick, stream, frags))
    decreases |frags|
  {
    if frags != [] {
      LineIsRecord(env.now(tick), stream, Stored(env.clean(frags[0].bytes)));
      FragmentsReadable(env, tick + 1, stream, frags[1..]);
    }
  }

  lemma EventReadable(s: State, env: Env, e: Event, exited: bool)
    requires Timely(env) && Bounded(s.sink, exited)
    requires e.Exits? ==> !exited && |e.summary| <= MAX_LINE_BYTES
    ensures AllRecords(RecordsBy(s, env, e))
  {
    match e
    case Chunk(stream, bytes) => FragmentsReadable(env, s.sink.tick, stream, Split(Pending(s, stream), bytes));
    case EndOf(stream) => FragmentsReadable(env, s.sink.tick, stream, Unfinished(Pending(s, stream)));
    case Exits(summary) =>
      var f := Flushed(s, env, Out);
      FragmentsReadable(env, s.sink.tick, Out, Unfinished(s.out));
      FragmentsReadable(env, f.sink.tick, Err, Unfinished(f.err));
      ExitReadable(s, env, summary, exited);
      var g := Flushed(f, env, Err).sink;
      RecordsJoin(RecordsOf(env, s.sink.tick, Out, Unfinished(s.out)), RecordsOf(env, f.sink.tick, Err, Unfinished(f.err)),
                  [ExitRecord(env.now(g.tick), summary, g.recentErr)]);
  }

  lemma RecordsJoin(a: seq<Bytes>, b: seq<Bytes>, c: seq<Bytes>)
    requires AllRecords(a) && AllRecords(b) && AllRecords(c)
    ensures AllRecords(a + b + c)
  {
  }

  lemma ExitReadable(s: State, env: Env, summary: Bytes, exited: bool)
    requires Timely(env) && Bounded(s.sink, exited) && |summary| <= MAX_LINE_BYTES
    ensures var g := Flushed(Flushed(s, env, Out), env, Err).sink;
            AllRecords([ExitRecord(env.now(g.tick), summary, g.recentErr)])
  {
    var f := Flushed(s, env, Out);
    var g := Flushed(f, env, Err).sink;
    RecordAllBounded(s.sink, env, Out, Unfinished(s.out), exited);
    RecordAllBounded(f.sink, env, Err, Unfinished(f.err), exited);
    ExitIsRecord(env.now(g.tick), summary, g.recentErr);
  }

  /** Every record of a run is one line and fits in what the reader takes at once. */
  lemma {:induction false} RunReadable(s: State, env: Env, events: seq<Event>, exited: bool)
    requires Timely(env) && Bounded(s.sink, exited) && OneExit(events, exited)
    ensures AllRecords(AllRecordsOf(s, env, events))
    decreases |events|
  {
    if events != [] {
      EventReadable(s, env, events[0], exited);
      ApplyBounded(s, env, events[0], exited);
      RunReadable(Apply(s, env, events[0]), env, events[1..], exited || events[0].Exits?);
    }
  }

  // ----- The exit record's tail -----

  /** The last lines of a history. */
  function Last(h: seq<Bytes>): seq<Bytes> {
    if |h| <= EXIT_TAIL_LINES then h else h[|h| - EXIT_TAIL_LINES..]
  }

  /** The stderr lines worth keeping. */
  function ErrTexts(env: Env, stream: Stream, frags: seq<Fragment>): seq<Bytes> {
    if frags == [] || stream == Out then []
    else
      var text := Stored(env.clean(frags[0].bytes));
      (if TrimEnd(text) != [] then [text] else []) + ErrTexts(env, stream, frags[1..])
  }

  lemma RememberIsLast(h: seq<Bytes>, text: Bytes)
    ensures Remember(Last(h), text) == Last(h + [text])
  {
  }

  /** What goes on the exit record is the last non-blank stderr lines. */
  lemma {:induction false} TailIsLast(s: Sink, env: Env, stream: Stream, frags: seq<Fragment>, h: seq<Bytes>)
    requires s.recentErr == Last(h) && !RecordAll(s, env, stream, frags).stopped
    ensures RecordAll(s, env, stream, frags).recentErr == Last(h + ErrTexts(env, stream, frags))
    decreases |frags|
  {
    StopIsFinal(s, env, stream, frags);
    if frags == [] {
      assert h + [] == h;
    } else {
      var next, rest := Recorded(s, env, stream, frags[0].bytes), frags[1..];
      var kept := ErrTexts(env, stream, [frags[0]]);
      StopIsFinal(next, env, stream, rest);
      OneErrText(s, env, stream, frags[0], h);
      TailIsLast(next, env, stream, rest, h + kept);
      ErrTextsFirst(env, stream, frags);
      ConcatAssociative(h, kept, ErrTexts(env, stream, rest));
    }
  }

  lemma ErrTextsFirst(env: Env, stream: Stream, frags: seq<Fragment>)
    requires frags != []
    ensures ErrTexts(env, stream, frags) == ErrTexts(env, stream, [frags[0]]) + ErrTexts(env, stream, frags[1..])
  {
    assert [frags[0]][1..] == [];
  }

  /** One line, remembered or not. */
  lemma OneErrText(s: Sink, env: Env, stream: Stream, f: Fragment, h: seq<Bytes>)
    requires s.recentErr == Last(h) && !s.stopped && !Recorded(s, env, stream, f.bytes).stopped
    ensures Recorded(s, env, stream, f.bytes).recentErr == Last(h + ErrTexts(env, stream, [f]))
  {
    var text := Stored(env.clean(f.bytes));
    assert [f][1..] == [];
    if stream == Err && TrimEnd(text) != [] {
      RememberIsLast(h, text);
      assert ErrTexts(env, stream, [f]) == [text];
    } else {
      assert h + [] == h;
    }
  }
}
