/** What is written, stream by stream: the records of a run against the fragments handed over. */
module CaptureLog {
  import opened Text
  import opened CaptureSplit
  import opened CaptureRecord
  import opened CaptureModel
  import opened CaptureTheorems
  import opened CaptureComplete

  /** What one record stands for: a fragment of a stream, or the end of the app. */
  datatype Entry = Line(stream: Stream, fragment: Fragment) | Final(summary: Bytes, tail: seq<Bytes>)

  function Tagged(stream: Stream, frags: seq<Fragment>): seq<Entry> {
    if frags == [] then [] else [Line(stream, frags[0])] + Tagged(stream, frags[1..])
  }

  /** What one event hands over, both streams in the order it happens. */
  function EntriesBy(s: State, env: Env, e: Event): seq<Entry> {
    match e
    case Chunk(stream, bytes) => Tagged(stream, Split(Pending(s, stream), bytes))
    case EndOf(stream) => Tagged(stream, Unfinished(Pending(s, stream)))
    case Exits(summary) =>
      Tagged(Out, Unfinished(s.out)) + Tagged(Err, Unfinished(s.err))
      + [Final(summary, Flushed(Flushed(s, env, Out), env, Err).sink.recentErr)]
  }

  function Entries(s: State, env: Env, events: seq<Event>): seq<Entry>
    decreases |events|
  {
    if events == [] then [] else EntriesBy(s, env, events[0]) + Entries(Apply(s, env, events[0]), env, events[1..])
  }

  /** The fragments of one stream. */
  function OfStream(entries: seq<Entry>, stream: Stream): seq<Fragment> {
    if entries == [] then []
    else (if entries[0].Line? && entries[0].stream == stream then [entries[0].fragment] else []) + OfStream(entries[1..], stream)
  }

  lemma {:induction false} OfStreamConcat(a: seq<Entry>, b: seq<Entry>, stream: Stream)
    ensures OfStream(a + b, stream) == OfStream(a, stream) + OfStream(b, stream)
  {
    if a == [] {
      assert a + b == b;
    } else {
      assert (a + b)[1..] == a[1..] + b;
      OfStreamConcat(a[1..], b, stream);
    }
  }

  lemma {:induction false} OfStreamTagged(from: Stream, frags: seq<Fragment>, stream: Stream)
    ensures OfStream(Tagged(from, frags), stream) == if from == stream then frags else []
  {
    if frags != [] {
      OfStreamTagged(from, frags[1..], stream);
      assert Tagged(from, frags)[1..] == Tagged(from, frags[1..]);
    }
  }

  lemma EntriesByStream(s: State, env: Env, e: Event, stream: Stream)
    ensures OfStream(EntriesBy(s, env, e), stream) == HandedBy(e, stream, Pending(s, stream))
  {
    match e
    case Chunk(from, bytes) => OfStreamTagged(from, Split(Pending(s, from), bytes), stream);
    case EndOf(from) => OfStreamTagged(from, Unfinished(Pending(s, from)), stream);
    case Exits(summary) =>
      var a, b := Tagged(Out, Unfinished(s.out)), Tagged(Err, Unfinished(s.err));
      var last := Final(summary, Flushed(Flushed(s, env, Out), env, Err).sink.recentErr);
      OfStreamTagged(Out, Unfinished(s.out), stream);
      OfStreamTagged(Err, Unfinished(s.err), stream);
      OfStreamThree(a, b, last, stream);
  }

  lemma OfStreamThree(a: seq<Entry>, b: seq<Entry>, last: Entry, stream: Stream)
    requires last.Final?
    ensures OfStream(a + b + [last], stream) == OfStream(a, stream) + OfStream(b, stream)
  {
    OfStreamConcat(a, b, stream);
    OfStreamConcat(a + b, [last], stream);
    assert OfStream([last], stream) == [];
  }

  lemma PendingNext(s: State, env: Env, e: Event, stream: Stream)
    ensures Pending(Apply(s, env, e), stream) == PendingAfter(e, stream, Pending(s, stream))
  {
  }

  /** Stream by stream, the entries are the fragments handed over. */
  lemma {:induction false} EntriesAreHanded(s: State, env: Env, events: seq<Event>, stream: Stream)
    ensures OfStream(Entries(s, env, events), stream) == Handed(events, stream, Pending(s, stream))
    decreases |events|
  {
    if events != [] {
      var e, next := events[0], Apply(s, env, events[0]);
      EntriesByStream(s, env, e, stream);
      PendingNext(s, env, e, stream);
      EntriesAreHanded(next, env, events[1..], stream);
      OfStreamConcat(EntriesBy(s, env, e), Entries(next, env, events[1..]), stream);
    }
  }

  // ----- One record for each entry -----

  /** The record of an entry written at `tick`. */
  function EntryRecord(env: Env, tick: nat, entry: Entry): Bytes {
    match entry
    case Line(stream, f) => RecordOf(env, tick, stream, f)
    case Final(summary, tail) => ExitRecord(env.now(tick), summary, tail)
  }

  /** The records of some entries, one after another from `tick` on. */
  function Written(record: (nat, Entry) -> Bytes, tick: nat, entries: seq<Entry>): seq<Bytes>
    decreases |entries|
  {
    if entries == [] then [] else [record(tick, entries[0])] + Written(record, tick + 1, entries[1..])
  }

  lemma {:induction false} WrittenConcat(record: (nat, Entry) -> Bytes, tick: nat, a: seq<Entry>, b: seq<Entry>)
    ensures Written(record, tick, a + b) == Written(record, tick, a) + Written(record, tick + |a|, b)
    decreases |a|
  {
    if a == [] {
      assert a + b == b;
    } else {
      assert (a + b)[1..] == a[1..] + b;
      WrittenConcat(record, tick + 1, a[1..], b);
    }
  }

  lemma WrittenOne(record: (nat, Entry) -> Bytes, tick: nat, entry: Entry)
    ensures Written(record, tick, [entry]) == [record(tick, entry)]
  {
    assert [entry][1..] == [];
  }

  /** `record` gives each entry the record the capture writes for it. */
  ghost predicate IsRecorder(record: (nat, Entry) -> Bytes, env: Env) {
    forall tick: nat, entry {:trigger EntryRecord(env, tick, entry)} :: record(tick, entry) == EntryRecord(env, tick, entry)
  }

  function RecordIn(env: Env): (nat, Entry) -> Bytes { (tick: nat, entry: Entry) => EntryRecord(env, tick, entry) }

  lemma {:induction false} FragmentsWritten(record: (nat, Entry) -> Bytes, env: Env, tick: nat, stream: Stream, frags: seq<Fragment>)
    requires IsRecorder(record, env)
    ensures |Tagged(stream, frags)| == |frags|
    ensures Written(record, tick, Tagged(stream, frags)) == RecordsOf(env, tick, stream, frags)
    decreases |frags|
  {
    if frags != [] {
      FragmentsWritten(record, env, tick + 1, stream, frags[1..]);
      assert Tagged(stream, frags)[1..] == Tagged(stream, frags[1..]);
      assert record(tick, Line(stream, frags[0])) == EntryRecord(env, tick, Line(stream, frags[0]));
    }
  }

  /** A capture that has not stopped takes one turn for each fragment. */
  lemma {:induction false} TicksCount(s: Sink, env: Env, stream: Stream, frags: seq<Fragment>)
    requires !RecordAll(s, env, stream, frags).stopped
    ensures RecordAll(s, env, stream, frags).tick == s.tick + |frags|
    decreases |frags|
  {
    StopIsFinal(s, env, stream, frags);
    if frags != [] {
      var next := Recorded(s, env, stream, frags[0].bytes);
      StopIsFinal(next, env, stream, frags[1..]);
      OneTick(s, env, stream, frags[0].bytes);
      TicksCount(next, env, stream, frags[1..]);
    }
  }

  lemma OneTick(s: Sink, env: Env, stream: Stream, line: Bytes)
    requires !s.stopped
    ensures Recorded(s, env, stream, line).tick == s.tick + 1
  {
  }

  /** The two flushes before an exit record. */
  lemma FlushTicks(s: State, env: Env, f: State, g: State)
    requires f == Flushed(s, env, Out) && g == Flushed(f, env, Err) && !g.sink.stopped
    ensures f.err == s.err && !f.sink.stopped
    ensures f.sink.tick == s.sink.tick + |Unfinished(s.out)| && g.sink.tick == f.sink.tick + |Unfinished(s.err)|
  {
    StopIsFinal(f.sink, env, Err, Unfinished(s.err));
    TicksCount(s.sink, env, Out, Unfinished(s.out));
    TicksCount(f.sink, env, Err, Unfinished(s.err));
  }

  /** Where the exit record is written, and what it is. */
  lemma LastOfExit(s: State, env: Env, summary: Bytes, f: State, g: State)
    requires f == Flushed(s, env, Out) && g == Flushed(f, env, Err)
    ensures RecordsBy(s, env, Exits(summary))
            == RecordsOf(env, s.sink.tick, Out, Unfinished(s.out)) + RecordsOf(env, f.sink.tick, Err, Unfinished(f.err))
               + [ExitRecord(env.now(g.sink.tick), summary, g.sink.recentErr)]
    ensures Exited(s, env, summary).sink.tick == g.sink.tick + 1
    ensures Exited(s, env, summary).sink.stopped == g.sink.stopped && Exited(s, env, summary).sink.recentErr == g.sink.recentErr
  {
    var record := ExitRecord(env.now(g.sink.tick), summary, g.sink.recentErr);
    assert Exited(s, env, summary).sink == CaptureModel.Written(g.sink, env, record, true);
    ExitWriteKeeps(g.sink, env, record);
  }

  lemma ExitWriteKeeps(s: Sink, env: Env, record: Bytes)
    ensures var t := CaptureModel.Written(s, env, record, true);
            t.tick == s.tick + 1 && t.stopped == s.stopped && t.recentErr == s.recentErr
  {
  }

  lemma ExitWritten(record: (nat, Entry) -> Bytes, s: State, env: Env, summary: Bytes)
    requires IsRecorder(record, env) && !Exited(s, env, summary).sink.stopped
    ensures Written(record, s.sink.tick, EntriesBy(s, env, Exits(summary))) == RecordsBy(s, env, Exits(summary))
    ensures Exited(s, env, summary).sink.tick == s.sink.tick + |EntriesBy(s, env, Exits(summary))|
  {
    var f := Flushed(s, env, Out);
    var g := Flushed(f, env, Err);
    LastOfExit(s, env, summary, f, g);
    FlushTicks(s, env, f, g);
    FragmentsWritten(record, env, s.sink.tick, Out, Unfinished(s.out));
    FragmentsWritten(record, env, f.sink.tick, Err, Unfinished(s.err));
    var last := Final(summary, g.sink.recentErr);
    assert record(g.sink.tick, last) == EntryRecord(env, g.sink.tick, last);
    WrittenThree(record, s.sink.tick, f.sink.tick, g.sink.tick, Tagged(Out, Unfinished(s.out)), Tagged(Err, Unfinished(s.err)), last,
                 RecordsOf(env, s.sink.tick, Out, Unfinished(s.out)), RecordsOf(env, f.sink.tick, Err, Unfinished(s.err)),
                 ExitRecord(env.now(g.sink.tick), summary, g.sink.recentErr));
  }

  lemma WrittenThree(record: (nat, Entry) -> Bytes, tick: nat, mid: nat, end: nat, a: seq<Entry>, b: seq<Entry>, last: Entry,
                     x: seq<Bytes>, y: seq<Bytes>, z: Bytes)
    requires mid == tick + |a| && end == mid + |b|
    requires Written(record, tick, a) == x && Written(record, mid, b) == y && record(end, last) == z
    ensures Written(record, tick, a + b + [last]) == x + y + [z]
  {
    WrittenConcat(record, tick, a, b);
    WrittenConcat(record, tick, a + b, [last]);
    WrittenOne(record, end, last);
  }

  lemma EventWritten(record: (nat, Entry) -> Bytes, s: State, env: Env, e: Event)
    requires IsRecorder(record, env) && !Apply(s, env, e).sink.stopped
    ensures Written(record, s.sink.tick, EntriesBy(s, env, e)) == RecordsBy(s, env, e)
    ensures Apply(s, env, e).sink.tick == s.sink.tick + |EntriesBy(s, env, e)|
  {
    match e
    case Chunk(stream, bytes) =>
      FragmentsWritten(record, env, s.sink.tick, stream, Split(Pending(s, stream), bytes));
      TicksCount(s.sink, env, stream, Split(Pending(s, stream), bytes));
    case EndOf(stream) =>
      FragmentsWritten(record, env, s.sink.tick, stream, Unfinished(Pending(s, stream)));
      TicksCount(s.sink, env, stream, Unfinished(Pending(s, stream)));
    case Exits(summary) => ExitWritten(record, s, env, summary);
  }

  /** The records of a run are those of its entries, in order. */
  lemma {:induction false} RunWritten(record: (nat, Entry) -> Bytes, s: State, env: Env, events: seq<Event>)
    requires IsRecorder(record, env) && !Run(s, env, events).sink.stopped
    ensures AllRecordsOf(s, env, events) == Written(record, s.sink.tick, Entries(s, env, events))
    decreases |events|
  {
    if events != [] {
      var next := Apply(s, env, events[0]);
      RunStopIsFinal(next, env, events[1..]);
      EventWritten(record, s, env, events[0]);
      RunWritten(record, next, env, events[1..]);
      WrittenJoin(record, s.sink.tick, next.sink.tick, EntriesBy(s, env, events[0]), RecordsBy(s, env, events[0]),
                  Entries(next, env, events[1..]), AllRecordsOf(next, env, events[1..]), Entries(s, env, events),
                  AllRecordsOf(s, env, events));
    }
  }

  lemma WrittenJoin(record: (nat, Entry) -> Bytes, tick: nat, next: nat, a: seq<Entry>, x: seq<Bytes>, b: seq<Entry>, y: seq<Bytes>,
                    entries: seq<Entry>, records: seq<Bytes>)
    requires Written(record, tick, a) == x && next == tick + |a| && Written(record, next, b) == y
    requires entries == a + b && records == x + y
    ensures records == Written(record, tick, entries)
  {
    WrittenConcat(record, tick, a, b);
  }

  /**
   * While writes succeed and the capture has not stopped, what is written is, after what was
   * there, exactly the record of each entry of the run, in order; and each stream's fragments among
   * the entries, with what is still pending, are that stream's input to the byte.
   */
  lemma InputIsWritten(s: State, env: Env, events: seq<Event>, stream: Stream)
    requires WritesSucceed(env) && !Run(s, env, events).sink.stopped
    ensures var entries, end := Entries(s, env, events), Run(s, env, events);
            && History(end.sink) == History(s.sink) + Written(RecordIn(env), s.sink.tick, entries)
            && Rebuild(OfStream(entries, stream)) + Pending(end, stream) == Pending(s, stream) + Input(events, stream)
  {
    EverythingIsWritten(s, env, events);
    assert IsRecorder(RecordIn(env), env);
    RunWritten(RecordIn(env), s, env, events);
    EntriesAreHanded(s, env, events, stream);
    PendingOfRun(s, env, events, stream);
    NothingLost(events, stream, Pending(s, stream));
  }

  // ----- The exit record's tail -----

  lemma {:induction false} ErrTextsConcat(env: Env, stream: Stream, a: seq<Fragment>, b: seq<Fragment>)
    ensures ErrTexts(env, stream, a + b) == ErrTexts(env, stream, a) + ErrTexts(env, stream, b)
  {
    if a == [] {
      assert a + b == b;
    } else {
      assert (a + b)[1..] == a[1..] + b && (a + b)[0] == a[0];
      ErrTextsConcat(env, stream, a[1..], b);
      ErrTextsFirst(env, stream, a);
      ErrTextsFirst(env, stream, a + b);
      ConcatAssociative(ErrTexts(env, stream, [a[0]]), ErrTexts(env, stream, a[1..]), ErrTexts(env, stream, b));
    }
  }

  lemma FlushTail(s: State, env: Env, f: State, g: State, h: seq<Bytes>)
    requires f == Flushed(s, env, Out) && g == Flushed(f, env, Err) && !g.sink.stopped && s.sink.recentErr == Last(h)
    ensures g.sink.recentErr == Last(h + ErrTexts(env, Err, Unfinished(s.err)))
  {
    FlushTicks(s, env, f, g);
    TailIsLast(s.sink, env, Out, Unfinished(s.out), h);
    NoOutTexts(env, Unfinished(s.out));
    assert h + [] == h;
    TailIsLast(f.sink, env, Err, Unfinished(s.err), h);
  }

  lemma NoOutTexts(env: Env, frags: seq<Fragment>)
    ensures ErrTexts(env, Out, frags) == []
  {
  }

  lemma ExitTail(s: State, env: Env, summary: Bytes, h: seq<Bytes>)
    requires s.sink.recentErr == Last(h) && !Exited(s, env, summary).sink.stopped
    ensures Exited(s, env, summary).sink.recentErr == Last(h + ErrTexts(env, Err, Unfinished(s.err)))
  {
    var f := Flushed(s, env, Out);
    LastOfExit(s, env, summary, f, Flushed(f, env, Err));
    FlushTail(s, env, f, Flushed(f, env, Err), h);
  }

  lemma EventTail(s: State, env: Env, e: Event, h: seq<Bytes>)
    requires s.sink.recentErr == Last(h) && !Apply(s, env, e).sink.stopped
    ensures Apply(s, env, e).sink.recentErr == Last(h + ErrTexts(env, Err, HandedBy(e, Err, s.err)))
  {
    match e
    case Chunk(stream, bytes) =>
      TailIsLast(s.sink, env, stream, Split(Pending(s, stream), bytes), h);
      if stream == Out { NoOutTexts(env, Split(Pending(s, stream), bytes)); }
    case EndOf(stream) =>
      TailIsLast(s.sink, env, stream, Unfinished(Pending(s, stream)), h);
      if stream == Out { NoOutTexts(env, Unfinished(Pending(s, stream))); }
    case Exits(summary) => ExitTail(s, env, summary, h);
  }

  /** Over a run that does not stop, what is remembered is the last of all non-blank stderr lines so far. */
  lemma {:induction false} RunTail(s: State, env: Env, events: seq<Event>, h: seq<Bytes>)
    requires s.sink.recentErr == Last(h) && !Run(s, env, events).sink.stopped
    ensures Run(s, env, events).sink.recentErr == Last(h + ErrTexts(env, Err, Handed(events, Err, s.err)))
    decreases |events|
  {
    if events == [] {
      assert h + [] == h;
    } else {
      var e, next := events[0], Apply(s, env, events[0]);
      RunStopIsFinal(next, env, events[1..]);
      EventTail(s, env, e, h);
      var first := ErrTexts(env, Err, HandedBy(e, Err, s.err));
      RunTail(next, env, events[1..], h + first);
      PendingNext(s, env, e, Err);
      HandedTexts(events, env, s.err, h);
    }
  }

  lemma HandedTexts(events: seq<Event>, env: Env, err: Bytes, h: seq<Bytes>)
    requires events != []
    ensures var first := ErrTexts(env, Err, HandedBy(events[0], Err, err));
            var later := ErrTexts(env, Err, Handed(events[1..], Err, PendingAfter(events[0], Err, err)));
            h + ErrTexts(env, Err, Handed(events, Err, err)) == (h + first) + later
  {
    var first, later := HandedBy(events[0], Err, err), Handed(events[1..], Err, PendingAfter(events[0], Err, err));
    ErrTextsConcat(env, Err, first, later);
    ConcatAssociative(h, ErrTexts(env, Err, first), ErrTexts(env, Err, later));
  }

  /** All that was handed over of stderr when the app ends: what the run before handed over, and the unfinished line. */
  function ErrAtExit(events: seq<Event>, err: Bytes): seq<Fragment> {
    Handed(events, Err, err) + Unfinished(LastPending(events, Err, err))
  }

  lemma TailAtExit(s: State, env: Env, events: seq<Event>, at: State, g: State)
    requires at == Run(s, env, events) && g == Flushed(Flushed(at, env, Out), env, Err)
    requires s.sink.recentErr == [] && !g.sink.stopped
    ensures g.sink.recentErr == Last(ErrTexts(env, Err, ErrAtExit(events, s.err)))
  {
    var f := Flushed(at, env, Out);
    FlushTicks(at, env, f, g);
    StopIsFinal(at.sink, env, Out, Unfinished(at.out));
    RunTail(s, env, events, []);
    var h := ErrTexts(env, Err, Handed(events, Err, s.err));
    assert [] + h == h;
    FlushTail(at, env, f, g, h);
    PendingOfRun(s, env, events, Err);
    ErrTextsConcat(env, Err, Handed(events, Err, s.err), Unfinished(LastPending(events, Err, s.err)));
  }

  lemma LastOfThree(a: seq<Bytes>, b: seq<Bytes>, c: Bytes)
    ensures var all := a + b + [c]; all != [] && all[|all| - 1] == c
  {
  }

  /** The exit record, which follows the two flushes, carries the last twelve non-blank stderr lines of the whole run. */
  lemma ExitCarriesLast(s: State, env: Env, events: seq<Event>, summary: Bytes)
    requires s.sink.recentErr == [] && !Flushed(Flushed(Run(s, env, events), env, Out), env, Err).sink.stopped
    ensures var at := Run(s, env, events);
            var records := RecordsBy(at, env, Exits(summary));
            var tick := Flushed(Flushed(at, env, Out), env, Err).sink.tick;
            && records != []
            && records[|records| - 1] == ExitRecord(env.now(tick), summary, Last(ErrTexts(env, Err, ErrAtExit(events, s.err))))
  {
    var at := Run(s, env, events);
    var f := Flushed(at, env, Out);
    var g := Flushed(f, env, Err);
    TailAtExit(s, env, events, at, g);
    LastOfThree(RecordsOf(env, at.sink.tick, Out, Unfinished(at.out)), RecordsOf(env, f.sink.tick, Err, Unfinished(f.err)),
                ExitRecord(env.now(g.sink.tick), summary, g.sink.recentErr));
  }
}
