/** What holds of every run of the capture writer, whatever the system answers. */
module CaptureTheorems {
  import opened Text
  import opened Whitespace
  import opened CaptureSplit
  import opened CaptureRecord
  import opened CaptureModel

  /** What reaches the capture, in the order its lock is taken. */
  datatype Event = Chunk(stream: Stream, bytes: Bytes) | EndOf(stream: Stream) | Exits(summary: Bytes)

  function Apply(s: State, env: Env, e: Event): State {
    match e
    case Chunk(stream, bytes) => Fed(s, env, stream, bytes)
    case EndOf(stream) => Flushed(s, env, stream)
    case Exits(summary) => Exited(s, env, summary)
  }

  function Run(s: State, env: Env, events: seq<Event>): State
    decreases |events|
  {
    if events == [] then s else Run(Apply(s, env, events[0]), env, events[1..])
  }

  // ----- Every byte of a stream is handed over once, in order -----

  /** The bytes of one stream. */
  function Input(events: seq<Event>, stream: Stream): Bytes {
    if events == [] then []
    else (if events[0].Chunk? && events[0].stream == stream then events[0].bytes else []) + Input(events[1..], stream)
  }

  /** What one event hands over of a stream of which `p` was pending, and what then is. */
  function HandedBy(e: Event, stream: Stream, p: Bytes): seq<Fragment> {
    match e
    case Chunk(s, bytes) => if s == stream then Split(p, bytes) else []
    case EndOf(s) => if s == stream then Unfinished(p) else []
    case Exits(_) => Unfinished(p)
  }

  function PendingAfter(e: Event, stream: Stream, p: Bytes): Bytes {
    match e
    case Chunk(s, bytes) => if s == stream then Rest(p, bytes) else p
    case EndOf(s) => if s == stream then [] else p
    case Exits(_) => []
  }

  function Handed(events: seq<Event>, stream: Stream, p: Bytes): seq<Fragment>
    decreases |events|
  {
    if events == [] then []
    else HandedBy(events[0], stream, p) + Handed(events[1..], stream, PendingAfter(events[0], stream, p))
  }

  function LastPending(events: seq<Event>, stream: Stream, p: Bytes): Bytes
    decreases |events|
  {
    if events == [] then p else LastPending(events[1..], stream, PendingAfter(events[0], stream, p))
  }

  /** The streams do not touch each other's pending bytes. */
  lemma {:induction false} PendingOfRun(s: State, env: Env, events: seq<Event>, stream: Stream)
    ensures Pending(Run(s, env, events), stream) == LastPending(events, stream, Pending(s, stream))
    decreases |events|
  {
    if events != [] { PendingOfRun(Apply(s, env, events[0]), env, events[1..], stream); }
  }

  lemma EventKeeps(e: Event, stream: Stream, p: Bytes)
    ensures Rebuild(HandedBy(e, stream, p)) + PendingAfter(e, stream, p)
            == p + (if e.Chunk? && e.stream == stream then e.bytes else [])
  {
    if e.Chunk? && e.stream == stream {
      SplitKeeps(p, e.bytes);
    } else if p != [] {
      assert [Fragment(p, false)][1..] == [];
    }
  }

  /** For any chunking and any interleaving: the fragments and the pending bytes are the input. */
  lemma {:induction false} NothingLost(events: seq<Event>, stream: Stream, p: Bytes)
    ensures Rebuild(Handed(events, stream, p)) + LastPending(events, stream, p) == p + Input(events, stream)
    decreases |events|
  {
    if events != [] {
      var e := events[0];
      var p' := PendingAfter(e, stream, p);
      var part := if e.Chunk? && e.stream == stream then e.bytes else [];
      EventKeeps(e, stream, p);
      NothingLost(events[1..], stream, p');
      RebuildConcat(HandedBy(e, stream, p), Handed(events[1..], stream, p'));
      Regroup(Rebuild(HandedBy(e, stream, p)), Rebuild(Handed(events[1..], stream, p')),
              LastPending(events, stream, p), p', Input(events[1..], stream), p, part);
    }
  }

  lemma Regroup(a: Bytes, b: Bytes, last: Bytes, mid: Bytes, input: Bytes, p: Bytes, part: Bytes)
    requires a + mid == p + part && b + last == mid + input
    ensures (a + b) + last == p + (part + input)
  {
    ConcatAssociative(a, b, last);
    ConcatAssociative(a, mid, input);
    ConcatAssociative(p, part, input);
  }

  // ----- Sizes -----

  const MAX_NOTE: nat := 6 * |NOTE| + 64

  ghost predicate Timely(env: Env) { forall i :: env.now(i) <= MAX_TIME }

  predicate Short(s: Bytes) { |s| <= MAX_LINE_BYTES + |TRUNCATED| }

  predicate TailOk(tail: seq<Bytes>) {
    |tail| <= EXIT_TAIL_LINES && forall i :: 0 <= i < |tail| ==> Short(tail[i])
  }

  function Size(f: File): nat { |Flatten(f.records)| }

  /** At most the bound, one note when the capture stopped, and one exit record when there was one. */
  function Most(stopped: bool, exited: bool): nat {
    MAX_CAPTURE_BYTES + (if stopped then MAX_NOTE else 0) + (if exited then MAX_EXIT else 0)
  }

  predicate AllWithin(files: seq<File>, size: nat) { forall i :: 0 <= i < |files| ==> Size(files[i]) <= size }

  predicate Bounded(s: Sink, exited: bool) {
    && s.written <= MAX_CAPTURE_BYTES + (if exited then MAX_EXIT else 0)
    && s.written <= Size(s.disk.file) <= s.written + (if s.stopped then MAX_NOTE else 0)
    && TailOk(s.recentErr)
    && AllWithin(s.disk.aside, Most(true, true))
  }

  lemma SizeOf(d: Disk, record: Bytes)
    ensures Size(Appended(d, record).file) == Size(d.file) + |record|
  {
    FlattenConcat(d.file.records, [record]);
    assert Flatten([record]) == record + Flatten([]);
  }

  lemma {:induction false} UnnamedWithin(files: seq<File>, name: Name, size: nat)
    requires AllWithin(files, size)
    ensures AllWithin(AllUnnamed(files, name), size)
  {
    if files != [] {
      UnnamedWithin(files[1..], name, size);
      assert AllWithin([Unnamed(files[0], name)], size);
    }
  }

  lemma RotatedWithin(d: Disk, a: Answers, size: nat)
    requires AllWithin(d.aside, size) && Size(d.file) <= size
    ensures AllWithin(Rotated(d, a).aside, size)
    ensures Size(Rotated(d, a).file) == if Rotates(d, a) then 0 else Size(d.file)
  {
    var removed := if a.removes then Without(d, OLD) else d;
    UnnamedWithin(d.aside, OLD, size);
    UnnamedWithin(removed.aside, Aside(a), size);
  }

  lemma NoteSize(t: nat)
    requires t <= MAX_TIME
    ensures |Note(t)| <= MAX_NOTE
  {
    FirstThree(t, "err", NOTE, [], 1);
    assert LineMembers(t, Err, NOTE) + [] == LineMembers(t, Err, NOTE);
    WholeRecord(LineMembers(t, Err, NOTE), 6 * |NOTE| + 59);
  }

  /** Whatever the record and the rotation: the file it is written to has room for it, or the capture stops. */
  lemma WriteBounded(s: Sink, env: Env, record: Bytes, isExit: bool, exited: bool)
    requires Timely(env) && Bounded(s, exited && !isExit) && (isExit ==> exited)
    requires |record| <= if isExit then MAX_EXIT else MAX_RECORD
    ensures Bounded(Written(s, env, record, isExit), exited)
  {
    var a, t := env.rotation(s.tick), env.now(s.tick);
    var disk := Target(s, a, record);
    RotatedWithin(s.disk, a, Most(true, true));
    assert AllWithin(disk.aside, Most(true, true));
    assert Counted(s, a, record) <= Size(disk.file) <= Counted(s, a, record) + (if s.stopped then MAX_NOTE else 0);
    SizeOf(disk, record);
    if !Accepts(s, a, record, isExit) {
      NoteSize(t);
      SizeOf(disk, Note(t));
    }
  }

  lemma RecordBounded(s: Sink, env: Env, stream: Stream, line: Bytes, exited: bool)
    requires Timely(env) && Bounded(s, exited)
    ensures Bounded(Recorded(s, env, stream, line), exited)
  {
    if !s.stopped {
      var text := Stored(env.clean(line));
      LineIsRecord(env.now(s.tick), stream, text);
      var recent := if stream == Err && TrimEnd(text) != [] then Remember(s.recentErr, text) else s.recentErr;
      WriteBounded(s.(recentErr := recent), env, LineRecord(env.now(s.tick), stream, text), false, exited);
    }
  }

  lemma {:induction false} RecordAllBounded(s: Sink, env: Env, stream: Stream, frags: seq<Fragment>, exited: bool)
    requires Timely(env) && Bounded(s, exited)
    ensures Bounded(RecordAll(s, env, stream, frags), exited)
    decreases |frags|
  {
    if frags != [] {
      RecordBounded(s, env, stream, frags[0].bytes, exited);
      RecordAllBounded(Recorded(s, env, stream, frags[0].bytes), env, stream, frags[1..], exited);
    }
  }

  lemma ApplyBounded(s: State, env: Env, e: Event, exited: bool)
    requires Timely(env) && Bounded(s.sink, exited)
    requires e.Exits? ==> !exited && |e.summary| <= MAX_LINE_BYTES
    ensures Bounded(Apply(s, env, e).sink, exited || e.Exits?)
  {
    match e
    case Chunk(stream, bytes) => RecordAllBounded(s.sink, env, stream, Split(Pending(s, stream), bytes), exited);
    case EndOf(stream) => RecordAllBounded(s.sink, env, stream, Unfinished(Pending(s, stream)), exited);
    case Exits(summary) =>
      RecordAllBounded(s.sink, env, Out, Unfinished(s.out), exited);
      var f := Flushed(s, env, Out);
      RecordAllBounded(f.sink, env, Err, Unfinished(f.err), exited);
      var g := Flushed(f, env, Err).sink;
      ExitIsRecord(env.now(g.tick), summary, g.recentErr);
      WriteBounded(g, env, ExitRecord(env.now(g.tick), summary, g.recentErr), true, true);
  }

  /** The launcher records one exit, with a summary of its own. */
  predicate OneExit(events: seq<Event>, exited: bool) {
    events != [] ==>
      && (events[0].Exits? ==> !exited && |events[0].summary| <= MAX_LINE_BYTES)
      && OneExit(events[1..], exited || events[0].Exits?)
  }

  function HasExit(events: seq<Event>): bool { events != [] && (events[0].Exits? || HasExit(events[1..])) }

  /** Whatever happens, the file stays within its bound but for one note and one exit record. */
  lemma {:induction false} RunBounded(s: State, env: Env, events: seq<Event>, exited: bool)
    requires Timely(env) && Bounded(s.sink, exited) && OneExit(events, exited)
    ensures Bounded(Run(s, env, events).sink, exited || HasExit(events))
    ensures var end := Run(s, env, events).sink; Size(end.disk.file) <= Most(end.stopped, exited || HasExit(events))
    decreases |events|
  {
    if events != [] {
      ApplyBounded(s, env, events[0], exited);
      RunBounded(Apply(s, env, events[0]), env, events[1..], exited || events[0].Exits?);
    }
  }

  // ----- A stopped capture -----

  lemma {:induction false} StoppedStays(s: Sink, env: Env, stream: Stream, frags: seq<Fragment>)
    requires s.stopped
    ensures RecordAll(s, env, stream, frags) == s
    decreases |frags|
  {
    if frags != [] { StoppedStays(s, env, stream, frags[1..]); }
  }

  /** Once the capture has stopped, nothing but the exit record is written. */
  lemma OnlyExitWhenStopped(s: State, env: Env, e: Event)
    requires s.sink.stopped
    ensures Apply(s, env, e).sink.stopped
    ensures if e.Exits?
            then Apply(s, env, e).sink
                 == Written(s.sink, env, ExitRecord(env.now(s.sink.tick), e.summary, s.sink.recentErr), true)
            else Apply(s, env, e).sink == s.sink
  {
    match e
    case Chunk(stream, bytes) => StoppedStays(s.sink, env, stream, Split(Pending(s, stream), bytes));
    case EndOf(stream) => StoppedStays(s.sink, env, stream, Unfinished(Pending(s, stream)));
    case Exits(_) =>
      StoppedStays(s.sink, env, Out, Unfinished(s.out));
      StoppedStays(s.sink, env, Err, Unfinished(s.err));
  }
}
