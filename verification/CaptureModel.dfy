/**
 * The writing half of a console capture (`Capture`, crates/victauri-cli/src/run.rs): two byte
 * streams become records in a file of bounded size. What the operating system and the clock do
 * is given by an environment that may answer every call as it likes.
 */
module CaptureModel {
  import opened Text
  import opened Whitespace
  import opened CaptureSplit
  import opened CaptureRecord

  /** A capture rotates past this size. */
  const MAX_CAPTURE_BYTES: nat := 64 * 1024 * 1024

  /** What the capture says of itself when it stops; the dash is U+2014. */
  const NOTE: Bytes :=
    "[victauri run: capture stopped " + ['\U{00E2}', '\U{0080}', '\U{0094}'] + " the file could not be rotated]"

  /** A name in the capture's directory: its own, that of a file moved aside, or none any more. */
  datatype Name = Current | Moved(suffix: nat) | Removed

  /** `.jsonl.1`. */
  const OLD: Name := Moved(1)

  /** The records in a file. They stay in it when it loses its name; only nobody can open it then. */
  datatype File = File(name: Name, records: seq<Bytes>)

  /**
   * What the system answers in one attempt to rotate: whether `.jsonl.1` is removed, the full
   * file takes its place or else takes a name with the time in it, and the new file is opened.
   */
  datatype Answers = Answers(removes: bool, renames: bool, renamesAside: bool, stamp: nat, opens: bool)

  /**
   * The world: how a raw line reads as text without escape sequences, and, at each attempt to
   * write, what time it is, how a rotation goes and whether the write succeeds.
   */
  datatype Env = Env(clean: Bytes -> Bytes, now: nat -> nat, rotation: nat -> Answers, writes: nat -> bool)

  /** The file being written, and those that came before it, oldest first. */
  datatype Disk = Disk(aside: seq<File>, file: File)

  datatype Sink = Sink(disk: Disk, written: nat, recentErr: seq<Bytes>, stopped: bool, tick: nat)

  datatype State = State(sink: Sink, out: Bytes, err: Bytes)

  // ----- The file system -----

  /** The file under that name loses it. */
  function Unnamed(f: File, name: Name): File { if f.name == name then f.(name := Removed) else f }

  function AllUnnamed(files: seq<File>, name: Name): (r: seq<File>)
    ensures |r| == |files|
  {
    if files == [] then [] else [Unnamed(files[0], name)] + AllUnnamed(files[1..], name)
  }

  function Without(d: Disk, name: Name): Disk { Disk(AllUnnamed(d.aside, name), Unnamed(d.file, name)) }

  /** The file being written takes another name, from the file that had it. */
  function Renamed(d: Disk, name: Name): Disk { Disk(AllUnnamed(d.aside, name), File(name, d.file.records)) }

  function Appended(d: Disk, record: Bytes): Disk { Disk(d.aside, File(d.file.name, d.file.records + [record])) }

  // ----- The operations, as functions -----

  /** There is a file under the capture's name, and it can be moved. */
  predicate Moves(d: Disk, a: Answers) { d.file.name == Current && (a.renames || a.renamesAside) }

  /** The name a full file gets. */
  function Aside(a: Answers): Name { if a.renames then OLD else Moved(a.stamp) }

  /** `.jsonl.1` is removed, then the full file is moved, if that can be done. */
  function MovedAside(d: Disk, a: Answers): Disk {
    var removed := if a.removes then Without(d, OLD) else d;
    if Moves(d, a) then Renamed(removed, Aside(a)) else removed
  }

  /** A new file is started. */
  predicate Rotates(d: Disk, a: Answers) { Moves(d, a) && a.opens }

  /** A rotation, as far as it goes. */
  function Rotated(d: Disk, a: Answers): Disk {
    var moved := MovedAside(d, a);
    if Rotates(d, a) then Disk(moved.aside + [moved.file], File(Current, [])) else moved
  }

  function Note(t: nat): Bytes { LineRecord(t, Err, NOTE) }

  predicate HasRoom(s: Sink, record: Bytes) { s.written + |record| <= MAX_CAPTURE_BYTES }

  /** The record is written if it fits, into a new file if one can be started, and anyway if it is the last one. */
  predicate Accepts(s: Sink, a: Answers, record: Bytes, isExit: bool) {
    HasRoom(s, record) || Rotates(s.disk, a) || isExit
  }

  /** Where the next record goes. */
  function Target(s: Sink, a: Answers, record: Bytes): Disk { if HasRoom(s, record) then s.disk else Rotated(s.disk, a) }

  /** What that file counts so far. */
  function Counted(s: Sink, a: Answers, record: Bytes): nat {
    if !HasRoom(s, record) && Rotates(s.disk, a) then 0 else s.written
  }

  /** One attempt to write, at the sink's own time: the record, or a note that the capture stops. */
  function Written(s: Sink, env: Env, record: Bytes, isExit: bool): Sink {
    var a, ok := env.rotation(s.tick), env.writes(s.tick);
    var disk, written := Target(s, a, record), Counted(s, a, record);
    if Accepts(s, a, record, isExit)
    then Sink(if ok then Appended(disk, record) else disk, if ok then written + |record| else written, s.recentErr, s.stopped, s.tick + 1)
    else Sink(if ok && !s.stopped then Appended(disk, Note(env.now(s.tick))) else disk, s.written, s.recentErr, true, s.tick + 1)
  }

  /** The last stderr lines. */
  function Remember(recent: seq<Bytes>, text: Bytes): seq<Bytes> {
    (if |recent| == EXIT_TAIL_LINES then recent[1..] else recent) + [text]
  }

  function Recorded(s: Sink, env: Env, stream: Stream, line: Bytes): Sink {
    if s.stopped then s
    else
      var text := Stored(env.clean(line));
      var recent := if stream == Err && TrimEnd(text) != [] then Remember(s.recentErr, text) else s.recentErr;
      Written(s.(recentErr := recent), env, LineRecord(env.now(s.tick), stream, text), false)
  }

  function RecordAll(s: Sink, env: Env, stream: Stream, frags: seq<Fragment>): Sink
    decreases |frags|
  {
    if frags == [] then s else RecordAll(Recorded(s, env, stream, frags[0].bytes), env, stream, frags[1..])
  }

  function Pending(s: State, stream: Stream): Bytes { if stream == Out then s.out else s.err }

  function WithPending(s: State, stream: Stream, p: Bytes): State {
    if stream == Out then s.(out := p) else s.(err := p)
  }

  function Fed(s: State, env: Env, stream: Stream, chunk: Bytes): State {
    var p := Pending(s, stream);
    WithPending(s.(sink := RecordAll(s.sink, env, stream, Split(p, chunk))), stream, Rest(p, chunk))
  }

  /** What `flush_partial` hands over: a line that was never finished, if there is one. */
  function Unfinished(p: Bytes): seq<Fragment> { if p == [] then [] else [Fragment(p, false)] }

  function Flushed(s: State, env: Env, stream: Stream): State {
    WithPending(s.(sink := RecordAll(s.sink, env, stream, Unfinished(Pending(s, stream)))), stream, [])
  }

  function Exited(s: State, env: Env, summary: Bytes): State {
    var f := Flushed(Flushed(s, env, Out), env, Err);
    f.(sink := Written(f.sink, env, ExitRecord(env.now(f.sink.tick), summary, f.sink.recentErr), true))
  }

  lemma {:induction false} RecordAllConcat(s: Sink, env: Env, stream: Stream, a: seq<Fragment>, b: seq<Fragment>)
    ensures RecordAll(s, env, stream, a + b) == RecordAll(RecordAll(s, env, stream, a), env, stream, b)
    decreases |a|
  {
    if a == [] {
      assert a + b == b;
    } else {
      assert (a + b)[1..] == a[1..] + b;
      RecordAllConcat(Recorded(s, env, stream, a[0].bytes), env, stream, a[1..], b);
    }
  }

  lemma RecordFirst(s: Sink, env: Env, stream: Stream, first: Fragment, rest: seq<Fragment>)
    ensures RecordAll(s, env, stream, [first] + rest) == RecordAll(Recorded(s, env, stream, first.bytes), env, stream, rest)
  {
    assert ([first] + rest)[1..] == rest;
  }
}
