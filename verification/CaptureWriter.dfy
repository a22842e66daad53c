/** The launcher's `Capture` with its loops, proved against `CaptureModel`. */
module CaptureWriter {
  import opened Text
  import opened Whitespace
  import opened CaptureFile
  import opened CaptureSplit
  import opened CaptureRecord
  import opened CaptureModel

  class Capture {
    const env: Env
    var aside: seq<File>
    var file: File
    var written: nat
    var recentErr: seq<Bytes>
    var out: Bytes
    var err: Bytes
    var stopped: bool
    var tick: nat

    ghost function Files(): Disk
      reads this
    {
      Disk(aside, file)
    }

    ghost function AsSink(): Sink
      reads this
    {
      Sink(Files(), written, recentErr, stopped, tick)
    }

    ghost function Model(): State
      reads this
    {
      State(AsSink(), out, err)
    }

    /** A capture that appends to what its file already holds, next to files of earlier ones. */
    constructor (env: Env, existing: seq<Bytes>, others: seq<File>)
      ensures this.env == env && !stopped && out == [] && err == [] && recentErr == []
      ensures aside == others && file == File(Current, existing) && written == |Flatten(existing)|
    {
      this.env := env;
      aside, file, written, recentErr := others, File(Current, existing), |Flatten(existing)|, [];
      out, err, stopped, tick := [], [], false, 0;
    }

    /** The system removes a file, if it will. */
    method RemoveFile(name: Name, removes: bool)
      modifies this`aside, this`file
      ensures Files() == if removes then Without(old(Files()), name) else old(Files())
    {
      if removes {
        aside, file := AllUnnamed(aside, name), Unnamed(file, name);
      }
    }

    /** The system gives the capture's file another name, if there is such a file and it will. */
    method Rename(name: Name, renames: bool) returns (ok: bool)
      modifies this`aside, this`file
      ensures ok == (old(file).name == Current && renames)
      ensures Files() == if ok then Renamed(old(Files()), name) else old(Files())
    {
      ok := file.name == Current && renames;
      if ok {
        aside, file := AllUnnamed(aside, name), File(name, file.records);
      }
    }

    /** Make room: out with the oldest file, the full one in its place, and a fresh one to write. */
    method Rotate() returns (started: bool)
      modifies this`aside, this`file, this`written
      ensures started == Rotates(old(Files()), env.rotation(tick))
      ensures Files() == Rotated(old(Files()), env.rotation(tick))
      ensures written == if started then 0 else old(written)
    {
      var a := env.rotation(tick);
      RemoveFile(OLD, a.removes);
      var moved := Rename(OLD, a.renames);
      if !moved {
        moved := Rename(Moved(a.stamp), a.renamesAside);
      }
      started := moved && a.opens;
      if started {
        aside, file, written := aside + [file], File(Current, []), 0;
      }
    }

    method WriteRecord(record: Bytes, isExit: bool)
      modifies this`aside, this`file, this`written, this`stopped, this`tick
      ensures AsSink() == Written(old(AsSink()), env, record, isExit)
    {
      var started := true;
      if written + |record| > MAX_CAPTURE_BYTES {
        started := Rotate();
      }
      if !started && !isExit {
        if !stopped {
          stopped := true;
          if env.writes(tick) {
            file := File(file.name, file.records + [Note(env.now(tick))]);
          }
        }
      } else if env.writes(tick) {
        file := File(file.name, file.records + [record]);
        written := written + |record|;
      }
      tick := tick + 1;
    }

    method Record(stream: Stream, line: Bytes)
      modifies this`aside, this`file, this`written, this`recentErr, this`stopped, this`tick
      ensures AsSink() == Recorded(old(AsSink()), env, stream, line)
    {
      if stopped {
        return;
      }
      var text := Stored(env.clean(line));
      if stream == Err && TrimEnd(text) != [] {
        if |recentErr| == EXIT_TAIL_LINES {
          recentErr := recentErr[1..];
        }
        recentErr := recentErr + [text];
      }
      WriteRecord(LineRecord(env.now(tick), stream, text), false);
    }

    /** Record a complete line, in parts if it is too long for one record. */
    method RecordLine(stream: Stream, whole: Bytes)
      modifies this`aside, this`file, this`written, this`recentErr, this`stopped, this`tick
      ensures AsSink() == RecordAll(old(AsSink()), env, stream, CutLine(whole))
    {
      var line := whole;
      while |line| > MAX_LINE_BYTES
        invariant RecordAll(AsSink(), env, stream, CutLine(line)) == RecordAll(old(AsSink()), env, stream, CutLine(whole))
        decreases |line|
      {
        ghost var before := AsSink();
        Record(stream, line[..MAX_LINE_BYTES]);
        RecordFirst(before, env, stream, Fragment(line[..MAX_LINE_BYTES], false), CutLine(line[MAX_LINE_BYTES..]));
        line := line[MAX_LINE_BYTES..];
      }
      ghost var before := AsSink();
      Record(stream, line);
      RecordFirst(before, env, stream, Fragment(line, true), []);
      assert [Fragment(line, true)] + [] == CutLine(line);
    }

    /** Assemble what a stream sends into lines, and record every line that ends in it. */
    method Feed(stream: Stream, chunk: Bytes)
      modifies this
      ensures Model() == Fed(old(Model()), env, stream, chunk)
    {
      var bytes := chunk;
      var pending := if stream == Out then out else err;
      ghost var goal := RecordAll(AsSink(), env, stream, Split(pending, chunk));
      ghost var rest := Rest(pending, chunk);
      while FirstNewline(bytes) < |bytes|
        invariant RecordAll(AsSink(), env, stream, Split(pending, bytes)) == goal
        invariant Rest(pending, bytes) == rest
        invariant out == old(out) && err == old(err)
        decreases |bytes|
      {
        var n := FirstNewline(bytes);
        var line := pending + bytes[..n];
        RecordAllConcat(AsSink(), env, stream, CutLine(line), Split([], bytes[n + 1..]));
        RecordLine(stream, line);
        pending, bytes := [], bytes[n + 1..];
      }
      pending := pending + bytes;
      while |pending| >= MAX_LINE_BYTES
        invariant RecordAll(AsSink(), env, stream, CutPartial(pending)) == goal
        invariant PendingOf(pending) == rest
        invariant out == old(out) && err == old(err)
        decreases |pending|
      {
        ghost var before := AsSink();
        Record(stream, pending[..MAX_LINE_BYTES]);
        RecordFirst(before, env, stream, Fragment(pending[..MAX_LINE_BYTES], false), CutPartial(pending[MAX_LINE_BYTES..]));
        pending := pending[MAX_LINE_BYTES..];
      }
      if stream == Out {
        out := pending;
      } else {
        err := pending;
      }
    }

    /** What is left of a line when its stream ends becomes a record too. */
    method FlushPartial(stream: Stream)
      modifies this
      ensures Model() == Flushed(old(Model()), env, stream)
    {
      var line := if stream == Out then out else err;
      if stream == Out {
        out := [];
      } else {
        err := [];
      }
      if line != [] {
        ghost var before := AsSink();
        Record(stream, line);
        RecordFirst(before, env, stream, Fragment(line, false), []);
        assert [Fragment(line, false)] + [] == Unfinished(line);
      }
    }

    /** Both unfinished lines, then one last record that says how it ended. */
    method RecordExit(summary: Bytes)
      modifies this
      ensures Model() == Exited(old(Model()), env, summary)
    {
      FlushPartial(Out);
      FlushPartial(Err);
      WriteRecord(ExitRecord(env.now(tick), summary, recentErr), true);
    }
  }
}
