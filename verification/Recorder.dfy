/**
 * The recorder as an object. Beside its fields it carries the state of `RecorderRuns` it stands
 * for, and every method takes that state to the `Next` one: what holds of every run there holds
 * of every sequence of calls here.
 */
module Recorder {
  import opened Text
  import opened Recording
  import Runs = RecorderRuns

  datatype StartResult = Ok(generation: nat) | RecordingAlreadyActive

  datatype CheckpointResult = Made | NoActiveRecording | DuplicateId

  /** The recording that is held. */
  function Recorded<E, S>(h: Option<Runs.Held<E, S>>): Option<Active<E, S>> {
    if h.Some? then Some(h.value.recording) else None
  }

  /** The session it was. */
  function Closed<E, S>(h: Option<Runs.Held<E, S>>): Option<Session<E, S>> {
    if h.Some? then Some(Finished(h.value.recording)) else None
  }

  // ----- The loops of a window -----

  method FindCheckpoint<S>(checkpoints: seq<StateCheckpoint<S>>, id: Bytes) returns (r: Option<nat>)
    ensures r == FindIndex(checkpoints, id)
  {
    assert checkpoints[0..] == checkpoints;
    for i := 0 to |checkpoints|
      invariant FindIndex(checkpoints[i..], id) == FindIndex(checkpoints, id)
    {
      if checkpoints[i].id == id {
        return Some(checkpoints[i].eventIndex);
      }
      assert checkpoints[i..][1..] == checkpoints[i + 1..];
    }
    return None;
  }

  method EventsWithin<E>(events: seq<RecordedEvent<E>>, start: nat, end: nat) returns (r: seq<RecordedEvent<E>>)
    ensures r == Within(events, start, end)
  {
    r := [];
    assert events[0..] == events && [] + Within(events, start, end) == Within(events, start, end);
    for i := 0 to |events|
      invariant r + Within(events[i..], start, end) == Within(events, start, end)
    {
      var rest := Within(events[i + 1..], start, end);
      assert events[i..][1..] == events[i + 1..];
      if start <= events[i].index < end {
        ghost var before := r;
        r := r + [events[i]];
        assert r + rest == before + ([events[i]] + rest);
      } else {
        assert [] + rest == rest;
      }
    }
  }

  method SessionWindow<E, S>(session: Session<E, S>, from: Bytes, to: Bytes) returns (r: WindowResult<E>)
    ensures r == CheckpointWindow(session, from, to)
  {
    var f := FindCheckpoint(session.checkpoints, from);
    if f.None? {
      return CheckpointNotFound(from);
    }
    var t := FindCheckpoint(session.checkpoints, to);
    if t.None? {
      return CheckpointNotFound(to);
    }
    var start, end := f.value, t.value;
    if start > end {
      start, end := end, start;
    }
    var events := EventsWithin(session.events, start, end);
    return Found(Window(events, Max(0, end - start - |events|)));
  }

  class EventRecorder<E, S(==)> {
    const maxEvents: nat
    var recording: Option<Active<E, S>>
    var lastSession: Option<Session<E, S>>
    var generations: nat
    ghost var runs: Runs.State<E, S>

    ghost predicate Valid()
      reads this
    {
      && maxEvents == runs.maxEvents && generations == runs.generations
      && recording == Recorded(runs.active) && lastSession == Closed(runs.last)
      && Runs.Inv(runs)
    }

    constructor (maxEvents: nat)
      ensures Valid() && this.maxEvents == maxEvents && runs == Runs.Initial(maxEvents)
      ensures recording == None && lastSession == None && generations == 0
    {
      this.maxEvents := maxEvents;
      recording, lastSession, generations := None, None, 0;
      runs := Runs.Initial(maxEvents);
    }

    method NextGeneration() returns (g: nat)
      modifies this`generations
      ensures g == generations == old(generations) + 1
    {
      generations := generations + 1;
      g := generations;
    }

    method StartSession(id: Bytes) returns (r: StartResult)
      requires Valid()
      modifies this`recording, this`generations, this`runs
      ensures Valid() && runs == Runs.Next(old(runs), Runs.Action.Start(id))
      ensures if old(recording).Some?
              then r == RecordingAlreadyActive && recording == old(recording) && generations == old(generations)
              else r == Ok(generations) && generations == old(generations) + 1
                   && recording == Some(Started(id, generations, maxEvents))
    {
      Runs.StepKeeps(runs, Runs.Action.Start(id));
      runs := Runs.Next(runs, Runs.Action.Start(id));
      if recording.Some? {
        return RecordingAlreadyActive;
      }
      var g := NextGeneration();
      recording := Some(Started(id, g, maxEvents));
      return StartResult.Ok(g);
    }

    /** The recording that was active becomes the last session. */
    method Finish() returns (r: Option<Session<E, S>>)
      requires Valid()
      modifies this`recording, this`lastSession, this`runs
      ensures Valid() && runs == Runs.Next(old(runs), Runs.Action.Stop)
      ensures recording == None
      ensures if old(recording).Some?
              then r == Some(Finished(old(recording).value)) && lastSession == r
              else r == None && lastSession == old(lastSession)
    {
      Runs.StepKeeps(runs, Runs.Action.Stop);
      runs := Runs.Next(runs, Runs.Action.Stop);
      if recording.None? {
        return None;
      }
      r := Some(Finished(recording.value));
      lastSession, recording := r, None;
    }

    method StopIfSession(id: Bytes) returns (r: Option<Session<E, S>>)
      requires Valid()
      modifies this`recording, this`lastSession, this`runs
      ensures Valid() && runs == Runs.Next(old(runs), Runs.Action.StopIfSession(id))
      ensures if old(recording).Some? && old(recording).value.sessionId == id
              then r == Some(Finished(old(recording).value)) && recording == None && lastSession == r
              else r == None && recording == old(recording) && lastSession == old(lastSession)
    {
      if recording.Some? && recording.value.sessionId == id {
        r := Finish();
      } else {
        r := None;
      }
    }

    method StopIfGeneration(generation: nat) returns (r: Option<Session<E, S>>)
      requires Valid()
      modifies this`recording, this`lastSession, this`runs
      ensures Valid() && runs == Runs.Next(old(runs), Runs.Action.StopIfGeneration(generation))
      ensures if old(recording).Some? && old(recording).value.generation == generation
              then r == Some(Finished(old(recording).value)) && recording == None && lastSession == r
              else r == None && recording == old(recording) && lastSession == old(lastSession)
    {
      if recording.Some? && recording.value.generation == generation {
        r := Finish();
      } else {
        r := None;
      }
    }

    /** Append to the active recording, letting the oldest event go when it is full. */
    method AppendEvent(event: E)
      requires Valid() && recording.Some?
      modifies this`recording, this`runs
      ensures Valid() && runs == Runs.Next(old(runs), Runs.Action.RecordEvent(event))
      ensures recording == Some(Append(old(recording).value, event))
    {
      Runs.StepKeeps(runs, Runs.Action.RecordEvent(event));
      runs := Runs.Next(runs, Runs.Action.RecordEvent(event));
      var a := recording.value;
      var events := a.events;
      if |events| >= a.maxEvents && events != [] {
        events := events[1..];
      }
      events := events + [RecordedEvent(a.eventCounter, event)];
      recording := Some(a.(eventCounter := SaturatingAdd(a.eventCounter, 1), events := events));
    }

    method RecordEvent(event: E)
      requires Valid()
      modifies this`recording, this`runs
      ensures Valid() && runs == Runs.Next(old(runs), Runs.Action.RecordEvent(event))
      ensures recording == if old(recording).Some? then Some(Append(old(recording).value, event)) else None
    {
      if recording.Some? {
        AppendEvent(event);
      }
    }

    method RecordEventIf(generation: nat, event: E) returns (recorded: bool)
      requires Valid()
      modifies this`recording, this`runs
      ensures Valid() && runs == Runs.Next(old(runs), Runs.Action.RecordEventIf(generation, event))
      ensures recorded == (old(recording).Some? && old(recording).value.generation == generation)
      ensures recording == if recorded then Some(Append(old(recording).value, event)) else old(recording)
    {
      recorded := recording.Some? && recording.value.generation == generation;
      if recorded {
        AppendEvent(event);
      }
    }

    method Checkpoint(id: Bytes, state: S) returns (r: CheckpointResult)
      requires Valid()
      modifies this`recording, this`runs
      ensures Valid() && runs == Runs.Next(old(runs), Runs.Action.Checkpoint(id, state))
      ensures if old(recording).None? then r == NoActiveRecording && recording == None
              else if HasCheckpoint(old(recording).value.checkpoints, id) then r == DuplicateId && recording == old(recording)
              else r == Made && recording == AddCheckpoint(old(recording).value, id, state)
    {
      Runs.StepKeeps(runs, Runs.Action.Checkpoint(id, state));
      runs := Runs.Next(runs, Runs.Action.Checkpoint(id, state));
      if recording.None? {
        return NoActiveRecording;
      }
      var a := recording.value;
      if HasCheckpoint(a.checkpoints, id) {
        return DuplicateId;
      }
      var checkpoints := a.checkpoints;
      if |checkpoints| >= a.maxCheckpoints && checkpoints != [] {
        checkpoints := checkpoints[1..];
      }
      checkpoints := checkpoints + [StateCheckpoint(id, state, a.eventCounter)];
      recording := Some(a.(checkpoints := checkpoints));
      return Made;
    }

    /**
     * The window between two checkpoints of the active recording, or of the last one: exact
     * against everything ever recorded into it, if it was started and its events can be counted.
     */
    method Window(from: Bytes, to: Bytes) returns (r: Option<WindowResult<E>>)
      requires Valid()
      ensures r.Some? <==> Runs.Source(runs).Some?
      ensures r.Some? ==> r.value == CheckpointWindow(Finished(Runs.Source(runs).value.recording), from, to)
      ensures Runs.WindowIsExactIn(runs, from, to)
    {
      Runs.InvMakesWindowsExact(runs, from, to);
      if recording.Some? {
        var w := SessionWindow(Finished(recording.value), from, to);
        return Some(w);
      }
      if lastSession.None? {
        return None;
      }
      var w := SessionWindow(lastSession.value, from, to);
      return Some(w);
    }

    /** A session made ready to be recorded into: within the caps, numbered past everything in it. */
    method ImportedSession(session: Session<E, S>, ghost caller: nat) returns (a: Active<E, S>)
      requires Valid() && caller !in runs.inFlight
      modifies this`generations, this`runs
      ensures Valid() && runs == Runs.Next(old(runs), Runs.Action.DrawImport(caller, session))
      ensures generations == old(generations) + 1 && a == Imported(session, generations, maxEvents)
    {
      var events := session.events;
      while |events| > maxEvents
        invariant unchanged(this)
        invariant LastOf(events, maxEvents) == LastOf(session.events, maxEvents)
      {
        DropOldest(events, maxEvents);
        events := events[1..];
      }
      var checkpoints := session.checkpoints;
      while |checkpoints| > DEFAULT_MAX_CHECKPOINTS
        invariant unchanged(this)
        invariant LastOf(checkpoints, DEFAULT_MAX_CHECKPOINTS) == LastOf(session.checkpoints, DEFAULT_MAX_CHECKPOINTS)
      {
        DropOldest(checkpoints, DEFAULT_MAX_CHECKPOINTS);
        checkpoints := checkpoints[1..];
      }
      var counter := Max(PastEvents(events), PastCheckpoints(checkpoints));
      Runs.StepKeeps(runs, Runs.Action.DrawImport(caller, session));
      runs := Runs.Next(runs, Runs.Action.DrawImport(caller, session));
      var g := NextGeneration();
      a := Active(session.id, g, events, checkpoints, counter, maxEvents, DEFAULT_MAX_CHECKPOINTS);
    }

    /** Two steps, with the generation drawn in the first. */
    method Import(session: Session<E, S>, ghost caller: nat)
      requires Valid() && caller !in runs.inFlight
      modifies this`recording, this`generations, this`runs
      ensures Valid()
      ensures runs == Runs.Next(Runs.Next(old(runs), Runs.Action.DrawImport(caller, session)), Runs.Action.Install(caller))
      ensures generations == old(generations) + 1 && recording == Some(Imported(session, generations, maxEvents))
    {
      var a := ImportedSession(session, caller);
      Runs.StepKeeps(runs, Runs.Action.Install(caller));
      runs := Runs.Next(runs, Runs.Action.Install(caller));
      recording := Some(a);
    }

    method ImportIfIdle(session: Session<E, S>, ghost caller: nat) returns (r: StartResult)
      requires Valid() && caller !in runs.inFlight
      modifies this`recording, this`generations, this`runs
      ensures Valid()
      ensures runs == Runs.Next(Runs.Next(old(runs), Runs.Action.DrawImport(caller, session)), Runs.Action.InstallIfIdle(caller))
      ensures generations == old(generations) + 1
      ensures if old(recording).Some? then r == RecordingAlreadyActive && recording == old(recording)
              else r == Ok(generations) && recording == Some(Imported(session, generations, maxEvents))
    {
      var a := ImportedSession(session, caller);
      Runs.StepKeeps(runs, Runs.Action.InstallIfIdle(caller));
      runs := Runs.Next(runs, Runs.Action.InstallIfIdle(caller));
      if recording.Some? {
        return RecordingAlreadyActive;
      }
      recording := Some(a);
      return StartResult.Ok(a.generation);
    }
  }

  lemma DropOldest<T>(s: seq<T>, max: nat)
    requires |s| > max
    ensures LastOf(s[1..], max) == LastOf(s, max)
  {
  }
}
