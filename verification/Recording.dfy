/**
 * One time-travel recording (crates/victauri-core/src/recording.rs): a bounded run of events, a
 * bounded run of checkpoints, and the counter that numbers the events.
 */
module Recording {
  import opened Text

  const USIZE_MAX: nat := 0xFFFF_FFFF_FFFF_FFFF

  const DEFAULT_MAX_CHECKPOINTS: nat := 1000

  datatype RecordedEvent<E> = RecordedEvent(index: nat, event: E)

  datatype StateCheckpoint<S> = StateCheckpoint(id: Bytes, state: S, eventIndex: nat)

  datatype Session<E, S> = Session(id: Bytes, events: seq<RecordedEvent<E>>, checkpoints: seq<StateCheckpoint<S>>)

  datatype Active<E, S> = Active(
    sessionId: Bytes,
    generation: nat,
    events: seq<RecordedEvent<E>>,
    checkpoints: seq<StateCheckpoint<S>>,
    eventCounter: nat,
    maxEvents: nat,
    maxCheckpoints: nat)

  function SaturatingAdd(a: nat, b: nat): nat { Min(a + b, USIZE_MAX) }

  /** A queue that drops its oldest entry to take a new one when full. */
  function PushBounded<T>(queue: seq<T>, max: nat, x: T): seq<T> {
    (if |queue| >= max && queue != [] then queue[1..] else queue) + [x]
  }

  function Started<E, S>(id: Bytes, generation: nat, maxEvents: nat): Active<E, S> {
    Active(id, generation, [], [], 0, maxEvents, DEFAULT_MAX_CHECKPOINTS)
  }

  function Append<E, S>(a: Active<E, S>, event: E): Active<E, S> {
    a.(eventCounter := SaturatingAdd(a.eventCounter, 1),
       events := PushBounded(a.events, a.maxEvents, RecordedEvent(a.eventCounter, event)))
  }

  predicate HasCheckpoint<S(==)>(checkpoints: seq<StateCheckpoint<S>>, id: Bytes) {
    exists i :: 0 <= i < |checkpoints| && checkpoints[i].id == id
  }

  /** A new checkpoint at the current index; refused when the id is taken. */
  function AddCheckpoint<E, S(==)>(a: Active<E, S>, id: Bytes, state: S): Option<Active<E, S>> {
    if HasCheckpoint(a.checkpoints, id) then None
    else Some(a.(checkpoints := PushBounded(a.checkpoints, a.maxCheckpoints, StateCheckpoint(id, state, a.eventCounter))))
  }

  function Finished<E, S>(a: Active<E, S>): Session<E, S> { Session(a.sessionId, a.events, a.checkpoints) }

  // ----- Windows between checkpoints -----

  function FindIndex<S(==)>(checkpoints: seq<StateCheckpoint<S>>, id: Bytes): Option<nat> {
    if checkpoints == [] then None
    else if checkpoints[0].id == id then Some(checkpoints[0].eventIndex)
    else FindIndex(checkpoints[1..], id)
  }

  /** The events with an index from `start` to before `end`. */
  function Within<E>(events: seq<RecordedEvent<E>>, start: nat, end: nat): seq<RecordedEvent<E>> {
    if events == [] then []
    else (if start <= events[0].index < end then [events[0]] else []) + Within(events[1..], start, end)
  }

  datatype Window<E> = Window(events: seq<RecordedEvent<E>>, dropped: nat)

  datatype WindowResult<E> = Found(window: Window<E>) | CheckpointNotFound(id: Bytes)

  /** The window between two event indices, in either order. */
  function WindowBetween<E>(events: seq<RecordedEvent<E>>, from: nat, to: nat): Window<E> {
    var start, end := Min(from, to), Max(from, to);
    var inside := Within(events, start, end);
    Window(inside, Max(0, end - start - |inside|))
  }

  function CheckpointWindow<E, S(==)>(s: Session<E, S>, from: Bytes, to: Bytes): WindowResult<E> {
    var f, t := FindIndex(s.checkpoints, from), FindIndex(s.checkpoints, to);
    if f.None? then CheckpointNotFound(from)
    else if t.None? then CheckpointNotFound(to)
    else Found(WindowBetween(s.events, f.value, t.value))
  }

  // ----- Imports -----

  function LastOf<T>(s: seq<T>, max: nat): seq<T> { if |s| > max then s[|s| - max..] else s }

  function PastEvents<E>(events: seq<RecordedEvent<E>>): nat {
    if events == [] then 0 else Max(SaturatingAdd(events[0].index, 1), PastEvents(events[1..]))
  }

  function PastCheckpoints<S>(checkpoints: seq<StateCheckpoint<S>>): nat {
    if checkpoints == [] then 0 else Max(checkpoints[0].eventIndex, PastCheckpoints(checkpoints[1..]))
  }

  function Imported<E, S>(s: Session<E, S>, generation: nat, maxEvents: nat): Active<E, S> {
    var events, checkpoints := LastOf(s.events, maxEvents), LastOf(s.checkpoints, DEFAULT_MAX_CHECKPOINTS);
    Active(s.id, generation, events, checkpoints, Max(PastEvents(events), PastCheckpoints(checkpoints)),
           maxEvents, DEFAULT_MAX_CHECKPOINTS)
  }

  // ----- What holds of a recording that was started -----

  /** `history` is everything ever recorded: the retained events are its end, under their own numbers. */
  ghost predicate Follows<E, S>(a: Active<E, S>, history: seq<E>) {
    && a.eventCounter == |history| && |a.events| <= |history| && |a.events| <= Max(1, a.maxEvents)
    && (forall i :: 0 <= i < |a.events| ==>
          a.events[i] == RecordedEvent(|history| - |a.events| + i, history[|history| - |a.events| + i]))
    && (forall i :: 0 <= i < |a.checkpoints| ==> a.checkpoints[i].eventIndex <= |history|)
    && |a.checkpoints| <= a.maxCheckpoints
  }

  lemma StartedFollows<E, S>(id: Bytes, generation: nat, maxEvents: nat)
    ensures Follows<E, S>(Started(id, generation, maxEvents), [])
  {
  }

  /** Below saturation every event gets the next number, and only the oldest is let go. */
  lemma AppendFollows<E, S>(a: Active<E, S>, history: seq<E>, event: E)
    requires Follows(a, history) && |history| < USIZE_MAX
    ensures Follows(Append(a, event), history + [event])
    ensures |Append(a, event).events| == Min(|a.events| + 1, Max(1, a.maxEvents))
  {
  }

  lemma CheckpointFollows<E, S>(a: Active<E, S>, history: seq<E>, id: Bytes, state: S)
    requires Follows(a, history) && a.maxCheckpoints > 0 && AddCheckpoint(a, id, state).Some?
    ensures Follows(AddCheckpoint(a, id, state).value, history)
  {
  }

  // ----- Windows are exact -----

  /** Events numbered from `first` on. */
  ghost predicate Numbered<E>(events: seq<RecordedEvent<E>>, history: seq<E>, first: nat) {
    && first + |events| == |history|
    && forall i :: 0 <= i < |events| ==> events[i] == RecordedEvent(first + i, history[first + i])
  }

  lemma {:induction false} WithinNumbered<E>(events: seq<RecordedEvent<E>>, history: seq<E>, first: nat, start: nat, end: nat)
    requires Numbered(events, history, first) && start <= end <= |history|
    ensures var lo := Max(start, Min(first, end)); Numbering(Within(events, start, end), history, lo, end)
    decreases |events|
  {
    if events != [] {
      assert events[0] == RecordedEvent(first, history[first]);
      WithinNumbered(events[1..], history, first + 1, start, end);
      var rest := Within(events[1..], start, end);
      if start <= first < end {
        assert Within(events, start, end) == [events[0]] + rest;
      } else {
        assert Within(events, start, end) == rest;
      }
    }
  }

  /** Exactly the events from number `lo` to before `end`, under their numbers. */
  ghost predicate Numbering<E>(events: seq<RecordedEvent<E>>, history: seq<E>, lo: nat, end: nat) {
    && lo + |events| == end <= |history|
    && forall i :: 0 <= i < |events| ==> events[i] == RecordedEvent(lo + i, history[lo + i])
  }

  /**
   * The window between two indices, against everything recorded: what was evicted from it is
   * counted, and all the rest of it is there.
   */
  ghost predicate IsWindow<E, S>(w: Window<E>, a: Active<E, S>, history: seq<E>, from: nat, to: nat) {
    var start, end, first := Min(from, to), Max(from, to), |history| - |a.events|;
    && end <= |history|
    && w.dropped == Max(0, Min(first, end) - start)
    && Numbering(w.events, history, start + w.dropped, end)
  }

  /** The window holds what is left of it, and says how much of it is gone. */
  lemma WindowIsExact<E, S>(a: Active<E, S>, history: seq<E>, from: nat, to: nat)
    requires Follows(a, history) && from <= |history| && to <= |history|
    ensures IsWindow(WindowBetween(a.events, from, to), a, history, from, to)
  {
    WithinNumbered(a.events, history, |history| - |a.events|, Min(from, to), Max(from, to));
  }

  lemma {:induction false} IndexFound<S>(checkpoints: seq<StateCheckpoint<S>>, id: Bytes)
    ensures FindIndex(checkpoints, id).Some? <==> HasCheckpoint(checkpoints, id)
    ensures FindIndex(checkpoints, id).Some? ==>
              exists i :: 0 <= i < |checkpoints| && checkpoints[i].id == id
                          && checkpoints[i].eventIndex == FindIndex(checkpoints, id).value
  {
    if checkpoints != [] {
      IndexFound(checkpoints[1..], id);
      if checkpoints[0].id != id {
        if FindIndex(checkpoints[1..], id).Some? {
          var i :| 0 <= i < |checkpoints[1..]| && checkpoints[1..][i].id == id
                   && checkpoints[1..][i].eventIndex == FindIndex(checkpoints[1..], id).value;
          assert checkpoints[i + 1].id == id;
        }
        if HasCheckpoint(checkpoints, id) {
          var i :| 0 <= i < |checkpoints| && checkpoints[i].id == id;
          assert checkpoints[1..][i - 1].id == id;
        }
      }
    }
  }

  /** Between two checkpoints that are there, in either order; and only then is there a window. */
  ghost predicate WindowsExact<E, S>(a: Active<E, S>, history: seq<E>, from: Bytes, to: Bytes) {
    var r := CheckpointWindow(Finished(a), from, to);
    && (r.Found? <==> HasCheckpoint(a.checkpoints, from) && HasCheckpoint(a.checkpoints, to))
    && (r.Found? ==>
          && IsWindow(r.window, a, history, FindIndex(a.checkpoints, from).value, FindIndex(a.checkpoints, to).value)
          && CheckpointWindow(Finished(a), to, from) == r)
  }

  lemma CheckpointWindowIsExact<E, S>(a: Active<E, S>, history: seq<E>, from: Bytes, to: Bytes)
    requires Follows(a, history)
    ensures WindowsExact(a, history, from, to)
  {
    IndexFound(a.checkpoints, from);
    IndexFound(a.checkpoints, to);
    if CheckpointWindow(Finished(a), from, to).Found? {
      WindowIsExact(a, history, FindIndex(a.checkpoints, from).value, FindIndex(a.checkpoints, to).value);
    }
  }

  // ----- After an import -----

  /** New events come after every event there is, and not before any checkpoint. */
  ghost predicate NumbersAhead<E, S>(a: Active<E, S>) {
    && (forall i :: 0 <= i < |a.events| ==> a.events[i].index < a.eventCounter)
    && (forall i :: 0 <= i < |a.checkpoints| ==> a.checkpoints[i].eventIndex <= a.eventCounter)
  }

  lemma {:induction false} PastEventsIs<E>(events: seq<RecordedEvent<E>>, i: nat)
    requires i < |events|
    ensures PastEvents(events) >= SaturatingAdd(events[i].index, 1)
  {
    if i > 0 { PastEventsIs(events[1..], i - 1); }
  }

  lemma {:induction false} PastCheckpointsIs<S>(checkpoints: seq<StateCheckpoint<S>>, i: nat)
    requires i < |checkpoints|
    ensures PastCheckpoints(checkpoints) >= checkpoints[i].eventIndex
  {
    if i > 0 { PastCheckpointsIs(checkpoints[1..], i - 1); }
  }

  /** An import keeps the newest entries within the caps and numbers ahead of them, below saturation. */
  lemma ImportNumbersAhead<E, S>(s: Session<E, S>, generation: nat, maxEvents: nat)
    ensures var a := Imported(s, generation, maxEvents);
            && a.events == s.events[|s.events| - |a.events|..]
            && |a.events| == Min(|s.events|, maxEvents) && |a.checkpoints| == Min(|s.checkpoints|, DEFAULT_MAX_CHECKPOINTS)
            && ((forall i :: 0 <= i < |a.events| ==> a.events[i].index < USIZE_MAX) ==> NumbersAhead(a))
            && (a.eventCounter < USIZE_MAX ==> NumbersAhead(a))
  {
    var a := Imported(s, generation, maxEvents);
    forall i | 0 <= i < |a.events| ensures a.eventCounter >= SaturatingAdd(a.events[i].index, 1) {
      PastEventsIs(a.events, i);
    }
    forall i | 0 <= i < |a.checkpoints| ensures a.eventCounter >= a.checkpoints[i].eventIndex {
      PastCheckpointsIs(a.checkpoints, i);
    }
  }

  /** Which goes on as long as the counter does. */
  lemma AppendNumbersAhead<E, S>(a: Active<E, S>, event: E)
    requires NumbersAhead(a) && a.eventCounter < USIZE_MAX
    ensures NumbersAhead(Append(a, event))
    ensures var b := Append(a, event);
            b.events[|b.events| - 1] == RecordedEvent(a.eventCounter, event)
  {
  }

  /** At the largest index the counter no longer moves, and two events share a number. */
  lemma SaturationRepeats<E, S>(a: Active<E, S>, x: E, y: E)
    requires a.eventCounter == USIZE_MAX && a.maxEvents > 1 && |a.events| < a.maxEvents
    ensures var b := Append(Append(a, x), y);
            var n := |b.events|;
            n >= 2 && b.events[n - 1].index == b.events[n - 2].index == USIZE_MAX
  {
  }
}
