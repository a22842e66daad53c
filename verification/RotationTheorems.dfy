/** What the rotation invariant means for whole runs of the launcher and the follower. */
module RotationTheorems {
  import opened Text
  import opened CaptureFile
  import opened Rotation
  import opened RotationProof

  // ----- Every run -----

  /** The actions can be taken one after another, each under the assumptions on rotation. */
  predicate Legal(s: State, actions: seq<Action>)
    decreases |actions|
  {
    actions != [] ==>
      WellFormed(s) && Enabled(s, actions[0]) && Assumed(s, actions[0]) && Legal(Step(s, actions[0]), actions[1..])
  }

  /** The actions can be taken one after another; nothing is assumed of rotation. */
  predicate Possible(s: State, actions: seq<Action>)
    decreases |actions|
  {
    actions != [] ==>
      WellFormed(s) && Enabled(s, actions[0]) && Possible(Step(s, actions[0]), actions[1..])
  }

  function Run(s: State, actions: seq<Action>): State
    requires Possible(s, actions)
    decreases |actions|
  {
    if actions == [] then s else Run(Step(s, actions[0]), actions[1..])
  }

  lemma {:induction false} RunConcat(s: State, a: seq<Action>, b: seq<Action>)
    requires Possible(s, a) && Possible(Run(s, a), b)
    ensures Possible(s, a + b) && Run(s, a + b) == Run(Run(s, a), b)
    decreases |a|
  {
    if a == [] {
      assert a + b == b;
    } else {
      assert (a + b)[1..] == a[1..] + b;
      RunConcat(Step(s, a[0]), a[1..], b);
    }
  }

  /** One more action at the end of a run. */
  lemma RunThen(s: State, actions: seq<Action>, a: Action)
    requires Possible(s, actions)
    requires WellFormed(Run(s, actions)) && Enabled(Run(s, actions), a)
    ensures Possible(s, actions + [a]) && Run(s, actions + [a]) == Step(Run(s, actions), a)
  {
    var t := Run(s, actions);
    assert [a][1..] == [];
    assert Possible(t, [a]) && Run(t, [a]) == Step(t, a);
    RunConcat(s, actions, [a]);
  }

  /** A follower that just attached, at a record boundary of a capture being written. */
  predicate Attached(s: State) {
    && WellFormed(s) && RecordsOk(s) && NamesOk(s) && CursorOk(s)
    && s.reader.Between? && s.polls == [] && s.starts == []
  }

  lemma {:induction false} RunKeeps(s: State, actions: seq<Action>, origin: nat)
    requires Inv(s, origin) && Legal(s, actions)
    ensures Possible(s, actions) && Inv(Run(s, actions), origin)
    decreases |actions|
  {
    if actions != [] {
      StepKeeps(s, actions[0], origin);
      RunKeeps(Step(s, actions[0]), actions[1..], origin);
    }
  }

  /**
   * In every interleaving, the follower's polls return records as written, in order, without
   * repeating one; whatever is skipped is skipped by a poll that reports a loss.
   */
  lemma FollowerIsFaithful(s: State, actions: seq<Action>)
    requires Attached(s) && Legal(s, actions)
    ensures Possible(s, actions)
    ensures var t := Run(s, actions);
            Faithful(t.polls, t.starts, Written(t), Position(s))
  {
    RunKeeps(s, actions, Position(s));
  }

  /** Everything the follower printed. */
  function Emitted(polls: seq<Poll>): seq<Bytes> {
    if polls == [] then []
    else Emitted(polls[..|polls| - 1]) + polls[|polls| - 1].lines
  }

  lemma FaithfulPrefix(polls: seq<Poll>, starts: seq<nat>, written: seq<Bytes>, origin: nat)
    requires polls != [] && Faithful(polls, starts, written, origin)
    ensures Faithful(polls[..|polls| - 1], starts[..|polls| - 1], written, origin)
  {
    var n := |polls| - 1;
    forall i | 0 <= i < n ensures PollFaithful(polls[..n], starts[..n], written, origin, i) {
      assert PollFaithful(polls, starts, written, origin, i);
    }
  }

  /** Without a reported loss, what was printed is exactly what was written since attaching. */
  lemma {:induction false} NoLossNoGap(polls: seq<Poll>, starts: seq<nat>, written: seq<Bytes>, origin: nat)
    requires Faithful(polls, starts, written, origin) && origin <= |written|
    requires forall i :: 0 <= i < |polls| ==> !polls[i].lost
    ensures origin <= Reached(polls, starts, origin, |polls|) <= |written|
    ensures Emitted(polls) == written[origin..Reached(polls, starts, origin, |polls|)]
    decreases |polls|
  {
    if polls != [] {
      var n := |polls| - 1;
      FaithfulPrefix(polls, starts, written, origin);
      NoLossNoGap(polls[..n], starts[..n], written, origin);
      assert PollFaithful(polls, starts, written, origin, n);
      var mid := Reached(polls, starts, origin, n);
      assert Reached(polls[..n], starts[..n], origin, n) == mid;
      RunsOn(written, origin, mid, Reached(polls, starts, origin, n + 1));
      assert polls[n].lines == written[mid..Reached(polls, starts, origin, n + 1)];
    }
  }

  lemma RunsOn<T>(s: seq<T>, a: nat, b: nat, c: nat)
    requires a <= b <= c <= |s|
    ensures s[a..c] == s[a..b] + s[b..c]
  {
  }

  /** Where each printed record stands in everything written. */
  function Places(polls: seq<Poll>, starts: seq<nat>): seq<nat>
    requires |polls| == |starts|
  {
    if polls == [] then []
    else
      var n := |polls| - 1;
      Places(polls[..n], starts[..n]) + seq(|polls[n].lines|, k requires 0 <= k => starts[n] + k)
  }

  /** What was printed is a subsequence of what was written: in order, and nothing twice. */
  lemma {:induction false} PrintedInOrder(polls: seq<Poll>, starts: seq<nat>, written: seq<Bytes>, origin: nat)
    requires Faithful(polls, starts, written, origin)
    ensures var places := Places(polls, starts);
            && |places| == |Emitted(polls)|
            && (forall k :: 0 <= k < |places| ==>
                  origin <= places[k] < |written| && Emitted(polls)[k] == written[places[k]])
            && (forall j, k :: 0 <= j < k < |places| ==> places[j] < places[k])
            && (forall k :: 0 <= k < |places| ==> places[k] < Reached(polls, starts, origin, |polls|))
            && origin <= Reached(polls, starts, origin, |polls|)
    decreases |polls|
  {
    if polls != [] {
      var n := |polls| - 1;
      FaithfulPrefix(polls, starts, written, origin);
      PrintedInOrder(polls[..n], starts[..n], written, origin);
      assert PollFaithful(polls, starts, written, origin, n);
    }
  }

  lemma PositionWithin(s: State, origin: nat)
    requires Inv(s, origin)
    ensures Position(s) <= |Written(s)|
  {
    WrittenAtPosition(s.gens, s.at, s.done, 0);
  }

  /** The part, from a place on, of everything written. */
  predicate IsStretch(part: seq<Bytes>, all: seq<Bytes>, from: nat) {
    from + |part| <= |all| && part == all[from..from + |part|]
  }

  /** Over a whole run in which no poll reports a loss, what is printed is written in one stretch, from where the follower attached. */
  lemma NothingSkipped(s: State, actions: seq<Action>)
    requires Attached(s) && Legal(s, actions)
    ensures Possible(s, actions)
    ensures var t := Run(s, actions);
            (forall i :: 0 <= i < |t.polls| ==> !t.polls[i].lost) ==>
              IsStretch(Emitted(t.polls), Written(t), Position(s))
  {
    var origin := Position(s);
    RunKeeps(s, actions, origin);
    var t := Run(s, actions);
    PrintedInOrder(t.polls, t.starts, Written(t), origin);
    PositionWithin(t, origin);
    if forall i :: 0 <= i < |t.polls| ==> !t.polls[i].lost {
      NoLossNoGap(t.polls, t.starts, Written(t), origin);
      var to := Reached(t.polls, t.starts, origin, |t.polls|);
      assert origin + |Emitted(t.polls)| == to;
    }
  }

  // ----- Attaching -----

  /**
   * The first read of a follower leaves its offset at a record boundary, whether it shows the
   * whole file or only its newest `MAX_READ` bytes, and however the file grew meanwhile.
   */
  lemma AttachAtBoundary(rs: seq<Bytes>, j: nat)
    requires AllRecords(rs) && j <= |rs|
    requires |Flatten(rs[..j])| <= |Flatten(rs)|
    ensures var next := ReadFrom(Flatten(rs), |Flatten(rs[..j])|, None).1;
            exists k :: 0 <= k <= |rs| && next == |Flatten(rs[..k])|
  {
    var len := |Flatten(rs[..j])|;
    if len > MAX_READ {
      TailReadEnds(rs, j);
      assert ReadFrom(Flatten(rs), len, None).1 == |Flatten(rs[..j])|;
    } else {
      var buf := WindowAt(Flatten(rs), 0);
      var n := Fits(rs, MAX_READ);
      assert rs[0..] == rs;
      LinesOfWindow(rs, MAX_READ);
      assert buf[0..] == buf == Flatten(rs)[..Min(MAX_READ, |Flatten(rs)|)];
      CompleteLinesCover(buf);
      assert ReadFrom(Flatten(rs), len, None).1 == |Flatten(rs[..n])|;
    }
  }

  /** A tail read consumes everything up to the length it measured. */
  lemma TailReadEnds(rs: seq<Bytes>, j: nat)
    requires AllRecords(rs) && j <= |rs|
    requires MAX_READ < |Flatten(rs[..j])| <= |Flatten(rs)|
    ensures ReadFrom(Flatten(rs), |Flatten(rs[..j])|, None).1 == |Flatten(rs[..j])|
  {
    EndsWithNewline(rs, j);
    TailOfText(Flatten(rs), |Flatten(rs[..j])|);
  }

  lemma TailOfText(file: Bytes, len: nat)
    requires MAX_READ < len <= |file| && file[len - 1] == '\n'
    ensures ReadFrom(file, len, None).1 == len
  {
    var buf := WindowAt(file, len - MAX_READ);
    ReadTail(file, len);
    assert buf[MAX_READ - 1] == file[len - 1];
    RestConsumed(buf, SkipIn(buf, len, None));
  }

  lemma RestConsumed(buf: Bytes, skip: nat)
    requires buf != [] && buf[|buf| - 1] == '\n' && skip <= |buf|
    ensures Consumed(buf[skip..]) == |buf| - skip
  {
    AllConsumed(buf[skip..]);
  }

  /** Whole records end with a newline. */
  lemma EndsWithNewline(rs: seq<Bytes>, j: nat)
    requires AllRecords(rs) && 0 < j <= |rs|
    ensures 0 < |Flatten(rs[..j])| <= |Flatten(rs)| && Flatten(rs)[|Flatten(rs[..j])| - 1] == '\n'
  {
    FlattenNext(rs, j - 1);
    FlattenSplit(rs, j);
    assert IsRecord(rs[j - 1]);
  }

  // ----- A quiet capture is read to its end -----

  /** The capture has its name and its first record; the launcher takes no further step. */
  predicate Quiet(s: State) {
    s.gens != [] && s.current == Some(Last(s)) && s.gens[Last(s)] != []
  }

  /** A poll under way on the newest file, whose head it has seen. */
  predicate OnNewest(s: State)
    requires s.gens != []
  {
    match s.reader
    case Between => false
    case OpenedFile(f) => f == Last(s)
    case HeadsDiffer(f, head) => f == Last(s) && head != []
    case OpenedRotated(f, head, _) => f == Last(s) && head != []
    case SameRotated(f, head, _) => f == Last(s) && head != []
    case MeasuredRotated(f, head, _, _) => f == Last(s) && head != []
    case Settled(f, _) => f == Last(s)
    case Measured(f, _, _) => f == Last(s)
  }

  /** The follower's next step when every open and read succeeds. */
  function NextStep(s: State): Action
    requires !s.reader.Between?
  {
    match s.reader
    case OpenedFile(_) => ReadHead(true)
    case HeadsDiffer(_, _) => OpenOld(s.rotated.Some?)
    case OpenedRotated(_, _, _) => ReadOldHead(true)
    case SameRotated(_, _, _) => MeasureOld
    case MeasuredRotated(_, _, _, _) => ReadOld
    case Settled(_, _) => Measure
    case Measured(_, _, _) => ReadFile
  }

  function StepsLeft(r: Reader): nat {
    match r
    case Between => 0
    case OpenedFile(_) => 7
    case HeadsDiffer(_, _) => 6
    case OpenedRotated(_, _, _) => 5
    case SameRotated(_, _, _) => 4
    case MeasuredRotated(_, _, _, _) => 3
    case Settled(_, _) => 2
    case Measured(_, _, _) => 1
  }

  /** The follower can always take its next step, and is then closer to the end of its poll. */
  lemma NextStepReady(s: State)
    requires WellFormed(s) && !s.reader.Between?
    ensures Enabled(s, NextStep(s)) && Assumed(s, NextStep(s))
    ensures StepsLeft(Step(s, NextStep(s)).reader) < StepsLeft(s.reader)
  {
  }

  /** The rest of a poll, with no launcher step in between. */
  ghost function FinishPoll(s: State, origin: nat): State
    requires Inv(s, origin)
    decreases StepsLeft(s.reader)
  {
    if s.reader.Between? then s
    else
      NextStepReady(s);
      StepKeeps(s, NextStep(s), origin);
      FinishPoll(Step(s, NextStep(s)), origin)
  }

  /** One poll with no launcher step in between. */
  ghost function QuietPoll(s: State, origin: nat): State
    requires Inv(s, origin) && Quiet(s) && s.reader.Between?
  {
    StepKeeps(s, OpenCurrent(true), origin);
    FinishPoll(Step(s, OpenCurrent(true)), origin)
  }

  /** `n` such polls in a row. */
  ghost function QuietPolls(s: State, origin: nat, n: nat): (t: State)
    requires Inv(s, origin) && Quiet(s) && s.reader.Between?
    ensures t.at <= |t.gens|
    decreases n
  {
    if n == 0 then s
    else
      QuietPollAdvances(s, origin);
      QuietPolls(QuietPoll(s, origin), origin, n - 1)
  }

  /** `t` is `s` later on, with the same files. */
  predicate Later(s: State, t: State) {
    t.gens == s.gens && t.current == s.current && t.rotated == s.rotated
  }

  /** Standing at the end of the newest file is standing at the end of everything. */
  lemma EndOfNewest(s: State)
    requires WellFormed(s) && s.at == Last(s) && s.done == |s.gens[s.at]|
    ensures Position(s) == |Written(s)|
  {
    NextGenerationStarts(s.gens, s.at);
    assert s.gens[..s.at + 1] == s.gens;
  }

  /** What one step of a quiet poll does to the position. */
  predicate Forward(s: State, t: State)
    requires WellFormed(s) && WellFormed(t)
  {
    && Later(s, t)
    && Position(s) <= Position(t)
    && (if t.reader.Between? then Position(s) < Position(t) || Position(t) == |Written(t)|
        else OnNewest(t))
  }

  /** Moving on to the newest file never moves back. */
  lemma MoveOnForward(s: State, lost: bool, head: Bytes)
    requires WellFormed(s) && CursorOk(s) && s.at < Last(s) && head != []
    ensures var t := MoveOn(s, Last(s), head, lost); WellFormed(t) && Forward(s, t)
  {
    NextGenerationStarts(s.gens, s.at);
    PositionsGrow(s.gens, s.at + 1, Last(s));
  }

  /** Reading moves forward, and stands still only at the end of everything. */
  lemma ReadForward(s: State, origin: nat)
    requires Inv(s, origin) && Quiet(s) && s.reader.Measured? && OnNewest(s)
    ensures var t := Step(s, ReadFile); WellFormed(t) && Forward(s, t)
  {
    var n := ReadAtBoundary(s.gens[s.at], s.reader.len, s.done);
    if n == 0 { EndOfNewest(s); }
  }

  /** Reading the rotated file moves forward, or leaves it for the newest one. */
  lemma ReadOldForward(s: State, origin: nat)
    requires Inv(s, origin) && Quiet(s) && s.reader.MeasuredRotated? && OnNewest(s)
    ensures var t := Step(s, ReadOld); WellFormed(t) && Forward(s, t)
  {
    var n := ReadAtBoundary(s.gens[s.at], s.reader.len, s.done);
    if n == 0 { MoveOnForward(s, false, s.reader.head); }
  }

  lemma QuietStep(s: State, origin: nat)
    requires Inv(s, origin) && Quiet(s) && OnNewest(s)
    ensures Enabled(s, NextStep(s)) && Assumed(s, NextStep(s))
    ensures var t := Step(s, NextStep(s)); WellFormed(t) && Forward(s, t)
  {
    NextStepReady(s);
    match s.reader
    case OpenedFile(f) => FirstRecordIsPrefix(s.gens[f]);
    case MeasuredRotated(_, _, _, _) => ReadOldForward(s, origin);
    case Measured(_, _, _) => ReadForward(s, origin);
    case HeadsDiffer(_, head) => MoveOnForward(s, true, head);
    case OpenedRotated(_, head, _) => MoveOnForward(s, true, head);
    case _ =>
  }

  lemma {:induction false} PollAdvances(s: State, origin: nat)
    requires Inv(s, origin) && Quiet(s) && OnNewest(s)
    ensures var t := FinishPoll(s, origin);
            Inv(t, origin) && t.reader.Between? && Forward(s, t)
    decreases StepsLeft(s.reader)
  {
    QuietStep(s, origin);
    NextStepReady(s);
    StepKeeps(s, NextStep(s), origin);
    var t := Step(s, NextStep(s));
    if !t.reader.Between? {
      PollAdvances(t, origin);
    }
  }

  /** A quiet poll moves the follower forward, unless everything was read already. */
  lemma QuietPollAdvances(s: State, origin: nat)
    requires Inv(s, origin) && Quiet(s) && s.reader.Between?
    ensures var t := QuietPoll(s, origin);
            Inv(t, origin) && Quiet(t) && t.reader.Between? && Forward(s, t)
  {
    StepKeeps(s, OpenCurrent(true), origin);
    PollAdvances(Step(s, OpenCurrent(true)), origin);
  }

  /** Once the launcher is quiet, finitely many polls bring the follower to the end of the log. */
  lemma {:induction false} FollowerCatchesUp(s: State, origin: nat) returns (n: nat)
    requires Inv(s, origin) && Quiet(s) && s.reader.Between?
    ensures var t := QuietPolls(s, origin, n);
            t.gens == s.gens && Position(t) == |Written(t)|
    decreases |Written(s)| - Position(s)
  {
    if Position(s) == |Written(s)| {
      n := 0;
    } else {
      QuietPollAdvances(s, origin);
      var t := QuietPoll(s, origin);
      PositionWithin(t, origin);
      var m := FollowerCatchesUp(t, origin);
      n := m + 1;
    }
  }
}
