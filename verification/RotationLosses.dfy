/** When the follower says that lines were lost: exactly when `.jsonl.1` was not the file it was reading. */
module RotationLosses {
  import opened Text
  import opened CaptureFile
  import opened Rotation
  import opened RotationProof
  import opened RotationTheorems

  // ----- The states of a run -----

  lemma {:induction false} PrefixPossible(s: State, actions: seq<Action>, k: nat)
    requires Possible(s, actions) && k <= |actions|
    ensures Possible(s, actions[..k])
    decreases k
  {
    if k > 0 {
      PrefixPossible(Step(s, actions[0]), actions[1..], k - 1);
      assert actions[..k][1..] == actions[1..][..k - 1];
    }
  }

  /** The state after the first `k` actions of a run. */
  ghost function After(s: State, actions: seq<Action>, k: nat): State
    requires Possible(s, actions) && k <= |actions|
  {
    PrefixPossible(s, actions, k);
    Run(s, actions[..k])
  }

  lemma {:induction false} AfterNext(s: State, actions: seq<Action>, k: nat)
    requires Possible(s, actions) && k < |actions|
    ensures WellFormed(After(s, actions, k)) && Enabled(After(s, actions, k), actions[k])
    ensures After(s, actions, k + 1) == Step(After(s, actions, k), actions[k])
    decreases k
  {
    PrefixPossible(s, actions, k);
    PrefixPossible(s, actions, k + 1);
    if k == 0 {
      assert actions[..0] == [] && actions[..1] == [actions[0]] && [actions[0]][1..] == [];
      assert Run(s, actions[..1]) == Run(Step(s, actions[0]), []);
    } else {
      AfterNext(Step(s, actions[0]), actions[1..], k - 1);
      PrefixPossible(Step(s, actions[0]), actions[1..], k - 1);
      PrefixPossible(Step(s, actions[0]), actions[1..], k);
      assert actions[..k][1..] == actions[1..][..k - 1] && actions[..k + 1][1..] == actions[1..][..k];
    }
  }

  lemma AfterEnds(s: State, actions: seq<Action>)
    requires Possible(s, actions)
    ensures After(s, actions, 0) == s && After(s, actions, |actions|) == Run(s, actions)
  {
    assert actions[..0] == [] && actions[..|actions|] == actions;
  }

  /** In a legal run the invariant holds all along. */
  lemma {:induction false} AfterKeeps(s: State, actions: seq<Action>, k: nat, origin: nat)
    requires Inv(s, origin) && Legal(s, actions) && Possible(s, actions) && k <= |actions|
    ensures Inv(After(s, actions, k), origin)
    ensures k < |actions| ==> Assumed(After(s, actions, k), actions[k])
    decreases k
  {
    PrefixPossible(s, actions, k);
    if k == 0 {
      assert actions[..0] == [];
    } else {
      StepKeeps(s, actions[0], origin);
      AfterKeeps(Step(s, actions[0]), actions[1..], k - 1, origin);
      assert actions[..k][1..] == actions[1..][..k - 1];
      assert After(s, actions, k) == After(Step(s, actions[0]), actions[1..], k - 1);
    }
  }

  // ----- What a report stands for -----

  /**
   * A poll that found a new file under the capture's name, and a record in it, does not find its
   * own under `.jsonl.1`: there is none, it cannot be read, or it is another one.
   */
  predicate Misses(s: State, a: Action) {
    match a
    case OpenOld(ok) => s.reader.HeadsDiffer? && s.reader.head != [] && !ok
    case ReadOldHead(ok) => s.reader.OpenedRotated? && s.reader.head != [] && (!ok || s.reader.rotated != s.at)
    case _ => false
  }

  /** The poll under way will say that lines were lost. */
  predicate WillReport(s: State) { (s.reader.Settled? || s.reader.Measured?) && s.reader.lost }

  /** What a step has to do with reports. */
  predicate StepTells(s: State, a: Action, t: State) {
    if Misses(s, a) then t.polls == s.polls && WillReport(t) && t.at > s.at
    else
      || (t.polls == s.polls && (WillReport(t) <==> WillReport(s)))
      || (|t.polls| == |s.polls| + 1 && t.polls[..|s.polls|] == s.polls && !WillReport(t)
          && (t.polls[|s.polls|].lost <==> WillReport(s)))
  }

  lemma OldIsOwnIff(s: State, origin: nat)
    requires Inv(s, origin) && s.reader.OpenedRotated?
    ensures SameCapture(s.cursor.head, HeadOf(Content(s, s.reader.rotated))) <==> s.reader.rotated == s.at
  {
    if s.reader.rotated == s.at { OwnHeadMatches(s, s.cursor.head); } else { OtherHeadDiffers(s, s.reader.rotated); }
  }

  lemma ReportStep(s: State, a: Action, origin: nat)
    requires Inv(s, origin) && Enabled(s, a)
    ensures StepTells(s, a, Step(s, a))
  {
    hide ReadFrom, Faithful, Pending, RecordsOk, NamesOk, SameCapture, HeadSeen, CursorOk;
    if a.ReadOldHead? { OldIsOwnIff(s, origin); }
  }

  /** The `k`-th action is such a miss, during poll `i`. */
  ghost predicate MissAt(s: State, actions: seq<Action>, k: nat, i: nat)
    requires Possible(s, actions) && k < |actions|
  {
    |After(s, actions, k).polls| == i && Misses(After(s, actions, k), actions[k])
  }

  /** There was one among the first `n` actions. */
  ghost predicate MissIn(s: State, actions: seq<Action>, n: nat, i: nat)
    requires Possible(s, actions) && n <= |actions|
  {
    exists k: nat :: k < n && MissAt(s, actions, k, i)
  }

  lemma MissInMore(s: State, actions: seq<Action>, n: nat, i: nat)
    requires Possible(s, actions) && n < |actions|
    ensures MissIn(s, actions, n + 1, i) <==> MissIn(s, actions, n, i) || MissAt(s, actions, n, i)
  {
    hide MissAt;
    if MissIn(s, actions, n + 1, i) {
      var k: nat :| k < n + 1 && MissAt(s, actions, k, i);
      if k < n { assert MissIn(s, actions, n, i); }
    }
  }

  /** After `n` actions, every poll so far has reported exactly the misses it met, and the one under way will. */
  ghost predicate Reported(s: State, actions: seq<Action>, n: nat, polls: seq<Poll>, report: bool)
    requires Possible(s, actions) && n <= |actions|
  {
    && (forall i: nat :: i < |polls| ==> (polls[i].lost <==> MissIn(s, actions, n, i)))
    && (report <==> MissIn(s, actions, n, |polls|))
    && forall i: nat :: i > |polls| ==> !MissIn(s, actions, n, i)
  }

  /** Which polls met a miss among the first `m` actions, when the `n`-th is one of poll `at` or none. */
  lemma MissesAfter(s: State, actions: seq<Action>, n: nat, i: nat)
    requires Possible(s, actions) && n < |actions|
    ensures MissIn(s, actions, n + 1, i)
            <==> MissIn(s, actions, n, i) || (i == |After(s, actions, n).polls| && Misses(After(s, actions, n), actions[n]))
  {
    MissInMore(s, actions, n, i);
  }

  lemma ReportedStep(s: State, actions: seq<Action>, n: nat, u: State, t: State)
    requires Possible(s, actions) && n < |actions|
    requires u == After(s, actions, n) && Reported(s, actions, n, u.polls, WillReport(u)) && StepTells(u, actions[n], t)
    ensures Reported(s, actions, n + 1, t.polls, WillReport(t))
  {
    hide After, Misses, WillReport, MissIn;
    forall i: nat | i < |t.polls| ensures t.polls[i].lost <==> MissIn(s, actions, n + 1, i) {
      MissesAfter(s, actions, n, i);
      if i < |u.polls| && t.polls != u.polls { assert t.polls[..|u.polls|][i] == u.polls[i]; }
    }
    MissesAfter(s, actions, n, |t.polls|);
    var m := n + 1;
    forall i: nat | i > |t.polls| ensures !MissIn(s, actions, m, i) {
      MissesAfter(s, actions, n, i);
    }
  }

  lemma {:induction false} ReportedAll(s: State, actions: seq<Action>, n: nat, origin: nat)
    requires Inv(s, origin) && s.polls == [] && s.reader.Between? && Legal(s, actions) && Possible(s, actions) && n <= |actions|
    ensures Reported(s, actions, n, After(s, actions, n).polls, WillReport(After(s, actions, n)))
    decreases n
  {
    hide MissAt, Reported;
    if n == 0 {
      NothingYet(s, actions);
    } else {
      ReportedAll(s, actions, n - 1, origin);
      AfterNext(s, actions, n - 1);
      AfterKeeps(s, actions, n - 1, origin);
      ReportStep(After(s, actions, n - 1), actions[n - 1], origin);
      ReportedStep(s, actions, n - 1, After(s, actions, n - 1), After(s, actions, n));
    }
  }

  lemma NothingYet(s: State, actions: seq<Action>)
    requires Possible(s, actions) && s.polls == [] && s.reader.Between?
    ensures Reported(s, actions, 0, After(s, actions, 0).polls, WillReport(After(s, actions, 0)))
  {
    AfterEnds(s, actions);
  }

  /**
   * In every interleaving, a poll says that lines were lost if and only if it found a new file
   * and did not find its own under `.jsonl.1`: a poll that returns more of the file it was in, or
   * the rest of it from `.jsonl.1`, or nothing, says nothing.
   */
  lemma LossIffMissed(s: State, actions: seq<Action>, i: nat)
    requires Attached(s) && Legal(s, actions)
    ensures Possible(s, actions)
    ensures i < |Run(s, actions).polls| ==> (Run(s, actions).polls[i].lost <==> MissIn(s, actions, |actions|, i))
  {
    RunKeeps(s, actions, Position(s));
    AfterEnds(s, actions);
    ReportedAll(s, actions, |actions|, Position(s));
  }

  // ----- A poll that stays in its file, or follows it, is silent -----

  lemma AtGrows(s: State, a: Action, origin: nat)
    requires Inv(s, origin) && Enabled(s, a)
    ensures Step(s, a).at >= s.at && |Step(s, a).polls| >= |s.polls|
  {
    hide ReadFrom, Faithful, Pending, RecordsOk, NamesOk, SameCapture, HeadSeen, CursorOk;
  }

  lemma {:induction false} AtGrowsAll(s: State, actions: seq<Action>, a: nat, b: nat, origin: nat)
    requires Inv(s, origin) && Legal(s, actions) && Possible(s, actions) && a <= b <= |actions|
    ensures After(s, actions, a).at <= After(s, actions, b).at
    ensures |After(s, actions, a).polls| <= |After(s, actions, b).polls|
    decreases b
  {
    hide Inv, Step, Legal, Enabled, Possible, WellFormed;
    if a < b {
      AtGrowsAll(s, actions, a, b - 1, origin);
      AfterNext(s, actions, b - 1);
      AfterKeeps(s, actions, b - 1, origin);
      AtGrows(After(s, actions, b - 1), actions[b - 1], origin);
    }
  }

  /** A report means that the poll moved on: between its start and its end, the follower went to a newer file. */
  lemma LossMovesOn(s: State, actions: seq<Action>, a: nat, b: nat, i: nat)
    requires Attached(s) && Legal(s, actions) && Possible(s, actions) && a <= b <= |actions|
    requires After(s, actions, a).reader.Between? && |After(s, actions, a).polls| == i < |After(s, actions, b).polls|
    ensures i < |Run(s, actions).polls|
    ensures Run(s, actions).polls[i].lost ==> After(s, actions, a).at < After(s, actions, b).at
  {
    var origin := Position(s);
    AfterEnds(s, actions);
    AtGrowsAll(s, actions, b, |actions|, origin);
    LossIffMissed(s, actions, i);
    if Run(s, actions).polls[i].lost {
      var k: nat :| k < |actions| && MissAt(s, actions, k, i);
      ReportedAll(s, actions, a, origin);
      assert !MissIn(s, actions, a, i) && k >= a;
      if k >= b { AtGrowsAll(s, actions, b, k, origin); }
      AtGrowsAll(s, actions, a, k, origin);
      AfterNext(s, actions, k);
      AfterKeeps(s, actions, k, origin);
      ReportStep(After(s, actions, k), actions[k], origin);
      AtGrowsAll(s, actions, k + 1, b, origin);
    }
  }

  // ----- When nothing is lost -----

  /** `.jsonl.1` and its head can be read whenever the follower looks for them. */
  predicate OldReadable(actions: seq<Action>) {
    forall k :: 0 <= k < |actions| ==> actions[k] != OpenOld(false) && actions[k] != ReadOldHead(false)
  }

  predicate IsRename(a: Action) { a.RenameToOld? || a.RenameAside? }

  /** No file is rotated away before the follower has moved on to it. */
  ghost predicate RotatedInTime(s: State, actions: seq<Action>)
    requires Possible(s, actions)
  {
    forall k: nat :: k < |actions| && IsRename(actions[k]) ==>
      After(s, actions, k).gens != [] && After(s, actions, k).at == Last(After(s, actions, k))
  }

  /** The follower is in the newest file, or in the one before while the newest has its name. */
  predicate CloseBehind(s: State) {
    && s.gens != [] && (s.at == Last(s) || (s.at + 1 == Last(s) && s.current.Some?))
    && (s.reader.OpenedRotated? ==> s.reader.rotated == s.at)
  }

  lemma CloseLauncher(s: State, a: Action)
    requires WellFormed(s) && ReaderOk(s) && NamesOk(s) && Enabled(s, a) && CloseBehind(s)
    requires a.Append? || a.RemoveOld? || IsRename(a) || a.RenameFails? || a.Create? || a.CreateFails?
    requires IsRename(a) ==> s.at == Last(s)
    ensures CloseBehind(Step(s, a))
  {
    hide HeadSeen, AllRecords;
  }

  lemma CloseMoveOn(s: State, file: nat, head: Bytes, lost: bool)
    requires WellFormed(s) && CloseBehind(s) && s.at < file < |s.gens|
    ensures CloseBehind(MoveOn(s, file, head, lost))
  {
  }

  lemma CloseFollower(s: State, a: Action)
    requires WellFormed(s) && ReaderOk(s) && NamesOk(s) && Enabled(s, a) && CloseBehind(s)
    requires a.OpenCurrent? || a.ReadHead? || a == OpenOld(true) || a == ReadOldHead(true)
             || a.MeasureOld? || a.ReadOld? || a.Measure? || a.ReadFile?
    ensures CloseBehind(Step(s, a)) && !Misses(s, a)
  {
    hide HeadSeen, MoveOn, ReadFrom, SameCapture, HeadOf, AllRecords;
    if !s.reader.Between? && s.reader.file > s.at {
      var file := s.reader.file;
      match s.reader
      case OpenedRotated(_, head, _) => CloseMoveOn(s, file, head, true);
      case MeasuredRotated(_, head, _, _) => CloseMoveOn(s, file, head, false);
      case _ =>
    }
  }

  lemma CloseStep(s: State, a: Action, origin: nat)
    requires Inv(s, origin) && Enabled(s, a) && CloseBehind(s) && a != OpenOld(false) && a != ReadOldHead(false)
    requires IsRename(a) ==> s.at == Last(s)
    ensures CloseBehind(Step(s, a)) && !Misses(s, a)
  {
    hide Step, CloseBehind, ReaderOk, NamesOk, Enabled;
    match a {
      case Append(_) => CloseLauncher(s, a);
      case RemoveOld(_) => CloseLauncher(s, a);
      case RenameToOld => CloseLauncher(s, a);
      case RenameAside => CloseLauncher(s, a);
      case RenameFails => CloseLauncher(s, a);
      case Create => CloseLauncher(s, a);
      case CreateFails => CloseLauncher(s, a);
      case _ => CloseFollower(s, a);
    }
  }

  lemma {:induction false} CloseAll(s: State, actions: seq<Action>, n: nat, origin: nat)
    requires Inv(s, origin) && Legal(s, actions) && Possible(s, actions) && n <= |actions|
    requires CloseBehind(s) && OldReadable(actions) && RotatedInTime(s, actions)
    ensures CloseBehind(After(s, actions, n))
    ensures forall k: nat :: k < n ==> !Misses(After(s, actions, k), actions[k])
    decreases n
  {
    hide CloseBehind, Misses, Inv, Step, Legal, Possible, WellFormed, Enabled;
    if n == 0 {
      AfterEnds(s, actions);
    } else {
      CloseAll(s, actions, n - 1, origin);
      AfterNext(s, actions, n - 1);
      AfterKeeps(s, actions, n - 1, origin);
      CloseStep(After(s, actions, n - 1), actions[n - 1], origin);
    }
  }

  /**
   * While `.jsonl.1` can be read, and no file is rotated away before the follower has come to
   * it, no poll reports a loss; and then nothing is lost.
   */
  lemma NothingLost(s: State, actions: seq<Action>)
    requires Attached(s) && CloseBehind(s) && Legal(s, actions) && Possible(s, actions)
    requires OldReadable(actions) && RotatedInTime(s, actions)
    ensures forall i :: 0 <= i < |Run(s, actions).polls| ==> !Run(s, actions).polls[i].lost
    ensures IsStretch(Emitted(Run(s, actions).polls), Written(Run(s, actions)), Position(s))
  {
    CloseAll(s, actions, |actions|, Position(s));
    forall i | 0 <= i < |Run(s, actions).polls| ensures !Run(s, actions).polls[i].lost { LossIffMissed(s, actions, i); }
    NothingSkipped(s, actions);
  }

  // ----- One rotation for each poll is too many -----

  lemma {:induction false} LegalThen(s: State, actions: seq<Action>, a: Action)
    requires Legal(s, actions) && Possible(s, actions)
    requires WellFormed(Run(s, actions)) && Enabled(Run(s, actions), a) && Assumed(Run(s, actions), a)
    ensures Legal(s, actions + [a]) && Possible(s, actions + [a]) && Run(s, actions + [a]) == Step(Run(s, actions), a)
    decreases |actions|
  {
    RunThen(s, actions, a);
    if actions == [] {
      assert actions + [a] == [a] && [a][1..] == [];
    } else {
      assert (actions + [a])[1..] == actions[1..] + [a] && (actions + [a])[0] == actions[0];
      LegalThen(Step(s, actions[0]), actions[1..], a);
    }
  }

  /** The follower is between two polls, one file behind the newest, in which something is written. */
  predicate OneBehind(s: State) {
    s.gens != [] && s.reader.Between? && s.phase == Writing && s.at + 1 == Last(s) && s.current == Some(Last(s)) && s.gens[Last(s)] != []
  }

  predicate FreshRecord(s: State, d: Bytes) {
    IsRecord(d) && |d| <= MAX_READ && forall g :: 0 <= g < |s.gens| && s.gens[g] != [] ==> HeadsDisagree(s.gens[g][0], d)
  }

  function ROTATE(d: Bytes): seq<Action> { [] + [RemoveOld(true)] + [RenameToOld] + [Create] + [Append(d)] }

  function LOSE(): seq<Action> {
    [] + [OpenCurrent(true)] + [ReadHead(true)] + [OpenOld(true)] + [ReadOldHead(true)] + [Measure] + [ReadFile]
  }

  /** Two files behind, of which only the later is there. */
  predicate TwoBehind(s: State, d: Bytes) {
    && |s.gens| > 1 && s.reader.Between? && s.at + 1 < Last(s) && s.current == Some(Last(s)) && s.rotated == Some(Last(s) - 1)
    && s.gens[Last(s)] == [d] && IsRecord(d)
  }

  lemma RotateOnce(s: State, d: Bytes, origin: nat)
    requires Inv(s, origin) && OneBehind(s) && FreshRecord(s, d)
    ensures Legal(s, ROTATE(d)) && Possible(s, ROTATE(d))
    ensures var t := Run(s, ROTATE(d)); Inv(t, origin) && TwoBehind(t, d) && t.polls == s.polls && t.at == s.at
  {
    hide Faithful, Pending, ReaderOk, AllRecords;
    var s1 := Step(s, RemoveOld(true));
    LegalThen(s, [], RemoveOld(true));
    StepKeeps(s, RemoveOld(true), origin);
    var s2 := Step(s1, RenameToOld);
    LegalThen(s, [] + [RemoveOld(true)], RenameToOld);
    StepKeeps(s1, RenameToOld, origin);
    LegalThen(s, [] + [RemoveOld(true)] + [RenameToOld], Create);
    StepKeeps(s2, Create, origin);
    var s3 := Step(s2, Create);
    assert FreshHead(s3, Append(d)) && s3.gens == s.gens + [[]];
    LegalThen(s, [] + [RemoveOld(true)] + [RenameToOld] + [Create], Append(d));
    StepKeeps(s3, Append(d), origin);
    assert [] + [d] == [d];
  }

  /** A step of the poll under way, after those before it. */
  lemma PollGoesOn(s: State, before: seq<Action>, u: State, a: Action, origin: nat)
    requires Legal(s, before) && Possible(s, before) && Run(s, before) == u && Inv(u, origin)
    requires Enabled(u, a) && !a.Append? && !IsRename(a)
    ensures Legal(s, before + [a]) && Possible(s, before + [a]) && Run(s, before + [a]) == Step(u, a) && Inv(Step(u, a), origin)
    ensures StepTells(u, a, Step(u, a))
  {
    assert Assumed(u, a);
    LegalThen(s, before, a);
    StepKeeps(u, a, origin);
    ReportStep(u, a, origin);
  }

  lemma PollLoses(s: State, d: Bytes, origin: nat)
    requires Inv(s, origin) && TwoBehind(s, d)
    ensures Legal(s, LOSE()) && Possible(s, LOSE())
    ensures var t := Run(s, LOSE()); |t.polls| == |s.polls| + 1 && t.polls[|s.polls|].lost
  {
    hide Faithful, Pending, RecordsOk, ReadFrom, Legal, Possible, Run, SameCapture, HeadOf;
    NoSteps(s);
    PollGoesOn(s, [], s, OpenCurrent(true), origin);
    var s1 := Step(s, OpenCurrent(true));
    NewestDiffers(s1, d, origin);
    PollGoesOn(s, [] + [OpenCurrent(true)], s1, ReadHead(true), origin);
    var s2 := Step(s1, ReadHead(true));
    PollGoesOn(s, [] + [OpenCurrent(true)] + [ReadHead(true)], s2, OpenOld(true), origin);
    var s3 := Step(s2, OpenOld(true));
    var three := [] + [OpenCurrent(true)] + [ReadHead(true)] + [OpenOld(true)];
    PollGoesOn(s, three, s3, ReadOldHead(true), origin);
    var s4 := Step(s3, ReadOldHead(true));
    PollGoesOn(s, three + [ReadOldHead(true)], s4, Measure, origin);
    var s5 := Step(s4, Measure);
    PollGoesOn(s, three + [ReadOldHead(true)] + [Measure], s5, ReadFile, origin);
  }

  lemma NoSteps(s: State)
    ensures Legal(s, []) && Possible(s, []) && Run(s, []) == s
  {
  }

  lemma NewestDiffers(s: State, d: Bytes, origin: nat)
    requires Inv(s, origin) && |s.gens| > 1 && s.at + 1 < Last(s) && s.gens[Last(s)] == [d] && IsRecord(d)
    ensures HeadOf(Content(s, Last(s))) != [] && !SameCapture(s.cursor.head, HeadOf(Content(s, Last(s))))
  {
    assert Flatten([d]) == d + Flatten([]) && [d][1..] == [];
    OtherHeadDiffers(s, Last(s));
  }

  /**
   * A follower that has read on in `.jsonl.1` and not yet come to the newest file: one rotation
   * before its next poll is enough to lose that file, and the poll says so.
   */
  lemma OneRotationLoses(s: State, d: Bytes, origin: nat)
    requires Inv(s, origin) && OneBehind(s) && FreshRecord(s, d)
    ensures Legal(s, ROTATE(d)) && Possible(s, ROTATE(d)) && Legal(Run(s, ROTATE(d)), LOSE()) && Possible(Run(s, ROTATE(d)), LOSE())
    ensures var t := Run(Run(s, ROTATE(d)), LOSE()); |t.polls| == |s.polls| + 1 && t.polls[|s.polls|].lost
  {
    hide Inv, Run, Legal, Possible;
    RotateOnce(s, d, origin);
    PollLoses(Run(s, ROTATE(d)), d, origin);
  }
}
