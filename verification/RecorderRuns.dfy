/**
 * The recorder under any interleaving of its callers. Each step is what one caller does under
 * the lock; an import is two steps, because it draws its generation before it takes the lock.
 */
module RecorderRuns {
  import opened Text
  import opened Recording

  /** A recording, with the number of its creation: the `who`-th recording there ever was. */
  datatype Held<E, S> = Held(who: nat, imported: bool, recording: Active<E, S>)

  /**
   * The recorder's state, the imports under way, and a record of what happened: the generation
   * of every recording ever created, and every event appended to it. The last session is kept
   * with the recording it was.
   */
  datatype State<E, S> = State(
    active: Option<Held<E, S>>,
    last: Option<Held<E, S>>,
    generations: nat,
    inFlight: map<nat, Held<E, S>>,
    issued: seq<nat>,
    histories: seq<seq<E>>,
    maxEvents: nat)

  datatype Action<E, S> =
    | Start(id: Bytes)
    | Stop
    | StopIfSession(id: Bytes)
    | StopIfGeneration(generation: nat)
    | RecordEvent(event: E)
    | RecordEventIf(generation: nat, event: E)
    | Checkpoint(id: Bytes, state: S)
    | DrawImport(caller: nat, session: Session<E, S>)
    | Install(caller: nat)
    | InstallIfIdle(caller: nat)

  // ----- Steps -----

  function Create<E, S>(s: State<E, S>): State<E, S> {
    s.(generations := s.generations + 1, issued := s.issued + [s.generations + 1], histories := s.histories + [[]])
  }

  function DoStart<E, S>(s: State<E, S>, id: Bytes): State<E, S> {
    if s.active.Some? then s
    else Create(s).(active := Some(Held(|s.issued|, false, Started(id, s.generations + 1, s.maxEvents))))
  }

  function DoStop<E, S>(s: State<E, S>, wanted: bool): State<E, S> {
    if s.active.None? || !wanted then s
    else s.(active := None, last := s.active)
  }

  function DoRecord<E, S>(s: State<E, S>, event: E, wanted: bool): State<E, S> {
    if s.active.None? || !wanted then s
    else
      var h := s.active.value;
      s.(active := Some(h.(recording := Append(h.recording, event))),
         histories := if h.who < |s.histories| then s.histories[h.who := s.histories[h.who] + [event]] else s.histories)
  }

  function DoCheckpoint<E, S(==)>(s: State<E, S>, id: Bytes, state: S): State<E, S> {
    if s.active.None? then s
    else
      var h := s.active.value;
      var r := AddCheckpoint(h.recording, id, state);
      if r.None? then s else s.(active := Some(h.(recording := r.value)))
  }

  function DoDraw<E, S>(s: State<E, S>, caller: nat, session: Session<E, S>): State<E, S> {
    if caller in s.inFlight then s
    else Create(s).(inFlight := s.inFlight[caller := Held(|s.issued|, true, Imported(session, s.generations + 1, s.maxEvents))])
  }

  function DoInstall<E, S>(s: State<E, S>, caller: nat, onlyIfIdle: bool): State<E, S> {
    if caller !in s.inFlight then s
    else
      var landed := s.(inFlight := s.inFlight - {caller});
      if onlyIfIdle && s.active.Some? then landed else landed.(active := Some(s.inFlight[caller]))
  }

  predicate IsActive<E, S>(s: State<E, S>, generation: nat) {
    s.active.Some? && s.active.value.recording.generation == generation
  }

  function Next<E, S(==)>(s: State<E, S>, a: Action<E, S>): State<E, S> {
    match a
    case Start(id) => DoStart(s, id)
    case Stop => DoStop(s, true)
    case StopIfSession(id) => DoStop(s, s.active.Some? && s.active.value.recording.sessionId == id)
    case StopIfGeneration(g) => DoStop(s, IsActive(s, g))
    case RecordEvent(e) => DoRecord(s, e, true)
    case RecordEventIf(g, e) => DoRecord(s, e, IsActive(s, g))
    case Checkpoint(id, state) => DoCheckpoint(s, id, state)
    case DrawImport(caller, session) => DoDraw(s, caller, session)
    case Install(caller) => DoInstall(s, caller, false)
    case InstallIfIdle(caller) => DoInstall(s, caller, true)
  }

  function Run<E, S(==)>(s: State<E, S>, actions: seq<Action<E, S>>): State<E, S>
    decreases |actions|
  {
    if actions == [] then s else Run(Next(s, actions[0]), actions[1..])
  }

  function Initial<E, S>(maxEvents: nat): State<E, S> { State(None, None, 0, map[], [], [], maxEvents) }

  // ----- The invariant -----

  /** A recording that exists, under the generation it was created with. */
  ghost predicate Known<E, S>(s: State<E, S>, h: Held<E, S>) {
    && h.who < |s.issued| == |s.histories| && h.recording.generation == s.issued[h.who]
    && h.recording.maxCheckpoints == DEFAULT_MAX_CHECKPOINTS
  }

  /**
   * As long as its events can be counted, a started recording follows its history; and as long
   * as its counter has not reached the end, any recording numbers ahead of all it holds.
   */
  ghost predicate Counted<E, S>(s: State<E, S>, h: Held<E, S>)
    requires Known(s, h)
  {
    && (!h.imported && |s.histories[h.who]| <= USIZE_MAX ==> Follows(h.recording, s.histories[h.who]))
    && (h.recording.eventCounter < USIZE_MAX ==> NumbersAhead(h.recording))
  }

  ghost predicate Good<E, S>(s: State<E, S>, h: Held<E, S>) { Known(s, h) && Counted(s, h) }

  /** Nobody else holds recording `who`. */
  ghost predicate NotInFlight<E, S>(s: State<E, S>, who: nat) {
    forall c :: c in s.inFlight ==> s.inFlight[c].who != who
  }

  ghost predicate Inv<E, S>(s: State<E, S>) {
    && s.generations == |s.issued| == |s.histories|
    && (forall k :: 0 <= k < |s.issued| ==> s.issued[k] == k + 1)
    && (s.active.Some? ==> Good(s, s.active.value) && NotInFlight(s, s.active.value.who))
    && (s.last.Some? ==> Good(s, s.last.value) && NotInFlight(s, s.last.value.who))
    && (s.active.Some? && s.last.Some? ==> s.active.value.who != s.last.value.who)
    && (forall c :: c in s.inFlight ==> Good(s, s.inFlight[c]))
    && (forall c, d :: c in s.inFlight && d in s.inFlight && c != d ==> s.inFlight[c].who != s.inFlight[d].who)
  }

  /** What was good stays good when another recording is created. */
  lemma GoodGrows<E, S>(s: State<E, S>, h: Held<E, S>)
    requires s.generations == |s.issued| == |s.histories| && Good(s, h)
    ensures Good(Create(s), h)
  {
  }

  lemma CreateKeeps<E, S>(s: State<E, S>)
    requires Inv(s)
    ensures Inv(Create(s))
  {
    forall c | c in s.inFlight ensures Good(Create(s), s.inFlight[c]) { GoodGrows(s, s.inFlight[c]); }
    if s.active.Some? { GoodGrows(s, s.active.value); }
    if s.last.Some? { GoodGrows(s, s.last.value); }
  }

  lemma StartKeeps<E, S>(s: State<E, S>, id: Bytes)
    requires Inv(s)
    ensures Inv(DoStart(s, id))
  {
    CreateKeeps(s);
    StartedFollows<E, S>(id, s.generations + 1, s.maxEvents);
  }

  /** An event appended to one recording leaves the others as they are. */
  lemma OthersUntouched<E, S>(s: State<E, S>, t: State<E, S>, h: Held<E, S>, who: nat)
    requires Good(s, h) && who < |s.histories| && h.who != who && t.issued == s.issued
    requires |t.histories| == |s.histories| && forall j :: 0 <= j < |s.histories| && j != who ==> t.histories[j] == s.histories[j]
    ensures Good(t, h)
  {
  }

  lemma AppendGood<E, S>(s: State<E, S>, h: Held<E, S>, event: E)
    requires Good(s, h)
    ensures Good(s.(histories := s.histories[h.who := s.histories[h.who] + [event]]), h.(recording := Append(h.recording, event)))
  {
    var history := s.histories[h.who];
    if !h.imported && |history| < USIZE_MAX { AppendFollows(h.recording, history, event); }
    if h.recording.eventCounter < USIZE_MAX { AppendNumbersAhead(h.recording, event); }
  }

  lemma RecordKeeps<E, S>(s: State<E, S>, event: E, wanted: bool)
    requires Inv(s)
    ensures Inv(DoRecord(s, event, wanted))
  {
    if s.active.Some? && wanted {
      var h, t := s.active.value, DoRecord(s, event, wanted);
      AppendGood(s, h, event);
      forall c | c in s.inFlight ensures Good(t, s.inFlight[c]) { OthersUntouched(s, t, s.inFlight[c], h.who); }
      if s.last.Some? { OthersUntouched(s, t, s.last.value, h.who); }
    }
  }

  lemma CheckpointKeeps<E, S>(s: State<E, S>, id: Bytes, state: S)
    requires Inv(s)
    ensures Inv(DoCheckpoint(s, id, state))
  {
    if s.active.Some? && AddCheckpoint(s.active.value.recording, id, state).Some? {
      var h := s.active.value;
      if !h.imported && |s.histories[h.who]| <= USIZE_MAX {
        CheckpointFollows(h.recording, s.histories[h.who], id, state);
      }
    }
  }

  lemma DrawKeeps<E, S>(s: State<E, S>, caller: nat, session: Session<E, S>)
    requires Inv(s)
    ensures Inv(DoDraw(s, caller, session))
  {
    if caller !in s.inFlight {
      var t, h := Create(s), Held(|s.issued|, true, Imported(session, s.generations + 1, s.maxEvents));
      CreateKeeps(s);
      ImportNumbersAhead(session, s.generations + 1, s.maxEvents);
      assert Good(t, h);
      NewInFlight(t, caller, h);
    }
  }

  /** One more import under way, of a recording nobody holds. */
  lemma NewInFlight<E, S>(s: State<E, S>, caller: nat, h: Held<E, S>)
    requires Inv(s) && caller !in s.inFlight && Good(s, h) && NotInFlight(s, h.who)
    requires (s.active.Some? ==> s.active.value.who != h.who) && (s.last.Some? ==> s.last.value.who != h.who)
    ensures Inv(s.(inFlight := s.inFlight[caller := h]))
  {
    var t := s.(inFlight := s.inFlight[caller := h]);
    forall c | c in t.inFlight ensures Good(t, t.inFlight[c]) {
      if c != caller { assert Good(s, s.inFlight[c]); }
    }
    if s.active.Some? { assert Good(t, s.active.value); }
    if s.last.Some? { assert Good(t, s.last.value); }
  }

  lemma InstallKeeps<E, S>(s: State<E, S>, caller: nat, onlyIfIdle: bool)
    requires Inv(s)
    ensures Inv(DoInstall(s, caller, onlyIfIdle))
  {
    var t := DoInstall(s, caller, onlyIfIdle);
    forall c | c in t.inFlight ensures Good(t, t.inFlight[c]) { assert Good(s, s.inFlight[c]); }
    if t.active.Some? { assert Good(s, t.active.value); }
  }

  /** Every step keeps the invariant, whatever an import brought with it. */
  lemma StepKeeps<E, S>(s: State<E, S>, a: Action<E, S>)
    requires Inv(s)
    ensures Inv(Next(s, a))
  {
    match a
    case Start(id) => StartKeeps(s, id);
    case Stop =>
    case StopIfSession(id) =>
    case StopIfGeneration(g) =>
    case RecordEvent(e) => RecordKeeps(s, e, true);
    case RecordEventIf(g, e) => RecordKeeps(s, e, IsActive(s, g));
    case Checkpoint(id, state) => CheckpointKeeps(s, id, state);
    case DrawImport(caller, session) => DrawKeeps(s, caller, session);
    case Install(caller) => InstallKeeps(s, caller, false);
    case InstallIfIdle(caller) => InstallKeeps(s, caller, true);
  }

  lemma {:induction false} RunKeeps<E, S>(s: State<E, S>, actions: seq<Action<E, S>>)
    requires Inv(s)
    ensures Inv(Run(s, actions))
    decreases |actions|
  {
    if actions != [] {
      StepKeeps(s, actions[0]);
      RunKeeps(Next(s, actions[0]), actions[1..]);
    }
  }

  // ----- What follows for every run -----

  /** No two recordings ever share a generation. */
  lemma GenerationsAreUnique<E, S>(maxEvents: nat, actions: seq<Action<E, S>>)
    ensures var s := Run(Initial<E, S>(maxEvents), actions);
            Inv(s) && forall i, j :: 0 <= i < j < |s.issued| ==> s.issued[i] != s.issued[j]
  {
    RunKeeps(Initial<E, S>(maxEvents), actions);
  }

  /** An event recorded under a generation goes into the recording that generation was issued for, or nowhere. */
  lemma RecordsOnlyItsOwn<E, S>(s: State<E, S>, k: nat, event: E)
    requires Inv(s) && k < |s.issued|
    ensures var t := Next(s, RecordEventIf(s.issued[k], event));
            if s.active.Some? && s.active.value.who == k
            then t.histories == s.histories[k := s.histories[k] + [event]]
                 && t.active == Some(s.active.value.(recording := Append(s.active.value.recording, event)))
            else t == s
  {
  }

  /** A stop under a generation ends the recording it was issued for, or nothing. */
  lemma StopsOnlyItsOwn<E, S>(s: State<E, S>, k: nat)
    requires Inv(s) && k < |s.issued|
    ensures var t := Next(s, StopIfGeneration(s.issued[k]));
            if s.active.Some? && s.active.value.who == k
            then t == s.(active := None, last := s.active)
            else t == s
  {
  }

  // ----- Tokens over whole runs -----

  /** Everything recorded in the run is recorded under this generation; anything else may happen too. */
  predicate RecordsOnlyUnder<E(==), S(==)>(actions: seq<Action<E, S>>, generation: nat) {
    forall i :: 0 <= i < |actions| ==>
      !actions[i].RecordEvent? && (actions[i].RecordEventIf? ==> actions[i].generation == generation)
  }

  lemma HistoriesGrow<E, S>(s: State<E, S>, a: Action<E, S>)
    requires Inv(s)
    ensures |Next(s, a).histories| >= |s.histories| && s.issued <= Next(s, a).issued
    ensures forall j :: |s.histories| <= j < |Next(s, a).histories| ==> Next(s, a).histories[j] == []
    ensures !a.RecordEvent? && !a.RecordEventIf? ==> s.histories <= Next(s, a).histories
  {
  }

  /**
   * Whoever holds the generation of recording `k` can only ever add to recording `k`: whatever is
   * started, stopped or imported meanwhile, every other recording is as if it had not recorded.
   */
  lemma {:induction false} TokenReachesItsOwn<E, S>(s: State<E, S>, actions: seq<Action<E, S>>, k: nat)
    requires Inv(s) && k < |s.issued| && RecordsOnlyUnder(actions, s.issued[k])
    ensures var t := Run(s, actions);
            && |t.histories| >= |s.histories|
            && (forall j :: 0 <= j < |s.histories| && j != k ==> t.histories[j] == s.histories[j])
            && (forall j :: |s.histories| <= j < |t.histories| ==> t.histories[j] == [])
    decreases |actions|
  {
    if actions != [] {
      var a := actions[0];
      var next := Next(s, a);
      HistoriesGrow(s, a);
      StepKeeps(s, a);
      if a.RecordEventIf? { RecordsOnlyItsOwn(s, k, a.event); }
      assert next.issued[k] == s.issued[k];
      TokenReachesItsOwn(next, actions[1..], k);
    }
  }

  /** The run stops recordings only under this generation, and no import replaces an active one. */
  predicate StopsOnlyUnder<E(==), S(==)>(actions: seq<Action<E, S>>, generation: nat) {
    forall i :: 0 <= i < |actions| ==>
      && !actions[i].Stop? && !actions[i].StopIfSession? && !actions[i].Install?
      && (actions[i].StopIfGeneration? ==> actions[i].generation == generation)
  }

  lemma ActiveGoesOn<E, S>(s: State<E, S>, a: Action<E, S>, k: nat)
    requires Inv(s) && k < |s.issued| && StopsOnlyUnder([a], s.issued[k]) && s.active.Some? && s.active.value.who != k
    ensures Next(s, a).active.Some? && Next(s, a).active.value.who == s.active.value.who
  {
    assert [a][0] == a;
    if a.StopIfGeneration? { StopsOnlyItsOwn(s, k); }
  }

  /** Whoever holds the generation of one recording can never end another, even under the same session id. */
  lemma {:induction false} TokenEndsItsOwn<E, S>(s: State<E, S>, actions: seq<Action<E, S>>, k: nat)
    requires Inv(s) && k < |s.issued| && StopsOnlyUnder(actions, s.issued[k])
    requires s.active.Some? && s.active.value.who != k
    ensures var t := Run(s, actions); t.active.Some? && t.active.value.who == s.active.value.who
    decreases |actions|
  {
    if actions != [] {
      var a := actions[0];
      var next := Next(s, a);
      HistoriesGrow(s, a);
      StepKeeps(s, a);
      ActiveGoesOn(s, a, k);
      assert next.issued[k] == s.issued[k];
      TokenEndsItsOwn(next, actions[1..], k);
    }
  }

  /** A stop under a session id may end another recording: ids repeat. */
  lemma SessionIdsRepeat<E, S>(maxEvents: nat, id: Bytes)
    ensures var s := Run(Initial<E, S>(maxEvents), [Start(id), Stop, Start(id)]);
            && s.active.Some? && s.active.value.who == 1
            && s.issued == [1, 2]
            && Next(s, StopIfSession(id)).active.None? && Next(s, StopIfGeneration(1)) == s
  {
    var s0 := Initial<E, S>(maxEvents);
    var all: seq<Action<E, S>> := [Start(id), Stop, Start(id)];
    assert all[1..] == [Stop, Start(id)] && all[1..][1..] == [Start(id)] && all[1..][1..][1..] == [];
    var s1 := Next(s0, Start(id));
    var s2: State<E, S> := Next(s1, Stop);
    var s3 := Next(s2, Start(id));
    assert Run(s0, all) == Run(s1, all[1..]) == Run(s2, all[1..][1..]) == Run(s3, []) == s3;
  }

  // ----- No recording is silently lost -----

  /** No import takes the place of an active recording unasked. */
  predicate ImportsWait<E(==), S(==)>(actions: seq<Action<E, S>>) {
    forall i :: 0 <= i < |actions| ==> !actions[i].Install?
  }

  predicate ActiveIs<E, S>(s: State<E, S>, who: nat) { s.active.Some? && s.active.value.who == who }

  predicate LastIs<E, S>(s: State<E, S>, who: nat) { s.last.Some? && s.last.value.who == who }

  /** Somewhere in the run the recording was stopped, which kept it as the last session. */
  ghost predicate StoppedIn<E, S>(s: State<E, S>, actions: seq<Action<E, S>>, who: nat) {
    exists i :: 0 <= i < |actions| && ActiveIs(Run(s, actions[..i]), who)
                && LastIs(Next(Run(s, actions[..i]), actions[i]), who)
  }

  lemma StaysOrStops<E, S>(s: State<E, S>, a: Action<E, S>, who: nat)
    requires ActiveIs(s, who) && !a.Install?
    ensures ActiveIs(Next(s, a), who) || LastIs(Next(s, a), who)
  {
  }

  lemma StoppedLater<E, S>(s: State<E, S>, actions: seq<Action<E, S>>, who: nat)
    requires actions != [] && StoppedIn(Next(s, actions[0]), actions[1..], who)
    ensures StoppedIn(s, actions, who)
  {
    var next, rest := Next(s, actions[0]), actions[1..];
    var i :| 0 <= i < |rest| && ActiveIs(Run(next, rest[..i]), who) && LastIs(Next(Run(next, rest[..i]), rest[i]), who);
    var upTo := actions[..i + 1];
    assert upTo[0] == actions[0] && upTo[1..] == rest[..i];
    assert Run(s, upTo) == Run(next, rest[..i]);
  }

  /**
   * As long as imports wait for an idle recorder, an active recording goes on until it is
   * stopped and kept as the last session: no start and no import discards it.
   */
  lemma {:induction false} NothingDiscarded<E, S>(s: State<E, S>, actions: seq<Action<E, S>>, who: nat)
    requires ActiveIs(s, who) && ImportsWait(actions)
    ensures ActiveIs(Run(s, actions), who) || StoppedIn(s, actions, who)
    decreases |actions|
  {
    if actions != [] {
      var a := actions[0];
      StaysOrStops(s, a, who);
      if ActiveIs(Next(s, a), who) {
        NothingDiscarded(Next(s, a), actions[1..], who);
        if !ActiveIs(Run(s, actions), who) { StoppedLater(s, actions, who); }
      } else {
        assert actions[..0] == [] && Run(s, actions[..0]) == s;
      }
    }
  }

  /** An import that does not wait can discard one: it is then neither active nor the last session. */
  lemma ImportDiscards<E, S>(maxEvents: nat, id: Bytes, session: Session<E, S>)
    ensures var s := Next(Initial<E, S>(maxEvents), Start(id));
            var t := Next(Next(s, DrawImport(0, session)), Install(0));
            ActiveIs(s, 0) && ActiveIs(t, 1) && t.last.None?
  {
    var s := Next(Initial<E, S>(maxEvents), Start(id));
    assert s.issued == [1] && Next(s, DrawImport(0, session)).inFlight[0].who == 1;
  }

  /** Where `checkpoint_window` looks: the active recording, else the last one. */
  function Source<E, S>(s: State<E, S>): Option<Held<E, S>> { if s.active.Some? then s.active else s.last }

  /** Windows of a started recording are exact against its whole history, as long as its events could be counted. */
  ghost predicate WindowIsExactOf<E, S>(s: State<E, S>, h: Option<Held<E, S>>, from: Bytes, to: Bytes) {
    h.Some? && !h.value.imported ==>
      && h.value.who < |s.histories|
      && var history := s.histories[h.value.who];
         |history| <= USIZE_MAX ==> Follows(h.value.recording, history) && WindowsExact(h.value.recording, history, from, to)
  }

  /** Whichever of the two sessions a caller comes to look at, under the lock of either. */
  ghost predicate WindowIsExactIn<E, S>(s: State<E, S>, from: Bytes, to: Bytes) {
    WindowIsExactOf(s, s.active, from, to) && WindowIsExactOf(s, s.last, from, to)
  }

  lemma HeldWindowIsExact<E, S>(s: State<E, S>, h: Held<E, S>, from: Bytes, to: Bytes)
    requires Good(s, h)
    ensures WindowIsExactOf(s, Some(h), from, to)
  {
    if !h.imported && |s.histories[h.who]| <= USIZE_MAX {
      CheckpointWindowIsExact(h.recording, s.histories[h.who], from, to);
    }
  }

  lemma InvMakesWindowsExact<E, S>(s: State<E, S>, from: Bytes, to: Bytes)
    requires Inv(s)
    ensures WindowIsExactIn(s, from, to)
  {
    if s.active.Some? { HeldWindowIsExact(s, s.active.value, from, to); }
    if s.last.Some? { HeldWindowIsExact(s, s.last.value, from, to); }
  }

  /** After every run, whether the recording is active or stopped. */
  lemma WindowsAreExact<E, S>(maxEvents: nat, actions: seq<Action<E, S>>, from: Bytes, to: Bytes)
    ensures WindowIsExactIn(Run(Initial<E, S>(maxEvents), actions), from, to)
  {
    RunKeeps(Initial<E, S>(maxEvents), actions);
    InvMakesWindowsExact(Run(Initial<E, S>(maxEvents), actions), from, to);
  }

  /** After every run, below saturation, the next event's number is past all that the recording holds, imported or not. */
  lemma NumbersStayAhead<E, S>(maxEvents: nat, actions: seq<Action<E, S>>)
    ensures var s := Run(Initial<E, S>(maxEvents), actions);
            s.active.Some? && s.active.value.recording.eventCounter < USIZE_MAX ==> NumbersAhead(s.active.value.recording)
  {
    RunKeeps(Initial<E, S>(maxEvents), actions);
    var s := Run(Initial<E, S>(maxEvents), actions);
    if s.active.Some? { assert Good(s, s.active.value); }
  }
}
