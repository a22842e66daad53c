/**
 * When the bridge tells its client to refresh (crates/victauri-cli/src/bridge.rs): the poller
 * that watches the backend and the loop that reads the client share two flags, and either may
 * be overtaken by the other between any two of its steps.
 */
module Handshake {

  /** The poller between polls, about to look whether the client is ready, about to write. */
  datatype Poller = Polling | Checking | Announcing

  /** The input loop between messages, about to look whether the backend is up, about to write. */
  datatype Reader = Waiting | Loading | Writing

  datatype Event = Edge | Ready | ListChanged

  datatype State = State(backendUp: bool, clientReady: bool, poller: Poller, reader: Reader, log: seq<Event>)

  datatype Action = Poll(up: bool) | PollerGoesOn | Initialized | ReaderGoesOn

  predicate Enabled(s: State, a: Action) {
    match a
    case Poll(_) => s.poller == Polling
    case PollerGoesOn => s.poller != Polling
    case Initialized => s.reader == Waiting
    case ReaderGoesOn => s.reader != Waiting
  }

  function Next(s: State, a: Action): State
    requires Enabled(s, a)
  {
    match a
    case Poll(up) =>
      var edge := up && !s.backendUp;
      s.(backendUp := up, poller := if edge then Checking else Polling, log := if edge then s.log + [Edge] else s.log)
    case PollerGoesOn =>
      if s.poller == Checking then s.(poller := if s.clientReady then Announcing else Polling)
      else s.(poller := Polling, log := s.log + [ListChanged])
    case Initialized => s.(clientReady := true, reader := Loading, log := s.log + [Ready])
    case ReaderGoesOn =>
      if s.reader == Loading then s.(reader := if s.backendUp then Writing else Waiting)
      else s.(reader := Waiting, log := s.log + [ListChanged])
  }

  predicate Legal(s: State, actions: seq<Action>)
    decreases |actions|
  {
    actions != [] ==> Enabled(s, actions[0]) && Legal(Next(s, actions[0]), actions[1..])
  }

  function Run(s: State, actions: seq<Action>): State
    requires Legal(s, actions)
    decreases |actions|
  {
    if actions == [] then s else Run(Next(s, actions[0]), actions[1..])
  }

  const INITIAL: State := State(false, false, Polling, Waiting, [])

  // ----- What the log says -----

  /** The client has been told since the backend last came up. */
  predicate Told(log: seq<Event>) {
    log != [] && log[|log| - 1] != Edge && (log[|log| - 1] == ListChanged || Told(log[..|log| - 1]))
  }

  /** No refresh before the client was ready. */
  predicate Orderly(log: seq<Event>) {
    log != [] ==> Orderly(log[..|log| - 1]) && (log[|log| - 1] == ListChanged ==> Ready in log[..|log| - 1])
  }

  lemma LogGrows(log: seq<Event>, e: Event)
    ensures Told(log + [e]) == (e != Edge && (e == ListChanged || Told(log)))
    ensures Orderly(log + [e]) == (Orderly(log) && (e == ListChanged ==> Ready in log))
  {
    assert (log + [e])[..|log|] == log;
  }

  ghost predicate Inv(s: State) {
    && (s.clientReady <==> Ready in s.log)
    && ((s.poller == Announcing || s.reader != Waiting) ==> s.clientReady)
    && Orderly(s.log)
    && (s.backendUp && s.clientReady && !Told(s.log) ==> s.poller != Polling || s.reader != Waiting)
  }

  lemma StepKeeps(s: State, a: Action)
    requires Inv(s) && Enabled(s, a)
    ensures Inv(Next(s, a))
  {
    LogGrows(s.log, Edge);
    LogGrows(s.log, Ready);
    LogGrows(s.log, ListChanged);
  }

  lemma {:induction false} RunKeeps(s: State, actions: seq<Action>)
    requires Inv(s) && Legal(s, actions)
    ensures Inv(Run(s, actions))
    decreases |actions|
  {
    if actions != [] {
      StepKeeps(s, actions[0]);
      RunKeeps(Next(s, actions[0]), actions[1..]);
    }
  }

  lemma {:induction false} OrderlyAt(log: seq<Event>, i: nat)
    requires Orderly(log) && i < |log| && log[i] == ListChanged
    ensures exists j :: 0 <= j < i && log[j] == Ready
  {
    if i < |log| - 1 {
      OrderlyAt(log[..|log| - 1], i);
      var j :| 0 <= j < i && log[..|log| - 1][j] == Ready;
      assert log[j] == Ready;
    } else {
      var j :| 0 <= j < i && log[..i][j] == Ready;
      assert log[j] == Ready;
    }
  }

  lemma {:induction false} ToldMeans(log: seq<Event>)
    requires Told(log)
    ensures exists i :: 0 <= i < |log| && log[i] == ListChanged && Edge !in log[i..]
  {
    var n := |log| - 1;
    if log[n] == ListChanged {
      assert log[n..] == [ListChanged];
    } else {
      ToldMeans(log[..n]);
      var i :| 0 <= i < n && log[..n][i] == ListChanged && Edge !in log[..n][i..];
      assert log[i..] == log[..n][i..] + [log[n]];
      assert log[i] == ListChanged;
    }
  }

  /** In every interleaving, no refresh is announced before the client is ready. */
  lemma NeverTooEarly(actions: seq<Action>, i: nat)
    requires Legal(INITIAL, actions)
    requires i < |Run(INITIAL, actions).log| && Run(INITIAL, actions).log[i] == ListChanged
    ensures exists j :: 0 <= j < i && Run(INITIAL, actions).log[j] == Ready
  {
    RunKeeps(INITIAL, actions);
    OrderlyAt(Run(INITIAL, actions).log, i);
  }

  /** Whenever both are between steps with the backend up and the client ready, the client has been told since. */
  lemma NeverForgotten(actions: seq<Action>)
    requires Legal(INITIAL, actions)
    requires var s := Run(INITIAL, actions);
             s.poller == Polling && s.reader == Waiting && s.backendUp && s.clientReady
    ensures var log := Run(INITIAL, actions).log;
            exists i :: 0 <= i < |log| && log[i] == ListChanged && Edge !in log[i..]
  {
    RunKeeps(INITIAL, actions);
    ToldMeans(Run(INITIAL, actions).log);
  }

  lemma FirstStep(s: State, a: Action, rest: seq<Action>)
    requires Enabled(s, a) && Legal(Next(s, a), rest)
    ensures Legal(s, [a] + rest) && Run(s, [a] + rest) == Run(Next(s, a), rest)
  {
    assert ([a] + rest)[1..] == rest;
  }

  lemma ThreeSteps(s: State, a: Action, b: Action, c: Action)
    requires Enabled(s, a) && Enabled(Next(s, a), b) && Enabled(Next(Next(s, a), b), c)
    ensures Legal(s, [a, b, c]) && Run(s, [a, b, c]) == Next(Next(Next(s, a), b), c)
  {
    FirstStep(Next(Next(s, a), b), c, []);
    FirstStep(Next(s, a), b, [c] + []);
    FirstStep(s, a, [b] + ([c] + []));
    assert [a] + ([b] + ([c] + [])) == [a, b, c];
  }

  /** A backend that comes up is announced by the poller to a client that is ready, and then polling goes on. */
  lemma ComingUpIsAnnounced(s: State)
    requires s.poller == Polling && !s.backendUp && s.clientReady
    ensures var steps := [Poll(true), PollerGoesOn, PollerGoesOn];
            Legal(s, steps) && Run(s, steps) == s.(backendUp := true, log := s.log + [Edge] + [ListChanged])
  {
    ThreeSteps(s, Poll(true), PollerGoesOn, PollerGoesOn);
  }

  /** A client that gets ready with the backend up is told by the input loop, which then reads on. */
  lemma GettingReadyIsAnswered(s: State)
    requires s.reader == Waiting && s.backendUp
    ensures var steps := [Initialized, ReaderGoesOn, ReaderGoesOn];
            Legal(s, steps) && Run(s, steps) == s.(clientReady := true, log := s.log + [Ready] + [ListChanged])
  {
    ThreeSteps(s, Initialized, ReaderGoesOn, ReaderGoesOn);
  }
}
