/**
 * The bridge at work: the input loop, a task for every forwarded request and the one-way
 * forwarder, in any interleaving. A message is known by its place among those read.
 */
module BridgeRuns {
  import opened Text
  import opened Json
  import opened Bridge

  const MAX_IN_FLIGHT: nat := 32

  const ONE_WAY_QUEUE: nat := 1024

  /** A message that was dealt with: what was posted for it, and the lines written to the client. */
  datatype Done = Done(who: nat, sent: seq<Post>, lines: seq<Value>)

  datatype State = State(
    input: seq<Value>,
    running: set<nat>,
    permits: nat,
    queue: seq<nat>,
    forwarding: Option<nat>,
    taken: seq<nat>,
    dropped: set<nat>,
    done: seq<Done>,
    backendUp: bool)

  const INITIAL: State := State([], {}, MAX_IN_FLIGHT, [], None, [], {}, [], false)

  datatype Action = Read(msg: Value) | Answer(who: nat, env: Env) | Take | Deliver(env: Env) | BackendIs(up: bool)

  predicate Enabled(s: State, a: Action) {
    match a
    case Read(_) => true
    case Answer(who, _) => who in s.running && who < |s.input|
    case Take => s.forwarding == None && s.queue != []
    case Deliver(_) => s.forwarding.Some? && s.forwarding.value < |s.input|
    case BackendIs(_) => true
  }

  /** The input loop never waits: what it cannot do at once it hands over or refuses. */
  function DoRead(s: State, msg: Value): State {
    var who, t := |s.input|, s.(input := s.input + [msg]);
    match KindOf(msg)
    case Local => t.(done := s.done + [Done(who, [], LocalLines(msg, s.backendUp))])
    case OneWay =>
      if |s.queue| < ONE_WAY_QUEUE then t.(queue := s.queue + [who])
      else t.(dropped := s.dropped + {who}, done := s.done + [Done(who, [], [])])
    case Forwarded =>
      if s.permits > 0 then t.(running := s.running + {who}, permits := s.permits - 1)
      else t.(done := s.done + [Done(who, [], [Reply(IdOf(msg), "error", Null)])])
  }

  function Next(s: State, a: Action): State
    requires Enabled(s, a)
  {
    match a
    case Read(msg) => DoRead(s, msg)
    case Answer(who, env) =>
      var msg := s.input[who];
      s.(running := s.running - {who}, permits := s.permits + 1,
         done := s.done + [Done(who, ForwardWithRetries(msg, env).sent, HandleRequest(msg, env))])
    case Take => s.(queue := s.queue[1..], forwarding := Some(s.queue[0]), taken := s.taken + [s.queue[0]])
    case Deliver(env) =>
      var who := s.forwarding.value;
      s.(forwarding := None, done := s.done + [Done(who, ForwardWithRetries(s.input[who], env).sent, [])])
    case BackendIs(up) => s.(backendUp := up)
  }

  predicate Legal(s: State, actions: seq<Action>)
    decreases |actions|
  {
    actions != [] ==> Enabled(s, actions[0]) && Legal(Next(s, actions[0]), actions[1..])
  }

  function Run(s: State, actions: seq<Action>): State
    requires Legal(s, actions)
    decreases |actions|
  {
    if actions == [] then s else Run(Next(s, actions[0]), actions[1..])
  }

  // ----- What is written and posted for one message -----

  /** A batch has its own answer, a handshake or a ping a result, and what is no message an error. */
  predicate AnsweredHere(msg: Value, lines: seq<Value>) {
    && (msg.Arr? ==> lines == LocalLines(msg, false))
    && (ExpectsReply(msg) && !IsOddRequest(msg) ==> |lines| == 1 && IsResultFor(lines[0], msg))
    && (!msg.Arr? && Get(msg, "method").None? ==> |lines| == 1 && IsRejection(lines[0], IdOf(msg)))
    && (Get(msg, "method").Some? && !ExpectsReply(msg) && !IsOddRequest(msg) ==> lines == [])
    && (IsOddRequest(msg) ==> lines == [] || TellsBoth(lines))
  }

  /** That both lists changed. */
  predicate TellsBoth(lines: seq<Value>) {
    && |lines| == 2 && MethodOf(lines[0]) == "notifications/tools/list_changed"
    && MethodOf(lines[1]) == "notifications/resources/list_changed"
  }

  lemma NoticeIs(name: Bytes)
    ensures MethodOf(Notice(name)) == name
  {
    assert "jsonrpc" != "method";
  }

  /** A request has its answer. A notification or a response has none. */
  predicate Answered(msg: Value, lines: seq<Value>) {
    && (ExpectsReply(msg) ==> (AnswersRequest(lines, msg) <==> !IsOddRequest(msg)))
    && (msg.Obj? && !ExpectsReply(msg) && (Get(msg, "method").Some? || IsClientResponse(msg)) ==> OnlyNotices(lines))
    && (KindOf(msg) == OneWay ==> lines == [])
    && (KindOf(msg) == Local ==> AnsweredHere(msg, lines))
  }

  /** At most four attempts; and none for a tool call after one that may have reached the app. */
  predicate SentOnce(msg: Value, sent: seq<Post>) {
    && |sent| <= MAX_RETRIES && (KindOf(msg) == Local ==> sent == [])
    && (MethodOf(msg) == "tools/call" ==> forall i :: 0 <= i < |sent| - 1 ==> NeverTaken(sent[i]))
  }

  predicate Fits(msg: Value, sent: seq<Post>, lines: seq<Value>) {
    Answered(msg, lines) && SentOnce(msg, sent) && (KindOf(msg) == Forwarded ==> Relays(msg, sent, lines))
  }

  lemma LocalFits(msg: Value, up: bool)
    requires KindOf(msg) == Local
    ensures Fits(msg, [], LocalLines(msg, up))
  {
    ErrorIs(IdOf(msg));
    NoticeIs("notifications/tools/list_changed");
    NoticeIs("notifications/resources/list_changed");
    if ExpectsReply(msg) {
      LocalAnswers(msg, up);
    } else if msg.Obj? && (Get(msg, "method").Some? || IsClientResponse(msg)) {
      LocalNotices(msg, up);
    }
  }

  lemma RefusalFits(msg: Value)
    requires KindOf(msg) == Forwarded
    ensures Fits(msg, [], [Reply(IdOf(msg), "error", Null)])
  {
    ReplyIs(msg, "error");
    OneReply(msg, [], "error");
    assert [] + [Reply(IdOf(msg), "error", Null)] == [Reply(IdOf(msg), "error", Null)];
  }

  lemma PostsFit(msg: Value, env: Env)
    requires KindOf(msg) != Local
    ensures SentOnce(msg, ForwardWithRetries(msg, env).sent)
  {
    AttemptsAre(msg, env);
    if MethodOf(msg) == "tools/call" { NeverSentTwice(msg, env); }
  }

  lemma TaskFits(msg: Value, env: Env)
    requires KindOf(msg) == Forwarded
    ensures Fits(msg, ForwardWithRetries(msg, env).sent, HandleRequest(msg, env))
  {
    RequestAnswered(msg, env);
    BackendIsRelayed(msg, env);
    PostsFit(msg, env);
  }

  // ----- The invariant -----

  /** Neither done nor about to be: it is where it was put. */
  predicate Pending(s: State, who: nat) { who in s.running || who in s.queue || s.forwarding == Some(who) }

  ghost predicate IsDone(done: seq<Done>, who: nat) { exists i :: 0 <= i < |done| && done[i].who == who }

  /** One permit is out for each task. */
  ghost predicate PermitsOk(s: State) {
    && s.permits + |s.running| == MAX_IN_FLIGHT
    && forall who :: who in s.running ==> who < |s.input| && KindOf(s.input[who]) == Forwarded
  }

  /** The one-way messages that were not dropped, taken and waiting, in the order they were read. */
  function InOrder(s: State): seq<nat> { s.taken + s.queue }

  ghost predicate QueueOk(s: State) {
    && Ascends(InOrder(s)) && |s.queue| <= ONE_WAY_QUEUE
    && (forall i :: 0 <= i < |InOrder(s)| ==> InOrder(s)[i] < |s.input| && KindOf(s.input[InOrder(s)[i]]) == OneWay)
    && (s.forwarding.Some? ==> s.taken != [] && s.forwarding.value == s.taken[|s.taken| - 1])
    && (s.dropped != {} ==> |InOrder(s)| >= ONE_WAY_QUEUE)
  }

  ghost predicate OneWayKept(s: State) {
    forall who :: 0 <= who < |s.input| && KindOf(s.input[who]) == OneWay ==> who in InOrder(s) || who in s.dropped
  }

  ghost predicate DoneOk(s: State) {
    && (forall i :: 0 <= i < |s.done| ==>
          && s.done[i].who < |s.input| && !Pending(s, s.done[i].who)
          && Fits(s.input[s.done[i].who], s.done[i].sent, s.done[i].lines))
    && (forall i, j :: 0 <= i < j < |s.done| ==> s.done[i].who != s.done[j].who)
  }

  /** No message is lost, and none is dealt with twice. */
  ghost predicate AllSomewhere(s: State) {
    forall who :: 0 <= who < |s.input| ==> Pending(s, who) || IsDone(s.done, who)
  }

  ghost predicate Inv(s: State) { PermitsOk(s) && QueueOk(s) && OneWayKept(s) && DoneOk(s) && AllSomewhere(s) }

  /** Only messages that were read are anywhere, and each kind is where it belongs. */
  lemma PendingIsKnown(s: State, who: nat)
    requires PermitsOk(s) && QueueOk(s) && Pending(s, who)
    ensures who < |s.input|
    ensures if who in s.running then who !in s.queue && s.forwarding != Some(who) && KindOf(s.input[who]) == Forwarded
            else who in InOrder(s) && KindOf(s.input[who]) == OneWay
  {
    if who in s.queue {
      var i :| 0 <= i < |s.queue| && s.queue[i] == who;
      assert InOrder(s)[|s.taken| + i] == who;
    } else if s.forwarding == Some(who) {
      assert InOrder(s)[|s.taken| - 1] == who;
    }
  }

  /** One more message is done. */
  lemma DoneGrows(s: State, t: State, d: Done)
    requires DoneOk(s) && t.done == s.done + [d] && s.input <= t.input
    requires d.who < |t.input| && !Pending(t, d.who) && !IsDone(s.done, d.who)
    requires Fits(t.input[d.who], d.sent, d.lines)
    requires forall who: nat :: who < |s.input| && Pending(t, who) ==> Pending(s, who)
    ensures DoneOk(t) && forall who :: IsDone(t.done, who) <==> IsDone(s.done, who) || who == d.who
  {
    forall who ensures IsDone(t.done, who) <==> IsDone(s.done, who) || who == d.who {
      if IsDone(s.done, who) {
        var i :| 0 <= i < |s.done| && s.done[i].who == who;
        assert t.done[i].who == who;
      }
      if who == d.who { assert t.done[|s.done|].who == who; }
    }
    forall i, j | 0 <= i < j < |t.done| ensures t.done[i].who != t.done[j].who {
      if j == |s.done| { assert s.done[i].who == t.done[i].who; }
    }
  }

  /** Nothing is known yet of a message that is about to be read. */
  lemma NewIsNowhere(s: State)
    requires Inv(s)
    ensures !Pending(s, |s.input|) && !IsDone(s.done, |s.input|)
  {
    if Pending(s, |s.input|) {
      PendingIsKnown(s, |s.input|);
      assert false;
    }
  }

  /** A message the input loop is through with. */
  lemma ReadDoneKeeps(s: State, t: State, msg: Value, lines: seq<Value>)
    requires Inv(s) && Fits(msg, [], lines)
    requires t == s.(input := s.input + [msg], done := s.done + [Done(|s.input|, [], lines)], dropped := t.dropped)
    requires if KindOf(msg) == OneWay then t.dropped == s.dropped + {|s.input|} && |s.queue| >= ONE_WAY_QUEUE
             else t.dropped == s.dropped
    ensures Inv(t)
  {
    NewIsNowhere(s);
    DoneGrows(s, t, Done(|s.input|, [], lines));
  }

  /** A message that waits for its turn. */
  lemma ReadQueuedKeeps(s: State, msg: Value)
    requires Inv(s) && KindOf(msg) == OneWay && |s.queue| < ONE_WAY_QUEUE
    ensures Inv(DoRead(s, msg))
  {
    var t := DoRead(s, msg);
    NewIsNowhere(s);
    assert InOrder(t) == InOrder(s) + [|s.input|];
    assert |s.input| in t.queue by { assert t.queue[|s.queue|] == |s.input|; }
    forall who | 0 <= who < |t.input| && KindOf(t.input[who]) == OneWay ensures who in InOrder(t) || who in t.dropped {
    }
    forall who: nat | who < |s.input| ensures Pending(t, who) <==> Pending(s, who) {
    }
  }

  /** A request in a task of its own. */
  lemma ReadStartedKeeps(s: State, msg: Value)
    requires Inv(s) && KindOf(msg) == Forwarded && s.permits > 0
    ensures Inv(DoRead(s, msg))
  {
    NewIsNowhere(s);
  }

  lemma ReadKeeps(s: State, msg: Value)
    requires Inv(s)
    ensures Inv(DoRead(s, msg))
  {
    match KindOf(msg)
    case Local =>
      LocalFits(msg, s.backendUp);
      ReadDoneKeeps(s, DoRead(s, msg), msg, LocalLines(msg, s.backendUp));
    case OneWay =>
      if |s.queue| < ONE_WAY_QUEUE {
        ReadQueuedKeeps(s, msg);
      } else {
        ReadDoneKeeps(s, DoRead(s, msg), msg, []);
      }
    case Forwarded =>
      if s.permits > 0 {
        ReadStartedKeeps(s, msg);
      } else {
        RefusalFits(msg);
        ReadDoneKeeps(s, DoRead(s, msg), msg, [Reply(IdOf(msg), "error", Null)]);
      }
  }

  lemma AnswerKeeps(s: State, who: nat, env: Env)
    requires Inv(s) && Enabled(s, Answer(who, env))
    ensures Inv(Next(s, Answer(who, env)))
  {
    var msg := s.input[who];
    TaskFits(msg, env);
    PendingIsKnown(s, who);
    DoneGrows(s, Next(s, Answer(who, env)), Done(who, ForwardWithRetries(msg, env).sent, HandleRequest(msg, env)));
  }

  lemma TakeKeeps(s: State)
    requires Inv(s) && Enabled(s, Take)
    ensures Inv(Next(s, Take))
  {
    var t := Next(s, Take);
    assert InOrder(t) == InOrder(s);
    assert s.queue == [s.queue[0]] + t.queue;
    forall who: nat | who < |s.input| ensures Pending(t, who) <==> Pending(s, who) {
    }
  }

  lemma EarlierIsLess(at: seq<nat>, i: nat, j: nat)
    requires Ascends(at) && i < j < |at|
    ensures at[i] < at[j]
  {
  }

  /** What the forwarder took came before all that waits. */
  lemma TakenIsNotQueued(s: State)
    requires QueueOk(s) && s.forwarding.Some?
    ensures s.forwarding.value !in s.queue
  {
    var who := s.forwarding.value;
    if who in s.queue {
      var i :| 0 <= i < |s.queue| && s.queue[i] == who;
      EarlierIsLess(InOrder(s), |s.taken| - 1, |s.taken| + i);
      assert false;
    }
  }

  lemma DeliverKeeps(s: State, env: Env)
    requires Inv(s) && Enabled(s, Deliver(env))
    ensures Inv(Next(s, Deliver(env)))
  {
    var who := s.forwarding.value;
    PendingIsKnown(s, who);
    TakenIsNotQueued(s);
    PostsFit(s.input[who], env);
    DoneGrows(s, Next(s, Deliver(env)), Done(who, ForwardWithRetries(s.input[who], env).sent, []));
  }

  lemma StepKeeps(s: State, a: Action)
    requires Inv(s) && Enabled(s, a)
    ensures Inv(Next(s, a))
  {
    match a
    case Read(msg) => ReadKeeps(s, msg);
    case Answer(who, env) => AnswerKeeps(s, who, env);
    case Take => TakeKeeps(s);
    case Deliver(env) => DeliverKeeps(s, env);
    case BackendIs(up) =>
  }

  lemma {:induction false} RunKeeps(s: State, actions: seq<Action>)
    requires Inv(s) && Legal(s, actions)
    ensures Inv(Run(s, actions))
    decreases |actions|
  {
    if actions != [] {
      StepKeeps(s, actions[0]);
      RunKeeps(Next(s, actions[0]), actions[1..]);
    }
  }

  // ----- What follows for every run -----

  /** `who` was dealt with once, at place `i`. */
  predicate DoneOnceAt(s: State, who: nat, i: nat) {
    && i < |s.done| && s.done[i].who == who
    && forall j :: 0 <= j < |s.done| && s.done[j].who == who ==> j == i
  }

  /** One of the lines is a response under that id. */
  predicate HasResponse(lines: seq<Value>, id: Value) {
    exists j :: 0 <= j < |lines| && Get(lines[j], "method").None? && Get(lines[j], "id") == Some(id)
  }

  lemma ResponseIsAnswer(lines: seq<Value>, msg: Value)
    requires Get(msg, "id").Some?
    ensures HasResponse(lines, Get(msg, "id").value) <==> AnswersRequest(lines, msg)
  {
    forall j | 0 <= j < |lines|
      ensures Answers(lines[j], msg) <==> Get(lines[j], "method").None? && Get(lines[j], "id") == Some(Get(msg, "id").value)
    {
    }
  }

  /**
   * Every request that was read is still at work in one of at most 32 tasks, or was dealt with
   * exactly once; and then a response with its id was written, unless it was a handshake
   * notification that was given an id.
   */
  lemma EveryRequestAnswered(actions: seq<Action>, who: nat)
    requires Legal(INITIAL, actions) && who < |Run(INITIAL, actions).input|
    requires var msg := Run(INITIAL, actions).input[who]; Get(msg, "method").Some? && Get(msg, "id").Some?
    ensures var s := Run(INITIAL, actions);
            && |s.running| <= MAX_IN_FLIGHT
            && (who in s.running
                || exists i: nat :: DoneOnceAt(s, who, i)
                                    && (HasResponse(s.done[i].lines, Get(s.input[who], "id").value)
                                        <==> MethodOf(s.input[who]) != "notifications/initialized"))
  {
    RunKeeps(INITIAL, actions);
    var s := Run(INITIAL, actions);
    if Pending(s, who) {
      PendingIsKnown(s, who);
    } else {
      var i :| 0 <= i < |s.done| && s.done[i].who == who;
      ResponseIsAnswer(s.done[i].lines, s.input[who]);
      assert DoneOnceAt(s, who, i) && Answered(s.input[who], s.done[i].lines);
    }
  }

  /**
   * In every run, what is written for a request that was posted is what the backend answered to
   * the last attempt: its body as it is if that holds the answer, the body and one error if not,
   * and one line of the bridge's own otherwise.
   */
  lemma BackendIsHeard(actions: seq<Action>, i: nat)
    requires Legal(INITIAL, actions) && i < |Run(INITIAL, actions).done|
    ensures var s := Run(INITIAL, actions);
            var d := s.done[i];
            && d.who < |s.input|
            && (KindOf(s.input[d.who]) == Forwarded ==> Relays(s.input[d.who], d.sent, d.lines))
  {
    RunKeeps(INITIAL, actions);
  }

  /** Whatever is written for a notification or a client's response is no response; what is forwarded for one is silent. */
  lemma NothingElseAnswered(actions: seq<Action>, i: nat)
    requires Legal(INITIAL, actions) && i < |Run(INITIAL, actions).done|
    ensures var s := Run(INITIAL, actions);
            var d := s.done[i];
            && d.who < |s.input|
            && var msg := s.input[d.who];
               && (Get(msg, "method").Some? && Get(msg, "id").None? ==> OnlyNotices(d.lines))
               && (Get(msg, "method").None? && (Get(msg, "result").Some? || Get(msg, "error").Some?) ==> d.lines == [])
               && (KindOf(msg) == OneWay ==> d.lines == [])
  {
    RunKeeps(INITIAL, actions);
  }

  /**
   * The forwarder takes one-way messages in the order they were read, and passes over none but
   * those that found 1024 waiting; each that it is through with was dealt with once.
   */
  lemma OneWayInOrder(actions: seq<Action>, who: nat)
    requires Legal(INITIAL, actions) && who < |Run(INITIAL, actions).input| && KindOf(Run(INITIAL, actions).input[who]) == OneWay
    ensures var s := Run(INITIAL, actions);
            && Ascends(s.taken + s.queue) && (s.dropped != {} ==> |s.taken + s.queue| >= ONE_WAY_QUEUE)
            && (who in s.taken + s.queue || who in s.dropped)
            && (who in s.queue || s.forwarding == Some(who) || exists i: nat :: DoneOnceAt(s, who, i))
  {
    RunKeeps(INITIAL, actions);
    var s := Run(INITIAL, actions);
    assert InOrder(s) == s.taken + s.queue;
    if !Pending(s, who) {
      var i :| 0 <= i < |s.done| && s.done[i].who == who;
      assert DoneOnceAt(s, who, i);
    } else {
      PendingIsKnown(s, who);
    }
  }

  /**
   * All that is posted for a message is posted in one go of at most four attempts, and a tool
   * call is not posted again after an attempt that may have reached the app: not anywhere in the run.
   */
  lemma PostedOnce(actions: seq<Action>, i: nat)
    requires Legal(INITIAL, actions) && i < |Run(INITIAL, actions).done|
    ensures var s := Run(INITIAL, actions);
            s.done[i].who < |s.input| && DoneOnceAt(s, s.done[i].who, i) && SentOnce(s.input[s.done[i].who], s.done[i].sent)
  {
    RunKeeps(INITIAL, actions);
    var s := Run(INITIAL, actions);
    forall j | 0 <= j < |s.done| && j != i ensures s.done[j].who != s.done[i].who {
    }
  }
}
