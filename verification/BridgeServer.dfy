/**
 * The bridge as an object: the input loop, the tasks and the one-way forwarder work on its fields,
 * beside which it carries the state of `BridgeRuns` they stand for. Every method takes that state
 * to a `Next` one, and the retry loop is proved against `Bridge`.
 */
module BridgeServer {
  import opened Text
  import opened Json
  import opened Bridge
  import Runs = BridgeRuns

  /** The attempts before `rest`. */
  function After(before: seq<Post>, rest: Trace): Trace { Trace(before + rest.sent, rest.result) }

  lemma AfterThen(before: seq<Post>, p: Post, rest: Trace)
    ensures After(before, Then(p, rest)) == After(before + [p], rest)
  {
    ConcatAssociative(before, [p], rest.sent);
  }

  /** One attempt, after those before it. */
  lemma TryOnce(msg: Value, env: Env, attempt: nat, before: seq<Post>, p: Post, gone: bool)
    requires attempt < MAX_RETRIES && p == env.post(attempt)
    requires gone == (attempt + 1 < MAX_RETRIES && !env.rediscovers(attempt))
    ensures var end := Verdict(msg, p, gone);
            After(before, ForwardFrom(msg, env, attempt))
            == if end.Some? then Trace(before + [p], end.value)
               else After(before + [p], ForwardFrom(msg, env, attempt + 1))
  {
    AfterThen(before, p, ForwardFrom(msg, env, attempt + 1));
  }

  /** `forward_with_retries`: what was sent, and what came of it. */
  method Forward(msg: Value, env: Env) returns (trace: Trace)
    ensures trace == ForwardWithRetries(msg, env)
  {
    if !env.found {
      return Trace([], Unreachable);
    }
    var sent: seq<Post> := [];
    assert After([], ForwardFrom(msg, env, 0)) == ForwardFrom(msg, env, 0);
    for attempt := 0 to MAX_RETRIES
      invariant After(sent, ForwardFrom(msg, env, attempt)) == ForwardFrom(msg, env, 0)
    {
      var p := env.post(attempt);
      var gone := attempt + 1 < MAX_RETRIES && !env.rediscovers(attempt);
      TryOnce(msg, env, attempt, sent, p, gone);
      sent := sent + [p];
      if IsStale(p) {
        continue;
      }
      if p.Replied? {
        return Trace(sent, Settled(msg, p));
      }
      if !MayReplay(msg, p) {
        return Trace(sent, Payloads([Reply(IdOf(msg), "error", Null)]));
      }
      if gone {
        return Trace(sent, Unreachable);
      }
    }
    assert sent + [] == sent;
    return Trace(sent, Unreachable);
  }

  /** The array that answers a batch. */
  method RejectBatch(items: seq<Value>) returns (r: Option<Value>)
    ensures r == BatchRejection(items)
  {
    if items == [] {
      return Some(Reply(Null, "error", Null));
    }
    var replies: seq<Value> := [];
    assert items[0..] == items && [] + BatchEntries(items) == BatchEntries(items);
    for i := 0 to |items|
      invariant replies + BatchEntries(items[i..]) == BatchEntries(items)
    {
      var entry := BatchEntry(items[i]);
      assert items[i..][1..] == items[i + 1..];
      if entry.Some? {
        ConcatAssociative(replies, [entry.value], BatchEntries(items[i + 1..]));
        replies := replies + [entry.value];
      } else {
        assert [] + BatchEntries(items[i + 1..]) == BatchEntries(items[i + 1..]);
      }
    }
    assert items[|items|..] == [] && replies + [] == replies;
    return if replies == [] then None else Some(Arr(replies));
  }

  /** All that was written to the client, in order. */
  function Printed(done: seq<Runs.Done>): seq<Value> {
    if done == [] then [] else Printed(done[..|done| - 1]) + done[|done| - 1].lines
  }

  lemma PrintedMore(done: seq<Runs.Done>, d: Runs.Done)
    ensures Printed(done + [d]) == Printed(done) + d.lines
  {
    assert (done + [d])[..|done|] == done;
  }

  /** The messages of these numbers. */
  predicate AreMessages(messages: seq<Value>, at: seq<nat>, input: seq<Value>) {
    |messages| == |at| && forall i :: 0 <= i < |at| ==> at[i] < |input| && messages[i] == input[at[i]]
  }

  /** What is written before the next message is read. */
  function LinesAtOnce(msg: Value, up: bool, permit: bool): seq<Value> {
    if KindOf(msg) == Local then LocalLines(msg, up)
    else if KindOf(msg) == Forwarded && !permit then [Reply(IdOf(msg), "error", Null)]
    else []
  }

  lemma ReadPrints(s: Runs.State, msg: Value)
    ensures Printed(Runs.DoRead(s, msg).done) == Printed(s.done) + LinesAtOnce(msg, s.backendUp, s.permits > 0)
  {
    var t := Runs.DoRead(s, msg);
    var lines := LinesAtOnce(msg, s.backendUp, s.permits > 0);
    assert Printed(s.done) + [] == Printed(s.done);
    PrintedMore(s.done, Runs.Done(|s.input|, [], lines));
  }

  lemma ReadQueues(s: Runs.State, msg: Value, queue: seq<Value>)
    requires AreMessages(queue, s.queue, s.input)
    ensures var t := Runs.DoRead(s, msg);
            AreMessages(if KindOf(msg) == OneWay && |queue| < Runs.ONE_WAY_QUEUE then queue + [msg] else queue, t.queue, t.input)
  {
  }

  lemma ReadPermits(s: Runs.State, msg: Value)
    ensures var t := Runs.DoRead(s, msg);
            && t.permits == s.permits - (if KindOf(msg) == Forwarded && s.permits > 0 then 1 else 0)
            && s.input <= t.input && t.forwarding == s.forwarding && t.backendUp == s.backendUp
  {
  }

  lemma AnswerPrints(s: Runs.State, who: nat, env: Env)
    requires who in s.running && who < |s.input|
    ensures Printed(Runs.Next(s, Runs.Answer(who, env)).done) == Printed(s.done) + HandleRequest(s.input[who], env)
  {
    var msg := s.input[who];
    PrintedMore(s.done, Runs.Done(who, ForwardWithRetries(msg, env).sent, HandleRequest(msg, env)));
  }

  lemma DeliverPrints(s: Runs.State, env: Env)
    requires s.forwarding.Some? && s.forwarding.value < |s.input|
    ensures Printed(Runs.Next(s, Runs.Deliver(env)).done) == Printed(s.done)
  {
    var who := s.forwarding.value;
    PrintedMore(s.done, Runs.Done(who, ForwardWithRetries(s.input[who], env).sent, []));
  }

  class Server {
    var stdout: seq<Value>
    var queue: seq<Value>
    var forwarding: Option<Value>
    var permits: nat
    var cachedInit: Option<Value>
    var backendUp: bool
    var clientReady: bool
    ghost var runs: Runs.State

    ghost predicate Valid()
      reads this
    {
      && Runs.Inv(runs) && stdout == Printed(runs.done) && permits == runs.permits && backendUp == runs.backendUp
      && AreMessages(queue, runs.queue, runs.input)
      && (forwarding.Some? <==> runs.forwarding.Some?)
      && (forwarding.Some? ==> runs.forwarding.value < |runs.input| && forwarding.value == runs.input[runs.forwarding.value])
    }

    constructor ()
      ensures Valid() && runs == Runs.INITIAL
      ensures stdout == [] && queue == [] && forwarding == None && permits == Runs.MAX_IN_FLIGHT
      ensures cachedInit == None && !backendUp && !clientReady
    {
      stdout, queue, forwarding, permits := [], [], None, Runs.MAX_IN_FLIGHT;
      cachedInit, backendUp, clientReady := None, false, false;
      runs := Runs.INITIAL;
    }

    method EnqueueOneWay(msg: Value)
      modifies this`queue
      ensures queue == if |old(queue)| < Runs.ONE_WAY_QUEUE then old(queue) + [msg] else old(queue)
    {
      if |queue| < Runs.ONE_WAY_QUEUE {
        queue := queue + [msg];
      }
    }

    /** What the input loop does with a message, on the fields alone. */
    method Dispatch(msg: Value) returns (spawned: bool)
      modifies this`stdout, this`queue, this`permits, this`cachedInit, this`clientReady
      ensures spawned <==> KindOf(msg) == Forwarded && old(permits) > 0
      ensures permits == old(permits) - (if spawned then 1 else 0)
      ensures queue == if KindOf(msg) == OneWay && |old(queue)| < Runs.ONE_WAY_QUEUE then old(queue) + [msg] else old(queue)
      ensures stdout == old(stdout) + LinesAtOnce(msg, backendUp, old(permits) > 0)
      ensures clientReady == (old(clientReady) || (Get(msg, "method").Some? && MethodOf(msg) == "notifications/initialized"))
      ensures cachedInit == if MethodOf(msg) == "initialize" && ExpectsReply(msg) then Some(msg) else old(cachedInit)
    {
      spawned := false;
      if msg.Arr? {
        var r := RejectBatch(msg.items);
        if r.Some? {
          stdout := stdout + [r.value];
        }
        return;
      }
      if Get(msg, "method").None? {
        if IsClientResponse(msg) {
          EnqueueOneWay(msg);
        } else {
          stdout := stdout + [Reply(IdOf(msg), "error", Null)];
        }
        return;
      }
      var name := MethodOf(msg);
      if (name == "initialize" || name == "ping") && !ExpectsReply(msg) {
      } else if name == "initialize" {
        cachedInit := Some(msg);
        stdout := stdout + [Reply(IdOf(msg), "result", Null)];
      } else if name == "notifications/initialized" {
        clientReady := true;
        if backendUp {
          stdout := stdout + LIST_CHANGED();
        }
      } else if name == "ping" {
        stdout := stdout + [Reply(IdOf(msg), "result", Null)];
      } else if !ExpectsReply(msg) {
        EnqueueOneWay(msg);
      } else if permits > 0 {
        permits, spawned := permits - 1, true;
      } else {
        stdout := stdout + [Reply(IdOf(msg), "error", Null)];
      }
    }

    /** One message from the client: answered here, queued, refused, or `spawned` as a task under a permit. */
    method HandleMessage(msg: Value) returns (spawned: bool)
      requires Valid()
      modifies this
      ensures Valid() && runs == Runs.Next(old(runs), Runs.Read(msg))
      ensures spawned <==> KindOf(msg) == Forwarded && old(permits) > 0
      ensures permits == old(permits) - (if spawned then 1 else 0) && forwarding == old(forwarding)
      ensures queue == if KindOf(msg) == OneWay && |old(queue)| < Runs.ONE_WAY_QUEUE then old(queue) + [msg] else old(queue)
      ensures stdout == old(stdout) + LinesAtOnce(msg, old(backendUp), old(permits) > 0)
      ensures backendUp == old(backendUp)
      ensures clientReady == (old(clientReady) || (Get(msg, "method").Some? && MethodOf(msg) == "notifications/initialized"))
      ensures cachedInit == if MethodOf(msg) == "initialize" && ExpectsReply(msg) then Some(msg) else old(cachedInit)
    {
      hide Runs.Inv, Printed, AreMessages, KindOf, LocalLines;
      Runs.ReadKeeps(runs, msg);
      ReadPrints(runs, msg);
      ReadQueues(runs, msg, queue);
      ReadPermits(runs, msg);
      runs := Runs.Next(runs, Runs.Read(msg));
      spawned := Dispatch(msg);
    }

    /** What a spawned task does: the request is forwarded, its lines are written together, the permit goes back. */
    method AnswerRequest(msg: Value, env: Env, ghost who: nat)
      requires Valid() && who in runs.running && who < |runs.input| && runs.input[who] == msg
      modifies this`stdout, this`permits, this`runs
      ensures Valid() && runs == Runs.Next(old(runs), Runs.Answer(who, env))
      ensures stdout == old(stdout) + HandleRequest(msg, env) && permits == old(permits) + 1
    {
      hide Runs.Inv, Printed, AreMessages;
      Runs.AnswerKeeps(runs, who, env);
      AnswerPrints(runs, who, env);
      runs := Runs.Next(runs, Runs.Answer(who, env));
      var trace := Forward(msg, env);
      stdout := stdout + match trace.result
                         case Payloads(lines) => lines
                         case _ => [Reply(IdOf(msg), if IsListMethod(MethodOf(msg)) then "result" else "error", Null)];
      permits := permits + 1;
    }

    /** The forwarder receives the message that has waited longest. */
    method TakeOneWay()
      requires Valid() && forwarding == None && queue != []
      modifies this`queue, this`forwarding, this`runs
      ensures Valid() && runs == Runs.Next(old(runs), Runs.Take)
      ensures forwarding == Some(old(queue)[0]) && queue == old(queue)[1..]
    {
      Runs.StepKeeps(runs, Runs.Take);
      runs := Runs.Next(runs, Runs.Take);
      forwarding, queue := Some(queue[0]), queue[1..];
    }

    /** `forward_one_way`: whatever comes of it, the client is told nothing. */
    method ForwardOneWay(env: Env) returns (trace: Trace)
      requires Valid() && forwarding.Some?
      modifies this`forwarding, this`runs
      ensures Valid() && runs == Runs.Next(old(runs), Runs.Deliver(env))
      ensures forwarding == None && trace == ForwardWithRetries(old(forwarding).value, env)
    {
      Runs.DeliverKeeps(runs, env);
      DeliverPrints(runs, env);
      runs := Runs.Next(runs, Runs.Deliver(env));
      trace := Forward(forwarding.value, env);
      forwarding := None;
    }

    /** The poller's flag; what the poller writes is in `Handshake`. */
    method NoteBackend(up: bool)
      requires Valid()
      modifies this`backendUp, this`runs
      ensures Valid() && runs == Runs.Next(old(runs), Runs.BackendIs(up)) && backendUp == up
    {
      Runs.StepKeeps(runs, Runs.BackendIs(up));
      runs := Runs.Next(runs, Runs.BackendIs(up));
      backendUp := up;
    }
  }
}
