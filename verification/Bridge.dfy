/**
 * The MCP stdio bridge (crates/victauri-cli/src/bridge.rs): which messages are answered, with
 * what id, and which may be sent again. Discovery and HTTP are an environment that may answer
 * every attempt as it likes.
 */
module Bridge {
  import opened Text
  import opened Json

  const MAX_RETRIES: nat := 4

  // ----- Messages -----

  /** A field of a JSON object; nothing for any other value. */
  function Get(v: Value, key: Bytes): Option<Value> {
    if v.Obj? && key in v.members then Some(v.members[key]) else None
  }

  predicate ExpectsReply(msg: Value) { Get(msg, "method").Some? && Get(msg, "id").Some? }

  predicate IsClientResponse(msg: Value) {
    Get(msg, "method").None? && (Get(msg, "result").Some? || Get(msg, "error").Some?)
  }

  function MethodOf(msg: Value): Bytes {
    var m := Get(msg, "method");
    if m.Some? && m.value.Str? then m.value.s else ""
  }

  function IdOf(msg: Value): Value { if Get(msg, "id").Some? then Get(msg, "id").value else Null }

  /** A reply: a result or an error under an id. */
  function Reply(id: Value, kind: Bytes, content: Value): Value {
    Obj(map["jsonrpc" := Str("2.0"), "id" := id, kind := content])
  }

  function Notice(name: Bytes): Value { Obj(map["jsonrpc" := Str("2.0"), "method" := Str(name)]) }

  /** `v` answers the request `msg`: it carries the same id, and is no request itself. */
  predicate Answers(v: Value, msg: Value) { Get(v, "method").None? && Get(v, "id") == Get(msg, "id") }

  predicate AnswersRequest(payloads: seq<Value>, msg: Value) {
    exists i :: 0 <= i < |payloads| && Answers(payloads[i], msg)
  }

  // ----- Forwarding -----

  /** One attempt to post a message: an HTTP answer, no connection, or a failure after it was sent. */
  datatype Post = Replied(status: nat, body: seq<Value>) | NotConnected | Lost

  datatype Env = Env(
    found: bool,
    post: nat -> Post,
    rediscovers: nat -> bool)

  datatype Outcome = Payloads(lines: seq<Value>) | Accepted | Unreachable

  /** The session is gone: the backend did not take the message. */
  predicate IsStale(p: Post) { p.Replied? && p.status in {404, 409, 422} }

  /** What the backend's answer amounts to for the client. */
  function Relayed(msg: Value, p: Post): seq<Value>
    requires p.Replied?
  {
    if 200 <= p.status < 300 then p.body else [Reply(IdOf(msg), "error", Null)]
  }

  function Settled(msg: Value, p: Post): Outcome
    requires p.Replied? && !IsStale(p)
  {
    if p.status == 202 then if ExpectsReply(msg) then Payloads([Reply(IdOf(msg), "error", Null)]) else Accepted
    else
      var lines := Relayed(msg, p);
      if ExpectsReply(msg) && !AnswersRequest(lines, msg) then Payloads(lines + [Reply(IdOf(msg), "error", Null)])
      else Payloads(lines)
  }

  predicate MayReplay(msg: Value, p: Post)
    requires !p.Replied?
  {
    MethodOf(msg) != "tools/call" || p.NotConnected?
  }

  /** The attempts made from `attempt` on, and how they ended. */
  datatype Trace = Trace(sent: seq<Post>, result: Outcome)

  function Then(p: Post, rest: Trace): Trace { Trace([p] + rest.sent, rest.result) }

  function ForwardFrom(msg: Value, env: Env, attempt: nat): Trace
    requires attempt <= MAX_RETRIES
    decreases MAX_RETRIES - attempt
  {
    if attempt == MAX_RETRIES then Trace([], Unreachable)
    else
      var p := env.post(attempt);
      var end := Verdict(msg, p, attempt + 1 < MAX_RETRIES && !env.rediscovers(attempt));
      if end.Some? then Trace([p], end.value) else Then(p, ForwardFrom(msg, env, attempt + 1))
  }

  /** How an attempt ends the matter, unless it is tried again; `gone` tells that no backend is left to try. */
  function Verdict(msg: Value, p: Post, gone: bool): Option<Outcome> {
    if IsStale(p) then None
    else if p.Replied? then Some(Settled(msg, p))
    else if !MayReplay(msg, p) then Some(Payloads([Reply(IdOf(msg), "error", Null)]))
    else if gone then Some(Unreachable)
    else None
  }

  function ForwardWithRetries(msg: Value, env: Env): Trace {
    if !env.found then Trace([], Unreachable) else ForwardFrom(msg, env, 0)
  }

  // ----- One line of input -----

  predicate IsListMethod(name: Bytes) {
    name in ["tools/list", "resources/list", "resources/templates/list", "prompts/list"]
  }

  /** The lines a forwarded request is answered with. */
  function HandleRequest(msg: Value, env: Env): seq<Value> {
    var r := ForwardWithRetries(msg, env).result;
    if r.Payloads? then r.lines
    else if IsListMethod(MethodOf(msg)) then [Reply(IdOf(msg), "result", Null)]
    else [Reply(IdOf(msg), "error", Null)]
  }

  /** The error entry each element of a batch is owed, if any. */
  function BatchEntry(item: Value): Option<Value> {
    if !item.Obj? then Some(Reply(Null, "error", Null))
    else if (Get(item, "method").Some? && Get(item, "id").None?) || IsClientResponse(item) then None
    else Some(Reply(IdOf(item), "error", Null))
  }

  function BatchEntries(items: seq<Value>): seq<Value> {
    if items == [] then []
    else
      var first := BatchEntry(items[0]);
      (if first.Some? then [first.value] else []) + BatchEntries(items[1..])
  }

  function BatchRejection(items: seq<Value>): Option<Value> {
    if items == [] then Some(Reply(Null, "error", Null))
    else
      var replies := BatchEntries(items);
      if replies == [] then None else Some(Arr(replies))
  }

  function LIST_CHANGED(): seq<Value> {
    [Notice("notifications/tools/list_changed"), Notice("notifications/resources/list_changed")]
  }

  /** Who deals with a message: the input loop at once, the forwarder in order, or a task of its own. */
  datatype Kind = Local | OneWay | Forwarded

  function KindOf(msg: Value): Kind {
    if msg.Arr? then Local
    else if Get(msg, "method").None? then if IsClientResponse(msg) then OneWay else Local
    else if MethodOf(msg) in ["initialize", "ping", "notifications/initialized"] then Local
    else if ExpectsReply(msg) then Forwarded
    else OneWay
  }

  /** What the input loop writes for a message of its own. */
  function LocalLines(msg: Value, backendUp: bool): seq<Value> {
    if msg.Arr? then
      var r := BatchRejection(msg.items);
      if r.Some? then [r.value] else []
    else if Get(msg, "method").None? then [Reply(IdOf(msg), "error", Null)]
    else if MethodOf(msg) == "notifications/initialized" then if backendUp then LIST_CHANGED() else []
    else if ExpectsReply(msg) then [Reply(IdOf(msg), "result", Null)]
    else []
  }

  // ----- A tool call that may have run is not sent again -----

  /** The backend cannot have taken the message. */
  predicate NeverTaken(p: Post) { p.NotConnected? || IsStale(p) }

  lemma {:induction false} ToolCallSentOnce(msg: Value, env: Env, attempt: nat)
    requires attempt <= MAX_RETRIES && MethodOf(msg) == "tools/call"
    ensures var sent := ForwardFrom(msg, env, attempt).sent;
            |sent| <= MAX_RETRIES - attempt && forall i :: 0 <= i < |sent| - 1 ==> NeverTaken(sent[i])
    decreases MAX_RETRIES - attempt
  {
    if attempt < MAX_RETRIES { ToolCallSentOnce(msg, env, attempt + 1); }
  }

  /** At most four attempts, and none after one that may have reached the app. */
  lemma NeverSentTwice(msg: Value, env: Env)
    requires MethodOf(msg) == "tools/call"
    ensures var sent := ForwardWithRetries(msg, env).sent;
            |sent| <= MAX_RETRIES && forall i :: 0 <= i < |sent| - 1 ==> NeverTaken(sent[i])
  {
    if env.found { ToolCallSentOnce(msg, env, 0); }
  }

  /** Other methods may be: a list request lost on the way is asked for again. */
  lemma OtherMethodsMayRepeat(msg: Value, env: Env)
    requires MethodOf(msg) != "tools/call" && env.found && env.post(0) == Lost && env.rediscovers(0)
    ensures |ForwardWithRetries(msg, env).sent| >= 2
  {
    var rest := ForwardFrom(msg, env, 1);
    assert rest.sent != [];
    assert ForwardFrom(msg, env, 0) == Then(Lost, rest);
  }

  // ----- Every request is answered -----

  lemma ReplyAnswers(msg: Value, kind: Bytes, content: Value)
    requires Get(msg, "id").Some? && (kind == "error" || kind == "result")
    ensures Answers(Reply(IdOf(msg), kind, content), msg)
  {
    assert "id" != kind && "method" != kind by { assert kind[0] == 'e' || kind[0] == 'r'; }
    assert "id" != "method" && "jsonrpc" != "method" && "jsonrpc" != "id";
  }

  lemma OneReply(msg: Value, lines: seq<Value>, kind: Bytes)
    requires Get(msg, "id").Some? && (kind == "error" || kind == "result")
    ensures AnswersRequest(lines + [Reply(IdOf(msg), kind, Null)], msg)
  {
    ReplyAnswers(msg, kind, Null);
    var all := lines + [Reply(IdOf(msg), kind, Null)];
    assert Answers(all[|lines|], msg);
  }

  lemma {:induction false} ForwardAnswers(msg: Value, env: Env, attempt: nat)
    requires attempt <= MAX_RETRIES && ExpectsReply(msg)
    ensures var r := ForwardFrom(msg, env, attempt).result;
            !r.Accepted? && (r.Payloads? ==> AnswersRequest(r.lines, msg))
    decreases MAX_RETRIES - attempt
  {
    OneReply(msg, [], "error");
    assert [] + [Reply(IdOf(msg), "error", Null)] == [Reply(IdOf(msg), "error", Null)];
    if attempt < MAX_RETRIES {
      ForwardAnswers(msg, env, attempt + 1);
      var p := env.post(attempt);
      if p.Replied? { OneReply(msg, Relayed(msg, p), "error"); }
    }
  }

  lemma RequestAnswered(msg: Value, env: Env)
    requires ExpectsReply(msg)
    ensures AnswersRequest(HandleRequest(msg, env), msg)
  {
    OneReply(msg, [], "error");
    OneReply(msg, [], "result");
    assert [] + [Reply(IdOf(msg), "error", Null)] == [Reply(IdOf(msg), "error", Null)];
    assert [] + [Reply(IdOf(msg), "result", Null)] == [Reply(IdOf(msg), "result", Null)];
    if env.found { ForwardAnswers(msg, env, 0); }
  }

  // ----- What the backend answered is what the client gets -----

  predicate IsErrorFor(line: Value, msg: Value) { Answers(line, msg) && Get(line, "error").Some? && Get(line, "result").None? }

  predicate IsResultFor(line: Value, msg: Value) { Answers(line, msg) && Get(line, "result").Some? && Get(line, "error").None? }

  predicate OneError(lines: seq<Value>, msg: Value) { |lines| == 1 && IsErrorFor(lines[0], msg) }

  /** Without a backend: an error, or for a list what is known without one. */
  predicate Placeholder(lines: seq<Value>, msg: Value) {
    |lines| == 1 && if IsListMethod(MethodOf(msg)) then IsResultFor(lines[0], msg) else IsErrorFor(lines[0], msg)
  }

  /** A body is relayed as it is; if it does not answer the request, one error follows it. */
  predicate RelaysBody(body: seq<Value>, msg: Value, lines: seq<Value>) {
    if AnswersRequest(body, msg) then lines == body
    else |lines| == |body| + 1 && lines[..|body|] == body && IsErrorFor(lines[|body|], msg)
  }

  /** The lines written for a request, by the last attempt to post it. */
  predicate Relays(msg: Value, sent: seq<Post>, lines: seq<Value>) {
    if sent == [] then OneError(lines, msg) || Placeholder(lines, msg)
    else match sent[|sent| - 1]
      case Replied(status, body) =>
        if 200 <= status < 300 && status != 202 then RelaysBody(body, msg, lines)
        else if status in {404, 409, 422} then Placeholder(lines, msg)
        else OneError(lines, msg)
      case NotConnected => Placeholder(lines, msg)
      case Lost => if MethodOf(msg) == "tools/call" then OneError(lines, msg) else Placeholder(lines, msg)
  }

  lemma ReplyIs(msg: Value, kind: Bytes)
    requires Get(msg, "id").Some? && (kind == "error" || kind == "result")
    ensures if kind == "error" then IsErrorFor(Reply(IdOf(msg), kind, Null), msg)
            else IsResultFor(Reply(IdOf(msg), kind, Null), msg)
  {
    ReplyAnswers(msg, kind, Null);
    assert "error" != "result" by { var e: Bytes := "error"; assert e[0] == 'e'; }
    assert "jsonrpc" != "error" && "jsonrpc" != "result" && "id" != "error" && "id" != "result";
  }

  lemma SettledRelays(msg: Value, p: Post)
    requires ExpectsReply(msg) && p.Replied? && !IsStale(p)
    ensures var r := Settled(msg, p); r.Payloads? && Relays(msg, [p], r.lines)
  {
    ReplyIs(msg, "error");
    var lines := Relayed(msg, p);
    var error := Reply(IdOf(msg), "error", Null);
    assert (lines + [error])[..|lines|] == lines;
    if !(200 <= p.status < 300) { assert Answers(lines[0], msg); }
  }

  /** What the request is answered with after an end of the attempts. */
  function LinesFor(msg: Value, r: Outcome): seq<Value> {
    if r.Payloads? then r.lines else [Reply(IdOf(msg), if IsListMethod(MethodOf(msg)) then "result" else "error", Null)]
  }

  lemma UnansweredRelays(msg: Value, p: Post, r: Outcome)
    requires ExpectsReply(msg) && (IsStale(p) || !p.Replied?)
    requires if IsStale(p) || MayReplay(msg, p) then r == Unreachable
             else r == Payloads([Reply(IdOf(msg), "error", Null)])
    ensures Relays(msg, [p], LinesFor(msg, r))
  {
    ReplyIs(msg, "error");
    ReplyIs(msg, "result");
  }

  /** More attempts before it change nothing. */
  lemma RelaysAfter(msg: Value, p: Post, sent: seq<Post>, lines: seq<Value>)
    requires sent != []
    ensures Relays(msg, [p] + sent, lines) == Relays(msg, sent, lines)
  {
    assert ([p] + sent)[|[p] + sent| - 1] == sent[|sent| - 1];
  }

  lemma {:induction false} AttemptsRelay(msg: Value, env: Env, attempt: nat)
    requires attempt < MAX_RETRIES && ExpectsReply(msg)
    ensures var t := ForwardFrom(msg, env, attempt); t.sent != [] && Relays(msg, t.sent, LinesFor(msg, t.result))
    decreases MAX_RETRIES - attempt
  {
    var p := env.post(attempt);
    var end := Verdict(msg, p, attempt + 1 < MAX_RETRIES && !env.rediscovers(attempt));
    if end.Some? {
      if p.Replied? { SettledRelays(msg, p); } else { UnansweredRelays(msg, p, end.value); }
    } else if attempt + 1 < MAX_RETRIES {
      AttemptsRelay(msg, env, attempt + 1);
      var rest := ForwardFrom(msg, env, attempt + 1);
      RelaysAfter(msg, p, rest.sent, LinesFor(msg, rest.result));
    } else {
      UnansweredRelays(msg, p, Unreachable);
      assert [p] + [] == [p];
    }
  }

  /** What the backend answers to the last attempt is what the client gets. */
  lemma BackendIsRelayed(msg: Value, env: Env)
    requires ExpectsReply(msg)
    ensures Relays(msg, ForwardWithRetries(msg, env).sent, HandleRequest(msg, env))
  {
    ReplyIs(msg, "error");
    ReplyIs(msg, "result");
    if env.found { AttemptsRelay(msg, env, 0); }
  }

  /** After this attempt there is another: no session, or nothing that may have run and a backend still there. */
  predicate GoesOn(msg: Value, env: Env, i: nat) {
    match env.post(i)
    case Replied(status, _) => status in {404, 409, 422}
    case NotConnected => env.rediscovers(i)
    case Lost => MethodOf(msg) != "tools/call" && env.rediscovers(i)
  }

  lemma FirstAttempt(msg: Value, env: Env, attempt: nat)
    requires attempt < MAX_RETRIES
    ensures ForwardFrom(msg, env, attempt).sent
            == if attempt + 1 < MAX_RETRIES && GoesOn(msg, env, attempt)
               then [env.post(attempt)] + ForwardFrom(msg, env, attempt + 1).sent else [env.post(attempt)]
  {
    hide Settled;
    if attempt + 1 == MAX_RETRIES { assert [env.post(attempt)] + [] == [env.post(attempt)]; }
  }

  /** The attempts from this one on: what each of them met, and that all but the last went on. */
  predicate AreAttempts(msg: Value, env: Env, attempt: nat, sent: seq<Post>) {
    && (forall i: nat :: attempt <= i < attempt + |sent| ==> env.post(i) == sent[i - attempt])
    && (forall i: nat :: attempt <= i < attempt + |sent| - 1 ==> GoesOn(msg, env, i))
  }

  lemma OneBefore(msg: Value, env: Env, attempt: nat, rest: seq<Post>)
    requires AreAttempts(msg, env, attempt + 1, rest) && GoesOn(msg, env, attempt)
    ensures AreAttempts(msg, env, attempt, [env.post(attempt)] + rest)
  {
    hide GoesOn;
  }

  lemma {:induction false} AttemptsFrom(msg: Value, env: Env, attempt: nat)
    requires attempt < MAX_RETRIES
    ensures var sent := ForwardFrom(msg, env, attempt).sent;
            && 0 < |sent| <= MAX_RETRIES - attempt && AreAttempts(msg, env, attempt, sent)
            && (GoesOn(msg, env, attempt + |sent| - 1) ==> attempt + |sent| == MAX_RETRIES)
    decreases MAX_RETRIES - attempt
  {
    hide GoesOn, ForwardFrom;
    FirstAttempt(msg, env, attempt);
    if attempt + 1 < MAX_RETRIES && GoesOn(msg, env, attempt) {
      AttemptsFrom(msg, env, attempt + 1);
      OneBefore(msg, env, attempt, ForwardFrom(msg, env, attempt + 1).sent);
    }
  }

  /** Attempts are made one after another as long as they go on, up to four; and none without a backend. */
  lemma AttemptsAre(msg: Value, env: Env)
    ensures var sent := ForwardWithRetries(msg, env).sent;
            && (sent == [] <==> !env.found) && |sent| <= 4
            && AreAttempts(msg, env, 0, sent)
            && (sent != [] && GoesOn(msg, env, |sent| - 1) ==> |sent| == 4)
  {
    if env.found { AttemptsFrom(msg, env, 0); }
  }

  /** The one request that gets no response: a handshake notification that was given an id. */
  predicate IsOddRequest(msg: Value) { MethodOf(msg) == "notifications/initialized" }

  lemma LocalAnswers(msg: Value, backendUp: bool)
    requires ExpectsReply(msg) && KindOf(msg) == Local
    ensures AnswersRequest(LocalLines(msg, backendUp), msg) <==> !IsOddRequest(msg)
    ensures Get(msg, "method").Some? && !IsOddRequest(msg) ==>
              |LocalLines(msg, backendUp)| == 1 && IsResultFor(LocalLines(msg, backendUp)[0], msg)
  {
    ReplyIs(msg, "result");
    if IsOddRequest(msg) {
      assert forall i :: 0 <= i < |LIST_CHANGED()| ==> Get(LIST_CHANGED()[i], "method").Some?;
    } else {
      OneReply(msg, [], "result");
      assert [] + [Reply(IdOf(msg), "result", Null)] == [Reply(IdOf(msg), "result", Null)];
    }
  }

  /** A notification or a client's response is answered by nothing: every line written has a method. */
  lemma LocalNotices(msg: Value, backendUp: bool)
    requires msg.Obj? && !ExpectsReply(msg) && (Get(msg, "method").Some? || IsClientResponse(msg)) && KindOf(msg) == Local
    ensures OnlyNotices(LocalLines(msg, backendUp))
  {
  }

  predicate OnlyNotices(lines: seq<Value>) {
    forall i :: 0 <= i < |lines| ==> Get(lines[i], "method").Some?
  }

  // ----- Batches -----

  /** An error under that id, and nothing else. */
  predicate IsRejection(v: Value, id: Value) {
    Get(v, "id") == Some(id) && Get(v, "error").Some? && Get(v, "result").None? && Get(v, "method").None?
  }

  /** A request, or something that is neither request, notification nor response. */
  predicate IsOwed(item: Value) {
    !item.Obj?
    || !((Get(item, "method").Some? && Get(item, "id").None?)
         || (Get(item, "method").None? && (Get(item, "result").Some? || Get(item, "error").Some?)))
  }

  /** Where the owed elements are, in order. */
  function OwedAt(items: seq<Value>, from: nat): seq<nat>
    requires from <= |items|
    decreases |items| - from
  {
    if from == |items| then [] else (if IsOwed(items[from]) then [from] else []) + OwedAt(items, from + 1)
  }

  /** Exactly the owed elements. */
  lemma {:induction false} OwedAtHolds(items: seq<Value>, from: nat, i: nat)
    requires from <= |items|
    ensures i in OwedAt(items, from) <==> from <= i < |items| && IsOwed(items[i])
    decreases |items| - from
  {
    if from < |items| { OwedAtHolds(items, from + 1, i); }
  }

  predicate Ascends(at: seq<nat>) { forall j, k :: 0 <= j < k < |at| ==> at[j] < at[k] }

  lemma AscendsFrom(first: nat, rest: seq<nat>)
    requires Ascends(rest) && forall k :: 0 <= k < |rest| ==> first < rest[k]
    ensures Ascends([first] + rest)
  {
    var at := [first] + rest;
    forall j, k | 0 <= j < k < |at| ensures at[j] < at[k] {
      assert at[k] == rest[k - 1] && (j > 0 ==> at[j] == rest[j - 1]);
    }
  }

  /** Once each, and in order. */
  lemma {:induction false} OwedAtAscends(items: seq<Value>, from: nat)
    requires from <= |items|
    ensures Ascends(OwedAt(items, from))
    decreases |items| - from
  {
    if from < |items| {
      OwedAtAscends(items, from + 1);
      var rest := OwedAt(items, from + 1);
      forall k | 0 <= k < |rest| ensures from < rest[k] { OwedAtHolds(items, from + 1, rest[k]); }
      if IsOwed(items[from]) {
        AscendsFrom(from, rest);
      } else {
        assert [] + rest == rest;
      }
    }
  }

  lemma {:induction false} EntriesAreOwed(items: seq<Value>, from: nat)
    requires from <= |items|
    ensures var entries, at := BatchEntries(items[from..]), OwedAt(items, from);
            && |entries| == |at|
            && forall k :: 0 <= k < |at| ==> at[k] < |items| && IsRejection(entries[k], IdOf(items[at[k]]))
    decreases |items| - from
  {
    if from < |items| {
      EntriesAreOwed(items, from + 1);
      assert items[from..][1..] == items[from + 1..];
      EntryId(items[from]);
    }
  }

  lemma EntryId(item: Value)
    ensures BatchEntry(item).Some? <==> IsOwed(item)
    ensures BatchEntry(item).Some? ==> IsRejection(BatchEntry(item).value, IdOf(item))
  {
    ErrorIs(IdOf(item));
    ErrorIs(Null);
  }

  lemma ErrorIs(id: Value)
    ensures IsRejection(Reply(id, "error", Null), id)
  {
    assert "id" != "error" && "id" != "jsonrpc" && "error" != "jsonrpc";
    assert "method" != "id" && "method" != "error" && "method" != "jsonrpc";
    assert "result" != "id" && "result" != "error" && "result" != "jsonrpc" by { var e: Bytes := "error"; assert e[0] == 'e'; }
  }

  /** Section 6 of the JSON-RPC 2.0 specification: one entry for each element that is owed one, in
      order, under its id; no empty array; a single error for an empty batch. */
  lemma BatchIsAnswered(items: seq<Value>)
    ensures var r := BatchRejection(items);
            var at := OwedAt(items, 0);
            if items == [] then r.Some? && IsRejection(r.value, Null)
            else if at == [] then r == None
            else r.Some? && r.value.Arr? && |r.value.items| == |at|
                 && forall k :: 0 <= k < |at| ==> at[k] < |items| && IsRejection(r.value.items[k], IdOf(items[at[k]]))
  {
    assert items[0..] == items;
    EntriesAreOwed(items, 0);
    ErrorIs(Null);
  }
}
