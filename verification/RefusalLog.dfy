/**
 * The throttle on log lines for refused requests (crates/victauri-core/src/middleware.rs): any
 * number of threads inside `RefusalLog::admit`, one atomic operation at a time.
 */
module RefusalLog {
  import opened Text

  /** Least time between two lines. */
  const INTERVAL_MS: nat := 10_000

  /**
   * Where one thread is inside `admit(now)`. `seen` (history) is how many lines had been
   * claimed when it read `last_ms`.
   */
  datatype Thread =
    | Outside
    | Started(now: nat)
    | ReadLast(now: nat, last: nat, seen: nat)
    | Claimed
    | Declined

  /**
   * The two atomics and the threads. History: refusals that arrived, lines claimed, lines
   * returned, the refusals those lines said they cover, and the moment of the first line.
   */
  datatype State = State(
    last: nat,
    suppressed: nat,
    threads: seq<Thread>,
    arrived: nat,
    claims: nat,
    lines: nat,
    covered: nat,
    first: nat)

  datatype Action =
    | Arrive(i: nat, now: nat)
    | LoadLast(i: nat)
    | SwapLast(i: nat)
    | TakeSuppressed(i: nat)
    | CountSuppressed(i: nat)

  function Init(threads: nat): State {
    State(0, 0, seq(threads, _ => Outside), 0, 0, 0, 0, 0)
  }

  predicate Due(now: nat, last: nat) {
    last == 0 || (now >= last && now - last >= INTERVAL_MS)
  }

  predicate Enabled(s: State, a: Action) {
    a.i < |s.threads| &&
    var t := s.threads[a.i];
    match a
    case Arrive(_, _) => t.Outside?
    case LoadLast(_) => t.Started?
    case SwapLast(_) => t.ReadLast?
    case TakeSuppressed(_) => t.Claimed?
    case CountSuppressed(_) => t.Declined?
  }

  function Put(s: State, i: nat, t: Thread): State
    requires i < |s.threads|
  {
    s.(threads := s.threads[i := t])
  }

  function Step(s: State, a: Action): State
    requires Enabled(s, a)
  {
    match a
    case Arrive(i, now) => Put(s, i, Started(now)).(arrived := s.arrived + 1)
    case LoadLast(i) =>
      var now := s.threads[i].now;
      if Due(now, s.last) then Put(s, i, ReadLast(now, s.last, s.claims)) else Put(s, i, Declined)
    case SwapLast(i) =>
      var ReadLast(now, last, _) := s.threads[i];
      if s.last != last then Put(s, i, Declined)
      else
        var moment := Max(now, 1);
        Put(s, i, Claimed).(last := moment, claims := s.claims + 1,
                            first := if s.claims == 0 then moment else s.first)
    case TakeSuppressed(i) =>
      Put(s, i, Outside).(suppressed := 0, lines := s.lines + 1, covered := s.covered + s.suppressed)
    case CountSuppressed(i) => Put(s, i, Outside).(suppressed := s.suppressed + 1)
  }

  // ----- Threads inside -----

  /** Threads inside `admit`: their refusal is neither counted nor logged yet. */
  function Inside(threads: seq<Thread>): nat {
    if threads == [] then 0 else (if threads[0].Outside? then 0 else 1) + Inside(threads[1..])
  }

  /** Threads that have claimed a line and not returned it yet. */
  function Claiming(threads: seq<Thread>): nat {
    if threads == [] then 0 else (if threads[0].Claimed? then 1 else 0) + Claiming(threads[1..])
  }

  lemma {:induction false} CountsPut(threads: seq<Thread>, i: nat, t: Thread)
    requires i < |threads|
    ensures Inside(threads[i := t]) + (if threads[i].Outside? then 0 else 1)
            == Inside(threads) + (if t.Outside? then 0 else 1)
    ensures Claiming(threads[i := t]) + (if threads[i].Claimed? then 1 else 0)
            == Claiming(threads) + (if t.Claimed? then 1 else 0)
  {
    if i > 0 {
      assert threads[i := t][1..] == threads[1..][i - 1 := t];
      CountsPut(threads[1..], i - 1, t);
    } else {
      assert threads[i := t][1..] == threads[1..];
    }
  }

  lemma {:induction false} NobodyInside(threads: seq<Thread>)
    requires forall i :: 0 <= i < |threads| ==> threads[i].Outside?
    ensures Inside(threads) == 0 && Claiming(threads) == 0
  {
    if threads != [] {
      NobodyInside(threads[1..]);
    }
  }

  // ----- The invariant -----

  predicate ThreadOk(s: State, t: Thread) {
    t.ReadLast? ==>
      && Due(t.now, t.last) && t.last <= s.last && t.seen <= s.claims
      && (t.last == s.last <==> t.seen == s.claims)
  }

  /** Every refusal is accounted for, and the lines are spaced. */
  predicate Inv(s: State) {
    && (forall i :: 0 <= i < |s.threads| ==> ThreadOk(s, s.threads[i]))
    && s.arrived == s.lines + s.covered + s.suppressed + Inside(s.threads)
    && s.claims == s.lines + Claiming(s.threads)
    && (s.claims == 0 <==> s.last == 0)
    && (s.claims > 0 ==> 0 < s.first && s.first + (s.claims - 1) * INTERVAL_MS <= s.last)
  }

  lemma InitOk(n: nat)
    ensures Inv(Init(n))
  {
    NobodyInside(Init(n).threads);
  }

  lemma ThreadsKept(s: State, a: Action)
    requires Inv(s) && Enabled(s, a)
    ensures var t := Step(s, a);
            forall j :: 0 <= j < |t.threads| ==> ThreadOk(t, t.threads[j])
  {
    var t := Step(s, a);
    forall j | 0 <= j < |t.threads| ensures ThreadOk(t, t.threads[j]) {
      assert ThreadOk(s, s.threads[j]);
      assert ThreadOk(s, s.threads[a.i]);
    }
  }

  /** Every atomic step of every thread keeps the accounts. */
  lemma StepKeeps(s: State, a: Action)
    requires Inv(s) && Enabled(s, a)
    ensures Inv(Step(s, a))
  {
    var t := Step(s, a);
    ThreadsKept(s, a);
    assert t.threads == s.threads[a.i := t.threads[a.i]];
    CountsPut(s.threads, a.i, t.threads[a.i]);
    assert ThreadOk(s, s.threads[a.i]);
  }

  // ----- Every run -----

  predicate Legal(s: State, actions: seq<Action>)
    decreases |actions|
  {
    actions != [] ==> Enabled(s, actions[0]) && Legal(Step(s, actions[0]), actions[1..])
  }

  function Run(s: State, actions: seq<Action>): State
    requires Legal(s, actions)
    decreases |actions|
  {
    if actions == [] then s else Run(Step(s, actions[0]), actions[1..])
  }

  lemma {:induction false} RunKeeps(s: State, actions: seq<Action>)
    requires Inv(s) && Legal(s, actions)
    ensures Inv(Run(s, actions))
    decreases |actions|
  {
    if actions != [] {
      StepKeeps(s, actions[0]);
      RunKeeps(Step(s, actions[0]), actions[1..]);
    }
  }

  /**
   * In every interleaving, whatever the clock readings: each refusal is logged, covered by a
   * logged line, still counted, or still inside; and between the first line and the last there
   * is a whole interval per further line.
   */
  lemma RefusalsAreAccounted(threads: nat, actions: seq<Action>)
    requires Legal(Init(threads), actions)
    ensures var t := Run(Init(threads), actions);
            && t.arrived == t.lines + t.covered + t.suppressed + Inside(t.threads)
            && (t.lines > 0 ==> t.first + (t.lines - 1) * INTERVAL_MS <= t.last)
  {
    InitOk(threads);
    RunKeeps(Init(threads), actions);
  }

  /** A claim is at least one interval after the one before it, and nobody claimed in between. */
  lemma ClaimsAreSpaced(s: State, i: nat)
    requires Inv(s) && Enabled(s, SwapLast(i))
    ensures var t := Step(s, SwapLast(i));
            && (t.threads[i].Claimed? <==> s.threads[i].seen == s.claims)
            && (t.threads[i].Claimed? && s.claims > 0 ==> t.last >= s.last + INTERVAL_MS)
            && (t.threads[i].Declined? ==> t.last == s.last)
  {
    assert ThreadOk(s, s.threads[i]);
  }

  // ----- A line is logged when it is due -----

  /** The steps of one refusal and of nothing else. */
  predicate OneRefusal(actions: seq<Action>, i: nat, now: nat) {
    && actions != [] && actions[0] == Arrive(i, now)
    && forall k :: 0 < k < |actions| ==> IsWithin(actions[k], i)
  }

  predicate Completes(s: State, actions: seq<Action>, i: nat) {
    Legal(s, actions) && i < |Run(s, actions).threads| && Run(s, actions).threads[i].Outside?
  }

  predicate IsWithin(a: Action, i: nat) { !a.Arrive? && a.i == i }

  /** Where a refusal that arrived at `s` is in `t`; `due` tells whether it is to be logged. */
  predicate RefusalAt(s: State, t: State, i: nat, now: nat, due: bool) {
    && |t.threads| == |s.threads| && i < |t.threads|
    && var claimed := due && (t.threads[i].Claimed? || t.threads[i].Outside?);
       var ended := t.threads[i].Outside?;
       && t.last == (if claimed then Max(now, 1) else s.last)
       && t.lines == s.lines + (if due && ended then 1 else 0)
       && t.covered == s.covered + (if due && ended then s.suppressed else 0)
       && t.suppressed == (if !ended then s.suppressed else if due then 0 else s.suppressed + 1)
       && match t.threads[i]
          case Outside => true
          case Started(n) => n == now
          case ReadLast(n, last, _) => n == now && last == s.last && due
          case Claimed => due
          case Declined => !due
  }

  lemma {:induction false} RefusalRuns(s: State, t: State, actions: seq<Action>, i: nat, now: nat)
    requires RefusalAt(s, t, i, now, s.last == 0 || now >= s.last + INTERVAL_MS) && Legal(t, actions)
    requires forall k :: 0 <= k < |actions| ==> IsWithin(actions[k], i)
    ensures RefusalAt(s, Run(t, actions), i, now, s.last == 0 || now >= s.last + INTERVAL_MS)
    decreases |actions|
  {
    if actions != [] { RefusalRuns(s, Step(t, actions[0]), actions[1..], i, now); }
  }

  /**
   * A refusal that no other thread overtakes is logged if and only if there was no line yet or
   * ten seconds have passed since the last; its line covers all that were not logged since, and
   * otherwise it is one more of them.
   */
  lemma LoggedWhenDue(s: State, actions: seq<Action>, i: nat, now: nat)
    requires OneRefusal(actions, i, now) && Completes(s, actions, i)
    ensures var t := Run(s, actions);
            if s.last == 0 || now >= s.last + 10_000
            then t.lines == s.lines + 1 && t.covered == s.covered + s.suppressed && t.suppressed == 0 && t.last == Max(now, 1)
            else t.lines == s.lines && t.covered == s.covered && t.suppressed == s.suppressed + 1 && t.last == s.last
  {
    assert Legal(Step(s, Arrive(i, now)), actions[1..]);
    RefusalRuns(s, Step(s, Arrive(i, now)), actions[1..], i, now);
  }
}
