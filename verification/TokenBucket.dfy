/**
 * The lock-free rate limiter of crates/victauri-core/src/security.rs: any number of threads
 * inside `try_acquire`, each taking its atomic operations one at a time.
 *
 * The atomics are sequentially consistent here. Arithmetic is on `u64` and wraps around, as a
 * release build's does.
 */
module TokenBucket {
  import opened Text

  const U64: nat := 0x1_0000_0000_0000_0000

  function Wrap(x: nat): nat { x % U64 }

  /**
   * Where one thread is inside `try_acquire`, with what it has read so far. `seen` (history) is
   * how often `last_refill_ms` had moved when it was read; `less` is one less than the tokens read.
   */
  datatype Thread =
    | Outside
    | ReadClock(now: nat)
    | ReadLast(now: nat, last: nat, seen: nat)
    | Adding(add: nat)
    | AddRead(add: nat, current: nat)
    | Taking
    | TakeRead(less: nat)

  /**
   * The limiter, its clock and its threads. Four history variables: tokens handed out by
   * refills, tokens those refills lost to the cap, requests granted, and how many times
   * `last_refill_ms` was moved.
   */
  datatype State = State(
    tokens: nat,
    max: nat,
    rate: nat,
    last: nat,
    clock: nat,
    threads: seq<Thread>,
    issued: nat,
    wasted: nat,
    granted: nat,
    moves: nat)

  datatype Action =
    | Tick(ms: nat)
    | Enter(i: nat)
    | LoadLast(i: nat)
    | MoveLast(i: nat)
    | LoadToAdd(i: nat)
    | SwapAdd(i: nat, spurious: bool)
    | LoadToTake(i: nat)
    | SwapTake(i: nat, spurious: bool)

  function Init(max: nat, threads: nat): State {
    State(max, max, max, 0, 0, seq(threads, _ => Outside), 0, 0, 0, 0)
  }

  /** What a refill finds to add: the whole tokens earned between `last` and `now`. */
  function Earned(s: State, now: nat, last: nat): nat {
    if now <= last then 0 else Wrap((now - last) * s.rate) / 1000
  }

  function Refilled(s: State, current: nat, add: nat): nat {
    Min(Wrap(current + add), s.max)
  }

  predicate Enabled(s: State, a: Action) {
    a.Tick? || (a.i < |s.threads| &&
      var t := s.threads[a.i];
      match a
      case Enter(_) => t.Outside?
      case LoadLast(_) => t.ReadClock?
      case MoveLast(_) => t.ReadLast?
      case LoadToAdd(_) => t.Adding?
      case SwapAdd(_, _) => t.AddRead?
      case LoadToTake(_) => t.Taking?
      case SwapTake(_, _) => t.TakeRead?)
  }

  function Put(s: State, i: nat, t: Thread): State
    requires i < |s.threads|
  {
    s.(threads := s.threads[i := t])
  }

  function Step(s: State, a: Action): State
    requires Enabled(s, a)
  {
    match a
    case Tick(ms) => s.(clock := s.clock + ms)
    case Enter(i) => Put(s, i, ReadClock(s.clock))
    case LoadLast(i) =>
      var now := s.threads[i].now;
      // Nothing elapsed, or not a whole token's worth: go on without a refill.
      if Earned(s, now, s.last) == 0 then Put(s, i, Taking)
      else Put(s, i, ReadLast(now, s.last, s.moves))
    case MoveLast(i) =>
      var ReadLast(now, last, _) := s.threads[i];
      if s.last != last then Put(s, i, Taking)
      else
        var add := Earned(s, now, last);
        Put(s, i, Adding(add)).(last := now, issued := s.issued + add, moves := s.moves + 1)
    case LoadToAdd(i) => Put(s, i, AddRead(s.threads[i].add, s.tokens))
    case SwapAdd(i, spurious) =>
      var AddRead(add, current) := s.threads[i];
      if spurious || s.tokens != current then Put(s, i, Adding(add))
      else
        var tokens := Refilled(s, current, add);
        // Over the cap or past u64, the difference is lost; it is never gained.
        Put(s, i, Taking).(tokens := tokens, wasted := s.wasted + (current + add - Min(tokens, current + add)))
    case LoadToTake(i) =>
      if s.tokens == 0 then Put(s, i, Outside) else Put(s, i, TakeRead(s.tokens - 1))
    case SwapTake(i, spurious) =>
      var less := s.threads[i].less;
      if spurious || s.tokens != less + 1 then Put(s, i, Taking)
      else Put(s, i, Outside).(tokens := less, granted := s.granted + 1)
  }

  // ----- In-flight refills -----

  function Held(t: Thread): nat {
    match t
    case Adding(add) => add
    case AddRead(add, _) => add
    case _ => 0
  }

  /** Tokens taken from the clock but not yet put in the bucket. */
  function InFlight(threads: seq<Thread>): nat {
    if threads == [] then 0 else Held(threads[0]) + InFlight(threads[1..])
  }

  lemma {:induction false} InFlightPut(threads: seq<Thread>, i: nat, t: Thread)
    requires i < |threads|
    ensures InFlight(threads[i := t]) + Held(threads[i]) == InFlight(threads) + Held(t)
  {
    if i > 0 {
      assert threads[i := t][1..] == threads[1..][i - 1 := t];
      InFlightPut(threads[1..], i - 1, t);
    } else {
      assert threads[i := t][1..] == threads[1..];
    }
  }

  // ----- Arithmetic of refills -----

  lemma WrapAtMost(x: nat)
    ensures Wrap(x) <= x
  {
  }

  lemma DivMonotone(a: nat, b: nat)
    requires a <= b
    ensures a / 1000 <= b / 1000
  {
  }

  /** Whole tokens of two adjacent spans never exceed those of the span they make up. */
  lemma SpansAdd(a: nat, b: nat)
    ensures a / 1000 + b / 1000 <= (a + b) / 1000
  {
  }

  lemma EarnedAtMost(s: State, now: nat, last: nat)
    requires last <= now
    ensures Earned(s, now, last) <= (now - last) * s.rate / 1000
  {
    if last < now {
      WrapAtMost((now - last) * s.rate);
      DivMonotone(Wrap((now - last) * s.rate), (now - last) * s.rate);
    }
  }

  // ----- The invariant -----

  /** A thread's clock reading is not ahead of the clock, nor its refill reading of the refills. */
  predicate ThreadOk(s: State, t: Thread) {
    match t
    case ReadClock(now) => now <= s.clock
    case ReadLast(now, last, seen) =>
      && last < now <= s.clock
      && last <= s.last && seen <= s.moves
      && (last == s.last <==> seen == s.moves)
    case _ => true
  }

  /**
   * Every token ever issued is in the bucket, in flight, granted or lost to the cap; and since
   * `start`, when `base` tokens were to be had, refills issued no more than time earned.
   */
  predicate Inv(s: State, base: int, start: nat) {
    && s.tokens <= s.max
    && start <= s.last <= s.clock
    && (forall i :: 0 <= i < |s.threads| ==> ThreadOk(s, s.threads[i]))
    && s.granted + s.tokens + InFlight(s.threads) + s.wasted == s.max + s.issued
    && s.granted + s.tokens + InFlight(s.threads) <= base + (s.last - start) * s.rate / 1000
  }

  lemma InitOk(max: nat, n: nat)
    ensures Inv(Init(max, n), max, 0)
  {
    NoneInFlight(Init(max, n).threads);
  }

  lemma {:induction false} NoneInFlight(threads: seq<Thread>)
    requires forall i :: 0 <= i < |threads| ==> threads[i].Outside?
    ensures InFlight(threads) == 0
  {
    if threads != [] {
      NoneInFlight(threads[1..]);
    }
  }

  /** Moving `last_refill_ms` issues no more than the elapsed time earned. */
  lemma MoveKeepsBound(s: State, now: nat, start: nat)
    requires start <= s.last < now
    ensures (s.last - start) * s.rate / 1000 + Earned(s, now, s.last) <= (now - start) * s.rate / 1000
  {
    EarnedAtMost(s, now, s.last);
    SpansAdd((s.last - start) * s.rate, (now - s.last) * s.rate);
    assert (s.last - start) * s.rate + (now - s.last) * s.rate == (now - start) * s.rate;
  }

  /** No step disturbs what another thread has read. */
  lemma ThreadsKept(s: State, a: Action, base: int, start: nat)
    requires Inv(s, base, start) && Enabled(s, a)
    ensures var t := Step(s, a);
            forall j :: 0 <= j < |t.threads| ==> ThreadOk(t, t.threads[j])
  {
    var t := Step(s, a);
    forall j | 0 <= j < |t.threads| ensures ThreadOk(t, t.threads[j]) {
      assert ThreadOk(s, s.threads[j]);
      if !a.Tick? { assert ThreadOk(s, s.threads[a.i]); }
    }
  }

  /** Every atomic step of every thread keeps the invariant. */
  lemma StepKeeps(s: State, a: Action, base: int, start: nat)
    requires Inv(s, base, start) && Enabled(s, a)
    ensures Inv(Step(s, a), base, start)
  {
    var t := Step(s, a);
    ThreadsKept(s, a, base, start);
    if !a.Tick? {
      assert t.threads == s.threads[a.i := t.threads[a.i]];
      InFlightPut(s.threads, a.i, t.threads[a.i]);
      assert ThreadOk(s, s.threads[a.i]);
      if a.MoveLast? && t.last != s.last {
        MoveKeepsBound(s, s.threads[a.i].now, start);
      }
      if a.SwapAdd? {
        WrapAtMost(s.threads[a.i].current + s.threads[a.i].add);
      }
    }
  }

  // ----- Every run -----

  predicate Legal(s: State, actions: seq<Action>)
    decreases |actions|
  {
    actions != [] ==> Enabled(s, actions[0]) && Legal(Step(s, actions[0]), actions[1..])
  }

  function Run(s: State, actions: seq<Action>): State
    requires Legal(s, actions)
    decreases |actions|
  {
    if actions == [] then s else Run(Step(s, actions[0]), actions[1..])
  }

  lemma {:induction false} RunKeeps(s: State, actions: seq<Action>, base: int, start: nat)
    requires Inv(s, base, start) && Legal(s, actions)
    ensures var t := Run(s, actions);
            && Inv(t, base, start)
            && t.max == s.max && t.rate == s.rate
            && s.last <= t.last && s.clock <= t.clock && s.moves <= t.moves
    decreases |actions|
  {
    if actions != [] {
      var t := Step(s, actions[0]);
      StepKeeps(s, actions[0], base, start);
      MovesForward(s, actions[0], base, start);
      RunKeeps(t, actions[1..], base, start);
    }
  }

  /** `last_refill_ms` never goes back, and every move of it is a strict increase. */
  lemma MovesForward(s: State, a: Action, base: int, start: nat)
    requires Inv(s, base, start) && Enabled(s, a)
    ensures var t := Step(s, a);
            && s.last <= t.last
            && s.moves <= t.moves <= s.moves + 1
            && (s.moves < t.moves <==> s.last < t.last)
  {
    if a.MoveLast? {
      assert ThreadOk(s, s.threads[a.i]);
    }
  }

  /** A refill's exchange succeeds exactly when no other refill came in between: no ABA. */
  lemma MoveMeansUntouched(s: State, i: nat, base: int, start: nat)
    requires Inv(s, base, start) && Enabled(s, MoveLast(i))
    ensures Step(s, MoveLast(i)).threads[i].Adding? <==> s.threads[i].seen == s.moves
  {
    assert ThreadOk(s, s.threads[i]);
  }

  /** From the start: never more than the burst plus what the elapsed time earned. */
  lemma NeverOverGrants(max: nat, threads: nat, actions: seq<Action>)
    requires Legal(Init(max, threads), actions)
    ensures var t := Run(Init(max, threads), actions);
            && t.tokens <= max
            && t.granted + t.tokens + InFlight(t.threads) + t.wasted == max + t.issued
            && t.granted + t.tokens + InFlight(t.threads) <= max + t.last * max / 1000
            && t.granted <= max + t.clock * max / 1000
  {
    var s := Init(max, threads);
    InitOk(max, threads);
    RunKeeps(s, actions, max, 0);
    var t := Run(s, actions);
    ScaledMonotone(t.last, t.clock, max);
  }

  lemma ScaledMonotone(a: nat, b: nat, rate: nat)
    requires a <= b
    ensures a * rate / 1000 <= b * rate / 1000
  {
    assert a * rate <= b * rate;
    DivMonotone(a * rate, b * rate);
  }

  /** Over any stretch of any run: at most what was to be had at its start, plus what time earned. */
  lemma WindowBound(s: State, actions: seq<Action>, base: int, start: nat)
    requires Inv(s, base, start) && Legal(s, actions)
    ensures var t := Run(s, actions);
            t.granted - s.granted <= s.tokens + InFlight(s.threads) + (t.last - s.last) * s.rate / 1000
  {
    var had := s.granted + s.tokens + InFlight(s.threads);
    RunKeeps(s, actions, had, s.last);
  }

  // ----- One thread alone -----

  /** What a refill does when nobody interferes. */
  function AfterRefill(s: State): State {
    var add := Earned(s, s.clock, s.last);
    if add == 0 then s
    else
      var tokens := Refilled(s, s.tokens, add);
      s.(tokens := tokens, last := s.clock, issued := s.issued + add, moves := s.moves + 1,
         wasted := s.wasted + (s.tokens + add - Min(tokens, s.tokens + add)))
  }

  /** What `try_acquire` does when nobody interferes, and what it returns. */
  function Sequential(s: State): (State, bool) {
    var t := AfterRefill(s);
    if t.tokens == 0 then (t, false)
    else (t.(tokens := t.tokens - 1, granted := t.granted + 1), true)
  }

  function RefillSteps(s: State, i: nat): seq<Action> {
    [Enter(i)] + [LoadLast(i)] +
    if Earned(s, s.clock, s.last) == 0 then [] else [MoveLast(i)] + [LoadToAdd(i)] + [SwapAdd(i, false)]
  }

  function TakeSteps(s: State, i: nat): seq<Action> {
    [LoadToTake(i)] + if AfterRefill(s).tokens == 0 then [] else [SwapTake(i, false)]
  }

  lemma RunOne(s: State, a: Action)
    requires Enabled(s, a)
    ensures Legal(s, [a]) && Run(s, [a]) == Step(s, a)
  {
    assert [a][1..] == [];
  }

  lemma {:induction false} RunConcat(s: State, a: seq<Action>, b: seq<Action>)
    requires Legal(s, a) && Legal(Run(s, a), b)
    ensures Legal(s, a + b) && Run(s, a + b) == Run(Run(s, a), b)
    decreases |a|
  {
    if a == [] {
      assert a + b == b;
    } else {
      assert (a + b)[1..] == a[1..] + b;
      RunConcat(Step(s, a[0]), a[1..], b);
    }
  }

  lemma RunThen(s: State, actions: seq<Action>, a: Action)
    requires Legal(s, actions) && Enabled(Run(s, actions), a)
    ensures Legal(s, actions + [a]) && Run(s, actions + [a]) == Step(Run(s, actions), a)
  {
    RunOne(Run(s, actions), a);
    RunConcat(s, actions, [a]);
  }

  lemma PutTwice(threads: seq<Thread>, i: nat, t: Thread, u: Thread)
    requires i < |threads|
    ensures threads[i := t][i := u] == threads[i := u]
  {
  }

  /** The exchange of `last_refill_ms` and of the tokens, undisturbed. */
  lemma UndisturbedAdd(s: State, i: nat, now: nat, last: nat, seen: nat)
    requires i < |s.threads| && s.threads[i] == ReadLast(now, last, seen) && last == s.last && now == s.clock
    requires Earned(s, now, last) != 0
    ensures var steps := [MoveLast(i)] + [LoadToAdd(i)] + [SwapAdd(i, false)];
            Legal(s, steps) && Run(s, steps) == Put(AfterRefill(s), i, Taking)
  {
    var add := Earned(s, now, last);
    RunOne(s, MoveLast(i));
    RunThen(s, [MoveLast(i)], LoadToAdd(i));
    RunThen(s, [MoveLast(i)] + [LoadToAdd(i)], SwapAdd(i, false));
    PutTwice(s.threads, i, Adding(add), AddRead(add, s.tokens));
    PutTwice(s.threads, i, AddRead(add, s.tokens), Taking);
  }

  lemma UndisturbedRefill(s: State, i: nat)
    requires i < |s.threads| && s.threads[i].Outside?
    ensures Legal(s, RefillSteps(s, i)) && Run(s, RefillSteps(s, i)) == Put(AfterRefill(s), i, Taking)
  {
    var enter := [Enter(i)] + [LoadLast(i)];
    RunOne(s, Enter(i));
    RunThen(s, [Enter(i)], LoadLast(i));
    if Earned(s, s.clock, s.last) == 0 {
      PutTwice(s.threads, i, ReadClock(s.clock), Taking);
      assert enter + [] == enter;
    } else {
      var t := Run(s, enter);
      UndisturbedAdd(t, i, s.clock, s.last, s.moves);
      RunConcat(s, enter, [MoveLast(i)] + [LoadToAdd(i)] + [SwapAdd(i, false)]);
      PutTwice(s.threads, i, ReadClock(s.clock), ReadLast(s.clock, s.last, s.moves));
      PutTwice(s.threads, i, ReadLast(s.clock, s.last, s.moves), Taking);
    }
  }

  /** The last step of a call takes a token exactly when the call is granted. */
  lemma TakesWhenGranted(s: State, i: nat)
    ensures var steps := RefillSteps(s, i) + TakeSteps(s, i);
            && Sequential(s).0.granted == s.granted + (if Sequential(s).1 then 1 else 0)
            && (Sequential(s).1 <==> steps[|steps| - 1] == SwapTake(i, false))
  {
    var refill, take := RefillSteps(s, i), TakeSteps(s, i);
    assert (refill + take)[|refill + take| - 1] == take[|take| - 1];
  }

  /** The atomic steps of an undisturbed call add up to the sequential meaning. */
  lemma UndisturbedSteps(s: State, i: nat)
    requires i < |s.threads| && s.threads[i].Outside?
    ensures var steps := RefillSteps(s, i) + TakeSteps(s, i); Legal(s, steps) && Run(s, steps) == Sequential(s).0
  {
    UndisturbedRefill(s, i);
    var t := Run(s, RefillSteps(s, i));
    RunOne(t, LoadToTake(i));
    if t.tokens == 0 {
      assert [LoadToTake(i)] + [] == [LoadToTake(i)];
    } else {
      RunThen(t, [LoadToTake(i)], SwapTake(i, false));
      PutTwice(s.threads, i, Taking, TakeRead(t.tokens - 1));
      PutTwice(s.threads, i, TakeRead(t.tokens - 1), Outside);
    }
    PutTwice(s.threads, i, Taking, Outside);
    RunConcat(s, RefillSteps(s, i), TakeSteps(s, i));
  }

  /** And so does what it returns. */
  lemma UndisturbedCall(s: State, i: nat)
    requires i < |s.threads| && s.threads[i].Outside?
    ensures var steps := RefillSteps(s, i) + TakeSteps(s, i);
            && Legal(s, steps) && Run(s, steps) == Sequential(s).0
            && Run(s, steps).granted == s.granted + (if Sequential(s).1 then 1 else 0)
            && (Sequential(s).1 <==> steps[|steps| - 1] == SwapTake(i, false))
  {
    UndisturbedSteps(s, i);
    TakesWhenGranted(s, i);
  }

  // ----- Tokens come back -----

  /** The steps of one call and of nothing else; exchanges may fail spuriously. */
  predicate OneCall(actions: seq<Action>, i: nat) {
    && actions != [] && actions[0] == Enter(i)
    && forall k :: 0 < k < |actions| ==> IsWithin(actions[k], i)
  }

  predicate Completes(s: State, actions: seq<Action>, i: nat) {
    Legal(s, actions) && i < |Run(s, actions).threads| && Run(s, actions).threads[i].Outside?
  }

  predicate IsWithin(a: Action, i: nat) { !a.Tick? && !a.Enter? && a.i == i }

  /** A state with so many tokens and so many granted, whose refills stand at `last`. */
  predicate Stands(s: State, tokens: nat, last: nat, granted: nat) {
    s.tokens == tokens && s.last == last && s.granted == granted
  }

  /** Where a call that started at `s` is in `t`, if it found `earned` to add and then had `have`. */
  predicate CallAt(s: State, t: State, i: nat, earned: nat, have: nat) {
    && |t.threads| == |s.threads| && i < |t.threads| && t.max == s.max && t.rate == s.rate
    && var refilled := if earned > 0 then s.clock else s.last;
       match t.threads[i]
       case ReadClock(now) => now == s.clock && Stands(t, s.tokens, s.last, s.granted)
       case ReadLast(now, last, _) => now == s.clock && last == s.last && earned > 0 && Stands(t, s.tokens, s.last, s.granted)
       case Adding(add) => add == earned > 0 && Stands(t, s.tokens, s.clock, s.granted)
       case AddRead(add, current) => add == earned > 0 && current == s.tokens && Stands(t, s.tokens, s.clock, s.granted)
       case Taking => Stands(t, have, refilled, s.granted)
       case TakeRead(less) => less + 1 == have && Stands(t, have, refilled, s.granted)
       case Outside => Stands(t, if have > 0 then have - 1 else 0, refilled, s.granted + if have > 0 then 1 else 0)
  }

  /** With so much to add, the bucket then holds so many. */
  predicate Holds(s: State, earned: nat, have: nat) {
    && s.tokens <= s.max
    && have == if earned == 0 then s.tokens else Min((s.tokens + earned) % 0x1_0000_0000_0000_0000, s.max)
  }

  lemma EarnedIs(s: State, product: nat)
    requires s.last <= s.clock && product == (s.clock - s.last) * s.rate
    ensures Earned(s, s.clock, s.last) == product % 0x1_0000_0000_0000_0000 / 1000
  {
    if s.clock == s.last { assert product == 0; }
  }

  lemma SameRate(s: State, t: State)
    requires s.rate == t.rate
    ensures Earned(t, s.clock, s.last) == Earned(s, s.clock, s.last)
  {
  }

  lemma CallStep(s: State, t: State, a: Action, i: nat, earned: nat, have: nat)
    requires Holds(s, earned, have) && CallAt(s, t, i, earned, have) && Enabled(t, a) && IsWithin(a, i)
    requires Earned(s, s.clock, s.last) == earned
    ensures CallAt(s, Step(t, a), i, earned, have)
  {
    hide Earned;
    SameRate(s, t);
  }

  lemma {:induction false} CallRuns(s: State, t: State, actions: seq<Action>, i: nat, earned: nat, have: nat)
    requires Holds(s, earned, have) && CallAt(s, t, i, earned, have) && Legal(t, actions)
    requires Earned(s, s.clock, s.last) == earned
    requires forall k :: 0 <= k < |actions| ==> IsWithin(actions[k], i)
    ensures CallAt(s, Run(t, actions), i, earned, have)
    decreases |actions|
  {
    hide Earned, Step, CallAt, Holds;
    if actions != [] {
      CallStep(s, t, actions[0], i, earned, have);
      CallRuns(s, Step(t, actions[0]), actions[1..], i, earned, have);
    }
  }

  /**
   * A call that no other thread overtakes, in whatever steps it takes: it finds what the time
   * since the last refill earned, is granted if and only if the bucket then holds a token, and
   * leaves the rest; and the refill time moves if and only if a whole token was earned.
   */
  lemma CallEarnsAndTakes(s: State, actions: seq<Action>, i: nat, product: nat)
    requires s.last <= s.clock && s.tokens <= s.max && product == (s.clock - s.last) * s.rate
    requires OneCall(actions, i) && Completes(s, actions, i)
    ensures var t := Run(s, actions);
            var earned := product % 0x1_0000_0000_0000_0000 / 1000;
            var have := if earned == 0 then s.tokens else Min((s.tokens + earned) % 0x1_0000_0000_0000_0000, s.max);
            && t.granted == s.granted + (if have > 0 then 1 else 0)
            && t.tokens == (if have > 0 then have - 1 else 0)
            && t.last == (if earned > 0 then s.clock else s.last)
  {
    hide Earned;
    var earned := product % 0x1_0000_0000_0000_0000 / 1000;
    var have := if earned == 0 then s.tokens else Min((s.tokens + earned) % 0x1_0000_0000_0000_0000, s.max);
    EarnedIs(s, product);
    CallRuns(s, Step(s, Enter(i)), actions[1..], i, earned, have);
  }

  lemma NoWrap(tokens: nat, product: nat, max: nat)
    requires tokens <= max && product < U64 && tokens + product / 1000 < U64
    ensures var earned := product % 0x1_0000_0000_0000_0000 / 1000;
            var have := if earned == 0 then tokens else Min((tokens + earned) % 0x1_0000_0000_0000_0000, max);
            earned == product / 1000 && have == Min(max, tokens + product / 1000) && (earned > 0 <==> product >= 1000)
  {
  }

  /** While nothing reaches 2^64: a call is granted exactly when the tokens and what was earned since make at least one. */
  lemma CallIsGrantedIff(s: State, actions: seq<Action>, i: nat, product: nat)
    requires s.last <= s.clock && s.tokens <= s.max && product == (s.clock - s.last) * s.rate
    requires product < U64 && s.tokens + product / 1000 < U64
    requires OneCall(actions, i) && Completes(s, actions, i)
    ensures var t := Run(s, actions);
            var sum := s.tokens + product / 1000;
            && t.granted == s.granted + (if sum > 0 && s.max > 0 then 1 else 0)
            && t.tokens == (if sum > 0 && s.max > 0 then Min(s.max, sum) - 1 else 0)
            && t.last == (if product >= 1000 then s.clock else s.last)
  {
    hide Run, Step, Legal, Enabled;
    CallEarnsAndTakes(s, actions, i, product);
    NoWrap(s.tokens, product, s.max);
  }

  /** Refills issue what time earns, but for less than a token at each of them. */
  predicate IssuesAll(s: State) {
    s.last * s.rate <= 1000 * s.issued + 999 * s.moves && 1000 * s.issued <= s.last * s.rate
  }

  lemma WholeTokens(x: nat)
    ensures 1000 * (x / 1000) <= x <= 1000 * (x / 1000) + 999
  {
  }

  lemma ProductsFit(a: nat, b: nat, rate: nat)
    requires a <= b && b * rate < U64
    ensures a * rate < U64
  {
    assert a * rate <= b * rate;
  }

  lemma StepIssues(s: State, a: Action, base: int, start: nat)
    requires Inv(s, base, start) && Enabled(s, a) && IssuesAll(s) && s.clock * s.rate < U64
    ensures IssuesAll(Step(s, a))
  {
    if a.MoveLast? {
      assert ThreadOk(s, s.threads[a.i]);
      var now := s.threads[a.i].now;
      if s.last == s.threads[a.i].last {
        ProductsFit(now - s.last, s.clock, s.rate);
        WholeTokens((now - s.last) * s.rate);
        assert (now - s.last) * s.rate + s.last * s.rate == now * s.rate;
      }
    }
  }

  lemma {:induction false} RunIssues(s: State, actions: seq<Action>, base: int, start: nat)
    requires Inv(s, base, start) && Legal(s, actions) && IssuesAll(s) && Run(s, actions).clock * s.rate < U64
    ensures IssuesAll(Run(s, actions))
    decreases |actions|
  {
    if actions != [] {
      var t := Step(s, actions[0]);
      RunKeeps(s, actions, base, start);
      ProductsFit(s.clock, Run(s, actions).clock, s.rate);
      StepIssues(s, actions[0], base, start);
      StepKeeps(s, actions[0], base, start);
      RunIssues(t, actions[1..], base, start);
    }
  }

  /**
   * However many threads and in any interleaving, until 2^64 is reached: refills issue all that
   * time earned up to the last of them, less than a whole token each missing, and no more; and all
   * of it is granted, held, about to be added, or lost to the cap.
   */
  lemma NeverUnderIssues(max: nat, threads: nat, actions: seq<Action>)
    requires Legal(Init(max, threads), actions) && Run(Init(max, threads), actions).clock * max < U64
    ensures var t := Run(Init(max, threads), actions);
            && t.last * max <= 1000 * t.issued + 999 * t.moves && 1000 * t.issued <= t.last * max
            && t.granted + t.tokens + InFlight(t.threads) + t.wasted == max + t.issued
  {
    InitOk(max, threads);
    RunIssues(Init(max, threads), actions, max, 0);
    NeverOverGrants(max, threads, actions);
    RunKeeps(Init(max, threads), actions, max, 0);
  }
}
