/**
 * The circuit breaker, and the rule over its call history that it refines.
 * Source: crates/core/sre/src/circuit_breaker.rs.
 */
module CircuitBreaker {
  import opened Common

  datatype CircuitState = Closed | Open | HalfOpen

  datatype Inner = Inner(state: CircuitState, failureCount: nat, lastFailureTime: Option<int>)

  datatype Config = Config(failureThreshold: nat, resetTimeout: nat)

  datatype Event = Ask(at: int) | Success(at: int) | Failure(at: int)

  const INITIAL: Inner := Inner(Closed, 0, None)

  predicate Allows(cfg: Config, s: Inner, now: int) {
    match s.state
    case Closed => true
    case HalfOpen => true
    case Open => s.lastFailureTime.Some? && now - s.lastFailureTime.value >= cfg.resetTimeout
  }

  /** The counter is a u32; its increment wraps. */
  function Step(cfg: Config, s: Inner, e: Event): Inner {
    match e
    case Ask(at) => if s.state.Open? && Allows(cfg, s, at) then s.(state := HalfOpen) else s
    case Success(_) => s.(state := Closed, failureCount := 0)
    case Failure(at) =>
      var n := (s.failureCount + 1) % U32;
      if n >= cfg.failureThreshold then Inner(Open, n, Some(at)) else s.(failureCount := n)
  }

  function Exec(cfg: Config, h: seq<Event>): Inner {
    if h == [] then INITIAL else Step(cfg, Exec(cfg, Init(h)), Last(h))
  }

  // ---- The rule, from the history alone ----

  function FailuresSinceSuccess(h: seq<Event>): nat {
    if h == [] then 0
    else match Last(h)
         case Ask(_) => FailuresSinceSuccess(Init(h))
         case Success(_) => 0
         case Failure(_) => FailuresSinceSuccess(Init(h)) + 1
  }

  function LastFailure(h: seq<Event>): Option<int> {
    if h == [] then None
    else if Last(h).Failure? then Some(Last(h).at)
    else LastFailure(Init(h))
  }

  predicate LongAgo(cfg: Config, time: Option<int>, now: int) {
    time.Some? && now - time.value >= cfg.resetTimeout
  }

  /** Too few failures since the last success, or the last of them long enough ago. */
  predicate Rule(cfg: Config, h: seq<Event>, now: int) {
    FailuresSinceSuccess(h) < Max(cfg.failureThreshold, 1) || LongAgo(cfg, LastFailure(h), now)
  }

  /** The last failure that left the wrapped count at the threshold or above: only such a failure is timed. */
  function LastTimed(cfg: Config, h: seq<Event>): Option<int> {
    if h == [] then None
    else if Last(h).Failure? && FailuresSinceSuccess(h) % U32 >= cfg.failureThreshold then Some(Last(h).at)
    else LastTimed(cfg, Init(h))
  }

  predicate Timely(h: seq<Event>) {
    forall i, j | 0 <= i < j < |h| :: h[i].at <= h[j].at
  }

  /** Every event of h happened by this time. */
  predicate By(h: seq<Event>, now: int) {
    forall i | 0 <= i < |h| :: h[i].at <= now
  }

  lemma TimelyInit(h: seq<Event>, now: int)
    requires h != [] && Timely(h) && By(h, now)
    ensures Timely(Init(h)) && By(Init(h), Last(h).at) && Last(h).at <= now
  {
  }

  /** How the state reflects the history. */
  predicate Reflects(cfg: Config, s: Inner, h: seq<Event>) {
    && s.failureCount == FailuresSinceSuccess(h) % U32
    && s.lastFailureTime == LastTimed(cfg, h)
    && (s.state == Closed <==> FailuresSinceSuccess(h) < Max(cfg.failureThreshold, 1))
    && (s.state != Closed ==> LastTimed(cfg, h).Some?)
    && (s.state == HalfOpen ==> h != [] && LongAgo(cfg, LastTimed(cfg, h), Last(h).at))
  }

  lemma CountSteps(n: nat)
    ensures (n + 1) % U32 == (n % U32 + 1) % U32
    ensures n + 1 < U32 ==> (n + 1) % U32 == n + 1
  {
  }

  lemma {:induction false} StateReflectsHistory(cfg: Config, h: seq<Event>, now: int)
    requires Timely(h) && By(h, now) && cfg.failureThreshold < U32
    ensures Reflects(cfg, Exec(cfg, h), h)
  {
    if h != [] {
      TimelyInit(h, now);
      StateReflectsHistory(cfg, Init(h), Last(h).at);
      CountSteps(FailuresSinceSuccess(Init(h)));
      if Init(h) != [] {
        assert Init(h)[|Init(h)| - 1].at <= Last(h).at;
      }
    }
  }

  /**
   * Refinement, of every timed call history and every failure count. The breaker allows a request
   * exactly when there were too few failures since the last success, or the last failure it timed is
   * long enough ago.
   */
  lemma AllowsByTimedFailure(cfg: Config, h: seq<Event>, now: int)
    requires Timely(h) && By(h, now) && cfg.failureThreshold < U32
    ensures Allows(cfg, Exec(cfg, h), now)
            <==> FailuresSinceSuccess(h) < Max(cfg.failureThreshold, 1) || LongAgo(cfg, LastTimed(cfg, h), now)
  {
    StateReflectsHistory(cfg, h, now);
    if h != [] {
      assert Last(h).at == h[|h| - 1].at <= now;
    }
  }

  /** A timed failure is a failure, and the last failure is timed whenever the wrapped count says so. */
  lemma {:induction false} TimedIsFailure(cfg: Config, h: seq<Event>, now: int)
    requires Timely(h) && By(h, now)
    ensures LastTimed(cfg, h).Some? ==>
              LastFailure(h).Some? && LastTimed(cfg, h).value <= LastFailure(h).value <= now
    ensures FailuresSinceSuccess(h) > 0 && FailuresSinceSuccess(h) % U32 >= cfg.failureThreshold ==>
              LastTimed(cfg, h) == LastFailure(h)
  {
    if h != [] {
      TimelyInit(h, now);
      TimedIsFailure(cfg, Init(h), Last(h).at);
    }
  }

  /** Enough failures, the last timed one long ago, and a later one, untimed, that was not. */
  predicate ForgetsFailure(cfg: Config, h: seq<Event>, now: int) {
    && FailuresSinceSuccess(h) >= Max(cfg.failureThreshold, 1)
    && LongAgo(cfg, LastTimed(cfg, h), now)
    && LastFailure(h).Some? && now < LastFailure(h).value + cfg.resetTimeout
  }

  /**
   * Exactly when the breaker follows the rule: unless its counter has wrapped below the threshold,
   * and a failure it did not time for that reason is the only one less than the timeout ago. When
   * it departs from the rule, it allows what the rule refuses.
   */
  lemma FollowsRuleIff(cfg: Config, h: seq<Event>, now: int)
    requires Timely(h) && By(h, now) && cfg.failureThreshold < U32
    ensures (Allows(cfg, Exec(cfg, h), now) <==> Rule(cfg, h, now)) <==> !ForgetsFailure(cfg, h, now)
    ensures Rule(cfg, h, now) ==> Allows(cfg, Exec(cfg, h), now)
    ensures ForgetsFailure(cfg, h, now) ==> FailuresSinceSuccess(h) % U32 < cfg.failureThreshold
  {
    AllowsByTimedFailure(cfg, h, now);
    StateReflectsHistory(cfg, h, now);
    TimedIsFailure(cfg, h, now);
  }

  /** With fewer than 2^32 failures since the last success, whatever came before it, the breaker follows the rule. */
  lemma AllowsByRule(cfg: Config, h: seq<Event>, now: int)
    requires Timely(h) && By(h, now) && cfg.failureThreshold < U32
    requires FailuresSinceSuccess(h) < U32
    ensures Allows(cfg, Exec(cfg, h), now) <==> Rule(cfg, h, now)
  {
    FollowsRuleIff(cfg, h, now);
  }

  function Failures(n: nat): seq<Event> {
    if n == 0 then [] else Failures(n - 1) + [Failure(0)]
  }

  lemma AnotherFailure(n: nat, cfg: Config)
    requires cfg.failureThreshold == 1 && n + 1 < U32
    ensures Step(cfg, if n == 0 then INITIAL else Inner(Open, n, Some(0)), Failure(0)) == Inner(Open, n + 1, Some(0))
  {
  }

  lemma {:induction false} ManyFailures(cfg: Config, n: nat)
    requires cfg.failureThreshold == 1 && n < U32
    ensures Exec(cfg, Failures(n)) == if n == 0 then INITIAL else Inner(Open, n, Some(0))
    ensures FailuresSinceSuccess(Failures(n)) == n
  {
    if n > 0 {
      ManyFailures(cfg, n - 1);
      InitOfSnoc(Failures(n - 1), Failure(0));
      AnotherFailure(n - 1, cfg);
    }
  }

  /** The bound on failures is tight: the 2^32-th failure in a row wraps the counter and is not timed. */
  lemma WrapForgetsFailure(n: nat, t: nat)
    requires n == U32 - 1 && t > 0
    ensures var cfg, h := Config(1, t), Failures(n) + [Failure(t)];
            Allows(cfg, Exec(cfg, h), t) && !Rule(cfg, h, t)
  {
    ManyFailures(Config(1, t), n);
    InitOfSnoc(Failures(n), Failure(t));
  }

  /** The history without its questions. */
  function WithoutAsks(h: seq<Event>): seq<Event> {
    if h == [] then []
    else WithoutAsks(Init(h)) + if Last(h).Ask? then [] else [Last(h)]
  }

  lemma {:induction false} AsksDoNotCount(cfg: Config, h: seq<Event>)
    ensures FailuresSinceSuccess(WithoutAsks(h)) == FailuresSinceSuccess(h)
    ensures LastTimed(cfg, WithoutAsks(h)) == LastTimed(cfg, h)
  {
    if h != [] {
      AsksDoNotCount(cfg, Init(h));
      if Last(h).Ask? {
        assert WithoutAsks(h) == WithoutAsks(Init(h));
      } else {
        InitOfSnoc(WithoutAsks(Init(h)), Last(h));
      }
    }
  }

  lemma {:induction false} AsksRemovedTimely(h: seq<Event>, now: int)
    requires Timely(h) && By(h, now)
    ensures Timely(WithoutAsks(h)) && By(WithoutAsks(h), now)
  {
    if h != [] {
      TimelyInit(h, now);
      AsksRemovedTimely(Init(h), Last(h).at);
    }
  }

  /**
   * Asking leaves no trace: in every timed history, earlier questions, and so the HalfOpen state,
   * never change a later answer.
   */
  lemma AskingIsUnobservable(cfg: Config, h: seq<Event>, now: int)
    requires Timely(h) && By(h, now) && cfg.failureThreshold < U32
    ensures Allows(cfg, Exec(cfg, h), now) <==> Allows(cfg, Exec(cfg, WithoutAsks(h)), now)
  {
    AsksRemovedTimely(h, now);
    AsksDoNotCount(cfg, h);
    AllowsByTimedFailure(cfg, h, now);
    AllowsByTimedFailure(cfg, WithoutAsks(h), now);
  }

  lemma TimelySnoc(h: seq<Event>, e: Event)
    requires Timely(h + [e])
    ensures Timely(h) && By(h, e.at)
  {
    var g := h + [e];
    assert forall i | 0 <= i < |h| :: h[i] == g[i] && g[i].at <= g[|h|].at;
  }

  // ---- The breaker object ----

  class CircuitBreaker {
    const cfg: Config
    var state: CircuitState
    var failureCount: nat
    var lastFailureTime: Option<int>
    // Every call so far, oldest first.
    ghost var history: seq<Event>

    ghost function Value(): Inner
      reads this
    {
      Inner(state, failureCount, lastFailureTime)
    }

    ghost predicate Valid()
      reads this
    {
      cfg.failureThreshold < U32 && Value() == Exec(cfg, history)
    }

    constructor (failureThreshold: nat, resetTimeout: nat)
      requires failureThreshold < U32
      ensures Valid() && history == [] && cfg == Config(failureThreshold, resetTimeout)
    {
      cfg := Config(failureThreshold, resetTimeout);
      state, failureCount, lastFailureTime, history := Closed, 0, None, [];
    }

    /**
     * While the clock does not go back, the answer is the one of the breaker's own history: by the
     * rule, but for the failures that a wrapped counter did not time.
     */
    method IsAllowed(now: int) returns (allowed: bool)
      requires Valid()
      modifies this
      ensures Valid() && history == old(history) + [Ask(now)]
      ensures allowed <==> Allows(cfg, old(Value()), now)
      ensures Timely(history) ==>
                ((allowed <==> Rule(cfg, old(history), now)) <==> !ForgetsFailure(cfg, old(history), now))
      ensures Timely(history) && FailuresSinceSuccess(old(history)) < U32 ==> (allowed <==> Rule(cfg, old(history), now))
    {
      match state {
        case Closed => allowed := true;
        case Open =>
          if lastFailureTime.Some? {
            if now - lastFailureTime.value >= cfg.resetTimeout {
              state := HalfOpen;
              allowed := true;
            } else {
              allowed := false;
            }
          } else {
            allowed := false;
          }
        case HalfOpen => allowed := true;
      }
      InitOfSnoc(history, Ask(now));
      if Timely(history + [Ask(now)]) {
        TimelySnoc(history, Ask(now));
        FollowsRuleIff(cfg, history, now);
      }
      history := history + [Ask(now)];
    }

    method RecordSuccess(now: int)
      requires Valid()
      modifies this
      ensures Valid() && history == old(history) + [Success(now)]
      ensures state == Closed && failureCount == 0 && lastFailureTime == old(lastFailureTime)
    {
      state := Closed;
      failureCount := 0;
      InitOfSnoc(history, Success(now));
      history := history + [Success(now)];
    }

    method RecordFailure(now: int)
      requires Valid()
      modifies this
      ensures Valid() && history == old(history) + [Failure(now)]
      ensures failureCount == (old(failureCount) + 1) % 4_294_967_296
      ensures state == if failureCount >= cfg.failureThreshold then Open else old(state)
      ensures lastFailureTime == if failureCount >= cfg.failureThreshold then Some(now) else old(lastFailureTime)
    {
      failureCount := (failureCount + 1) % U32;
      if failureCount >= cfg.failureThreshold {
        state := Open;
        lastFailureTime := Some(now);
      }
      InitOfSnoc(history, Failure(now));
      history := history + [Failure(now)];
    }
  }
}
