/**
 * The gateway's per-agent rate limiter.
 * Source: the rate-limiting block of mcp_proxy_handler in crates/daemon/src/gateway.rs.
 */
module RateLimiter {
  import opened Common

  const I32_LIMIT: int := 0x8000_0000

  /** A u32 reinterpreted as an i32. */
  function AsI32(n: int): int
    requires 0 <= n < U32
  {
    if n < I32_LIMIT then n else n - U32
  }

  /** One second divided by an i32, truncated towards zero to nanoseconds. */
  function SecondOver(d: int): int
    requires d != 0
  {
    if d > 0 then SECOND / d else -(SECOND / -d)
  }

  /** The least time between two accepted requests, for a limit in requests per second. */
  function Interval(rps: int): int
    requires 0 <= rps < U32
  {
    SecondOver(AsI32(Max(rps, 1)))
  }

  lemma IntervalExact(rps: int)
    requires 0 <= rps < U32
    ensures rps == 0 ==> Interval(rps) == 1_000_000_000
    ensures 0 < rps < 2_147_483_648 ==> Interval(rps) == 1_000_000_000 / rps
    ensures 0 < Interval(rps) <==> rps <= 1_000_000_000
    ensures rps >= 2_147_483_648 ==> Interval(rps) == -(1_000_000_000 / (4_294_967_296 - rps))
  {
    var m := Max(rps, 1);
    if m <= SECOND {
      assert SECOND / m >= 1 by {
        assert SECOND - m * (SECOND / m) < m;
      }
    } else if m < I32_LIMIT {
      assert SECOND / m == 0;
    }
  }

  // ---- Specification: all agents, one request at a time ----

  datatype Request = Request(did: string, at: int, interval: int)

  predicate Allows(last: Option<int>, at: int, interval: int) {
    last.None? || at - last.value >= interval
  }

  function Step(lastRequests: map<string, int>, r: Request): map<string, int> {
    if Allows(Get(lastRequests, r.did), r.at, r.interval) then lastRequests[r.did := r.at] else lastRequests
  }

  function LastAccepted(rs: seq<Request>): map<string, int> {
    if rs == [] then map[] else Step(LastAccepted(Init(rs)), Last(rs))
  }

  predicate Accepted(rs: seq<Request>, i: nat)
    requires i < |rs|
  {
    Allows(Get(LastAccepted(rs[..i]), rs[i].did), rs[i].at, rs[i].interval)
  }

  // ---- One agent under a fixed limit ----

  /** Which of the times are accepted, when the last accepted one before them was last. */
  function Greedy(last: Option<int>, times: seq<int>, interval: int): (accepted: seq<bool>)
    ensures |accepted| == |times|
    decreases |times|
  {
    if times == [] then []
    else
      var ok := Allows(last, times[0], interval);
      [ok] + Greedy(if ok then Some(times[0]) else last, times[1..], interval)
  }

  predicate NonDecreasing(times: seq<int>) {
    forall i, j | 0 <= i < j < |times| :: times[i] <= times[j]
  }

  function Count(picked: seq<bool>): nat {
    if picked == [] then 0 else (if picked[0] then 1 else 0) + Count(picked[1..])
  }

  /** Any two picked times lie at least the interval apart. */
  predicate Spaced(times: seq<int>, picked: seq<bool>, interval: int)
    requires |picked| == |times|
  {
    forall i, j | 0 <= i < j < |times| && picked[i] && picked[j] :: times[j] - times[i] >= interval
  }

  predicate AfterLast(last: Option<int>, times: seq<int>, picked: seq<bool>, interval: int)
    requires |picked| == |times|
  {
    last.Some? ==> forall i | 0 <= i < |times| && picked[i] :: times[i] - last.value >= interval
  }

  lemma {:induction false} GreedyIsSpaced(last: Option<int>, times: seq<int>, interval: int)
    requires NonDecreasing(times) && (last.Some? && times != [] ==> last.value <= times[0])
    ensures Spaced(times, Greedy(last, times, interval), interval)
    ensures AfterLast(last, times, Greedy(last, times, interval), interval)
    decreases |times|
  {
    if times != [] {
      var ok := Allows(last, times[0], interval);
      var next := if ok then Some(times[0]) else last;
      var rest := times[1..];
      GreedyIsSpaced(next, rest, interval);
      var g, h := Greedy(last, times, interval), Greedy(next, rest, interval);
      assert forall i | 0 < i < |times| :: times[i] == rest[i - 1] && g[i] == h[i - 1];
      if ok {
        forall i | 0 < i < |times| && g[i] ensures times[i] - times[0] >= interval {
          assert h[i - 1];
        }
      }
    }
  }

  lemma CountGreedy(last: Option<int>, times: seq<int>, interval: int)
    requires times != []
    ensures var ok := Allows(last, times[0], interval);
            Count(Greedy(last, times, interval))
            == (if ok then 1 else 0) + Count(Greedy(if ok then Some(times[0]) else last, times[1..], interval))
  {
    var ok := Allows(last, times[0], interval);
    assert Greedy(last, times, interval)[1..] == Greedy(if ok then Some(times[0]) else last, times[1..], interval);
  }

  /** What a spaced choice leaves for the times after the first. */
  lemma SpacedTail(otherLast: Option<int>, times: seq<int>, picked: seq<bool>, interval: int)
    requires |picked| == |times| && times != [] && NonDecreasing(times)
    requires Spaced(times, picked, interval) && AfterLast(otherLast, times, picked, interval)
    ensures NonDecreasing(times[1..]) && Spaced(times[1..], picked[1..], interval)
    ensures AfterLast(if picked[0] then Some(times[0]) else otherLast, times[1..], picked[1..], interval)
    ensures forall i | 0 <= i < |times[1..]| :: times[0] <= times[1..][i]
  {
    var rest, more := times[1..], picked[1..];
    assert forall i | 0 <= i < |rest| :: rest[i] == times[i + 1] && more[i] == picked[i + 1];
  }

  /**
   * The greedy choice stays ahead: started with a lead, or level with a last acceptance no later, it
   * picks at least as many of the remaining times as any other spaced choice.
   */
  lemma {:induction false} GreedyStaysAhead(
      last: Option<int>, otherLast: Option<int>, lead: nat, times: seq<int>, picked: seq<bool>, interval: int)
    requires |picked| == |times| && NonDecreasing(times) && interval >= 0
    requires Spaced(times, picked, interval) && AfterLast(otherLast, times, picked, interval)
    requires last.Some? ==> forall i | 0 <= i < |times| :: last.value <= times[i]
    requires lead == 0 ==> last.None? || (otherLast.Some? && last.value <= otherLast.value)
    ensures lead + Count(Greedy(last, times, interval)) >= Count(picked)
    decreases |times|
  {
    if times != [] {
      var rest, more := times[1..], picked[1..];
      var ok := Allows(last, times[0], interval);
      SpacedTail(otherLast, times, picked, interval);
      CountGreedy(last, times, interval);
      if picked[0] {
        if ok {
          GreedyStaysAhead(Some(times[0]), Some(times[0]), lead, rest, more, interval);
        } else {
          assert lead > 0;
          GreedyStaysAhead(last, Some(times[0]), lead - 1, rest, more, interval);
        }
      } else if ok {
        GreedyStaysAhead(Some(times[0]), otherLast, lead + 1, rest, more, interval);
      } else {
        GreedyStaysAhead(last, otherLast, lead, rest, more, interval);
      }
    }
  }

  /** The accepted requests are a largest choice of request times with all gaps at least the interval. */
  lemma GreedyIsMaximal(times: seq<int>, picked: seq<bool>, interval: int)
    requires |picked| == |times| && NonDecreasing(times) && interval >= 0
    ensures Spaced(times, Greedy(None, times, interval), interval)
    ensures Spaced(times, picked, interval) ==> Count(picked) <= Count(Greedy(None, times, interval))
  {
    GreedyIsSpaced(None, times, interval);
    if Spaced(times, picked, interval) {
      GreedyStaysAhead(None, None, 0, times, picked, interval);
    }
  }

  /** The accepted times in the window from lo up to hi, hi excluded. */
  function CountIn(times: seq<int>, picked: seq<bool>, lo: int, hi: int): nat
    requires |picked| == |times|
  {
    if times == [] then 0
    else (if picked[0] && lo <= times[0] < hi then 1 else 0) + CountIn(times[1..], picked[1..], lo, hi)
  }

  /** After one accepted time, those an interval later and on leave room for it. */
  lemma OneMoreFits(n: nat, lo: int, at: int, hi: int, interval: int)
    requires interval > 0 && lo <= at < hi
    requires n * interval < Max(hi - (at + interval), 0) + interval && (hi <= at + interval ==> n == 0)
    ensures (n + 1) * interval < Max(hi - lo, 0) + interval
  {
    assert (n + 1) * interval == n * interval + interval;
  }

  /** Spaced times in a window fit as many as whole intervals do, rounded up. */
  lemma {:induction false} SpacedInWindow(times: seq<int>, picked: seq<bool>, lo: int, hi: int, interval: int)
    requires |picked| == |times| && NonDecreasing(times) && interval > 0
    requires Spaced(times, picked, interval)
    ensures CountIn(times, picked, lo, hi) * interval < Max(hi - lo, 0) + interval
    decreases |times|
  {
    if times != [] {
      var rest, more := times[1..], picked[1..];
      SpacedTail(None, times, picked, interval);
      if picked[0] && lo <= times[0] < hi {
        var next := times[0] + interval;
        SpacedInWindow(rest, more, next, hi, interval);
        NoneBefore(rest, more, lo, next, hi);
        if hi <= next {
          NoneInEmpty(rest, more, next, hi);
        }
        OneMoreFits(CountIn(rest, more, next, hi), lo, times[0], hi, interval);
      } else {
        SpacedInWindow(rest, more, lo, hi, interval);
      }
    }
  }

  lemma {:induction false} NoneBefore(times: seq<int>, picked: seq<bool>, lo: int, next: int, hi: int)
    requires |picked| == |times| && lo <= next
    requires forall i | 0 <= i < |times| && picked[i] :: next <= times[i]
    ensures CountIn(times, picked, lo, hi) == CountIn(times, picked, next, hi)
  {
    if times != [] {
      NoneBefore(times[1..], picked[1..], lo, next, hi);
    }
  }

  lemma {:induction false} NoneInEmpty(times: seq<int>, picked: seq<bool>, lo: int, hi: int)
    requires |picked| == |times| && hi <= lo
    ensures CountIn(times, picked, lo, hi) == 0
  {
    if times != [] {
      NoneInEmpty(times[1..], picked[1..], lo, hi);
    }
  }

  /** Any half-open window of W nanoseconds accepts at most ceil(W / interval) requests. */
  lemma WindowBound(times: seq<int>, lo: int, width: nat, interval: int)
    requires NonDecreasing(times) && interval > 0
    ensures CountIn(times, Greedy(None, times, interval), lo, lo + width) <= (width + interval - 1) / interval
  {
    GreedyIsSpaced(None, times, interval);
    SpacedInWindow(times, Greedy(None, times, interval), lo, lo + width, interval);
    var n := CountIn(times, Greedy(None, times, interval), lo, lo + width);
    QuotientBound(n, width + interval - 1, interval);
  }

  lemma QuotientBound(n: int, a: int, b: int)
    requires b > 0 && n * b <= a
    ensures n <= a / b
  {
    var q := a / b;
    assert a < q * b + b;
    assert (q + 1) * b == q * b + b;
    assert n >= q + 1 ==> n * b >= (q + 1) * b;
  }

  /** The accepted times alone, in order. */
  function Kept(times: seq<int>, picked: seq<bool>): seq<int>
    requires |picked| == |times|
  {
    if times == [] then [] else (if picked[0] then [times[0]] else []) + Kept(times[1..], picked[1..])
  }

  /** Refused requests never delay a later acceptance: without them, exactly the same times are accepted. */
  lemma {:induction false} RefusalsCostNothing(last: Option<int>, times: seq<int>, interval: int)
    ensures var kept := Kept(times, Greedy(last, times, interval));
            Greedy(last, kept, interval) == seq(|kept|, i => true)
    decreases |times|
  {
    if times != [] {
      var ok := Allows(last, times[0], interval);
      var next := if ok then Some(times[0]) else last;
      RefusalsCostNothing(next, times[1..], interval);
      assert Greedy(last, times, interval)[1..] == Greedy(next, times[1..], interval);
      var kept, later := Kept(times, Greedy(last, times, interval)), Kept(times[1..], Greedy(next, times[1..], interval));
      if ok {
        assert kept == [times[0]] + later && kept[1..] == later;
      } else {
        assert kept == [] + later == later;
      }
    }
  }

  // ---- From all agents to one ----

  function TimesOf(rs: seq<Request>, did: string): seq<int> {
    if rs == [] then []
    else TimesOf(Init(rs), did) + if Last(rs).did == did then [Last(rs).at] else []
  }

  function DecisionsFor(rs: seq<Request>, did: string): seq<bool> {
    if rs == [] then []
    else DecisionsFor(Init(rs), did) + if Last(rs).did == did then [Accepted(rs, |rs| - 1)] else []
  }

  predicate FixedLimit(rs: seq<Request>, did: string, interval: int) {
    forall i | 0 <= i < |rs| && rs[i].did == did :: rs[i].interval == interval
  }

  /** The last accepted of the times, after a start at last. */
  function LastOf(last: Option<int>, times: seq<int>, interval: int): Option<int>
    decreases |times|
  {
    if times == [] then last
    else LastOf(if Allows(last, times[0], interval) then Some(times[0]) else last, times[1..], interval)
  }

  lemma {:induction false} GreedySnoc(last: Option<int>, times: seq<int>, t: int, interval: int)
    ensures Greedy(last, times + [t], interval)
            == Greedy(last, times, interval) + [Allows(LastOf(last, times, interval), t, interval)]
    ensures LastOf(last, times + [t], interval)
            == if Allows(LastOf(last, times, interval), t, interval) then Some(t) else LastOf(last, times, interval)
    decreases |times|
  {
    if times == [] {
      assert times + [t] == [t];
    } else {
      GreedySnoc(if Allows(last, times[0], interval) then Some(times[0]) else last, times[1..], t, interval);
      assert (times + [t])[1..] == times[1..] + [t];
    }
  }

  /**
   * In the traffic of all agents, one agent under a fixed limit is decided greedily on its own
   * request times alone: other agents' requests and limits have no effect on it.
   */
  lemma {:induction false} OthersHaveNoEffect(rs: seq<Request>, did: string, interval: int)
    requires FixedLimit(rs, did, interval)
    ensures DecisionsFor(rs, did) == Greedy(None, TimesOf(rs, did), interval)
    ensures Get(LastAccepted(rs), did) == LastOf(None, TimesOf(rs, did), interval)
  {
    if rs != [] {
      assert forall i | 0 <= i < |Init(rs)| :: Init(rs)[i] == rs[i];
      OthersHaveNoEffect(Init(rs), did, interval);
      assert rs[..|rs| - 1] == Init(rs);
      if Last(rs).did == did {
        assert rs[|rs| - 1].interval == interval;
        GreedySnoc(None, TimesOf(Init(rs), did), Last(rs).at, interval);
      } else {
        assert TimesOf(rs, did) == TimesOf(Init(rs), did) + [] == TimesOf(Init(rs), did);
        assert DecisionsFor(rs, did) == DecisionsFor(Init(rs), did) + [] == DecisionsFor(Init(rs), did);
      }
    }
  }

  predicate Timely(rs: seq<Request>) {
    forall i, j | 0 <= i < j < |rs| :: rs[i].at <= rs[j].at
  }

  lemma {:induction false} TimesNonDecreasing(rs: seq<Request>, did: string)
    requires Timely(rs)
    ensures NonDecreasing(TimesOf(rs, did))
    ensures rs != [] ==> forall i | 0 <= i < |TimesOf(rs, did)| :: TimesOf(rs, did)[i] <= Last(rs).at
  {
    if rs != [] {
      var p := Init(rs);
      assert forall i | 0 <= i < |p| :: p[i] == rs[i];
      TimesNonDecreasing(p, did);
      assert p != [] ==> Last(p).at <= Last(rs).at;
    }
  }

  // ---- Choices of one agent's requests in the traffic of all, by position ----

  /** Which of the agent's requests are among the positions chosen. */
  function Marks(rs: seq<Request>, did: string, chosen: set<nat>): (marks: seq<bool>)
    ensures |marks| == |TimesOf(rs, did)|
  {
    if rs == [] then []
    else Marks(Init(rs), did, chosen) + if Last(rs).did == did then [|rs| - 1 in chosen] else []
  }

  /** The positions chosen are requests of the agent, any two at least the interval apart. */
  predicate SpacedChoice(rs: seq<Request>, did: string, chosen: set<nat>, interval: int) {
    && (forall i | i in chosen :: i < |rs| && rs[i].did == did)
    && (forall i, j | i in chosen && j in chosen && i < j :: rs[j].at - rs[i].at >= interval)
  }

  /** The agent's accepted requests, by position. */
  function AcceptedOf(rs: seq<Request>, did: string): set<nat> {
    set i: nat | i < |rs| && rs[i].did == did && Accepted(rs, i)
  }

  lemma {:induction false} CountSnoc(picked: seq<bool>, b: bool)
    ensures Count(picked + [b]) == Count(picked) + if b then 1 else 0
  {
    if picked == [] {
      assert picked + [b] == [b];
    } else {
      CountSnoc(picked[1..], b);
      assert (picked + [b])[1..] == picked[1..] + [b];
    }
  }

  lemma {:induction false} MarksOfLess(rs: seq<Request>, did: string, chosen: set<nat>, n: nat)
    requires |rs| <= n
    ensures Marks(rs, did, chosen - {n}) == Marks(rs, did, chosen)
  {
    if rs != [] {
      MarksOfLess(Init(rs), did, chosen, n);
    }
  }

  lemma {:induction false} MarksCount(rs: seq<Request>, did: string, chosen: set<nat>)
    requires forall i | i in chosen :: i < |rs| && rs[i].did == did
    ensures Count(Marks(rs, did, chosen)) == |chosen|
  {
    if rs == [] {
      assert chosen == {};
    } else {
      var p, n := Init(rs), |rs| - 1;
      MarksCount(p, did, chosen - {n});
      MarksOfLess(p, did, chosen, n);
      if Last(rs).did == did {
        CountSnoc(Marks(p, did, chosen), n in chosen);
      } else {
        assert n !in chosen && chosen - {n} == chosen;
        assert Marks(rs, did, chosen) == Marks(p, did, chosen) + [] == Marks(p, did, chosen);
      }
    }
  }

  /** A marked time is the time of a chosen request. */
  lemma {:induction false} MarkedIsChosen(rs: seq<Request>, did: string, chosen: set<nat>, k: nat)
    requires k < |TimesOf(rs, did)| && Marks(rs, did, chosen)[k]
    ensures exists i | 0 <= i < |rs| :: i in chosen && rs[i].at == TimesOf(rs, did)[k]
  {
    var p, n := Init(rs), |rs| - 1;
    if k < |TimesOf(p, did)| {
      MarkedIsChosen(p, did, chosen, k);
      var i :| 0 <= i < |p| && i in chosen && p[i].at == TimesOf(p, did)[k];
      assert rs[i] == p[i];
    } else {
      assert rs[n].at == TimesOf(rs, did)[k];
    }
  }

  lemma {:induction false} MarksSpaced(rs: seq<Request>, did: string, chosen: set<nat>, interval: int)
    requires forall i, j | i in chosen && j in chosen && 0 <= i < j < |rs| :: rs[j].at - rs[i].at >= interval
    ensures Spaced(TimesOf(rs, did), Marks(rs, did, chosen), interval)
  {
    if rs != [] {
      var p, n := Init(rs), |rs| - 1;
      assert forall i | 0 <= i < |p| :: p[i] == rs[i];
      MarksSpaced(p, did, chosen, interval);
      var times, marks := TimesOf(p, did), Marks(p, did, chosen);
      if Last(rs).did == did && n in chosen {
        forall k | 0 <= k < |times| && marks[k] ensures rs[n].at - times[k] >= interval {
          MarkedIsChosen(p, did, chosen, k);
          var i :| 0 <= i < |p| && i in chosen && p[i].at == times[k];
          assert rs[n].at - rs[i].at >= interval;
        }
      }
    }
  }

  lemma {:induction false} MarksOfAccepted(rs: seq<Request>, did: string, n: nat)
    requires n <= |rs|
    ensures Marks(rs[..n], did, AcceptedOf(rs, did)) == DecisionsFor(rs[..n], did)
  {
    if n > 0 {
      MarksOfAccepted(rs, did, n - 1);
      assert Init(rs[..n]) == rs[..n - 1] && Last(rs[..n]) == rs[n - 1];
      assert rs[..n][..n - 1] == rs[..n - 1];
    }
  }

  /** The accepted requests of one agent, in the order in which they were accepted, are spaced. */
  lemma {:induction false} AcceptedSpaced(rs: seq<Request>, did: string, interval: int)
    requires Timely(rs) && FixedLimit(rs, did, interval) && interval >= 0
    ensures SpacedChoice(rs, did, AcceptedOf(rs, did), interval)
    ensures var last := Get(LastAccepted(rs), did);
            forall i | i in AcceptedOf(rs, did) :: last.Some? && rs[i].at <= last.value
  {
    if rs != [] {
      var p, n := Init(rs), |rs| - 1;
      assert forall i | 0 <= i < |p| :: p[i] == rs[i];
      AcceptedSpaced(p, did, interval);
      AcceptedOfInit(rs, did);
      SpacedAfter(rs, did, AcceptedOf(p, did), Get(LastAccepted(p), did), interval);
    }
  }

  /** A spaced choice stays spaced with a last request that comes an interval after the last one chosen. */
  lemma SpacedAfter(rs: seq<Request>, did: string, chosen: set<nat>, last: Option<int>, interval: int)
    requires rs != [] && SpacedChoice(Init(rs), did, chosen, interval)
    requires forall i | i in chosen :: last.Some? && Init(rs)[i].at <= last.value
    ensures SpacedChoice(rs, did, chosen, interval)
    ensures Last(rs).did == did && Allows(last, Last(rs).at, interval) ==>
              SpacedChoice(rs, did, chosen + {|rs| - 1}, interval)
  {
    assert forall i | i in chosen :: rs[i] == Init(rs)[i];
  }

  lemma AcceptedOfInit(rs: seq<Request>, did: string)
    requires rs != []
    ensures var last := Get(LastAccepted(Init(rs)), did);
            AcceptedOf(rs, did)
            == AcceptedOf(Init(rs), did)
               + if Last(rs).did == did && Allows(last, Last(rs).at, Last(rs).interval) then {|rs| - 1} else {}
  {
    var p, n := Init(rs), |rs| - 1;
    assert rs[..n] == p;
    forall i: nat | i < n ensures i in AcceptedOf(rs, did) <==> i in AcceptedOf(p, did) {
      assert p[..i] == rs[..i];
    }
  }

  /** Any spaced choice among the agent's requests within a window is as small as the window is short. */
  lemma ChoiceInWindow(rs: seq<Request>, did: string, chosen: set<nat>, interval: int, lo: int, width: nat)
    requires Timely(rs) && SpacedChoice(rs, did, chosen, interval) && interval > 0
    requires forall i | i in chosen :: lo <= rs[i].at < lo + width
    ensures |chosen| <= (width + interval - 1) / interval
  {
    var times, marks := TimesOf(rs, did), Marks(rs, did, chosen);
    TimesNonDecreasing(rs, did);
    MarksSpaced(rs, did, chosen, interval);
    MarksCount(rs, did, chosen);
    forall k | 0 <= k < |times| && marks[k] ensures lo <= times[k] < lo + width {
      MarkedIsChosen(rs, did, chosen, k);
    }
    AllInWindow(times, marks, lo, lo + width);
    SpacedInWindow(times, marks, lo, lo + width, interval);
    QuotientBound(|chosen|, width + interval - 1, interval);
  }

  lemma {:induction false} AllInWindow(times: seq<int>, picked: seq<bool>, lo: int, hi: int)
    requires |picked| == |times|
    requires forall k | 0 <= k < |times| && picked[k] :: lo <= times[k] < hi
    ensures CountIn(times, picked, lo, hi) == Count(picked)
  {
    if times != [] {
      AllInWindow(times[1..], picked[1..], lo, hi);
    }
  }

  /**
   * The whole gateway, for an agent whose limit stays fixed and fits an i32, in the traffic of all
   * agents: any two accepted requests of the agent lie at least the interval apart, no choice of its
   * requests that does is larger, and every window of W nanoseconds holds at most ceil(W / interval)
   * of them. The interval is a billion nanoseconds over the limit, rounded down; a limit of 0 counts
   * as 1.
   */
  lemma AgentGuarantee(rs: seq<Request>, did: string, rps: nat, chosen: set<nat>, lo: int, width: nat)
    requires Timely(rs) && rps < 2_147_483_648 && FixedLimit(rs, did, Interval(rps))
    requires SpacedChoice(rs, did, chosen, Interval(rps))
    ensures forall i, j | 0 <= i < j < |rs| && rs[i].did == rs[j].did == did && Accepted(rs, i) && Accepted(rs, j) ::
              rs[j].at - rs[i].at >= 1_000_000_000 / (if rps == 0 then 1 else rps)
    ensures |chosen| <= |set i: nat | i < |rs| && rs[i].did == did && Accepted(rs, i)|
    ensures rps <= 1_000_000_000 ==>
              var interval := 1_000_000_000 / (if rps == 0 then 1 else rps);
              && interval > 0
              && |set i: nat | i < |rs| && rs[i].did == did && Accepted(rs, i) && lo <= rs[i].at < lo + width|
                 <= (width + interval - 1) / interval
  {
    var interval := Interval(rps);
    IntervalExact(rps);
    AcceptedSpaced(rs, did, interval);
    AcceptedApart(rs, did, interval);
    AcceptedAreMost(rs, did, interval, chosen);
    if rps <= 1_000_000_000 {
      AcceptedInWindow(rs, did, interval, lo, width);
    }
  }

  lemma AcceptedInWindow(rs: seq<Request>, did: string, interval: int, lo: int, width: nat)
    requires Timely(rs) && interval > 0 && SpacedChoice(rs, did, AcceptedOf(rs, did), interval)
    ensures |set i: nat | i < |rs| && rs[i].did == did && Accepted(rs, i) && lo <= rs[i].at < lo + width|
            <= (width + interval - 1) / interval
  {
    var within := set i: nat | i < |rs| && rs[i].did == did && Accepted(rs, i) && lo <= rs[i].at < lo + width;
    assert within <= AcceptedOf(rs, did);
    ChoiceInWindow(rs, did, within, interval, lo, width);
  }

  lemma AcceptedApart(rs: seq<Request>, did: string, interval: int)
    requires SpacedChoice(rs, did, AcceptedOf(rs, did), interval)
    ensures forall i, j | 0 <= i < j < |rs| && rs[i].did == rs[j].did == did && Accepted(rs, i) && Accepted(rs, j) ::
              rs[j].at - rs[i].at >= interval
  {
    forall i: nat, j: nat | i < j < |rs| && rs[i].did == rs[j].did == did && Accepted(rs, i) && Accepted(rs, j)
      ensures rs[j].at - rs[i].at >= interval
    {
      assert i in AcceptedOf(rs, did) && j in AcceptedOf(rs, did);
    }
  }

  lemma AcceptedAreMost(rs: seq<Request>, did: string, interval: int, chosen: set<nat>)
    requires Timely(rs) && FixedLimit(rs, did, interval) && interval >= 0
    requires SpacedChoice(rs, did, chosen, interval)
    ensures |chosen| <= |AcceptedOf(rs, did)|
  {
    TimesNonDecreasing(rs, did);
    OthersHaveNoEffect(rs, did, interval);
    MarksSpaced(rs, did, chosen, interval);
    MarksCount(rs, did, chosen);
    GreedyIsMaximal(TimesOf(rs, did), Marks(rs, did, chosen), interval);
    MarksOfAccepted(rs, did, |rs|);
    assert rs[..|rs|] == rs;
    MarksCount(rs, did, AcceptedOf(rs, did));
  }

  // ---- The gateway's state ----

  class GatewayState {
    var lastRequests: map<string, int>

    constructor ()
      ensures lastRequests == map[]
    {
      lastRequests := map[];
    }

    /** maxRequestsPerSecond is the u32 of the agent's policy. */
    method Admit(did: string, now: int, maxRequestsPerSecond: int) returns (r: Result<(), string>)
      requires 0 <= maxRequestsPerSecond < U32
      modifies this
      ensures r.Ok? <==> did !in old(lastRequests) || now - old(lastRequests)[did] >= Interval(maxRequestsPerSecond)
      ensures lastRequests == if r.Ok? then old(lastRequests)[did := now] else old(lastRequests)
      ensures lastRequests == Step(old(lastRequests), Request(did, now, Interval(maxRequestsPerSecond)))
    {
      if did in lastRequests {
        var interval := SecondOver(AsI32(Max(maxRequestsPerSecond, 1)));
        if now - lastRequests[did] < interval {
          return Err("Rate limit exceeded");
        }
      }
      lastRequests := lastRequests[did := now];
      return Ok(());
    }
  }
}
