/**
 * Risk scores: a saturating fold over an agent's recent signals.
 * Source: crates/core/mesh/src/identity/risk.rs.
 */
module Risk {
  import opened Common

  const WINDOW: int := 24 * HOUR

  datatype RiskSeverity = Critical | High | Medium | Low | Info

  datatype RiskSignal = RiskSignal(
    signalType: string, severity: RiskSeverity, value: real, timestamp: int,
    source: Option<string>, details: Option<string>)
  {
    function Weight(): real {
      match severity
      case Critical => 1.0
      case High => 0.8
      case Medium => 0.5
      case Low => 0.2
      case Info => 0.1
    }
  }

  datatype RiskScore = RiskScore(
    agentDid: string,
    totalScore: nat,
    identityScore: nat,
    behaviorScore: nat,
    networkScore: nat,
    complianceScore: nat,
    activeSignals: nat,
    criticalSignals: nat)

  datatype Component = Identity | Behavior | Network | Compliance

  function Prefix(c: Component): string {
    match c
    case Identity => "identity."
    case Behavior => "behavior."
    case Network => "network."
    case Compliance => "compliance."
  }

  function Base(c: Component): nat {
    match c
    case Identity => 80
    case Behavior => 70
    case Network => 75
    case Compliance => 85
  }

  /** A float-to-u32 cast: truncated, and saturating at both ends. */
  function CastU32(x: real): nat {
    if x <= 0.0 then 0 else if x.Floor >= U32 then U32 - 1 else x.Floor
  }

  function Reduction(s: RiskSignal): nat {
    CastU32(s.value * s.Weight() * 20.0)
  }

  function SaturatingSub(a: nat, b: nat): nat {
    if a <= b then 0 else a - b
  }

  // ---- Specification: sums, in no particular order ----

  function Total(f: RiskSignal -> nat, signals: seq<RiskSignal>): nat {
    if signals == [] then 0 else Total(f, Init(signals)) + f(Last(signals))
  }

  predicate Recent(s: RiskSignal, now: int) {
    s.timestamp > now - WINDOW
  }

  function ReductionOf(c: Component, now: int): RiskSignal -> nat {
    (s: RiskSignal) => if Recent(s, now) && Prefix(c) <= s.signalType then Reduction(s) else 0
  }

  /** The closed form of one component: its base less all its recent reductions, or zero. */
  function ComponentScore(c: Component, signals: seq<RiskSignal>, now: int): nat {
    SaturatingSub(Base(c), Total(ReductionOf(c, now), signals))
  }

  function TotalScore(signals: seq<RiskSignal>, now: int): nat {
    (ComponentScore(Identity, signals, now) * 2 + ComponentScore(Behavior, signals, now) * 3
     + ComponentScore(Network, signals, now) * 2 + ComponentScore(Compliance, signals, now) * 3) / 10
  }

  function CountOf(now: int): RiskSignal -> nat {
    (s: RiskSignal) => if Recent(s, now) then 1 else 0
  }

  function CriticalOf(now: int): RiskSignal -> nat {
    (s: RiskSignal) => if Recent(s, now) && s.severity.Critical? then 1 else 0
  }

  function Score(did: string, signals: seq<RiskSignal>, now: int): RiskScore {
    RiskScore(did, TotalScore(signals, now),
              ComponentScore(Identity, signals, now), ComponentScore(Behavior, signals, now),
              ComponentScore(Network, signals, now), ComponentScore(Compliance, signals, now),
              Total(CountOf(now), signals) % U32, Total(CriticalOf(now), signals) % U32)
  }

  // ---- Order does not matter ----

  lemma {:induction false} TotalWithout(f: RiskSignal -> nat, signals: seq<RiskSignal>, i: nat)
    requires i < |signals|
    ensures Total(f, signals) == Total(f, signals[..i] + signals[i + 1..]) + f(signals[i])
    decreases |signals|
  {
    var n := |signals| - 1;
    if i == n {
      assert signals[..i] + signals[i + 1..] == Init(signals);
    } else {
      TotalWithout(f, Init(signals), i);
      var rest := signals[..i] + signals[i + 1..];
      assert Init(rest) == Init(signals)[..i] + Init(signals)[i + 1..];
      assert Last(rest) == Last(signals);
    }
  }

  lemma RemoveOne(b: seq<RiskSignal>, i: nat)
    requires i < |b|
    ensures multiset(b[..i] + b[i + 1..]) == multiset(b) - multiset{b[i]}
  {
    assert b == b[..i] + ([b[i]] + b[i + 1..]);
  }

  lemma {:induction false} TotalOfPermutation(f: RiskSignal -> nat, a: seq<RiskSignal>, b: seq<RiskSignal>)
    requires multiset(a) == multiset(b)
    ensures Total(f, a) == Total(f, b)
    decreases |a|
  {
    if a == [] {
      assert |b| == |multiset(b)| == 0;
    } else {
      var n := |a| - 1;
      assert a[n] in multiset(b);
      var i :| 0 <= i < |b| && b[i] == a[n];
      RemoveOne(a, n);
      RemoveOne(b, i);
      assert a[..n] + a[n + 1..] == Init(a);
      TotalOfPermutation(f, Init(a), b[..i] + b[i + 1..]);
      TotalWithout(f, b, i);
    }
  }

  /** At a fixed time the score depends on which signals there are, not on their order. */
  lemma OrderIrrelevant(did: string, a: seq<RiskSignal>, b: seq<RiskSignal>, now: int)
    requires multiset(a) == multiset(b)
    ensures Score(did, a, now) == Score(did, b, now)
  {
    TotalOfPermutation(ReductionOf(Identity, now), a, b);
    TotalOfPermutation(ReductionOf(Behavior, now), a, b);
    TotalOfPermutation(ReductionOf(Network, now), a, b);
    TotalOfPermutation(ReductionOf(Compliance, now), a, b);
    TotalOfPermutation(CountOf(now), a, b);
    TotalOfPermutation(CriticalOf(now), a, b);
  }

  // ---- Bounds ----

  lemma {:induction false} TotalMonotone(f: RiskSignal -> nat, g: RiskSignal -> nat, signals: seq<RiskSignal>)
    requires forall s | s in signals :: f(s) <= g(s)
    ensures Total(f, signals) <= Total(g, signals)
  {
    if signals != [] {
      TotalMonotone(f, g, Init(signals));
    }
  }

  lemma ComponentFades(c: Component, signals: seq<RiskSignal>, earlier: int, later: int)
    requires earlier <= later
    ensures ComponentScore(c, signals, earlier) <= ComponentScore(c, signals, later)
  {
    TotalMonotone(ReductionOf(c, later), ReductionOf(c, earlier), signals);
  }

  /** With no new signals, time never lowers a score. */
  lemma ScoreRecovers(signals: seq<RiskSignal>, earlier: int, later: int)
    requires earlier <= later
    ensures TotalScore(signals, earlier) <= TotalScore(signals, later)
  {
    ComponentFades(Identity, signals, earlier, later);
    ComponentFades(Behavior, signals, earlier, later);
    ComponentFades(Network, signals, earlier, later);
    ComponentFades(Compliance, signals, earlier, later);
  }

  /** Scores start at 77 and stay at or below it. */
  lemma ScoreAtMost77(signals: seq<RiskSignal>, now: int)
    ensures TotalScore(signals, now) <= 77
    ensures (forall s | s in signals :: !Recent(s, now)) ==> TotalScore(signals, now) == 77
  {
    if forall s | s in signals :: !Recent(s, now) {
      NoneRecent(Identity, signals, now);
      NoneRecent(Behavior, signals, now);
      NoneRecent(Network, signals, now);
      NoneRecent(Compliance, signals, now);
    }
  }

  lemma {:induction false} NoneRecent(c: Component, signals: seq<RiskSignal>, now: int)
    requires forall s | s in signals :: !Recent(s, now)
    ensures Total(ReductionOf(c, now), signals) == 0
  {
    if signals != [] {
      NoneRecent(c, Init(signals), now);
    }
  }

  lemma ReductionAtMost20(s: RiskSignal)
    requires 0.0 <= s.value <= 1.0
    ensures Reduction(s) <= 20
  {
    var w := s.Weight();
    assert 0.0 <= s.value * w <= 1.0 by {
      assert s.value * w <= 1.0 * w;
      assert s.value * w >= 0.0 * w;
    }
  }

  predicate AtLeastAsSevere(a: RiskSeverity, b: RiskSeverity) {
    match a
    case Critical => true
    case High => !b.Critical?
    case Medium => !b.Critical? && !b.High?
    case Low => b.Low? || b.Info?
    case Info => b.Info?
  }

  /** Of two signals, the one with the larger value and no lesser severity reduces at least as much. */
  lemma ReductionOrdered(s: RiskSignal, t: RiskSignal)
    requires 0.0 <= t.value <= s.value && AtLeastAsSevere(s.severity, t.severity)
    ensures Reduction(t) <= Reduction(s)
  {
    var v, w := s.Weight(), t.Weight();
    assert t.value * w <= s.value * w <= s.value * v;
    FloorMonotone(t.value * w * 20.0, s.value * v * 20.0);
  }

  lemma FloorMonotone(x: real, y: real)
    requires x <= y
    ensures CastU32(x) <= CastU32(y)
  {
  }

  lemma OnePrefix(s: RiskSignal, c: Component, d: Component)
    requires Prefix(c) <= s.signalType && Prefix(d) <= s.signalType
    ensures c == d
  {
    assert Prefix(c)[0] == s.signalType[0] == Prefix(d)[0];
  }

  lemma ComponentAfter(c: Component, signals: seq<RiskSignal>, s: RiskSignal, now: int)
    ensures Total(ReductionOf(c, now), signals + [s]) == Total(ReductionOf(c, now), signals) + ReductionOf(c, now)(s)
    ensures ComponentScore(c, signals + [s], now) <= ComponentScore(c, signals, now)
    ensures ComponentScore(c, signals, now) - ComponentScore(c, signals + [s], now) <= ReductionOf(c, now)(s)
  {
    InitOfSnoc(signals, s);
  }

  /** A new signal never raises the score, and one with a value between 0 and 1 lowers it by at most 6. */
  lemma OneSignal(signals: seq<RiskSignal>, s: RiskSignal, now: int)
    ensures TotalScore(signals + [s], now) <= TotalScore(signals, now)
    ensures 0.0 <= s.value <= 1.0 ==> TotalScore(signals, now) - TotalScore(signals + [s], now) <= 6
  {
    ComponentAfter(Identity, signals, s, now);
    ComponentAfter(Behavior, signals, s, now);
    ComponentAfter(Network, signals, s, now);
    ComponentAfter(Compliance, signals, s, now);
    if 0.0 <= s.value <= 1.0 {
      ReductionAtMost20(s);
      if c: Component :| Prefix(c) <= s.signalType {
        forall d: Component | d != c ensures ReductionOf(d, now)(s) == 0 {
          if Prefix(d) <= s.signalType {
            OnePrefix(s, c, d);
          }
        }
      }
    }
  }

  // ---- What one signal does, in numbers ----

  /** A signal takes off 20, 16, 10, 4 or 2 times its value by severity, rounded down into the range of a u32. */
  lemma ReductionExact(s: RiskSignal, x: real)
    requires x == match s.severity
                  case Critical => 20.0 * s.value
                  case High => 16.0 * s.value
                  case Medium => 10.0 * s.value
                  case Low => 4.0 * s.value
                  case Info => 2.0 * s.value
    ensures x <= 0.0 ==> Reduction(s) == 0
    ensures 0.0 <= x < 4_294_967_296.0 ==> Reduction(s) as real <= x < (Reduction(s) + 1) as real
    ensures x >= 4_294_967_295.0 ==> Reduction(s) == 4_294_967_295
  {
    assert s.value * s.Weight() * 20.0 == x;
  }

  /** The score with no signal at all, and the total as a function of the components. */
  lemma ScoreOfNone(did: string, signals: seq<RiskSignal>, now: int)
    ensures Score(did, [], now) == RiskScore(did, 77, 80, 70, 75, 85, 0, 0)
    ensures var b := Score(did, signals, now);
            b.totalScore
            == (2 * b.identityScore + 3 * b.behaviorScore + 2 * b.networkScore + 3 * b.complianceScore) / 10
  {
  }

  /** What is left of a component's score. */
  function Left(score: nat, s: RiskSignal, hit: bool): nat {
    if !hit then score else if score <= Reduction(s) then 0 else score - Reduction(s)
  }

  lemma ComponentExact(c: Component, signals: seq<RiskSignal>, s: RiskSignal, now: int, counts: bool)
    requires counts <==> s.timestamp > now - 86_400_000_000_000
    ensures ComponentScore(c, signals + [s], now)
            == Left(ComponentScore(c, signals, now), s, counts && Prefix(c) <= s.signalType)
  {
    ComponentAfter(c, signals, s, now);
  }

  lemma CountsExact(signals: seq<RiskSignal>, s: RiskSignal, now: int, counts: bool)
    requires counts <==> s.timestamp > now - 86_400_000_000_000
    ensures Total(CountOf(now), signals + [s]) == Total(CountOf(now), signals) + if counts then 1 else 0
    ensures Total(CriticalOf(now), signals + [s])
            == Total(CriticalOf(now), signals) + if counts && s.severity == Critical then 1 else 0
  {
    InitOfSnoc(signals, s);
  }

  /** Adding a small number to a wrapped count wraps like adding it to the count. */
  lemma WrapAgain(n: nat, m: nat)
    ensures (n + m) % U32 == (n % U32 + m) % U32
  {
    var q := n / U32;
    assert n == q * U32 + n % U32;
    ModOfMultiple(q, n % U32 + m);
  }

  lemma {:induction false} ModOfMultiple(q: nat, x: nat)
    ensures (q * U32 + x) % U32 == x % U32
  {
    if q > 0 {
      ModOfMultiple(q - 1, x);
      assert q * U32 + x == (q - 1) * U32 + x + U32;
    }
  }

  /**
   * One more signal, exactly: one older than 24 hours changes nothing; a recent one takes its
   * reduction off the component its type begins with, down to zero.
   */
  lemma SignalExact(did: string, signals: seq<RiskSignal>, s: RiskSignal, now: int, counts: bool)
    requires counts <==> s.timestamp > now - 86_400_000_000_000
    ensures var b, a := Score(did, signals, now), Score(did, signals + [s], now);
            && a.identityScore == Left(b.identityScore, s, counts && "identity." <= s.signalType)
            && a.behaviorScore == Left(b.behaviorScore, s, counts && "behavior." <= s.signalType)
            && a.networkScore == Left(b.networkScore, s, counts && "network." <= s.signalType)
            && a.complianceScore == Left(b.complianceScore, s, counts && "compliance." <= s.signalType)
  {
    ComponentExact(Identity, signals, s, now, counts);
    ComponentExact(Behavior, signals, s, now, counts);
    ComponentExact(Network, signals, s, now, counts);
    ComponentExact(Compliance, signals, s, now, counts);
  }

  lemma ScoreCounts(did: string, signals: seq<RiskSignal>, now: int)
    ensures Score(did, signals, now).activeSignals == Total(CountOf(now), signals) % 4_294_967_296
    ensures Score(did, signals, now).criticalSignals == Total(CriticalOf(now), signals) % 4_294_967_296
  {
  }

  /** The two counts of a score go up by one for a recent signal, and for a recent critical one; they wrap. */
  lemma SignalCounted(did: string, signals: seq<RiskSignal>, s: RiskSignal, now: int, counts: bool)
    requires counts <==> s.timestamp > now - 86_400_000_000_000
    ensures Score(did, signals + [s], now).activeSignals
            == (Score(did, signals, now).activeSignals + if counts then 1 else 0) % 4_294_967_296
    ensures Score(did, signals + [s], now).criticalSignals
            == (Score(did, signals, now).criticalSignals + if counts && s.severity == Critical then 1 else 0) % 4_294_967_296
  {
    CountsExact(signals, s, now, counts);
    ScoreCounts(did, signals, now);
    ScoreCounts(did, signals + [s], now);
    WrapAgain(Total(CountOf(now), signals), if counts then 1 else 0);
    WrapAgain(Total(CriticalOf(now), signals), if counts && s.severity == Critical then 1 else 0);
  }

  // ---- The scorer ----

  /** One component's part of one turn of the scoring loop. */
  function Lower(c: Component, score: nat, s: RiskSignal): nat {
    if Prefix(c) <= s.signalType then SaturatingSub(score, Reduction(s)) else score
  }

  /** Saturating subtractions one by one come to one saturating subtraction of the sum. */
  lemma LowerFollowsSum(c: Component, signals: seq<RiskSignal>, i: nat, now: int)
    requires i < |signals|
    ensures ComponentScore(c, signals[..i + 1], now)
            == if Recent(signals[i], now) then Lower(c, ComponentScore(c, signals[..i], now), signals[i])
               else ComponentScore(c, signals[..i], now)
  {
    assert signals[..i + 1] == signals[..i] + [signals[i]];
    ComponentAfter(c, signals[..i], signals[i], now);
  }

  lemma CountsFollow(signals: seq<RiskSignal>, i: nat, now: int)
    requires i < |signals|
    ensures Total(CountOf(now), signals[..i + 1]) == Total(CountOf(now), signals[..i]) + CountOf(now)(signals[i])
    ensures Total(CriticalOf(now), signals[..i + 1]) == Total(CriticalOf(now), signals[..i]) + CriticalOf(now)(signals[i])
  {
    assert Init(signals[..i + 1]) == signals[..i] && Last(signals[..i + 1]) == signals[i];
  }

  method CalculateScore(did: string, signalsMap: map<string, seq<RiskSignal>>, now: int) returns (score: RiskScore)
    ensures score == Score(did, if did in signalsMap then signalsMap[did] else [], now)
  {
    var signals := if did in signalsMap then signalsMap[did] else [];
    var identity, behavior, network, compliance := 80, 70, 75, 85;
    var active, critical := 0, 0;
    for i := 0 to |signals|
      invariant identity == ComponentScore(Identity, signals[..i], now)
      invariant behavior == ComponentScore(Behavior, signals[..i], now)
      invariant network == ComponentScore(Network, signals[..i], now)
      invariant compliance == ComponentScore(Compliance, signals[..i], now)
      invariant active == Total(CountOf(now), signals[..i])
      invariant critical == Total(CriticalOf(now), signals[..i])
    {
      var s := signals[i];
      LowerFollowsSum(Identity, signals, i, now);
      LowerFollowsSum(Behavior, signals, i, now);
      LowerFollowsSum(Network, signals, i, now);
      LowerFollowsSum(Compliance, signals, i, now);
      CountsFollow(signals, i, now);
      if s.timestamp > now - WINDOW {
        identity := Lower(Identity, identity, s);
        behavior := Lower(Behavior, behavior, s);
        network := Lower(Network, network, s);
        compliance := Lower(Compliance, compliance, s);
        active := active + 1;
        if s.severity.Critical? {
          critical := critical + 1;
        }
      }
    }
    assert signals[..|signals|] == signals;
    var total := (identity * 2 + behavior * 3 + network * 2 + compliance * 3) / 10;
    return RiskScore(did, Min(total, 1000), Min(identity, 100), Min(behavior, 100), Min(network, 100),
                     Min(compliance, 100), active % U32, critical % U32);
  }

  function Min(a: int, b: int): int {
    if a < b then a else b
  }

  class RiskScorer {
    var scores: map<string, RiskScore>
    var signals: map<string, seq<RiskSignal>>

    constructor ()
      ensures scores == map[] && signals == map[]
    {
      scores, signals := map[], map[];
    }

    function SignalsOf(did: string): seq<RiskSignal>
      reads this
    {
      if did in signals then signals[did] else []
    }

    method AddSignal(did: string, signal: RiskSignal, now: int)
      modifies this
      ensures signals == old(signals)[did := old(SignalsOf(did)) + [signal]]
      ensures scores == old(scores)[did := Score(did, SignalsOf(did), now)]
      ensures scores[did].totalScore <= TotalScore(old(SignalsOf(did)), now)
    {
      OneSignal(SignalsOf(did), signal, now);
      signals := signals[did := (if did in signals then signals[did] else []) + [signal]];
      var score := CalculateScore(did, signals, now);
      scores := scores[did := score];
    }

    method Recalculate(did: string, now: int) returns (score: RiskScore)
      modifies this
      ensures signals == old(signals)
      ensures score == Score(did, SignalsOf(did), now) && scores == old(scores)[did := score]
    {
      score := CalculateScore(did, signals, now);
      scores := scores[did := score];
    }
  }
}
