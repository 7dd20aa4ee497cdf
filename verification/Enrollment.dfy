/**
 * Shadow agents against the registry: what discovery takes for unregistered, and what is.
 * Source: register_agent of crates/daemon/src/lib.rs, register of crates/daemon/src/grpc/registry.rs,
 * and crates/ext/discovery/src/lib.rs.
 */
module Enrollment {
  import opened Common
  import opened Identity
  import Registry
  import Discovery

  // http: the calls made over HTTP; only they tell discovery. saved: those that have registered and not yet told it.
  datatype State = State(registry: Registry.State, discovery: Discovery.State, http: set<nat>, saved: map<nat, string>)

  datatype Action =
    | Register(call: nat, record: Registry.RegistryRecord, overHttp: bool)  // the memory half, over HTTP or gRPC
    | Persist(call: nat)
    | PersistFails(call: nat)
    | Announce(call: nat)                                                   // the handler tells discovery
    | Sight(report: Discovery.Action)                                       // presence reported or traffic seen

  const INITIAL: State := State(Registry.INITIAL, Discovery.INITIAL, {}, map[])

  predicate Enabled(s: State, a: Action) {
    match a
    case Register(c, _, _) => c !in s.registry.inFlight && c !in s.saved
    case Persist(c) => c in s.registry.inFlight
    case PersistFails(c) => c in s.registry.inFlight
    case Announce(c) => c in s.saved
    case Sight(r) => r.Report? && s.discovery.now <= r.insertedAt <= r.seenAt
  }

  function Step(s: State, a: Action): State {
    if !Enabled(s, a) then s
    else
      match a
      case Register(c, r, overHttp) =>
        s.(registry := Registry.Step(s.registry, Registry.Begin(c, r)),
           http := if overHttp then s.http + {c} else s.http - {c})
      case Persist(c) =>
        s.(registry := Registry.Step(s.registry, Registry.Persist(c)),
           saved := if c in s.http then s.saved[c := Registry.KeyOf(s.registry.inFlight[c])] else s.saved)
      case PersistFails(c) => s.(registry := Registry.Step(s.registry, Registry.PersistFails(c)))
      case Announce(c) =>
        s.(discovery := Discovery.Step(s.discovery, Discovery.Register(s.saved[c])), saved := s.saved - {c})
      case Sight(r) => s.(discovery := Discovery.Step(s.discovery, r))
  }

  function Exec(acts: seq<Action>): State {
    if acts == [] then INITIAL else Step(Exec(Init(acts)), Last(acts))
  }

  /** Action n sights agent k. */
  predicate SightedAt(acts: seq<Action>, n: nat, k: string) {
    n < |acts| && Enabled(Exec(acts[..n]), acts[n]) && acts[n].Sight? && Discovery.IsReport(acts[n].report, k)
  }

  /** At action n, a registration of agent k is announced to discovery. */
  predicate AnnouncedAt(acts: seq<Action>, n: nat, k: string) {
    n < |acts| && acts[n].Announce? && var saved := Exec(acts[..n]).saved; acts[n].call in saved && saved[acts[n].call] == k
  }

  ghost predicate Sighted(acts: seq<Action>, k: string) {
    exists n: nat :: SightedAt(acts, n, k)
  }

  ghost predicate AnnouncedSinceSighted(acts: seq<Action>, k: string) {
    exists m: nat, n: nat :: m < n && SightedAt(acts, m, k) && AnnouncedAt(acts, n, k)
  }

  lemma MomentsOfInit(acts: seq<Action>, n: nat, k: string)
    requires acts != [] && n < |Init(acts)|
    ensures SightedAt(Init(acts), n, k) <==> SightedAt(acts, n, k)
    ensures AnnouncedAt(Init(acts), n, k) <==> AnnouncedAt(acts, n, k)
  {
    PrefixOfInit(acts, n);
  }

  lemma SightedStep(acts: seq<Action>, k: string)
    requires acts != []
    ensures Sighted(acts, k) <==> Sighted(Init(acts), k) || SightedAt(acts, |acts| - 1, k)
  {
    if n: nat :| SightedAt(acts, n, k) && n < |acts| - 1 {
      MomentsOfInit(acts, n, k);
    }
    if n: nat :| SightedAt(Init(acts), n, k) {
      MomentsOfInit(acts, n, k);
    }
  }

  lemma AnnouncedStep(acts: seq<Action>, k: string)
    requires acts != []
    ensures AnnouncedSinceSighted(acts, k)
            <==> AnnouncedSinceSighted(Init(acts), k) || (Sighted(Init(acts), k) && AnnouncedAt(acts, |acts| - 1, k))
  {
    if m: nat, n: nat :| m < n && SightedAt(acts, m, k) && AnnouncedAt(acts, n, k) {
      MomentsOfInit(acts, m, k);
      if n < |acts| - 1 {
        MomentsOfInit(acts, n, k);
      }
    }
    if m: nat, n: nat :| m < n && SightedAt(Init(acts), m, k) && AnnouncedAt(Init(acts), n, k) {
      MomentsOfInit(acts, m, k);
      MomentsOfInit(acts, n, k);
    }
    if Sighted(Init(acts), k) && AnnouncedAt(acts, |acts| - 1, k) {
      var m: nat :| SightedAt(Init(acts), m, k);
      MomentsOfInit(acts, m, k);
    }
  }

  /** What discovery knows is what was sighted, and whether it was announced since. */
  lemma {:induction false} KnownByHistory(acts: seq<Action>, k: string)
    ensures var agents := Exec(acts).discovery.agents;
            && (k in agents <==> Sighted(acts, k))
            && (k in agents ==> (agents[k].isRegistered <==> AnnouncedSinceSighted(acts, k)))
  {
    if acts != [] {
      KnownByHistory(Init(acts), k);
      SightedStep(acts, k);
      AnnouncedStep(acts, k);
      assert acts[..|acts| - 1] == Init(acts);
    }
  }

  /** Only registered agents are announced. */
  predicate AnnouncedAreRegistered(s: State) {
    && (forall c | c in s.registry.inFlight :: Registry.KeyOf(s.registry.inFlight[c]) in s.registry.memory)
    && (forall c | c in s.saved :: s.saved[c] in s.registry.memory)
    && (forall k | k in s.discovery.agents && s.discovery.agents[k].isRegistered :: k in s.registry.memory)
  }

  lemma {:induction false} AnnouncedAreRegisteredAlways(acts: seq<Action>)
    ensures AnnouncedAreRegistered(Exec(acts))
  {
    if acts != [] {
      AnnouncedAreRegisteredAlways(Init(acts));
    }
  }

  /** Only what reached the file is announced: a registration over HTTP whose write worked. */
  predicate SavedAt(acts: seq<Action>, n: nat, c: nat, k: string) {
    && n < |acts| && acts[n] == Persist(c)
    && var s := Exec(acts[..n]);
    && c in s.http && c in s.registry.inFlight && PrintDid(s.registry.inFlight[c].did) == k
  }

  lemma {:induction false} SavedBeforeAnnounced(acts: seq<Action>, c: nat)
    requires c in Exec(acts).saved
    ensures exists n: nat :: SavedAt(acts, n, c, Exec(acts).saved[c])
  {
    var s, k := Exec(Init(acts)), Exec(acts).saved[c];
    assert acts[..|acts| - 1] == Init(acts);
    if Last(acts) == Persist(c) && c in s.registry.inFlight && c in s.http {
      assert SavedAt(acts, |acts| - 1, c, k);
    } else {
      SavedBeforeAnnounced(Init(acts), c);
      var n: nat :| SavedAt(Init(acts), n, c, k);
      PrefixOfInit(acts, n);
      assert SavedAt(acts, n, c, k);
    }
  }

  predicate IsShadow(s: State, k: string) {
    k in s.discovery.agents && !s.discovery.agents[k].isRegistered
  }

  /**
   * Of the agents sighted, the shadows include every unregistered one. They are only those, for an
   * agent, exactly when it is unregistered or some registration of it was announced after it was first
   * sighted: one made over gRPC, or announced before, leaves a registered agent a shadow.
   */
  lemma ShadowsAreUnregisteredIff(acts: seq<Action>, k: string)
    requires Sighted(acts, k)
    ensures var s := Exec(acts);
            && (k !in s.registry.memory ==> IsShadow(s, k))
            && ((IsShadow(s, k) <==> k !in s.registry.memory)
                <==> (k in s.registry.memory ==> AnnouncedSinceSighted(acts, k)))
  {
    KnownByHistory(acts, k);
    AnnouncedAreRegisteredAlways(acts);
  }

  lemma ExecSnoc(acts: seq<Action>, a: Action)
    ensures Exec(acts + [a]) == Step(Exec(acts), a)
  {
    InitOfSnoc(acts, a);
  }

  /** An agent that registers before it is first seen is broadcast and listed as a shadow. */
  lemma EarlyRegistrationIsShadow(r: Registry.RegistryRecord, report: Discovery.Action)
    requires report.Report? && report.did == r.did && 0 <= report.insertedAt <= report.seenAt
    ensures var s, k := Exec([] + [Register(0, r, true)] + [Persist(0)] + [Announce(0)] + [Sight(report)]), PrintDid(r.did);
            && k in s.registry.memory && IsShadow(s, k)
            && s.discovery.sent == [Discovery.Shadow(s.discovery.agents[k])] && s.saved == map[]
  {
    ExecSnoc([], Register(0, r, true));
    ExecSnoc([] + [Register(0, r, true)], Persist(0));
    ExecSnoc([] + [Register(0, r, true)] + [Persist(0)], Announce(0));
    ExecSnoc([] + [Register(0, r, true)] + [Persist(0)] + [Announce(0)], Sight(report));
  }

  /** A registration over gRPC leaves an agent a shadow even if it was seen before; there is nothing to announce. */
  lemma GrpcRegistrationStaysShadow(r: Registry.RegistryRecord, report: Discovery.Action)
    requires report.Report? && report.did == r.did && 0 <= report.insertedAt <= report.seenAt
    ensures var s, k := Exec([] + [Sight(report)] + [Register(0, r, false)] + [Persist(0)] + [Announce(0)]), PrintDid(r.did);
            k in s.registry.memory && s.registry.inFlight == map[] && IsShadow(s, k)
  {
    ExecSnoc([], Sight(report));
    ExecSnoc([] + [Sight(report)], Register(0, r, false));
    ExecSnoc([] + [Sight(report)] + [Register(0, r, false)], Persist(0));
    ExecSnoc([] + [Sight(report)] + [Register(0, r, false)] + [Persist(0)], Announce(0));
  }
}
