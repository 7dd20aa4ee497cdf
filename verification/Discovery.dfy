/**
 * The discovery manager: which agents were seen, which are registered, what is broadcast.
 * Source: crates/ext/discovery/src/lib.rs.
 */
module Discovery {
  import opened Common
  import opened Identity

  datatype DiscoverySource = Active | Passive

  datatype DiscoveredAgent = DiscoveredAgent(
    did: AgentDID,
    name: string,
    firstSeen: int,
    lastSeen: int,
    transportAddress: string,
    isRegistered: bool,
    source: DiscoverySource)

  datatype DiscoveryEvent = Presence(agent: DiscoveredAgent) | Shadow(agent: DiscoveredAgent)

  // ---- Specification: one call as a step on values ----

  /** The manager's map, keyed by DID text, and everything ever handed to the broadcast channel. */
  datatype State = State(now: int, agents: map<string, DiscoveredAgent>, sent: seq<DiscoveryEvent>)

  datatype Action =
    | Report(did: AgentDID, name: string, address: string, source: DiscoverySource, insertedAt: int, seenAt: int)
    | Register(key: string)

  const INITIAL: State := State(0, map[], [])

  predicate IsReport(a: Action, k: string) {
    a.Report? && PrintDid(a.did) == k
  }

  function Seen(agents: map<string, DiscoveredAgent>, a: Action): (e: DiscoveredAgent)
    requires a.Report?
  {
    var k := PrintDid(a.did);
    var e := if k in agents then agents[k]
             else DiscoveredAgent(a.did, a.name, a.insertedAt, a.insertedAt, a.address, false, a.source);
    if a.source == Active && e.source == Passive
    then e.(lastSeen := a.seenAt, transportAddress := a.address, source := Active, name := a.name)
    else e.(lastSeen := a.seenAt, transportAddress := a.address)
  }

  predicate Announces(agents: map<string, DiscoveredAgent>, a: Action)
    requires a.Report?
  {
    var k := PrintDid(a.did);
    k !in agents || (agents[k].source == Passive && a.source == Active)
  }

  function EventFor(e: DiscoveredAgent): DiscoveryEvent {
    if e.isRegistered then Presence(e) else Shadow(e)
  }

  /** A step; a report whose clock readings run backwards does not happen. */
  function Step(s: State, a: Action): State {
    match a
    case Report(did, _, _, _, insertedAt, seenAt) =>
      if !(s.now <= insertedAt <= seenAt) then s
      else
        var e := Seen(s.agents, a);
        State(seenAt, s.agents[PrintDid(did) := e], if Announces(s.agents, a) then s.sent + [EventFor(e)] else s.sent)
    case Register(key) =>
      if key !in s.agents then s
      else
        var e := s.agents[key].(isRegistered := true);
        s.(agents := s.agents[key := e], sent := s.sent + [Presence(e)])
  }

  function Exec(acts: seq<Action>): State {
    if acts == [] then INITIAL else Step(Exec(Init(acts)), Last(acts))
  }

  /** If action i is a report, the clock it reads has not gone back. */
  predicate TimelyAt(acts: seq<Action>, i: nat) {
    i < |acts| && acts[i].Report? ==> Exec(acts[..i]).now <= acts[i].insertedAt <= acts[i].seenAt
  }

  /** Every report of the run reads a clock that does not go back. */
  ghost predicate Timely(acts: seq<Action>) {
    forall i: nat :: TimelyAt(acts, i)
  }

  lemma TimelyInit(acts: seq<Action>)
    requires Timely(acts) && acts != []
    ensures Timely(Init(acts))
    ensures Last(acts).Report? ==> Exec(Init(acts)).now <= Last(acts).insertedAt <= Last(acts).seenAt
  {
    forall i: nat ensures TimelyAt(Init(acts), i) {
      assert TimelyAt(acts, i);
      if i < |Init(acts)| {
        PrefixOfInit(acts, i);
      }
    }
    assert TimelyAt(acts, |acts| - 1);
  }

  // ---- Shadow agents over whole runs ----

  /** k was reported, and no registration of k came after any of its reports. */
  predicate Unregistered(acts: seq<Action>, k: string) {
    && (exists i | 0 <= i < |acts| :: IsReport(acts[i], k))
    && (forall i, j | 0 <= i < j < |acts| && IsReport(acts[i], k) :: acts[j] != Register(k))
  }

  predicate Reported(acts: seq<Action>, k: string) {
    exists i | 0 <= i < |acts| :: IsReport(acts[i], k)
  }

  lemma ReportedStep(acts: seq<Action>, k: string)
    requires acts != []
    ensures Reported(acts, k) <==> Reported(Init(acts), k) || IsReport(Last(acts), k)
  {
    if Reported(Init(acts), k) {
      var i :| 0 <= i < |Init(acts)| && IsReport(Init(acts)[i], k);
      assert IsReport(acts[i], k);
    }
    if Reported(acts, k) && !IsReport(Last(acts), k) {
      var i :| 0 <= i < |acts| && IsReport(acts[i], k);
      assert IsReport(Init(acts)[i], k);
    }
    if IsReport(Last(acts), k) {
      assert IsReport(acts[|acts| - 1], k);
    }
  }

  lemma UnregisteredStep(acts: seq<Action>, k: string)
    requires acts != []
    ensures Unregistered(acts, k) <==>
            if IsReport(Last(acts), k) then !Reported(Init(acts), k) || Unregistered(Init(acts), k)
            else Unregistered(Init(acts), k) && Last(acts) != Register(k)
  {
    var p := Init(acts);
    ReportedStep(acts, k);
    if Reported(p, k) && Last(acts) == Register(k) {
      var i :| 0 <= i < |p| && IsReport(p[i], k);
      assert IsReport(acts[i], k) && acts[|acts| - 1] == Register(k);
    }
    if Unregistered(acts, k) {
      forall i, j | 0 <= i < j < |p| && IsReport(p[i], k) ensures p[j] != Register(k) {
        assert IsReport(acts[i], k) && acts[j] != Register(k);
      }
    } else if Reported(acts, k) {
      var i, j :| 0 <= i < j < |acts| && IsReport(acts[i], k) && acts[j] == Register(k);
      assert IsReport(p[i], k);
      if j < |p| {
        assert p[j] == Register(k);
      }
    }
  }

  /**
   * Over every run, the shadow set is exactly the agents that were reported and not registered
   * since their first report. A registration that precedes the first report does not count.
   */
  lemma {:induction false} ShadowSetExact(acts: seq<Action>, k: string)
    requires Timely(acts)
    ensures k in Exec(acts).agents <==> Reported(acts, k)
    ensures k in Exec(acts).agents && !Exec(acts).agents[k].isRegistered <==> Unregistered(acts, k)
  {
    if acts != [] {
      TimelyInit(acts);
      ShadowSetExact(Init(acts), k);
      ReportedStep(acts, k);
      UnregisteredStep(acts, k);
    }
  }

  // ---- Broadcasts made by reports ----

  /** How many times a report of k put something on the broadcast channel. */
  function Broadcasts(acts: seq<Action>, k: string): nat {
    if acts == [] then 0
    else
      Broadcasts(Init(acts), k)
      + if IsReport(Last(acts), k) && |Exec(acts).sent| > |Exec(Init(acts)).sent| then 1 else 0
  }

  function FirstSource(acts: seq<Action>, k: string): Option<DiscoverySource> {
    if acts == [] then None
    else
      var before := FirstSource(Init(acts), k);
      if before.None? && IsReport(Last(acts), k) then Some(Last(acts).source) else before
  }

  predicate EverActive(acts: seq<Action>, k: string) {
    exists i | 0 <= i < |acts| :: IsReport(acts[i], k) && acts[i].source == Active
  }

  lemma EverActiveStep(acts: seq<Action>, k: string)
    requires acts != []
    ensures EverActive(acts, k) <==> EverActive(Init(acts), k) || (IsReport(Last(acts), k) && Last(acts).source == Active)
  {
    if EverActive(Init(acts), k) {
      var i :| 0 <= i < |Init(acts)| && IsReport(Init(acts)[i], k) && Init(acts)[i].source == Active;
      assert IsReport(acts[i], k) && acts[i].source == Active;
    }
    if IsReport(Last(acts), k) {
      assert IsReport(acts[|acts| - 1], k);
    }
    if EverActive(acts, k) {
      var i :| 0 <= i < |acts| && IsReport(acts[i], k) && acts[i].source == Active;
      if i < |Init(acts)| {
        assert IsReport(Init(acts)[i], k) && Init(acts)[i].source == Active;
      }
    }
  }

  /**
   * Reports of one agent broadcast at most twice in any run, however often it is seen: once at its
   * first report, and once more exactly when that first report was passive and an active one followed.
   */
  lemma {:induction false} BroadcastsExact(acts: seq<Action>, k: string)
    requires Timely(acts)
    ensures FirstSource(acts, k).Some? <==> k in Exec(acts).agents
    ensures k in Exec(acts).agents ==> (Exec(acts).agents[k].source == Active <==> EverActive(acts, k))
    ensures FirstSource(acts, k) == Some(Active) ==> EverActive(acts, k)
    ensures FirstSource(acts, k).None? ==> !EverActive(acts, k)
    ensures Broadcasts(acts, k) == match FirstSource(acts, k)
                                   case None => 0
                                   case Some(Active) => 1
                                   case Some(Passive) => if EverActive(acts, k) then 2 else 1
  {
    if acts != [] {
      TimelyInit(acts);
      BroadcastsExact(Init(acts), k);
      EverActiveStep(acts, k);
    }
  }

  // ---- What never reverts ----

  /** e is a later view of the same agent than d. */
  predicate Later(d: DiscoveredAgent, e: DiscoveredAgent) {
    && d.did == e.did
    && d.firstSeen == e.firstSeen
    && d.lastSeen <= e.lastSeen
    && (d.isRegistered ==> e.isRegistered)
    && (d.source == Active ==> e.source == Active && e.name == d.name)
  }

  lemma {:induction false} SeenInOrder(acts: seq<Action>)
    ensures forall k | k in Exec(acts).agents ::
              var e := Exec(acts).agents[k]; e.firstSeen <= e.lastSeen <= Exec(acts).now && PrintDid(e.did) == k
  {
    if acts != [] {
      SeenInOrder(Init(acts));
    }
  }

  /** Nothing an agent's entry has gained is lost in any continuation of the run. */
  lemma {:induction false} EntriesOnlyGrow(acts: seq<Action>, m: nat, k: string)
    requires m <= |acts| && k in Exec(acts[..m]).agents
    ensures k in Exec(acts).agents && Later(Exec(acts[..m]).agents[k], Exec(acts).agents[k])
    decreases |acts|
  {
    if m == |acts| {
      assert acts[..m] == acts;
    } else {
      PrefixOfInit(acts, m);
      EntriesOnlyGrow(Init(acts), m, k);
      SeenInOrder(Init(acts));
    }
  }

  // ---- The manager itself ----

  /** The keys of the unregistered entries. */
  function ShadowKeys(agents: map<string, DiscoveredAgent>): set<string> {
    set k | k in agents && !agents[k].isRegistered
  }

  class DiscoveryManager {
    var agents: map<string, DiscoveredAgent>
    // What was sent on the broadcast channel, oldest first.
    var sent: seq<DiscoveryEvent>
    // Every report and registration so far, oldest first.
    ghost var history: seq<Action>

    ghost predicate Valid()
      reads this
    {
      Timely(history) ==> agents == Exec(history).agents && sent == Exec(history).sent
    }

    constructor ()
      ensures Valid() && agents == map[] && sent == [] && history == []
    {
      agents, sent, history := map[], [], [];
    }

    ghost function At(now: int): State
      reads this
    {
      State(now, agents, sent)
    }

    method ReportPresence(did: AgentDID, name: string, address: string, source: DiscoverySource,
                          insertedAt: int, seenAt: int)
      requires Valid() && insertedAt <= seenAt
      modifies this
      ensures Valid() && history == old(history) + [Report(did, name, address, source, insertedAt, seenAt)]
      ensures At(seenAt) == Step(old(At(insertedAt)), Report(did, name, address, source, insertedAt, seenAt))
      ensures PrintDid(did) !in old(agents) ==>
                && agents == old(agents)[PrintDid(did) :=
                     DiscoveredAgent(did, name, insertedAt, seenAt, address, false, source)]
                && sent == old(sent) + [Shadow(agents[PrintDid(did)])]
      ensures PrintDid(did) in old(agents) ==>
                && var e := old(agents)[PrintDid(did)];
                && var upgraded := e.source == Passive && source == Active;
                && agents == old(agents)[PrintDid(did) :=
                     DiscoveredAgent(e.did, if upgraded then name else e.name, e.firstSeen, seenAt, address, e.isRegistered,
                                     if upgraded then Active else e.source)]
                && sent == old(sent) + if !upgraded then []
                                       else if e.isRegistered then [Presence(agents[PrintDid(did)])]
                                       else [Shadow(agents[PrintDid(did)])]
    {
      Extend(history, Report(did, name, address, source, insertedAt, seenAt));
      history := history + [Report(did, name, address, source, insertedAt, seenAt)];

      var key := PrintDid(did);
      var isNew := key !in agents;
      var entry := if isNew then DiscoveredAgent(did, name, insertedAt, insertedAt, address, false, source) else agents[key];
      entry := entry.(lastSeen := seenAt, transportAddress := address);

      var wasPassive := false;
      if source == Active && entry.source == Passive {
        entry := entry.(source := Active, name := name);
        wasPassive := true;
      }
      agents := agents[key := entry];

      var event := if entry.isRegistered then Presence(entry) else Shadow(entry);
      if isNew || wasPassive {
        sent := sent + [event];
      }
    }

    method RegisterAgent(did: string)
      requires Valid()
      modifies this
      ensures Valid() && history == old(history) + [Register(did)]
      ensures forall now :: At(now) == Step(old(At(now)), Register(did))
      ensures did in old(agents) ==>
                && agents == old(agents)[did := old(agents)[did].(isRegistered := true)]
                && sent == old(sent) + [Presence(agents[did])]
      ensures did !in old(agents) ==> agents == old(agents) && sent == old(sent)
    {
      Extend(history, Register(did));
      history := history + [Register(did)];
      if did in agents {
        agents := agents[did := agents[did].(isRegistered := true)];
        sent := sent + [Presence(agents[did])];
      }
    }

    /**
     * The unregistered entries, one for each key, in the map's unspecified order; by the manager's
     * history, those reported and not registered since.
     */
    method DetectShadowAgents() returns (shadows: seq<DiscoveredAgent>)
      requires Valid()
      ensures |shadows| == |ShadowKeys(agents)|
      ensures Elements(shadows) == EntriesAt(agents, ShadowKeys(agents))
      ensures Timely(history) ==> forall k :: k in ShadowKeys(agents) <==> Unregistered(history, k)
    {
      shadows := CollectShadows(agents);
      if Timely(history) {
        forall k ensures k in ShadowKeys(agents) <==> Unregistered(history, k) {
          ShadowSetExact(history, k);
        }
      }
    }
  }

  function EntriesAt(agents: map<string, DiscoveredAgent>, keys: set<string>): set<DiscoveredAgent>
    requires keys <= agents.Keys
  {
    set k | k in keys :: agents[k]
  }

  function Elements(s: seq<DiscoveredAgent>): set<DiscoveredAgent> {
    set a | a in s
  }

  method CollectShadows(agents: map<string, DiscoveredAgent>) returns (shadows: seq<DiscoveredAgent>)
    ensures |shadows| == |ShadowKeys(agents)|
    ensures Elements(shadows) == EntriesAt(agents, ShadowKeys(agents))
  {
    shadows := [];
    var todo := agents.Keys;
    ghost var found: set<string> := {};
    while todo != {}
      invariant todo <= agents.Keys
      invariant found == ShadowKeys(agents) - todo && |found| == |shadows|
      invariant Elements(shadows) == EntriesAt(agents, found)
      decreases todo
    {
      var k :| k in todo;
      if !agents[k].isRegistered {
        assert Elements(shadows + [agents[k]]) == Elements(shadows) + {agents[k]};
        assert EntriesAt(agents, found + {k}) == EntriesAt(agents, found) + {agents[k]};
        shadows, found := shadows + [agents[k]], found + {k};
      }
      todo := todo - {k};
    }
    assert found == ShadowKeys(agents);
  }

  lemma Extend(acts: seq<Action>, a: Action)
    ensures Exec(acts + [a]) == Step(Exec(acts), a)
    ensures Timely(acts + [a]) ==> Timely(acts) && (a.Report? ==> Exec(acts).now <= a.insertedAt <= a.seenAt)
  {
    InitOfSnoc(acts, a);
    if Timely(acts + [a]) {
      TimelyInit(acts + [a]);
    }
  }
}
