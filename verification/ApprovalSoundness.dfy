/**
 * What stands behind every approved escalation, in runs where the registry changes freely.
 * Source: approve of crates/core/runtime/src/rings/escalation.rs.
 */
module ApprovalSoundness {
  import opened Common
  import opened Identity
  import opened Attestation
  import opened Escalation

  // ---- Facts about one moment of a run; k counts the actions before it ----

  /** Action k of the run took effect. */
  predicate HappenedAt(env: Env, audited: bool, acts: seq<Action>, k: nat) {
    k < |acts| && Enabled(Exec(env, audited, acts[..k]), acts[k])
  }

  /** Action k issued the request under this id. */
  predicate IssuedAt(env: Env, audited: bool, acts: seq<Action>, k: nat, id: string, request: EscalationRequest) {
    HappenedAt(env, audited, acts, k) && acts[k] == Request(id, request)
  }

  /** Action k is call c claiming the id for its approver, with this signature. */
  predicate ClaimedAt(
      env: Env, audited: bool, acts: seq<Action>, k: nat, c: nat, id: string, approver: string, signature: string)
  {
    HappenedAt(env, audited, acts, k) && acts[k] == Approve(c, id, approver, signature)
  }

  /** At action k, call c read the approver's ring, and the registry held System. */
  predicate SystemAt(env: Env, audited: bool, acts: seq<Action>, k: nat, c: nat, approver: string) {
    && HappenedAt(env, audited, acts, k) && acts[k].ReadRing? && acts[k].call == c && acts[k].failure.None?
    && var registry := Exec(env, audited, acts[..k]).registry;
    && approver in registry && registry[approver].ring == System
  }

  /**
   * At action k, call c read an attestation of the approver's key as the registry then held it; the
   * attestation verified, and the signature covers exactly this id, agent and ring under that key.
   */
  predicate SignedAt(
      env: Env, audited: bool, acts: seq<Action>, k: nat, c: nat, approver: string, signature: string, key: string,
      id: string, agent: string, ring: PrivilegeRing)
  {
    && HappenedAt(env, audited, acts, k) && acts[k].ReadAttestation? && acts[k].call == c
    && Attests(env, Exec(env, audited, acts[..k]).registry, approver, acts[k], key)
    && env.crypto.verifies(key, ApprovalPayload(id, agent, ring), signature)
  }

  /** The answer read by a is an unexpired attestation of this key for the approver, signed under the registry's key. */
  predicate Attests(env: Env, registry: map<string, Entry>, approver: string, a: Action, key: string)
    requires a.ReadAttestation?
  {
    && a.failure.None? && approver in registry && registry[approver].publicKey == key
    && var claim := AttestationClaim(approver, key, a.issuedAt, a.readAgainAt + 86_400_000_000_000);
    && a.verifiedAt <= claim.expiresAt && env.crypto.isKey(env.registryKey)
    && env.crypto.verifies(env.registryKey, env.crypto.claimBytes(claim), env.issuer.sign(env.crypto.claimBytes(claim)))
  }

  lemma MomentsKept(
      env: Env, audited: bool, acts: seq<Action>, k: nat, c: nat, approver: string, signature: string, key: string,
      id: string, agent: string, ring: PrivilegeRing)
    requires acts != [] && k < |Init(acts)|
    ensures ClaimedAt(env, audited, Init(acts), k, c, id, approver, signature)
            ==> ClaimedAt(env, audited, acts, k, c, id, approver, signature)
    ensures SystemAt(env, audited, Init(acts), k, c, approver) ==> SystemAt(env, audited, acts, k, c, approver)
    ensures SignedAt(env, audited, Init(acts), k, c, approver, signature, key, id, agent, ring)
            ==> SignedAt(env, audited, acts, k, c, approver, signature, key, id, agent, ring)
  {
    PrefixOfInit(acts, k);
  }

  // ---- What each call's phase says about the past ----

  ghost predicate ClaimedBefore(env: Env, audited: bool, acts: seq<Action>, c: nat, call: Call, signature: string) {
    exists k: nat :: ClaimedAt(env, audited, acts, k, c, call.id, call.approver, signature)
  }

  ghost predicate SystemBefore(env: Env, audited: bool, acts: seq<Action>, c: nat, call: Call, signature: string) {
    exists k: nat, l: nat :: k < l && ClaimedAt(env, audited, acts, k, c, call.id, call.approver, signature)
                             && SystemAt(env, audited, acts, l, c, call.approver)
  }

  /** The chain of moments behind an approval by call c. */
  predicate Chain(
      env: Env, audited: bool, acts: seq<Action>, c: nat, e: EscalationEvent, signature: string, key: string,
      k: nat, l: nat, m: nat)
  {
    && k < l < m
    && ClaimedAt(env, audited, acts, k, c, e.eventId, e.approverDid, signature)
    && SystemAt(env, audited, acts, l, c, e.approverDid)
    && SignedAt(env, audited, acts, m, c, e.approverDid, signature, key, e.eventId, e.agentDid, e.toRing)
  }

  ghost predicate ApprovedBefore(env: Env, audited: bool, acts: seq<Action>, c: nat, call: Call, e: EscalationEvent) {
    && e == EventFor(call.id, call.request, call.approver, Approved, e.timestamp)
    && MorePrivileged(e.toRing, e.fromRing)
    && exists signature: string, key: string, k: nat, l: nat, m: nat ::
         Chain(env, audited, acts, c, e, signature, key, k, l, m)
  }

  ghost predicate Story(env: Env, audited: bool, acts: seq<Action>, c: nat, call: Call) {
    match call.phase
    case Claimed(signature) => ClaimedBefore(env, audited, acts, c, call, signature)
    case RingOk(signature) => SystemBefore(env, audited, acts, c, call, signature)
    case _ =>
      EventOf(call.phase).Some? && EventOf(call.phase).value.outcome.Approved? ==>
        ApprovedBefore(env, audited, acts, c, call, EventOf(call.phase).value)
  }

  lemma StoryKept(env: Env, audited: bool, acts: seq<Action>, c: nat, call: Call)
    requires acts != [] && Story(env, audited, Init(acts), c, call)
    ensures Story(env, audited, acts, c, call)
  {
    var p := Init(acts);
    match call.phase {
      case Claimed(signature) =>
        var k: nat :| ClaimedAt(env, audited, p, k, c, call.id, call.approver, signature);
        PrefixOfInit(acts, k);
        assert ClaimedAt(env, audited, acts, k, c, call.id, call.approver, signature);
      case RingOk(signature) =>
        var k: nat, l: nat :| k < l && ClaimedAt(env, audited, p, k, c, call.id, call.approver, signature)
                              && SystemAt(env, audited, p, l, c, call.approver);
        PrefixOfInit(acts, k);
        PrefixOfInit(acts, l);
        assert ClaimedAt(env, audited, acts, k, c, call.id, call.approver, signature);
        assert SystemAt(env, audited, acts, l, c, call.approver);
      case _ =>
        if EventOf(call.phase).Some? && EventOf(call.phase).value.outcome.Approved? {
          var e := EventOf(call.phase).value;
          var signature: string, key: string, k: nat, l: nat, m: nat :|
            Chain(env, audited, p, c, e, signature, key, k, l, m);
          MomentsKept(env, audited, acts, k, c, e.approverDid, signature, key, e.eventId, e.agentDid, e.toRing);
          MomentsKept(env, audited, acts, l, c, e.approverDid, signature, key, e.eventId, e.agentDid, e.toRing);
          MomentsKept(env, audited, acts, m, c, e.approverDid, signature, key, e.eventId, e.agentDid, e.toRing);
          assert Chain(env, audited, acts, c, e, signature, key, k, l, m);
        }
    }
  }

  // ---- One step ----

  lemma StoryOfClaim(env: Env, audited: bool, acts: seq<Action>, c: nat)
    requires acts != [] && Last(acts).Approve? && Last(acts).call == c
    requires Enabled(Exec(env, audited, Init(acts)), Last(acts))
    ensures Story(env, audited, acts, c, Exec(env, audited, acts).calls[c])
  {
    var a := Last(acts);
    assert acts[..|acts| - 1] == Init(acts);
    assert ClaimedAt(env, audited, acts, |acts| - 1, c, a.id, a.approver, a.signature);
  }

  lemma StoryOfRing(env: Env, audited: bool, acts: seq<Action>, c: nat)
    requires acts != [] && Last(acts).ReadRing? && Last(acts).call == c
    requires Enabled(Exec(env, audited, Init(acts)), Last(acts))
    requires Story(env, audited, Init(acts), c, Exec(env, audited, Init(acts)).calls[c])
    ensures Story(env, audited, acts, c, Exec(env, audited, acts).calls[c])
  {
    var s, n := Exec(env, audited, Init(acts)), |acts| - 1;
    var call, next := s.calls[c], Exec(env, audited, acts).calls[c];
    assert next == call.(phase := RingPhase(s, call, Last(acts).failure, Last(acts).at));
    if next.phase.RingOk? {
      var signature := call.phase.signature;
      var k: nat :| ClaimedAt(env, audited, Init(acts), k, c, call.id, call.approver, signature);
      PrefixOfInit(acts, k);
      assert ClaimedAt(env, audited, acts, k, c, call.id, call.approver, signature);
      assert acts[..n] == Init(acts);
      assert SystemAt(env, audited, acts, n, c, call.approver);
    }
  }

  /** An approval decided on an attestation answer needs everything that approve checks after it. */
  lemma ApprovingAnswer(env: Env, s: State, call: Call, a: Action, e: EscalationEvent)
    requires call.phase.RingOk? && a.ReadAttestation?
    requires AttestationPhase(env, s, call, a) == Decided(e) && e.outcome.Approved?
    ensures e == EventFor(call.id, call.request, call.approver, Approved, a.at) && MorePrivileged(e.toRing, e.fromRing)
    ensures call.approver in s.registry
    ensures var key := s.registry[call.approver].publicKey;
            && Attests(env, s.registry, call.approver, a, key)
            && env.crypto.verifies(key, ApprovalPayload(e.eventId, e.agentDid, e.toRing), call.phase.signature)
  {
    RankIsPrivilege(e.toRing, e.fromRing);
  }

  lemma StoryOfAttestation(env: Env, audited: bool, acts: seq<Action>, c: nat)
    requires acts != [] && Last(acts).ReadAttestation? && Last(acts).call == c
    requires Enabled(Exec(env, audited, Init(acts)), Last(acts))
    requires Story(env, audited, Init(acts), c, Exec(env, audited, Init(acts)).calls[c])
    ensures Story(env, audited, acts, c, Exec(env, audited, acts).calls[c])
  {
    var s, n := Exec(env, audited, Init(acts)), |acts| - 1;
    var call, next := s.calls[c], Exec(env, audited, acts).calls[c];
    assert next == call.(phase := AttestationPhase(env, s, call, Last(acts)));
    if EventOf(next.phase).Some? && EventOf(next.phase).value.outcome.Approved? {
      var e := EventOf(next.phase).value;
      assert next.phase == Decided(e);
      ApprovingAnswer(env, s, call, Last(acts), e);
      assert acts[..n] == Init(acts);
      ChainCloses(env, audited, acts, c, call, e, s.registry[call.approver].publicKey);
    }
  }

  /** A verified signature, read last, completes the chain of a call whose ring was System. */
  lemma ChainCloses(env: Env, audited: bool, acts: seq<Action>, c: nat, call: Call, e: EscalationEvent, key: string)
    requires acts != [] && call.phase.RingOk?
    requires SystemBefore(env, audited, Init(acts), c, call, call.phase.signature)
    requires e == EventFor(call.id, call.request, call.approver, Approved, e.timestamp) && MorePrivileged(e.toRing, e.fromRing)
    requires SignedAt(
               env, audited, acts, |acts| - 1, c, call.approver, call.phase.signature, key, e.eventId, e.agentDid, e.toRing)
    ensures ApprovedBefore(env, audited, acts, c, call, e)
  {
    var signature := call.phase.signature;
    var k: nat, l: nat :| k < l && ClaimedAt(env, audited, Init(acts), k, c, call.id, call.approver, signature)
                          && SystemAt(env, audited, Init(acts), l, c, call.approver);
    PrefixOfInit(acts, k);
    PrefixOfInit(acts, l);
    assert ClaimedAt(env, audited, acts, k, c, call.id, call.approver, signature);
    assert SystemAt(env, audited, acts, l, c, call.approver);
    assert Chain(env, audited, acts, c, e, signature, key, k, l, |acts| - 1);
  }

  lemma StoryStep(env: Env, audited: bool, acts: seq<Action>, c: nat)
    requires acts != [] && c in Exec(env, audited, acts).calls
    requires c in Exec(env, audited, Init(acts)).calls ==>
               Story(env, audited, Init(acts), c, Exec(env, audited, Init(acts)).calls[c])
    ensures Story(env, audited, acts, c, Exec(env, audited, acts).calls[c])
  {
    var s, t, a := Exec(env, audited, Init(acts)), Exec(env, audited, acts), Last(acts);
    if c in s.calls && t.calls[c] == s.calls[c] {
      StoryKept(env, audited, acts, c, t.calls[c]);
    } else {
      assert Enabled(s, a);
      match a {
        case Approve(_, _, _, _) => StoryOfClaim(env, audited, acts, c);
        case ReadRing(_, _, _) => StoryOfRing(env, audited, acts, c);
        case ReadAttestation(_, _, _, _, _, _) => StoryOfAttestation(env, audited, acts, c);
        case Deny(_, _, _, _, _) =>
        case WriteLog(_, _) => StoryAlong(env, audited, acts, c, t.calls[c]);
        case Return(_) => StoryAlong(env, audited, acts, c, t.calls[c]);
      }
    }
  }

  /** Logging and returning an event change nothing about how it came to be. */
  lemma StoryAlong(env: Env, audited: bool, acts: seq<Action>, c: nat, next: Call)
    requires acts != [] && c in Exec(env, audited, Init(acts)).calls
    requires var call := Exec(env, audited, Init(acts)).calls[c];
             && Story(env, audited, Init(acts), c, call)
             && next == call.(phase := next.phase)
             && EventOf(call.phase).Some? && EventOf(next.phase) == EventOf(call.phase)
    ensures Story(env, audited, acts, c, next)
  {
    var call := Exec(env, audited, Init(acts)).calls[c];
    StoryKept(env, audited, acts, c, call);
  }

  lemma {:induction false} StoryAlways(env: Env, audited: bool, acts: seq<Action>, c: nat)
    requires c in Exec(env, audited, acts).calls
    ensures Story(env, audited, acts, c, Exec(env, audited, acts).calls[c])
  {
    if acts != [] {
      if c in Exec(env, audited, Init(acts)).calls {
        StoryAlways(env, audited, Init(acts), c);
      }
      StoryStep(env, audited, acts, c);
    }
  }

  lemma {:induction false} EveryRequestIssued(env: Env, audited: bool, acts: seq<Action>, id: string)
    requires id in Exec(env, audited, acts).requests
    ensures IsUuidText(id)
    ensures exists k: nat :: IssuedAt(env, audited, acts, k, id, Exec(env, audited, acts).requests[id])
  {
    var s, a := Exec(env, audited, Init(acts)), Last(acts);
    var request := Exec(env, audited, acts).requests[id];
    assert acts[..|acts| - 1] == Init(acts);
    if id in s.requests {
      EveryRequestIssued(env, audited, Init(acts), id);
      var k: nat :| IssuedAt(env, audited, Init(acts), k, id, s.requests[id]);
      PrefixOfInit(acts, k);
      assert IssuedAt(env, audited, acts, k, id, request);
    } else {
      assert IssuedAt(env, audited, acts, |acts| - 1, id, request);
    }
  }

  /** An issued request stays what it is. */
  lemma {:induction false} RequestStays(env: Env, audited: bool, acts: seq<Action>, k: nat, id: string)
    requires k <= |acts| && id in Exec(env, audited, acts[..k]).requests
    ensures var s := Exec(env, audited, acts);
            id in s.requests && s.requests[id] == Exec(env, audited, acts[..k]).requests[id]
    decreases |acts|
  {
    if k == |acts| {
      assert acts[..k] == acts;
    } else {
      PrefixOfInit(acts, k);
      RequestStays(env, audited, Init(acts), k, id);
    }
  }

  /** The event was approved on this signature, verified under this key. */
  ghost predicate RestsOn(env: Env, audited: bool, acts: seq<Action>, made: Made, signature: string, key: string) {
    exists k: nat, l: nat, m: nat :: Chain(env, audited, acts, made.call, made.event, signature, key, k, l, m)
  }

  /** The event's request was issued, for its agent and rings, before action k. */
  ghost predicate RequestedBefore(env: Env, audited: bool, acts: seq<Action>, k: nat, e: EscalationEvent) {
    exists i: nat, request: EscalationRequest ::
      && i < k && IssuedAt(env, audited, acts, i, e.eventId, request)
      && request.agentDid == e.agentDid && request.currentRing == e.fromRing && request.requestedRing == e.toRing
  }

  /** Everything an approval rests on, in the order in which it happened. */
  ghost predicate Justified(env: Env, audited: bool, acts: seq<Action>, made: Made, signature: string, key: string) {
    && MorePrivileged(made.event.toRing, made.event.fromRing)
    && exists k: nat, l: nat, m: nat ::
         && Chain(env, audited, acts, made.call, made.event, signature, key, k, l, m)
         && RequestedBefore(env, audited, acts, k, made.event)
  }

  /** What was claimed had been issued before. */
  lemma ClaimedWasIssued(
      env: Env, audited: bool, acts: seq<Action>, k: nat, c: nat, e: EscalationEvent, signature: string,
      request: EscalationRequest)
    requires ClaimedAt(env, audited, acts, k, c, e.eventId, e.approverDid, signature)
    requires e.eventId in Exec(env, audited, acts).requests ==> Exec(env, audited, acts).requests[e.eventId] == request
    requires e == EventFor(e.eventId, request, e.approverDid, e.outcome, e.timestamp)
    ensures RequestedBefore(env, audited, acts, k, e)
  {
    InvAlways(env, audited, acts[..k]);
    EveryRequestIssued(env, audited, acts[..k], e.eventId);
    RequestStays(env, audited, acts, k, e.eventId);
    var i: nat :| IssuedAt(env, audited, acts[..k], i, e.eventId, request);
    assert acts[..k][..i] == acts[..i];
    assert IssuedAt(env, audited, acts, i, e.eventId, request);
  }

  /**
   * Every approved event of every run goes back to a request issued for that agent and those rings,
   * which one call then claimed, moves it to a strictly more privileged ring, and was decided by that
   * call, whose approver held System when, after the claim, its ring was read and whose signature over
   * exactly this id, agent and ring verified under the key attested when, later still, its attestation
   * was read.
   */
  lemma ApprovalsJustified(env: Env, audited: bool, acts: seq<Action>, i: nat)
    requires i < |Exec(env, audited, acts).events|
    requires Exec(env, audited, acts).events[i].event.outcome.Approved?
    ensures exists signature, key :: Justified(env, audited, acts, Exec(env, audited, acts).events[i], signature, key)
  {
    var s := Exec(env, audited, acts);
    var made := s.events[i];
    var e := made.event;
    InvAlways(env, audited, acts);
    var call := s.calls[made.call];
    StoryAlways(env, audited, acts, made.call);
    assert ApprovedBefore(env, audited, acts, made.call, call, e);
    var signature: string, key: string, k: nat, l: nat, m: nat :|
      Chain(env, audited, acts, made.call, e, signature, key, k, l, m);
    ClaimedWasIssued(env, audited, acts, k, made.call, e, signature, call.request);
    assert Justified(env, audited, acts, made, signature, key);
  }

  /** What an honest approval needs of its signatures: the registry's on its claim, and the approver's on the request. */
  predicate ProperlySigned(
      env: Env, id: string, request: EscalationRequest, approver: string, key: string, signature: string, issuedAt: int,
      readAgainAt: int)
  {
    var claim := AttestationClaim(approver, key, issuedAt, readAgainAt + 86_400_000_000_000);
    && env.crypto.isKey(env.registryKey)
    && env.crypto.verifies(env.registryKey, env.crypto.claimBytes(claim), env.issuer.sign(env.crypto.claimBytes(claim)))
    && env.crypto.verifies(key, ApprovalPayload(id, request.agentDid, request.requestedRing), signature)
  }

  /**
   * The converse, from any state whatever: a System approver is registered, a request for a more
   * privileged ring is issued, and the approver, properly signed, approves it undisturbed while its
   * attestation is valid. Then the call returns the approval, and a working log holds it.
   */
  lemma HonestApprovalSucceeds(
      env: Env, s: State, c: nat, id: string, request: EscalationRequest, approver: string, key: string, signature: string,
      issuedAt: int, readAgainAt: int, verifiedAt: int, at: int)
    requires IsUuidText(id) && id !in s.requests && c !in s.calls && s.now <= issuedAt <= readAgainAt <= verifiedAt <= at
    requires verifiedAt <= readAgainAt + 86_400_000_000_000
    requires ProperlySigned(env, id, request, approver, key, signature, issuedAt, readAgainAt)
    requires MorePrivileged(request.requestedRing, request.currentRing)
    ensures var asked := Step(env, Step(env, s, Register(approver, Entry(key, System))), Request(id, request));
            var ringRead := Step(env, Step(env, asked, Approve(c, id, approver, signature)), ReadRing(c, None, issuedAt));
            var decided := Step(env, ringRead, ReadAttestation(c, None, issuedAt, readAgainAt, verifiedAt, at));
            var done := Step(env, Step(env, decided, WriteLog(c, true)), Return(c));
            var event := EscalationEvent(id, request.agentDid, approver, request.currentRing, request.requestedRing, Approved,
                                         request.reason, at);
            && c in done.calls && done.calls[c].phase == Done(Ok(event))
            && id !in done.pending && done.events == s.events + [Made(c, event)]
            && (s.audit.Some? ==> done.audit == Some(s.audit.value + [event]))
  {
    var asked := Step(env, Step(env, s, Register(approver, Entry(key, System))), Request(id, request));
    assert asked == s.(registry := s.registry[approver := Entry(key, System)], requests := s.requests[id := request],
                       pending := s.pending[id := request]);
    var attestation := Issue(env.crypto, env.issuer, asked.registry, approver, issuedAt, readAgainAt);
    var outcome := ApproveOutcome(env, id, request, approver, signature, Ok(Some(System)), Ok(attestation), issuedAt,
                                  verifiedAt, at);
    ApproveAlone(env, asked, c, id, approver, signature, outcome, issuedAt, issuedAt, readAgainAt, verifiedAt, at, true);
    ApproveExact(env, id, request, approver, signature, Ok(Some(System)), Ok(attestation), issuedAt, verifiedAt, at);
  }

  /** A signature verifies for no two messages under one key. */
  ghost predicate BindsMessage(crypto: Crypto) {
    forall key, m1, m2, signature ::
      crypto.verifies(key, m1, signature) && crypto.verifies(key, m2, signature) ==> m1 == m2
  }

  /**
   * One signature approves at most one escalation, ever: in any run, two approvals that rest on the
   * same signature under the same key are the same event.
   */
  lemma SignatureApprovesOnce(
      env: Env, audited: bool, acts: seq<Action>, i: nat, j: nat, signature: string, key: string)
    requires BindsMessage(env.crypto)
    requires i < |Exec(env, audited, acts).events| && j < |Exec(env, audited, acts).events|
    requires RestsOn(env, audited, acts, Exec(env, audited, acts).events[i], signature, key)
    requires RestsOn(env, audited, acts, Exec(env, audited, acts).events[j], signature, key)
    ensures i == j
  {
    var s := Exec(env, audited, acts);
    var e, f := s.events[i].event, s.events[j].event;
    var k: nat, l: nat, m: nat :| Chain(env, audited, acts, s.events[i].call, e, signature, key, k, l, m);
    var k': nat, l': nat, m': nat :| Chain(env, audited, acts, s.events[j].call, f, signature, key, k', l', m');
    InvAlways(env, audited, acts);
    assert s.calls[s.events[i].call].id == e.eventId && s.calls[s.events[j].call].id == f.eventId;
    EveryRequestIssued(env, audited, acts, e.eventId);
    EveryRequestIssued(env, audited, acts, f.eventId);
    PayloadInjective(e.eventId, e.agentDid, e.toRing, f.eventId, f.agentDid, f.toRing);
    DecidedOnce(env, audited, acts);
  }
}
