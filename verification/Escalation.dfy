/**
 * Ring escalation: requests are issued, claimed once, then decided over several reads of a registry
 * that may change between them.
 * Source: crates/core/runtime/src/rings/escalation.rs and crates/core/mesh/src/identity/escalation.rs.
 */
module Escalation {
  import opened Common
  import opened Identity
  import opened Attestation

  datatype EscalationRequest = EscalationRequest(
    agentDid: string, currentRing: PrivilegeRing, requestedRing: PrivilegeRing, reason: string, timestamp: int)

  datatype EscalationOutcome = Approved | Denied(cause: string)

  datatype EscalationEvent = EscalationEvent(
    eventId: string,
    agentDid: string,
    approverDid: string,
    fromRing: PrivilegeRing,
    toRing: PrivilegeRing,
    outcome: EscalationOutcome,
    reason: string,
    timestamp: int)

  type Outcome = Result<EscalationEvent, string>

  // What a stretch of approve between two awaits leads to.
  datatype Progress = Proceed | Finish(outcome: Outcome)

  datatype Env = Env(crypto: Crypto, issuer: Issuer, registryKey: string)

  function EventFor(id: string, request: EscalationRequest, approver: string, outcome: EscalationOutcome, at: int)
    : EscalationEvent
  {
    EscalationEvent(id, request.agentDid, approver, request.currentRing, request.requestedRing, outcome, request.reason, at)
  }

  /** From the registry's ring answer to the next await. */
  function AfterRing(
      id: string, request: EscalationRequest, approver: string, answer: Result<Option<PrivilegeRing>, string>, at: int)
    : Progress
  {
    match answer
    case Err(e) => Finish(Err(e))
    case Ok(None) => Finish(Err("Approver DID not in registry"))
    case Ok(Some(ring)) =>
      if ring != System
      then Finish(Ok(EventFor(id, request, approver, Denied("Only System-ring agents can approve escalation"), at)))
      else Proceed
  }

  function ErrorText(e: AttestationError): string {
    match e
    case InvalidSignature => "Registry attestation verification failed: Invalid signature"
    case Expired => "Registry attestation verification failed: Attestation expired"
    case InvalidPublicKey => "Registry attestation verification failed: Invalid public key"
  }

  /** From the registry's attestation answer to the event, or to the error. */
  function AfterAttestation(
      env: Env, id: string, request: EscalationRequest, approver: string, signature: string,
      answer: Result<Option<SignedAttestation>, string>, verifiedAt: int, at: int)
    : Outcome
  {
    match answer
    case Err(e) => Err(e)
    case Ok(None) => Err("Approver attestation not found")
    case Ok(Some(a)) =>
      match Verify(env.crypto, env.registryKey, a, verifiedAt)
      case Err(e) => Err(ErrorText(e))
      case Ok(_) =>
        var payload := ApprovalPayload(id, request.agentDid, request.requestedRing);
        if !env.crypto.verifies(a.claim.publicKey, payload, signature)
        then Ok(EventFor(id, request, approver, Denied("Approval signature invalid"), at))
        else if request.requestedRing.Rank() >= request.currentRing.Rank()
        then Ok(EventFor(id, request, approver, Denied("Requested ring must be more privileged"), at))
        else Ok(EventFor(id, request, approver, Approved, at))
  }

  // ---- Interleaved calls ----

  datatype Phase =
    | Claimed(signature: string)           // request removed from pending, ring not read yet
    | RingOk(signature: string)            // the approver's ring was System when read
    | Decided(event: EscalationEvent)      // event made, not yet offered to the audit log
    | Logged(event: EscalationEvent)       // audit write attempted, export to SIEM under way
    | Done(outcome: Outcome)               // returned to the caller

  datatype Call = Call(id: string, approver: string, request: EscalationRequest, phase: Phase)

  datatype Made = Made(call: nat, event: EscalationEvent)

  // requests and events are the run's history: every request issued, every event made and by which call.
  datatype State = State(
    now: int,
    registry: map<string, Entry>,
    requests: map<string, EscalationRequest>,
    pending: map<string, EscalationRequest>,
    calls: map<nat, Call>,
    events: seq<Made>,
    audit: Option<seq<EscalationEvent>>)

  datatype Action =
    | Register(did: string, entry: Entry)
    | Request(id: string, request: EscalationRequest)
    | Approve(call: nat, id: string, approver: string, signature: string)
    | ReadRing(call: nat, failure: Option<string>, at: int)
    | ReadAttestation(call: nat, failure: Option<string>, issuedAt: int, readAgainAt: int, verifiedAt: int, at: int)
    | Deny(call: nat, id: string, approver: string, cause: string, at: int)
    | WriteLog(call: nat, works: bool)
    | Return(call: nat)

  function Fresh(audited: bool): State {
    State(0, map[], map[], map[], map[], [], if audited then Some([]) else None)
  }

  function SetPhase(s: State, c: nat, p: Phase): State
    requires c in s.calls
  {
    s.(calls := s.calls[c := s.calls[c].(phase := p)],
       events := if p.Decided? then s.events + [Made(c, p.event)] else s.events)
  }

  function PhaseAfter(outcome: Outcome): Phase {
    match outcome case Ok(e) => Decided(e) case Err(_) => Done(outcome)
  }

  function RingAnswer(s: State, approver: string, failure: Option<string>): Result<Option<PrivilegeRing>, string> {
    match failure
    case Some(e) => Err(e)
    case None => Ok(if approver in s.registry then Some(s.registry[approver].ring) else None)
  }

  /** Whether the action can happen in the state; the UUID of a request is new, clocks do not go back. */
  predicate Enabled(s: State, a: Action) {
    match a
    case Register(_, _) => true
    case Request(id, _) => IsUuidText(id) && id !in s.requests
    case Approve(c, id, _, _) => c !in s.calls && id in s.pending
    case ReadRing(c, _, at) => c in s.calls && s.calls[c].phase.Claimed? && s.now <= at
    case ReadAttestation(c, _, issuedAt, readAgainAt, verifiedAt, at) =>
      c in s.calls && s.calls[c].phase.RingOk? && s.now <= issuedAt <= readAgainAt <= verifiedAt <= at
    case Deny(c, id, _, _, at) => c !in s.calls && id in s.pending && s.now <= at
    case WriteLog(c, _) => c in s.calls && s.calls[c].phase.Decided?
    case Return(c) => c in s.calls && s.calls[c].phase.Logged?
  }

  /** Where a call goes when the ring answer arrives. */
  function RingPhase(s: State, call: Call, failure: Option<string>, at: int): Phase
    requires call.phase.Claimed?
  {
    match AfterRing(call.id, call.request, call.approver, RingAnswer(s, call.approver, failure), at)
    case Proceed => RingOk(call.phase.signature)
    case Finish(outcome) => PhaseAfter(outcome)
  }

  /** Where a call goes when the attestation answer arrives. */
  function AttestationPhase(env: Env, s: State, call: Call, a: Action): Phase
    requires call.phase.RingOk? && a.ReadAttestation?
  {
    var answer := match a.failure
                  case Some(e) => Err(e)
                  case None => Ok(Issue(env.crypto, env.issuer, s.registry, call.approver, a.issuedAt, a.readAgainAt));
    PhaseAfter(AfterAttestation(env, call.id, call.request, call.approver, call.phase.signature, answer, a.verifiedAt, a.at))
  }

  function Claim(s: State, c: nat, id: string, approver: string, phase: Phase): State
    requires id in s.pending
  {
    s.(pending := s.pending - {id}, calls := s.calls[c := Call(id, approver, s.pending[id], phase)])
  }

  function Step(env: Env, s: State, a: Action): State {
    if !Enabled(s, a) then s
    else
      match a
      case Register(did, entry) => s.(registry := s.registry[did := entry])
      case Request(id, request) => s.(requests := s.requests[id := request], pending := s.pending[id := request])
      case Approve(c, id, approver, signature) => Claim(s, c, id, approver, Claimed(signature))
      case ReadRing(c, failure, at) => SetPhase(s.(now := at), c, RingPhase(s, s.calls[c], failure, at))
      case ReadAttestation(c, _, _, _, _, at) => SetPhase(s.(now := at), c, AttestationPhase(env, s, s.calls[c], a))
      case Deny(c, id, approver, cause, at) =>
        var e := EventFor(id, s.pending[id], approver, Denied(cause), at);
        SetPhase(Claim(s.(now := at), c, id, approver, Claimed("")), c, Decided(e))
      case WriteLog(c, works) =>
        var e := s.calls[c].phase.event;
        SetPhase(s, c, Logged(e)).(audit := if works && s.audit.Some? then Some(s.audit.value + [e]) else s.audit)
      case Return(c) => SetPhase(s, c, Done(Ok(s.calls[c].phase.event)))
  }

  function Exec(env: Env, audited: bool, acts: seq<Action>): State {
    if acts == [] then Fresh(audited) else Step(env, Exec(env, audited, Init(acts)), Last(acts))
  }

  // ---- Conservation ----

  /** The event a call has produced, if it has. */
  function EventOf(p: Phase): Option<EscalationEvent> {
    match p
    case Claimed(_) => None
    case RingOk(_) => None
    case Decided(e) => Some(e)
    case Logged(e) => Some(e)
    case Done(Ok(e)) => Some(e)
    case Done(Err(_)) => None
  }

  /** Who holds what: every issued id is pending or claimed, by one call and no more. */
  predicate ClaimsInv(s: State) {
    && (forall id | id in s.pending :: id in s.requests && s.requests[id] == s.pending[id])
    && (forall c | c in s.calls ::
          && s.calls[c].id in s.requests && s.calls[c].id !in s.pending
          && s.calls[c].request == s.requests[s.calls[c].id])
    && (forall c, d | c in s.calls && d in s.calls && s.calls[c].id == s.calls[d].id :: c == d)
    && (forall id | id in s.requests && id !in s.pending :: exists c | c in s.calls :: s.calls[c].id == id)
  }

  /** Every event was made by one call, for the id that call claimed, and every call made at most one. */
  predicate EventsInv(s: State) {
    && (forall i | 0 <= i < |s.events| ::
          && s.events[i].call in s.calls
          && EventOf(s.calls[s.events[i].call].phase) == Some(s.events[i].event)
          && s.events[i].event.eventId == s.calls[s.events[i].call].id)
    && (forall i, j | 0 <= i < j < |s.events| :: s.events[i].call != s.events[j].call)
    && (forall c | c in s.calls && EventOf(s.calls[c].phase).Some? :: exists i | 0 <= i < |s.events| :: s.events[i].call == c)
  }

  /** The calls of t are those of s up to their phases, and so are the requests. */
  predicate SameClaims(s: State, t: State) {
    && t.pending == s.pending && t.requests == s.requests && t.calls.Keys == s.calls.Keys
    && forall c | c in s.calls :: t.calls[c].id == s.calls[c].id && t.calls[c].request == s.calls[c].request
  }

  lemma ClaimsKept(s: State, t: State)
    requires ClaimsInv(s) && SameClaims(s, t)
    ensures ClaimsInv(t)
  {
    forall id | id in t.requests && id !in t.pending ensures exists c | c in t.calls :: t.calls[c].id == id {
      var c :| c in s.calls && s.calls[c].id == id;
      assert t.calls[c].id == id;
    }
  }

  /** The call takes the id out of pending; nothing else moves. */
  predicate Moves(s: State, t: State, c: nat, id: string) {
    && c !in s.calls && id in s.pending
    && t.requests == s.requests && t.pending == s.pending - {id} && t.calls.Keys == s.calls.Keys + {c}
    && (forall d | d in s.calls :: t.calls[d] == s.calls[d])
    && t.calls[c].id == id && t.calls[c].request == s.pending[id]
  }

  lemma HoldersMove(s: State, t: State, c: nat, id: string, k: string)
    requires ClaimsInv(s) && Moves(s, t, c, id) && k in t.requests && k !in t.pending
    ensures exists d | d in t.calls :: t.calls[d].id == k
  {
    if k == id {
      assert t.calls[c].id == k;
    } else {
      var d :| d in s.calls && s.calls[d].id == k;
      assert t.calls[d].id == k;
    }
  }

  lemma ClaimsMove(s: State, t: State, c: nat, id: string)
    requires ClaimsInv(s) && Moves(s, t, c, id)
    ensures ClaimsInv(t)
  {
    forall k | k in t.requests && k !in t.pending ensures exists d | d in t.calls :: t.calls[d].id == k {
      HoldersMove(s, t, c, id, k);
    }
    forall d | d in t.calls
      ensures t.calls[d].id in t.requests && t.calls[d].id !in t.pending
      ensures t.calls[d].request == t.requests[t.calls[d].id]
    {
      if d != c { assert d in s.calls; }
    }
  }

  lemma ClaimsRequest(s: State, t: State, id: string)
    requires ClaimsInv(s) && id !in s.requests && id in t.requests
    requires t.requests == s.requests[id := t.requests[id]] && t.pending == s.pending[id := t.requests[id]]
    requires t.calls == s.calls
    ensures ClaimsInv(t)
  {
    forall k | k in t.requests && k !in t.pending ensures exists d | d in t.calls :: t.calls[d].id == k {
      assert k in s.requests && k !in s.pending;
    }
  }

  lemma ClaimsSetPhase(s: State, c: nat, p: Phase)
    requires ClaimsInv(s) && c in s.calls
    ensures ClaimsInv(SetPhase(s, c, p))
  {
    ClaimsKept(s, SetPhase(s, c, p));
  }

  lemma ClaimsClaim(s: State, c: nat, id: string, approver: string, p: Phase)
    requires ClaimsInv(s) && c !in s.calls && id in s.pending
    ensures ClaimsInv(Claim(s, c, id, approver, p))
  {
    ClaimsMove(s, Claim(s, c, id, approver, p), c, id);
  }

  lemma ClaimsStep(env: Env, s: State, a: Action)
    requires ClaimsInv(s)
    ensures ClaimsInv(Step(env, s, a))
  {
    if Enabled(s, a) {
      match a {
        case Register(_, _) =>
        case Request(id, _) => ClaimsRequest(s, Step(env, s, a), id);
        case Approve(c, id, approver, signature) => ClaimsClaim(s, c, id, approver, Claimed(signature));
        case ReadRing(c, failure, at) => ClaimsSetPhase(s.(now := at), c, RingPhase(s, s.calls[c], failure, at));
        case ReadAttestation(c, _, _, _, _, at) => ClaimsSetPhase(s.(now := at), c, AttestationPhase(env, s, s.calls[c], a));
        case Deny(c, id, approver, cause, at) =>
          ClaimsClaim(s.(now := at), c, id, approver, Claimed(""));
          ClaimsSetPhase(Claim(s.(now := at), c, id, approver, Claimed("")), c,
                         Decided(EventFor(id, s.pending[id], approver, Denied(cause), at)));
        case WriteLog(c, _) => ClaimsSetPhase(s, c, Logged(s.calls[c].phase.event));
        case Return(c) => ClaimsSetPhase(s, c, Done(Ok(s.calls[c].phase.event)));
      }
    }
  }

  /** Call c, which had no event, gains the event at the end of the list, or gains none. */
  lemma EventsGrow(s: State, t: State, c: nat)
    requires EventsInv(s) && c in t.calls && (c in s.calls ==> EventOf(s.calls[c].phase).None?)
    requires t.calls.Keys == s.calls.Keys + {c}
    requires forall d | d in s.calls && d != c :: t.calls[d] == s.calls[d]
    requires match EventOf(t.calls[c].phase)
             case None => t.events == s.events
             case Some(e) => t.events == s.events + [Made(c, e)] && e.eventId == t.calls[c].id
    ensures EventsInv(t)
  {
    forall d | d in t.calls && EventOf(t.calls[d].phase).Some?
      ensures exists i | 0 <= i < |t.events| :: t.events[i].call == d
    {
      if d == c {
        assert t.events[|s.events|].call == c;
      } else {
        var i :| 0 <= i < |s.events| && s.events[i].call == d;
        assert t.events[i].call == d;
      }
    }
  }

  /** No call's event changes. */
  lemma EventsKept(s: State, t: State)
    requires EventsInv(s) && t.events == s.events && t.calls.Keys == s.calls.Keys
    requires forall d | d in s.calls :: EventOf(t.calls[d].phase) == EventOf(s.calls[d].phase) && t.calls[d].id == s.calls[d].id
    ensures EventsInv(t)
  {
  }

  /** A phase that a call without an event may go to: none yet, or its own event, just made. */
  predicate Fitting(call: Call, p: Phase) {
    EventOf(p).Some? ==> p.Decided? && p.event.eventId == call.id
  }

  lemma EventsSetPhase(s: State, c: nat, p: Phase)
    requires EventsInv(s) && c in s.calls && EventOf(s.calls[c].phase).None? && Fitting(s.calls[c], p)
    ensures EventsInv(SetPhase(s, c, p))
  {
    EventsGrow(s, SetPhase(s, c, p), c);
  }

  lemma EventsClaim(s: State, c: nat, id: string, approver: string, signature: string)
    requires EventsInv(s) && c !in s.calls && id in s.pending
    ensures EventsInv(Claim(s, c, id, approver, Claimed(signature)))
  {
    EventsGrow(s, Claim(s, c, id, approver, Claimed(signature)), c);
  }

  lemma EventsMoveAlong(s: State, c: nat, p: Phase)
    requires EventsInv(s) && c in s.calls && !p.Decided? && EventOf(p) == EventOf(s.calls[c].phase)
    ensures EventsInv(SetPhase(s, c, p))
  {
    EventsKept(s, SetPhase(s, c, p));
  }

  lemma EventsAnswer(env: Env, s: State, a: Action)
    requires EventsInv(s) && Enabled(s, a) && (a.ReadRing? || a.ReadAttestation?)
    ensures EventsInv(Step(env, s, a))
  {
    var p := if a.ReadRing? then RingPhase(s, s.calls[a.call], a.failure, a.at)
             else AttestationPhase(env, s, s.calls[a.call], a);
    assert Fitting(s.calls[a.call], p);
    EventsSetPhase(s.(now := a.at), a.call, p);
  }

  lemma EventsDeny(env: Env, s: State, a: Action)
    requires EventsInv(s) && Enabled(s, a) && a.Deny?
    ensures EventsInv(Step(env, s, a))
  {
    EventsClaim(s.(now := a.at), a.call, a.id, a.approver, "");
    EventsSetPhase(Claim(s.(now := a.at), a.call, a.id, a.approver, Claimed("")), a.call,
                   Decided(EventFor(a.id, s.pending[a.id], a.approver, Denied(a.cause), a.at)));
  }

  lemma EventsStep(env: Env, s: State, a: Action)
    requires EventsInv(s)
    ensures EventsInv(Step(env, s, a))
  {
    if Enabled(s, a) {
      match a {
        case Register(_, _) =>
        case Request(_, _) =>
        case Approve(c, id, approver, signature) => EventsClaim(s, c, id, approver, signature);
        case ReadRing(_, _, _) => EventsAnswer(env, s, a);
        case ReadAttestation(_, _, _, _, _, _) => EventsAnswer(env, s, a);
        case Deny(_, _, _, _, _) => EventsDeny(env, s, a);
        case WriteLog(c, _) => EventsMoveAlong(s, c, Logged(s.calls[c].phase.event));
        case Return(c) => EventsMoveAlong(s, c, Done(Ok(s.calls[c].phase.event)));
      }
    }
  }

  lemma {:induction false} InvAlways(env: Env, audited: bool, acts: seq<Action>)
    ensures ClaimsInv(Exec(env, audited, acts))
    ensures EventsInv(Exec(env, audited, acts))
  {
    if acts != [] {
      InvAlways(env, audited, Init(acts));
      ClaimsStep(env, Exec(env, audited, Init(acts)), Last(acts));
      EventsStep(env, Exec(env, audited, Init(acts)), Last(acts));
    }
  }

  // Where an issued id can be, besides pending.

  predicate Undecided(p: Phase) {
    p.Claimed? || p.RingOk?
  }

  function InFlightIds(s: State): set<string> {
    set c | c in s.calls && Undecided(s.calls[c].phase) :: s.calls[c].id
  }

  function DecidedIds(s: State): set<string> {
    set i | 0 <= i < |s.events| :: s.events[i].event.eventId
  }

  function ConsumedIds(s: State): set<string> {
    set c | c in s.calls && s.calls[c].phase.Done? && s.calls[c].phase.outcome.Err? :: s.calls[c].id
  }

  /** An id is decided exactly when the call that claimed it has an event. */
  lemma DecidedByItsCall(s: State, c: nat)
    requires ClaimsInv(s) && EventsInv(s) && c in s.calls
    ensures s.calls[c].id in DecidedIds(s) <==> EventOf(s.calls[c].phase).Some?
  {
    if EventOf(s.calls[c].phase).Some? {
      var i :| 0 <= i < |s.events| && s.events[i].call == c;
      assert s.events[i].event.eventId == s.calls[c].id;
    }
  }

  /** A claimed id is in the place that its call's phase says. */
  lemma PlaceOfClaimed(s: State, c: nat)
    requires ClaimsInv(s) && EventsInv(s) && c in s.calls
    ensures s.calls[c].id in InFlightIds(s) <==> Undecided(s.calls[c].phase)
    ensures s.calls[c].id in DecidedIds(s) <==> EventOf(s.calls[c].phase).Some?
    ensures s.calls[c].id in ConsumedIds(s) <==> s.calls[c].phase.Done? && s.calls[c].phase.outcome.Err?
  {
    DecidedByItsCall(s, c);
  }

  lemma PlacesAreClaimed(s: State, id: string)
    requires ClaimsInv(s) && EventsInv(s)
    requires id in InFlightIds(s) || id in DecidedIds(s) || id in ConsumedIds(s)
    ensures exists c | c in s.calls :: s.calls[c].id == id
  {
    if id in DecidedIds(s) {
      var i :| 0 <= i < |s.events| && s.events[i].event.eventId == id;
      assert s.calls[s.events[i].call].id == id;
    }
  }

  /** The number of places, of the four, that hold the id. */
  function Places(s: State, id: string): nat {
    (if id in s.pending then 1 else 0) + (if id in InFlightIds(s) then 1 else 0)
    + (if id in DecidedIds(s) then 1 else 0) + (if id in ConsumedIds(s) then 1 else 0)
  }

  /**
   * At every moment of every interleaving each issued id is in exactly one place: pending, claimed
   * by an undecided call, decided, or consumed by an approve that returned an error after removing
   * it; ids never issued are nowhere.
   */
  lemma Conservation(env: Env, audited: bool, acts: seq<Action>, id: string)
    ensures var s := Exec(env, audited, acts);
            Places(s, id) == if id in s.requests then 1 else 0
  {
    var s := Exec(env, audited, acts);
    InvAlways(env, audited, acts);
    if id in InFlightIds(s) || id in DecidedIds(s) || id in ConsumedIds(s) {
      PlacesAreClaimed(s, id);
    }
    if id in s.requests && id !in s.pending {
      assert exists c | c in s.calls :: s.calls[c].id == id;
    }
    if c :| c in s.calls && s.calls[c].id == id {
      PlaceOfClaimed(s, c);
    }
  }

  /** No id is ever decided twice, and no two calls ever claim the same id. */
  lemma DecidedOnce(env: Env, audited: bool, acts: seq<Action>)
    ensures var s := Exec(env, audited, acts);
            && (forall i, j | 0 <= i < j < |s.events| :: s.events[i].event.eventId != s.events[j].event.eventId)
            && (forall c, d | c in s.calls && d in s.calls && s.calls[c].id == s.calls[d].id :: c == d)
  {
    InvAlways(env, audited, acts);
  }

  // ---- The audit log ----

  /** The calls whose event has been offered to the audit log. */
  predicate Offered(p: Phase) {
    p.Logged? || (p.Done? && p.outcome.Ok?)
  }

  function LinesOf(lines: seq<EscalationEvent>, id: string): nat {
    if lines == [] then 0
    else LinesOf(Init(lines), id) + if Last(lines).eventId == id then 1 else 0
  }

  predicate WorkingLog(acts: seq<Action>) {
    forall i | 0 <= i < |acts| :: acts[i].WriteLog? ==> acts[i].works
  }

  lemma LinesOfSnoc(lines: seq<EscalationEvent>, e: EscalationEvent, id: string)
    ensures LinesOf(lines + [e], id) == LinesOf(lines, id) + if e.eventId == id then 1 else 0
  {
    InitOfSnoc(lines, e);
  }

  /** The lines hold the call's event once if it was offered, and nothing for its id otherwise. */
  predicate CallLines(lines: seq<EscalationEvent>, call: Call) {
    && LinesOf(lines, call.id) == (if Offered(call.phase) then 1 else 0)
    && (Offered(call.phase) ==> EventOf(call.phase).value in lines)
  }

  /** One line for each offered event, none for any other id. */
  ghost predicate AuditInv(s: State) {
    && s.audit.Some?
    && (forall c | c in s.calls :: CallLines(s.audit.value, s.calls[c]))
    && (forall id | id !in s.requests || id in s.pending :: LinesOf(s.audit.value, id) == 0)
  }

  lemma EventIdOfCall(s: State, c: nat)
    requires EventsInv(s) && c in s.calls && EventOf(s.calls[c].phase).Some?
    ensures EventOf(s.calls[c].phase).value.eventId == s.calls[c].id
  {
    var i :| 0 <= i < |s.events| && s.events[i].call == c;
  }

  lemma AuditSetPhase(s: State, c: nat, p: Phase)
    requires AuditInv(s) && c in s.calls
    requires Offered(p) <==> Offered(s.calls[c].phase)
    requires Offered(p) ==> EventOf(p) == EventOf(s.calls[c].phase)
    ensures AuditInv(SetPhase(s, c, p))
  {
  }

  lemma AuditClaim(s: State, c: nat, id: string, approver: string, p: Phase)
    requires AuditInv(s) && c !in s.calls && id in s.pending && !Offered(p)
    ensures AuditInv(Claim(s, c, id, approver, p))
  {
  }

  lemma AuditWrite(s: State, c: nat)
    requires ClaimsInv(s) && EventsInv(s) && AuditInv(s) && c in s.calls && s.calls[c].phase.Decided?
    ensures var e := s.calls[c].phase.event;
            AuditInv(SetPhase(s, c, Logged(e)).(audit := Some(s.audit.value + [e])))
  {
    var e := s.calls[c].phase.event;
    var t := SetPhase(s, c, Logged(e)).(audit := Some(s.audit.value + [e]));
    EventIdOfCall(s, c);
    forall d | d in t.calls ensures CallLines(t.audit.value, t.calls[d]) {
      assert CallLines(s.audit.value, s.calls[d]);
      LinesOfSnoc(s.audit.value, e, t.calls[d].id);
    }
    forall id | id !in t.requests || id in t.pending ensures LinesOf(t.audit.value, id) == 0 {
      LinesOfSnoc(s.audit.value, e, id);
    }
  }

  lemma AuditAnswer(env: Env, s: State, a: Action)
    requires AuditInv(s) && Enabled(s, a) && (a.ReadRing? || a.ReadAttestation?)
    ensures AuditInv(Step(env, s, a))
  {
    var p := if a.ReadRing? then RingPhase(s, s.calls[a.call], a.failure, a.at)
             else AttestationPhase(env, s, s.calls[a.call], a);
    assert !Offered(p);
    AuditSetPhase(s.(now := a.at), a.call, p);
  }

  lemma AuditDeny(env: Env, s: State, a: Action)
    requires AuditInv(s) && Enabled(s, a) && a.Deny?
    ensures AuditInv(Step(env, s, a))
  {
    var claimed := Claim(s.(now := a.at), a.call, a.id, a.approver, Claimed(""));
    AuditClaim(s.(now := a.at), a.call, a.id, a.approver, Claimed(""));
    AuditSetPhase(claimed, a.call, Decided(EventFor(a.id, s.pending[a.id], a.approver, Denied(a.cause), a.at)));
  }

  lemma AuditStep(env: Env, s: State, a: Action)
    requires ClaimsInv(s) && EventsInv(s) && AuditInv(s) && (a.WriteLog? ==> a.works)
    ensures AuditInv(Step(env, s, a))
  {
    if Enabled(s, a) {
      match a {
        case Register(_, _) =>
        case Request(_, _) =>
        case Approve(c, id, approver, signature) => AuditClaim(s, c, id, approver, Claimed(signature));
        case ReadRing(_, _, _) => AuditAnswer(env, s, a);
        case ReadAttestation(_, _, _, _, _, _) => AuditAnswer(env, s, a);
        case Deny(_, _, _, _, _) => AuditDeny(env, s, a);
        case WriteLog(c, _) => AuditWrite(s, c);
        case Return(c) => AuditSetPhase(s, c, Done(Ok(s.calls[c].phase.event)));
      }
    }
  }

  lemma {:induction false} AuditAlways(env: Env, acts: seq<Action>)
    requires WorkingLog(acts)
    ensures AuditInv(Exec(env, true, acts))
  {
    if acts != [] {
      assert forall i | 0 <= i < |Init(acts)| :: Init(acts)[i] == acts[i];
      AuditAlways(env, Init(acts));
      InvAlways(env, true, Init(acts));
      AuditStep(env, Exec(env, true, Init(acts)), Last(acts));
    }
  }

  /**
   * With an audit log whose writes work, a call that has returned an event left exactly one line
   * for its id, and that line is the event; a call that returned an error left none.
   */
  lemma OneAuditLine(env: Env, acts: seq<Action>, c: nat)
    requires forall i | 0 <= i < |acts| && acts[i].WriteLog? :: acts[i].works
    requires c in Exec(env, true, acts).calls && Exec(env, true, acts).calls[c].phase.Done?
    ensures var s := Exec(env, true, acts);
            var outcome := s.calls[c].phase.outcome;
            && s.audit.Some?
            && LinesOf(s.audit.value, s.calls[c].id) == (if outcome.Ok? then 1 else 0)
            && (outcome.Ok? ==> outcome.value in s.audit.value && outcome.value.eventId == s.calls[c].id)
  {
    AuditAlways(env, acts);
    InvAlways(env, true, acts);
    var s := Exec(env, true, acts);
    if s.calls[c].phase.outcome.Ok? {
      EventIdOfCall(s, c);
    }
  }

  // ---- The manager object ----

  /** One whole approve, on the answers the registry gave it. */
  function ApproveOutcome(
      env: Env, id: string, request: EscalationRequest, approver: string, signature: string,
      ring: Result<Option<PrivilegeRing>, string>, attestation: Result<Option<SignedAttestation>, string>,
      ringAt: int, verifiedAt: int, at: int)
    : Outcome
  {
    match AfterRing(id, request, approver, ring, ringAt)
    case Finish(outcome) => outcome
    case Proceed => AfterAttestation(env, id, request, approver, signature, attestation, verifiedAt, at)
  }

  /** All that an approval needs: a System approver, a verified attestation, a signature under its key, and a higher ring. */
  predicate Approvable(
      env: Env, id: string, request: EscalationRequest, signature: string,
      ring: Result<Option<PrivilegeRing>, string>, attestation: Result<Option<SignedAttestation>, string>, verifiedAt: int)
  {
    && ring == Ok(Some(System))
    && attestation.Ok? && attestation.value.Some?
    && AttestedAt(env, attestation.value.value, verifiedAt)
    && env.crypto.verifies(attestation.value.value.claim.publicKey,
                           ApprovalPayload(id, request.agentDid, request.requestedRing), signature)
    && MorePrivileged(request.requestedRing, request.currentRing)
  }

  /** The attestation has not expired, and its signature verifies under the registry's key. */
  predicate AttestedAt(env: Env, a: SignedAttestation, now: int) {
    && now <= a.claim.expiresAt
    && env.crypto.isKey(env.registryKey)
    && env.crypto.verifies(env.registryKey, env.crypto.claimBytes(a.claim), a.signature)
  }

  /** What approve decides: approval exactly when everything is in place, and otherwise why not. */
  lemma ApproveExact(
      env: Env, id: string, request: EscalationRequest, approver: string, signature: string,
      ring: Result<Option<PrivilegeRing>, string>, attestation: Result<Option<SignedAttestation>, string>,
      ringAt: int, verifiedAt: int, at: int)
    ensures var r := ApproveOutcome(env, id, request, approver, signature, ring, attestation, ringAt, verifiedAt, at);
            && (r.Ok? && r.value.outcome == Approved <==> Approvable(env, id, request, signature, ring, attestation, verifiedAt))
            && (r.Ok? && r.value.outcome != Approved ==>
                  r.value.outcome == Denied(
                    if ring.value.value != System then "Only System-ring agents can approve escalation"
                    else if !env.crypto.verifies(attestation.value.value.claim.publicKey,
                                                 ApprovalPayload(id, request.agentDid, request.requestedRing), signature)
                    then "Approval signature invalid"
                    else "Requested ring must be more privileged"))
            && (r.Ok? ==>
                  && r.value.eventId == id && r.value.agentDid == request.agentDid && r.value.approverDid == approver
                  && r.value.fromRing == request.currentRing && r.value.toRing == request.requestedRing
                  && r.value.reason == request.reason
                  && r.value.timestamp == if ring.value.value == System then at else ringAt)
  {
    RankIsPrivilege(request.requestedRing, request.currentRing);
    if attestation.Ok? && attestation.value.Some? {
      VerifyExact(env.crypto, env.registryKey, attestation.value.value, verifiedAt);
    }
  }

  /** When approve decides nothing, and what its caller is told then. */
  lemma ApproveErrors(
      env: Env, id: string, request: EscalationRequest, approver: string, signature: string,
      ring: Result<Option<PrivilegeRing>, string>, attestation: Result<Option<SignedAttestation>, string>,
      ringAt: int, verifiedAt: int, at: int)
    ensures var r := ApproveOutcome(env, id, request, approver, signature, ring, attestation, ringAt, verifiedAt, at);
            && (r.Err? <==> || ring.Err? || ring.value.None?
                            || (ring.value.value == System
                                && (attestation.Err? || attestation.value.None?
                                    || !AttestedAt(env, attestation.value.value, verifiedAt))))
            && (r.Err? ==>
                  r.error == if ring.Err? then ring.error
                             else if ring.value.None? then "Approver DID not in registry"
                             else if attestation.Err? then attestation.error
                             else if attestation.value.None? then "Approver attestation not found"
                             else Distrust(env, attestation.value.value, verifiedAt))
  {
    if attestation.Ok? && attestation.value.Some? {
      DistrustTold(env, attestation.value.value, verifiedAt);
    }
  }

  /** What is wrong with an attestation that does not pass. */
  function Distrust(env: Env, a: SignedAttestation, now: int): string {
    if a.claim.expiresAt < now then "Registry attestation verification failed: Attestation expired"
    else if !env.crypto.isKey(env.registryKey) then "Registry attestation verification failed: Invalid public key"
    else "Registry attestation verification failed: Invalid signature"
  }

  lemma DistrustTold(env: Env, a: SignedAttestation, now: int)
    ensures Verify(env.crypto, env.registryKey, a, now).Ok? <==> AttestedAt(env, a, now)
    ensures !AttestedAt(env, a, now) ==> ErrorText(Verify(env.crypto, env.registryKey, a, now).error) == Distrust(env, a, now)
  {
    VerifyExact(env.crypto, env.registryKey, a, now);
  }

  /** Once a call's outcome is settled, an event is written and returned, and an error was returned already. */
  lemma ConcludeAlone(env: Env, s: State, c: nat, outcome: Outcome, works: bool)
    requires c in s.calls && s.calls[c].phase == PhaseAfter(outcome)
    ensures Step(env, Step(env, s, WriteLog(c, works)), Return(c))
            == s.(calls := s.calls[c := s.calls[c].(phase := Done(outcome))], audit := WithLine(s.audit, outcome, works))
  {
    if outcome.Ok? {
      var written := Step(env, s, WriteLog(c, works));
      assert written.calls[c].phase == Logged(outcome.value);
    } else {
      assert s.calls[c := s.calls[c].(phase := Done(outcome))] == s.calls;
    }
  }

  function Settled(s: State, c: nat, outcome: Outcome, now: int): State
    requires c in s.calls
  {
    SetPhase(s.(now := now), c, PhaseAfter(outcome))
  }

  /** The two readings of the registry, one after the other. */
  lemma ReadAlone(env: Env, s: State, c: nat, ringAt: int, issuedAt: int, readAgainAt: int, verifiedAt: int, at: int)
    requires c in s.calls && s.calls[c].phase.Claimed?
    requires s.now <= ringAt <= issuedAt <= readAgainAt <= verifiedAt <= at
    ensures var ringRead := Step(env, s, ReadRing(c, None, ringAt));
            var decided := Step(env, ringRead, ReadAttestation(c, None, issuedAt, readAgainAt, verifiedAt, at));
            var call := s.calls[c];
            var ring := if call.approver in s.registry then Some(s.registry[call.approver].ring) else None;
            var attestation := Issue(env.crypto, env.issuer, s.registry, call.approver, issuedAt, readAgainAt);
            var outcome := ApproveOutcome(env, call.id, call.request, call.approver, call.phase.signature, Ok(ring),
                                          Ok(attestation), ringAt, verifiedAt, at);
            decided == Settled(s, c, outcome, if ring == Some(System) then at else ringAt)
  {
    var ringRead := Step(env, s, ReadRing(c, None, ringAt));
    assert ringRead == SetPhase(s.(now := ringAt), c, RingPhase(s, s.calls[c], None, ringAt));
    if ringRead.calls[c].phase.RingOk? {
      assert ringRead.calls[c] == s.calls[c].(phase := RingOk(s.calls[c].phase.signature));
    }
  }

  /** From its claim on, undisturbed, a call ends with the outcome on the registry's answers. */
  lemma FinishAlone(
      env: Env, s: State, c: nat, call: Call, outcome: Outcome,
      ringAt: int, issuedAt: int, readAgainAt: int, verifiedAt: int, at: int, works: bool)
    requires c in s.calls && s.calls[c] == call && call.phase.Claimed?
    requires s.now <= ringAt <= issuedAt <= readAgainAt <= verifiedAt <= at
    requires var ring := if call.approver in s.registry then Some(s.registry[call.approver].ring) else None;
             var attestation := Issue(env.crypto, env.issuer, s.registry, call.approver, issuedAt, readAgainAt);
             outcome == ApproveOutcome(env, call.id, call.request, call.approver, call.phase.signature, Ok(ring),
                                       Ok(attestation), ringAt, verifiedAt, at)
    ensures var ringRead := Step(env, s, ReadRing(c, None, ringAt));
            var decided := Step(env, ringRead, ReadAttestation(c, None, issuedAt, readAgainAt, verifiedAt, at));
            var done := Step(env, Step(env, decided, WriteLog(c, works)), Return(c));
            && done.pending == s.pending && done.registry == s.registry
            && done.calls == s.calls[c := call.(phase := Done(outcome))]
            && done.events == s.events + (if outcome.Ok? then [Made(c, outcome.value)] else [])
            && done.audit == WithLine(s.audit, outcome, works)
  {
    ReadAlone(env, s, c, ringAt, issuedAt, readAgainAt, verifiedAt, at);
    var system := call.approver in s.registry && s.registry[call.approver].ring == System;
    ConcludeAlone(env, Settled(s, c, outcome, if system then at else ringAt), c, outcome, works);
  }

  /** An approve call that no other call interleaves with, as steps: it ends with the outcome on the registry's answers. */
  lemma ApproveAlone(
      env: Env, s: State, c: nat, id: string, approver: string, signature: string, outcome: Outcome,
      ringAt: int, issuedAt: int, readAgainAt: int, verifiedAt: int, at: int, works: bool)
    requires id in s.pending && c !in s.calls && s.now <= ringAt <= issuedAt <= readAgainAt <= verifiedAt <= at
    requires var ring := if approver in s.registry then Some(s.registry[approver].ring) else None;
             var attestation := Issue(env.crypto, env.issuer, s.registry, approver, issuedAt, readAgainAt);
             outcome == ApproveOutcome(env, id, s.pending[id], approver, signature, Ok(ring), Ok(attestation),
                                       ringAt, verifiedAt, at)
    ensures var claimed := Step(env, s, Approve(c, id, approver, signature));
            var ringRead := Step(env, claimed, ReadRing(c, None, ringAt));
            var decided := Step(env, ringRead, ReadAttestation(c, None, issuedAt, readAgainAt, verifiedAt, at));
            var done := Step(env, Step(env, decided, WriteLog(c, works)), Return(c));
            && done.pending == s.pending - {id} && done.registry == s.registry
            && done.calls == s.calls[c := Call(id, approver, s.pending[id], Done(outcome))]
            && done.events == s.events + (if outcome.Ok? then [Made(c, outcome.value)] else [])
            && done.audit == WithLine(s.audit, outcome, works)
  {
    var claimed := Step(env, s, Approve(c, id, approver, signature));
    var call := Call(id, approver, s.pending[id], Claimed(signature));
    assert claimed == s.(pending := s.pending - {id}, calls := s.calls[c := call]);
    FinishAlone(env, claimed, c, call, outcome, ringAt, issuedAt, readAgainAt, verifiedAt, at, works);
  }

  /** The same for a denial. */
  lemma DenyAlone(env: Env, s: State, c: nat, id: string, approver: string, cause: string, at: int, works: bool)
    requires id in s.pending && c !in s.calls && s.now <= at
    ensures var done := Step(env, Step(env, Step(env, s, Deny(c, id, approver, cause, at)), WriteLog(c, works)), Return(c));
            var p := s.pending[id];
            var event := EscalationEvent(id, p.agentDid, approver, p.currentRing, p.requestedRing, Denied(cause), p.reason, at);
            && done.pending == s.pending - {id} && done.registry == s.registry
            && done.calls == s.calls[c := Call(id, approver, p, Done(Ok(event)))]
            && done.events == s.events + [Made(c, event)]
            && done.audit == WithLine(s.audit, Ok(event), works)
  {
  }

  function WithLine(audit: Option<seq<EscalationEvent>>, outcome: Outcome, works: bool): Option<seq<EscalationEvent>> {
    if audit.Some? && outcome.Ok? && works then Some(audit.value + [outcome.value]) else audit
  }

  class EscalationManager {
    const env: Env
    var pending: map<string, EscalationRequest>
    var audit: Option<seq<EscalationEvent>>

    constructor (env: Env, audited: bool)
      ensures this.env == env && pending == map[] && audit == if audited then Some([]) else None
    {
      this.env := env;
      pending := map[];
      audit := if audited then Some([]) else None;
    }

    /** eventId is the UUID made for the request. */
    method RequestEscalation(request: EscalationRequest, eventId: string) returns (id: string)
      modifies this`pending
      ensures id == eventId && pending == old(pending)[eventId := request]
    {
      pending := pending[eventId := request];
      id := eventId;
    }

    method Claim(eventId: string) returns (r: Result<EscalationRequest, string>)
      modifies this`pending
      ensures r == match Get(old(pending), eventId)
                   case None => Err("Escalation request not found")
                   case Some(request) => Ok(request)
      ensures pending == old(pending) - {eventId}
    {
      if eventId !in pending {
        return Err("Escalation request not found");
      }
      r := Ok(pending[eventId]);
      pending := pending - {eventId};
    }

    method LogEvent(event: EscalationEvent, works: bool) returns (r: Result<(), string>)
      modifies this`audit
      ensures audit == if old(audit).Some? && works then Some(old(audit).value + [event]) else old(audit)
      ensures r.Ok? <==> old(audit).None? || works
    {
      if audit.Some? {
        if !works {
          return Err("audit write failed");
        }
        audit := Some(audit.value + [event]);
      }
      return Ok(());
    }

    /**
     * Removes the request and decides it. The registry's answers and the clock readings, taken at
     * the awaits, are parameters; works says whether the audit write succeeds.
     */
    method ApproveRequest(
        eventId: string, approver: string, signature: string,
        ring: Result<Option<PrivilegeRing>, string>, attestation: Result<Option<SignedAttestation>, string>,
        ringAt: int, verifiedAt: int, at: int, works: bool)
      returns (r: Outcome)
      modifies this`pending, this`audit
      ensures pending == old(pending) - {eventId}
      ensures eventId !in old(pending) ==> r == Err("Escalation request not found") && audit == old(audit)
      ensures eventId in old(pending) ==>
                && r == ApproveOutcome(env, eventId, old(pending)[eventId], approver, signature, ring, attestation,
                                       ringAt, verifiedAt, at)
                && audit == WithLine(old(audit), r, works)
      ensures eventId in old(pending) ==>
                (r.Ok? && r.value.outcome == Approved <==>
                   Approvable(env, eventId, old(pending)[eventId], signature, ring, attestation, verifiedAt))
    {
      var claimed := Claim(eventId);
      if claimed.Err? {
        return Err(claimed.error);
      }
      var request := claimed.value;
      ApproveExact(env, eventId, request, approver, signature, ring, attestation, ringAt, verifiedAt, at);

      if ring.Err? {
        return Err(ring.error);
      }
      if ring.value.None? {
        return Err("Approver DID not in registry");
      }
      if ring.value.value != System {
        var event := EventFor(eventId, request, approver,
                              Denied("Only System-ring agents can approve escalation"), ringAt);
        var _ := LogEvent(event, works);
        return Ok(event);
      }

      if attestation.Err? {
        return Err(attestation.error);
      }
      if attestation.value.None? {
        return Err("Approver attestation not found");
      }
      var verdict := Verify(env.crypto, env.registryKey, attestation.value.value, verifiedAt);
      if verdict.Err? {
        return Err(ErrorText(verdict.error));
      }
      var publicKey := attestation.value.value.claim.publicKey;

      var payload := ApprovalPayload(eventId, request.agentDid, request.requestedRing);
      if !env.crypto.verifies(publicKey, payload, signature) {
        var event := EventFor(eventId, request, approver, Denied("Approval signature invalid"), at);
        var _ := LogEvent(event, works);
        return Ok(event);
      }

      if request.requestedRing.Rank() >= request.currentRing.Rank() {
        var event := EventFor(eventId, request, approver, Denied("Requested ring must be more privileged"), at);
        var _ := LogEvent(event, works);
        return Ok(event);
      }

      var event := EventFor(eventId, request, approver, Approved, at);
      var _ := LogEvent(event, works);
      return Ok(event);
    }

    method DenyRequest(eventId: string, approver: string, cause: string, at: int, works: bool) returns (r: Outcome)
      modifies this`pending, this`audit
      ensures pending == old(pending) - {eventId}
      ensures r == match Get(old(pending), eventId)
                   case None => Err("Escalation request not found")
                   case Some(request) =>
                     Ok(EscalationEvent(eventId, request.agentDid, approver, request.currentRing, request.requestedRing,
                                        Denied(cause), request.reason, at))
      ensures audit == WithLine(old(audit), r, works)
    {
      var claimed := Claim(eventId);
      if claimed.Err? {
        return Err(claimed.error);
      }
      var event := EventFor(eventId, claimed.value, approver, Denied(cause), at);
      var _ := LogEvent(event, works);
      return Ok(event);
    }
  }
}
