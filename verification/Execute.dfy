/**
 * Requests to execute an action: each reads its agent's history, decides, and appends its outcome,
 * while other requests and other writers of the log interleave.
 * Source: execute_action of crates/daemon/src/lib.rs.
 */
module Execute {
  import opened Common
  import opened Identity
  import opened Audit
  import opened ActionLog
  import LogRecovery
  import opened Compliance

  datatype Request = Request(action: string, resourceCategory: DataCategory, jurisdiction: Option<string>)

  datatype Response = Response(success: bool, results: seq<ComplianceResult>)

  // The five readings of the clock made by one decision, in order.
  datatype Clock = Clock(first: seq<int>, second: seq<int>, stamp: int)

  predicate Ordered(clock: Clock) {
    && |clock.first| == |clock.second| == 2
    && clock.first[0] <= clock.first[1] <= clock.second[0] <= clock.second[1] <= clock.stamp
  }

  function InputOf(did: string, ring: PrivilegeRing, request: Request, history: seq<ActionRecord>): ComplianceInput {
    ComplianceInput(did, ring, [], request.action, request.resourceCategory, history, request.jurisdiction)
  }

  // What a call has decided and is about to append.
  datatype Decision = Decision(results: seq<ComplianceResult>, isCompliant: bool, record: ActionLogRecord)

  function Decide(
      did: string, ring: PrivilegeRing, request: Request, history: seq<ActionRecord>, clock: Clock, recordId: string)
    : (d: Decision)
    requires |clock.first| == |clock.second| == 2
  {
    var input := InputOf(did, ring, request, history);
    var results := Evaluate(DefaultPolicy(), input, clock.first);
    var isCompliant := IsCompliant(DefaultPolicy(), input, clock.second);
    Decision(results, isCompliant,
             ActionLogRecord(recordId, did, request.action, request.resourceCategory, clock.stamp,
                             OutcomeOf(results, isCompliant), ""))
  }

  /** The decision and what is logged for it agree; a denial is logged under its first violation. */
  predicate Coherent(d: Decision) {
    && (d.record.outcome.Permitted? <==> d.isCompliant)
    && (!d.isCompliant ==> NamesFirstViolation(d.results, d.record.outcome))
  }

  /** The fallback text for a denial without a violation is never logged. */
  lemma DecisionsCohere(
      did: string, ring: PrivilegeRing, request: Request, history: seq<ActionRecord>, clock: Clock, recordId: string)
    requires Ordered(clock)
    ensures Coherent(Decide(did, ring, request, history, clock, recordId))
  {
    OutcomeCoheres(DefaultPolicy(), InputOf(did, ring, request, history), clock.first, clock.second);
  }

  // ---- Interleaved calls ----

  // snapshot: how many lines the log had when the call read its history.
  datatype Phase = Loaded(history: seq<ActionRecord>) | Decided(decision: Decision)

  datatype Call = Call(did: string, ring: PrivilegeRing, request: Request, snapshot: nat, phase: Phase)

  datatype Origin = FromCall(snapshot: nat) | Elsewhere

  datatype Logged = Logged(record: ActionLogRecord, origin: Origin)

  // index: the log line of a finished call. reply: what its caller was told.
  datatype Finished = Finished(index: nat, reply: Result<Response, string>)

  datatype State = State(log: seq<Logged>, calls: map<nat, Call>, finished: map<nat, Finished>)

  datatype Action =
    | Load(call: nat, did: string, ring: PrivilegeRing, request: Request)
    | Conclude(call: nat, clock: Clock, recordId: string)
    | Append(call: nat, io: LogRecovery.CheckpointWrite)
    | OtherAppend(record: ActionLogRecord)

  const INITIAL: State := State([], map[], map[])

  function RecordsOf(log: seq<Logged>): (rs: seq<ActionLogRecord>)
    ensures |rs| == |log| && forall i | 0 <= i < |log| :: rs[i] == log[i].record
  {
    seq(|log|, i requires 0 <= i < |log| => log[i].record)
  }

  function Step(s: State, a: Action): State {
    match a
    case Load(c, did, ring, request) =>
      if c in s.calls || c in s.finished then s
      else s.(calls := s.calls[c := Call(did, ring, request, |s.log|, Loaded(History(RecordsOf(s.log), did)))])
    case Conclude(c, clock, recordId) =>
      if c !in s.calls || !s.calls[c].phase.Loaded? || !Ordered(clock) then s
      else
        var call := s.calls[c];
        var d := Decide(call.did, call.ring, call.request, call.phase.history, clock, recordId);
        s.(calls := s.calls[c := call.(phase := Decided(d))])
    case Append(c, io) =>
      if c !in s.calls || !s.calls[c].phase.Decided? then s
      else
        var d := s.calls[c].phase.decision;
        var reply := if io.Written? then Ok(Response(d.isCompliant, d.results)) else Err("checkpoint write failed");
        s.(log := s.log + [Logged(d.record, FromCall(s.calls[c].snapshot))],
           calls := s.calls - {c},
           finished := s.finished[c := Finished(|s.log|, reply)])
    case OtherAppend(r) => s.(log := s.log + [Logged(r, Elsewhere)])
  }

  function Exec(acts: seq<Action>): State {
    if acts == [] then INITIAL else Step(Exec(Init(acts)), Last(acts))
  }

  // ---- Separation of duty ----

  /** Line i is a permitted change of protected data by did. */
  predicate MutationBy(log: seq<Logged>, i: nat, did: string) {
    i < |log| && CountsFor(log[i].record, did) && IsMutation(log[i].record.action, log[i].record.resourceCategory)
  }

  predicate PermittedAuditRead(r: ActionLogRecord) {
    r.outcome.Permitted? && IsAuditRead(r.action, r.resourceCategory)
  }

  /** None of the lines lo up to hi is a mutation by r's agent less than 24 hours before r. */
  predicate SeparatedFrom(log: seq<Logged>, lo: nat, hi: nat, r: ActionLogRecord) {
    forall i: nat | lo <= i < hi && MutationBy(log, i, r.agentDid) :: log[i].record.timestamp <= r.timestamp - ISOLATION_WINDOW
  }

  /** What the history read at the snapshot decides: separation from every line the call saw. */
  predicate CallInv(log: seq<Logged>, call: Call) {
    && call.snapshot <= |log|
    && match call.phase
       case Loaded(h) => h == History(RecordsOf(log[..call.snapshot]), call.did)
       case Decided(d) =>
         && Coherent(d)
         && d.record.agentDid == call.did
         && (PermittedAuditRead(d.record) ==> SeparatedFrom(log, 0, call.snapshot, d.record))
  }

  predicate LineInv(log: seq<Logged>, j: nat)
    requires j < |log|
  {
    log[j].origin.FromCall? ==>
      && log[j].origin.snapshot <= j
      && (PermittedAuditRead(log[j].record) ==> SeparatedFrom(log, 0, log[j].origin.snapshot, log[j].record))
  }

  ghost predicate Inv(s: State) {
    && (forall c | c in s.calls :: CallInv(s.log, s.calls[c]))
    && (forall j: nat | j < |s.log| :: LineInv(s.log, j))
  }

  lemma DecisionSeparates(
      log: seq<Logged>, did: string, ring: PrivilegeRing, request: Request, clock: Clock, recordId: string)
    requires Ordered(clock)
    ensures var r := Decide(did, ring, request, History(RecordsOf(log), did), clock, recordId).record;
            PermittedAuditRead(r) ==> SeparatedFrom(log, 0, |log|, r)
  {
    var h := History(RecordsOf(log), did);
    var input := InputOf(did, ring, request, h);
    var d := Decide(did, ring, request, h, clock, recordId);
    if PermittedAuditRead(d.record) {
      DecisionsCohere(did, ring, request, h, clock, recordId);
      DefaultPermits(input, clock.second);
      forall i: nat | i < |log| && MutationBy(log, i, did)
        ensures log[i].record.timestamp <= clock.stamp - ISOLATION_WINDOW
      {
        var r := RecordsOf(log)[i];
        var a := ActionRecord(r.action, r.timestamp, r.resourceCategory);
        HistoryExact(RecordsOf(log), did, a);
        var k :| 0 <= k < |h| && h[k] == a;
        assert input.actionHistory[k] == a;
      }
    }
  }

  lemma InvLoad(s: State, c: nat, did: string, ring: PrivilegeRing, request: Request)
    requires Inv(s)
    ensures Inv(Step(s, Load(c, did, ring, request)))
  {
    assert s.log[..|s.log|] == s.log;
  }

  lemma ConcludedCallInv(log: seq<Logged>, call: Call, clock: Clock, recordId: string)
    requires CallInv(log, call) && call.phase.Loaded? && Ordered(clock)
    ensures CallInv(log, call.(phase := Decided(Decide(call.did, call.ring, call.request, call.phase.history, clock, recordId))))
  {
    var seen := log[..call.snapshot];
    DecisionsCohere(call.did, call.ring, call.request, call.phase.history, clock, recordId);
    DecisionSeparates(seen, call.did, call.ring, call.request, clock, recordId);
    var r := Decide(call.did, call.ring, call.request, call.phase.history, clock, recordId).record;
    if PermittedAuditRead(r) {
      SeparationGrows(seen, log, call.snapshot, r);
    }
  }

  lemma InvConclude(s: State, c: nat, clock: Clock, recordId: string)
    requires Inv(s)
    ensures Inv(Step(s, Conclude(c, clock, recordId)))
  {
    if c in s.calls && s.calls[c].phase.Loaded? && Ordered(clock) {
      assert CallInv(s.log, s.calls[c]);
      ConcludedCallInv(s.log, s.calls[c], clock, recordId);
    }
  }

  lemma InvStep(s: State, a: Action)
    requires Inv(s)
    ensures Inv(Step(s, a))
  {
    match a {
      case Load(c, did, ring, request) => InvLoad(s, c, did, ring, request);
      case Conclude(c, clock, recordId) => InvConclude(s, c, clock, recordId);
      case Append(c, io) =>
        if c in s.calls && s.calls[c].phase.Decided? {
          assert AppendedBy(s.calls[c], Step(s, a).log[|s.log|]);
          InvGrows(s, Step(s, a));
        }
      case OtherAppend(r) =>
        InvGrows(s, Step(s, a));
    }
  }

  predicate AppendedBy(call: Call, line: Logged) {
    call.phase.Decided? && line == Logged(call.phase.decision.record, FromCall(call.snapshot))
  }

  /** Appending a line disturbs neither the calls in flight nor the earlier lines. */
  lemma InvGrows(s: State, t: State)
    requires Inv(s) && |t.log| == |s.log| + 1 && t.log[..|s.log|] == s.log
    requires forall c | c in t.calls :: c in s.calls && t.calls[c] == s.calls[c]
    requires LineInv(t.log, |s.log|) || exists c | c in s.calls :: AppendedBy(s.calls[c], t.log[|s.log|])
    ensures Inv(t)
  {
    assert forall i | 0 <= i < |s.log| :: t.log[i] == s.log[i];
    forall c | c in t.calls ensures CallInv(t.log, t.calls[c]) {
      var call := s.calls[c];
      assert CallInv(s.log, call);
      assert t.log[..call.snapshot] == s.log[..call.snapshot];
      if call.phase.Decided? {
        SeparationGrows(s.log, t.log, call.snapshot, call.phase.decision.record);
      }
    }
    forall j: nat | j < |t.log| ensures LineInv(t.log, j) {
      if j < |s.log| {
        assert LineInv(s.log, j);
        if t.log[j].origin.FromCall? {
          SeparationGrows(s.log, t.log, t.log[j].origin.snapshot, t.log[j].record);
        }
      } else if !LineInv(t.log, |s.log|) {
        var c :| c in s.calls && AppendedBy(s.calls[c], t.log[|s.log|]);
        assert CallInv(s.log, s.calls[c]);
        SeparationGrows(s.log, t.log, s.calls[c].snapshot, t.log[j].record);
      }
    }
  }

  lemma SeparationGrows(log: seq<Logged>, longer: seq<Logged>, n: nat, r: ActionLogRecord)
    requires n <= |log| && log <= longer
    ensures SeparatedFrom(log, 0, n, r) <==> SeparatedFrom(longer, 0, n, r)
  {
    assert forall i | 0 <= i < n :: longer[i] == log[i];
    assert forall i: nat | i < n :: MutationBy(log, i, r.agentDid) <==> MutationBy(longer, i, r.agentDid);
  }

  lemma {:induction false} InvAlways(acts: seq<Action>)
    ensures Inv(Exec(acts))
  {
    if acts != [] {
      InvAlways(Init(acts));
      InvStep(Exec(Init(acts)), Last(acts));
    }
  }

  /** The agent of r was permitted to change protected data, by record w, less than 24 hours before r. */
  predicate WroteTooRecently(w: ActionLogRecord, r: ActionLogRecord) {
    && w.agentDid == r.agentDid && w.outcome.Permitted?
    && (w.resourceCategory.FinancialRecord? || w.resourceCategory.AuditLog?)
    && ("write" <= w.action || "delete" <= w.action || "update" <= w.action)
    && w.timestamp > r.timestamp - 86_400_000_000_000
  }

  /** A request that was permitted to read the audit log. */
  predicate ReadsAudit(line: Logged) {
    && line.origin.FromCall? && line.record.outcome.Permitted? && line.record.resourceCategory.AuditLog?
    && (line.record.action == "read" || line.record.action == "read_audit_log")
  }

  /**
   * Over every interleaving, and whatever order the concurrent calls read the clock in: an agent
   * that reads the audit log wrote too recently if and only if it was overtaken, that is, such a
   * write was appended since the request read its history.
   */
  lemma SeparationIff(acts: seq<Action>, j: nat)
    requires j < |Exec(acts).log| && ReadsAudit(Exec(acts).log[j])
    ensures var log := Exec(acts).log;
            (exists i: nat | i < j :: WroteTooRecently(log[i].record, log[j].record)) <==>
              (exists i: nat | log[j].origin.snapshot <= i < j :: WroteTooRecently(log[i].record, log[j].record))
  {
    var log := Exec(acts).log;
    InvAlways(acts);
    assert LineInv(log, j);
    if i: nat :| i < j && WroteTooRecently(log[i].record, log[j].record) {
      assert MutationBy(log, i, log[j].record.agentDid);
    }
  }

  // ---- One request in flight per agent ----

  predicate InFlight(s: State, did: string) {
    exists c | c in s.calls :: s.calls[c].did == did
  }

  /** A step starts a call, or logs a permitted record from elsewhere, only for an agent with no call in flight. */
  predicate SerialStep(s: State, a: Action) {
    match a
    case Load(_, did, _, _) => !InFlight(s, did)
    case OtherAppend(r) => r.outcome.Permitted? ==> !InFlight(s, r.agentDid)
    case _ => true
  }

  predicate SerialAt(acts: seq<Action>, n: nat) {
    n < |acts| ==> SerialStep(Exec(acts[..n]), acts[n])
  }

  ghost predicate Serial(acts: seq<Action>) {
    forall n: nat :: SerialAt(acts, n)
  }

  lemma SerialInit(acts: seq<Action>)
    requires Serial(acts) && acts != []
    ensures Serial(Init(acts)) && SerialStep(Exec(Init(acts)), Last(acts))
  {
    forall n: nat ensures SerialAt(Init(acts), n) {
      assert SerialAt(acts, n);
      if n < |Init(acts)| {
        PrefixOfInit(acts, n);
      }
    }
    assert SerialAt(acts, |acts| - 1);
  }

  /** No permitted record of did lies in lines lo up to hi. */
  predicate QuietFor(log: seq<Logged>, lo: nat, hi: nat, did: string) {
    forall i: nat | lo <= i < hi && i < |log| :: !CountsFor(log[i].record, did)
  }

  ghost predicate SerialInv(s: State) {
    && (forall c | c in s.calls :: QuietFor(s.log, s.calls[c].snapshot, |s.log|, s.calls[c].did))
    && (forall c, d | c in s.calls && d in s.calls && s.calls[c].did == s.calls[d].did :: c == d)
    && (forall j: nat | j < |s.log| && s.log[j].origin.FromCall? ::
          QuietFor(s.log, s.log[j].origin.snapshot, j, s.log[j].record.agentDid))
  }

  /** A call that begins for an agent with none in flight, or goes on, keeps the windows quiet. */
  lemma SerialInvCall(s: State, c: nat, call: Call)
    requires SerialInv(s)
    requires if c in s.calls then call.did == s.calls[c].did && call.snapshot == s.calls[c].snapshot
             else call.snapshot == |s.log| && !InFlight(s, call.did)
    ensures SerialInv(s.(calls := s.calls[c := call]))
  {
    var t := s.(calls := s.calls[c := call]);
    forall d | d in t.calls ensures QuietFor(t.log, t.calls[d].snapshot, |t.log|, t.calls[d].did) {
      if d in s.calls {
        assert QuietFor(s.log, s.calls[d].snapshot, |s.log|, s.calls[d].did);
      }
    }
  }

  lemma SerialInvLoad(s: State, c: nat, did: string, ring: PrivilegeRing, request: Request)
    requires SerialInv(s) && !InFlight(s, did)
    ensures SerialInv(Step(s, Load(c, did, ring, request)))
  {
    if c !in s.calls && c !in s.finished {
      SerialInvCall(s, c, Call(did, ring, request, |s.log|, Loaded(History(RecordsOf(s.log), did))));
    }
  }

  lemma SerialInvConclude(s: State, c: nat, clock: Clock, recordId: string)
    requires SerialInv(s)
    ensures SerialInv(Step(s, Conclude(c, clock, recordId)))
  {
    if c in s.calls && s.calls[c].phase.Loaded? && Ordered(clock) {
      SerialInvCall(s, c, Step(s, Conclude(c, clock, recordId)).calls[c]);
    }
  }

  /** A line whose agent has no other call in flight leaves every call's window quiet. */
  lemma QuietGrows(log: seq<Logged>, line: Logged, lo: nat, did: string)
    requires QuietFor(log, lo, |log|, did) && !CountsFor(line.record, did)
    ensures QuietFor(log + [line], lo, |log| + 1, did)
  {
  }

  lemma QuietKept(log: seq<Logged>, line: Logged, lo: nat, hi: nat, did: string)
    requires QuietFor(log, lo, hi, did) && hi <= |log|
    ensures QuietFor(log + [line], lo, hi, did)
  {
  }

  lemma SerialInvGrows(s: State, t: State, line: Logged)
    requires SerialInv(s) && t.log == s.log + [line]
    requires forall c | c in t.calls :: c in s.calls && t.calls[c] == s.calls[c] && !CountsFor(line.record, s.calls[c].did)
    requires line.origin.FromCall? ==> QuietFor(s.log, line.origin.snapshot, |s.log|, line.record.agentDid)
    ensures SerialInv(t)
  {
    forall c | c in t.calls ensures QuietFor(t.log, t.calls[c].snapshot, |t.log|, t.calls[c].did) {
      QuietGrows(s.log, line, s.calls[c].snapshot, s.calls[c].did);
    }
    forall j: nat | j < |t.log| && t.log[j].origin.FromCall?
      ensures QuietFor(t.log, t.log[j].origin.snapshot, j, t.log[j].record.agentDid)
    {
      QuietKept(s.log, line, t.log[j].origin.snapshot, j, t.log[j].record.agentDid);
    }
  }

  lemma SerialInvStep(s: State, a: Action)
    requires Inv(s) && SerialInv(s) && SerialStep(s, a)
    ensures SerialInv(Step(s, a))
  {
    var t := Step(s, a);
    match a {
      case Load(c, did, ring, request) => SerialInvLoad(s, c, did, ring, request);
      case Conclude(c, clock, recordId) => SerialInvConclude(s, c, clock, recordId);
      case Append(c, io) =>
        if c in s.calls && s.calls[c].phase.Decided? {
          assert CallInv(s.log, s.calls[c]);
          SerialInvGrows(s, t, t.log[|s.log|]);
        }
      case OtherAppend(r) =>
        SerialInvGrows(s, t, t.log[|s.log|]);
    }
  }

  lemma {:induction false} SerialInvAlways(acts: seq<Action>)
    requires Serial(acts)
    ensures SerialInv(Exec(acts))
  {
    if acts != [] {
      SerialInit(acts);
      SerialInvAlways(Init(acts));
      InvAlways(Init(acts));
      SerialInvStep(Exec(Init(acts)), Last(acts));
    }
  }

  /**
   * Separation of duty. With at most one request in flight per agent, a request that is permitted to
   * read the audit log comes at least 24 hours after every earlier line that permitted its agent to
   * write, delete or update financial records or the audit log, whatever other agents and other
   * writers of the log do meanwhile.
   */
  lemma SeparationOfDuty(acts: seq<Action>, i: nat, j: nat, verb: string, t: string)
    requires forall n: nat | n < |acts| && acts[n].Load? ::
               forall c | c in Exec(acts[..n]).calls :: Exec(acts[..n]).calls[c].did != acts[n].did
    requires forall n: nat | n < |acts| && acts[n].OtherAppend? && acts[n].record.outcome.Permitted? ::
               forall c | c in Exec(acts[..n]).calls :: Exec(acts[..n]).calls[c].did != acts[n].record.agentDid
    requires i < j < |Exec(acts).log|
    requires var w := Exec(acts).log[i].record;
             && w.agentDid == Exec(acts).log[j].record.agentDid && w.outcome == Permitted
             && w.resourceCategory in {FinancialRecord, AuditLog}
             && verb in {"write", "delete", "update"} && w.action == verb + t
    requires var r := Exec(acts).log[j].record;
             && Exec(acts).log[j].origin.FromCall? && r.outcome == Permitted
             && r.resourceCategory == AuditLog && r.action in {"read", "read_audit_log"}
    ensures Exec(acts).log[i].record.timestamp + 86_400_000_000_000 <= Exec(acts).log[j].record.timestamp
  {
    var log := Exec(acts).log;
    assert forall n: nat :: SerialAt(acts, n);
    SerialInvAlways(acts);
    SeparationIff(acts, j);
    assert QuietFor(log, log[j].origin.snapshot, j, log[j].record.agentDid);
    forall k: nat | log[j].origin.snapshot <= k < j ensures !WroteTooRecently(log[k].record, log[j].record) {
      assert !CountsFor(log[k].record, log[j].record.agentDid);
    }
    assert !WroteTooRecently(log[i].record, log[j].record);
  }

  /** Nothing that another writer appends is lost from the log. */
  lemma {:induction false} OthersAreLogged(acts: seq<Action>, n: nat, r: ActionLogRecord)
    requires n < |acts| && acts[n] == OtherAppend(r)
    ensures exists i | 0 <= i < |Exec(acts).log| :: Exec(acts).log[i] == Logged(r, Elsewhere)
  {
    var before, log := Exec(Init(acts)).log, Exec(acts).log;
    if n == |acts| - 1 {
      assert log[|before|] == Logged(r, Elsewhere);
    } else {
      OthersAreLogged(Init(acts), n, r);
      var i :| 0 <= i < |before| && before[i] == Logged(r, Elsewhere);
      assert log[i] == before[i];
    }
  }

  const CLOCK0: Clock := Clock([0, 0], [0, 0], 0)
  const READ: Request := Request("read", AuditLog, None)
  const WRITE: Request := Request("write", FinancialRecord, None)

  lemma EmptyHistoryPermits(request: Request, id: string)
    requires request == READ || request == WRITE
    ensures Decide("did:mesh:a", Standard, request, [], CLOCK0, id).record
            == ActionLogRecord(id, "did:mesh:a", request.action, request.resourceCategory, 0, Permitted, "")
  {
    var input := InputOf("did:mesh:a", Standard, request, []);
    var results := Evaluate(DefaultPolicy(), input, CLOCK0.second);
    assert results[0] == EvaluateRule(DefaultPolicy()[0], input, 0) == NotApplicable;
    assert results[1] == EvaluateRule(DefaultPolicy()[1], input, 0);
  }

  function CallOf(request: Request, phase: Phase): Call {
    Call("did:mesh:a", Standard, request, 0, phase)
  }

  function ReadLoaded(): seq<Action> {
    [] + [Load(0, "did:mesh:a", Standard, READ)]
  }

  // Two requests of one agent, the second started while the first is undecided.
  function BothLoaded(): seq<Action> {
    ReadLoaded() + [Load(1, "did:mesh:a", Standard, WRITE)]
  }

  function WriteLogged(): seq<Action> {
    BothLoaded() + [Conclude(1, CLOCK0, "w")] + [Append(1, LogRecovery.Written)]
  }

  function OverlappingRun(): seq<Action> {
    WriteLogged() + [Conclude(0, CLOCK0, "r")] + [Append(0, LogRecovery.Written)]
  }

  lemma ExecSnoc(acts: seq<Action>, a: Action)
    ensures Exec(acts + [a]) == Step(Exec(acts), a)
  {
    InitOfSnoc(acts, a);
  }

  lemma AfterReadLoaded()
    ensures Exec(ReadLoaded()) == State([], map[0 := CallOf(READ, Loaded([]))], map[])
  {
    ExecSnoc([], Load(0, "did:mesh:a", Standard, READ));
    assert RecordsOf([]) == [];
  }

  lemma AfterBothLoaded()
    ensures Exec(BothLoaded()) == State([], map[0 := CallOf(READ, Loaded([])), 1 := CallOf(WRITE, Loaded([]))], map[])
  {
    AfterReadLoaded();
    ExecSnoc(ReadLoaded(), Load(1, "did:mesh:a", Standard, WRITE));
    assert RecordsOf([]) == [];
  }

  /** A loaded call that concludes and appends leaves its decision on the loaded history as one line. */
  lemma ConcludeAndAppend(acts: seq<Action>, c: nat, recordId: string)
    requires c in Exec(acts).calls && Exec(acts).calls[c].phase.Loaded?
    ensures var s, t := Exec(acts), Exec(acts + [Conclude(c, CLOCK0, recordId)] + [Append(c, LogRecovery.Written)]);
            var call := s.calls[c];
            && t.calls == s.calls - {c}
            && t.log == s.log + [Logged(Decide(call.did, call.ring, call.request, call.phase.history, CLOCK0, recordId).record,
                                        FromCall(call.snapshot))]
  {
    ExecSnoc(acts, Conclude(c, CLOCK0, recordId));
    ExecSnoc(acts + [Conclude(c, CLOCK0, recordId)], Append(c, LogRecovery.Written));
  }

  lemma AfterWriteLogged()
    ensures var s := Exec(WriteLogged());
            && s.calls == map[0 := CallOf(READ, Loaded([]))]
            && s.log == [Logged(Decide("did:mesh:a", Standard, WRITE, [], CLOCK0, "w").record, FromCall(0))]
  {
    AfterBothLoaded();
    ConcludeAndAppend(BothLoaded(), 1, "w");
  }

  lemma AfterOverlap()
    ensures Exec(OverlappingRun()).log
            == [Logged(Decide("did:mesh:a", Standard, WRITE, [], CLOCK0, "w").record, FromCall(0)),
                Logged(Decide("did:mesh:a", Standard, READ, [], CLOCK0, "r").record, FromCall(0))]
  {
    AfterWriteLogged();
    ConcludeAndAppend(WriteLogged(), 0, "r");
  }

  /** Overlapping requests of one agent escape the rule: both are permitted at the same instant. */
  lemma OverlapEscapes()
    ensures var log := Exec(OverlappingRun()).log;
            |log| == 2 && ReadsAudit(log[1]) && WroteTooRecently(log[0].record, log[1].record)
  {
    AfterOverlap();
    EmptyHistoryPermits(WRITE, "w");
    EmptyHistoryPermits(READ, "r");
  }

  // ---- Replies ----

  predicate RepliesMatch(s: State) {
    forall c | c in s.finished ::
      && s.finished[c].index < |s.log|
      && s.log[s.finished[c].index].origin.FromCall?
      && match s.finished[c].reply
         case Ok(response) =>
           Coherent(Decision(response.results, response.success, s.log[s.finished[c].index].record))
         case Err(_) => true
  }

  /**
   * Every caller that got a reply was told what the log says: success if and only if its line is
   * Permitted, and otherwise a denial under the first violation of the results it was given.
   */
  lemma {:induction false} RepliesMatchLog(acts: seq<Action>)
    ensures RepliesMatch(Exec(acts))
  {
    if acts != [] {
      var s, a := Exec(Init(acts)), Last(acts);
      RepliesMatchLog(Init(acts));
      InvAlways(Init(acts));
      if a.Append? && a.call in s.calls && s.calls[a.call].phase.Decided? {
        assert CallInv(s.log, s.calls[a.call]);
      }
    }
  }

  /** A caller is told of the decision if and only if its append reached the checkpoint. */
  lemma {:induction false} RepliedIfWritten(acts: seq<Action>, c: nat)
    requires c in Exec(acts).finished
    ensures exists n | 0 <= n < |acts| :: && acts[n].Append? && acts[n].call == c
                                         && (acts[n].io.Written? <==> Exec(acts).finished[c].reply.Ok?)
  {
    var s, a := Exec(Init(acts)), Last(acts);
    if a.Append? && a.call == c && c in s.calls && s.calls[c].phase.Decided? {
      assert acts[|acts| - 1] == a;
    } else {
      RepliedIfWritten(Init(acts), c);
      var n :| && 0 <= n < |Init(acts)| && Init(acts)[n].Append? && Init(acts)[n].call == c
               && (Init(acts)[n].io.Written? <==> s.finished[c].reply.Ok?);
      assert acts[n] == Init(acts)[n];
    }
  }

  // ---- One request handled from start to end, on the log object ----

  // Outcome of asking the registry for the caller's ring.
  type RingAnswer = Result<Option<PrivilegeRing>, string>

  /** What to log: the first violation of a denial, searched for in order. */
  method OutcomeToLog(results: seq<ComplianceResult>, isCompliant: bool) returns (outcome: ActionOutcome)
    ensures outcome == OutcomeOf(results, isCompliant)
  {
    if isCompliant {
      return Permitted;
    }
    var i := 0;
    while i < |results|
      invariant 0 <= i <= |results|
      invariant NoViolation(results[..i])
    {
      if results[i].Violation? {
        FirstViolationAt(results, i);
        return Denied(results[i].rule, results[i].reason);
      }
      i := i + 1;
    }
    FirstViolationAt(results, i);
    return Denied("Unknown", "Access denied");
  }

  /** The default policy refuses this request at this time, given what the log permitted the agent before. */
  predicate Refused(before: seq<ActionLogRecord>, did: string, request: Request, now: int) {
    || (request.action == "data_export" && request.resourceCategory.PersonalData? && request.jurisdiction != Some("US"))
    || (&& request.resourceCategory.AuditLog? && (request.action == "read" || request.action == "read_audit_log")
        && exists i | 0 <= i < |before| ::
             && before[i].agentDid == did && before[i].outcome.Permitted?
             && before[i].timestamp > now - 86_400_000_000_000
             && (before[i].resourceCategory.FinancialRecord? || before[i].resourceCategory.AuditLog?)
             && ("write" <= before[i].action || "delete" <= before[i].action || "update" <= before[i].action))
  }

  lemma RefusedByHistory(before: seq<ActionLogRecord>, did: string, ring: PrivilegeRing, request: Request, now: int)
    ensures var input := InputOf(did, ring, request, History(before, did));
            Refused(before, did, request, now) <==> UnlicensedExport(input) || RecentWriterReads(input, now)
  {
    var h := History(before, did);
    var input := InputOf(did, ring, request, h);
    forall i | 0 <= i < |before| && before[i].agentDid == did && before[i].outcome.Permitted?
      ensures ActionRecord(before[i].action, before[i].timestamp, before[i].resourceCategory) in input.actionHistory
    {
      HistoryExact(before, did, ActionRecord(before[i].action, before[i].timestamp, before[i].resourceCategory));
    }
    forall k | 0 <= k < |h|
      ensures exists i | 0 <= i < |before| :: && before[i].agentDid == did && before[i].outcome.Permitted?
                && h[k] == ActionRecord(before[i].action, before[i].timestamp, before[i].resourceCategory)
    {
      HistoryExact(before, did, h[k]);
    }
  }

  /** What a decision puts on record: the request as it came, permitted unless the policy refuses it over the log so far. */
  lemma DecisionExact(
      before: seq<ActionLogRecord>, did: string, ring: PrivilegeRing, request: Request, clock: Clock, recordId: string)
    requires Ordered(clock)
    ensures var r := Decide(did, ring, request, History(before, did), clock, recordId).record;
            && r.recordId == recordId && r.agentDid == did && r.action == request.action
            && r.resourceCategory == request.resourceCategory && r.timestamp == clock.stamp
            && (r.outcome == Permitted <==> !Refused(before, did, request, clock.second[1]))
  {
    var input := InputOf(did, ring, request, History(before, did));
    DecisionsCohere(did, ring, request, History(before, did), clock, recordId);
    DefaultPermits(input, clock.second);
    RefusedByHistory(before, did, ring, request, clock.second[1]);
  }

  method ExecuteAction(
      log: LogRecovery.FileActionLog, did: string, ringAnswer: RingAnswer, request: Request,
      clock: Clock, recordId: string, io: LogRecovery.CheckpointWrite)
    returns (r: Result<Response, string>)
    requires Ordered(clock)
    modifies log, log.disk
    ensures ringAnswer.Err? || ringAnswer.value.None? || !old(WellFormed(log.disk.lines)) ==>
              r.Err? && log.disk.lines == old(log.disk.lines) && log.lastHash == old(log.lastHash)
    ensures ringAnswer.Ok? && ringAnswer.value.Some? && old(WellFormed(log.disk.lines)) ==>
              && |log.disk.lines| == |old(log.disk.lines)| + 1 && old(log.disk.lines) <= log.disk.lines
              && Last(log.disk.lines).Entry?
              && var line := Last(log.disk.lines).record;
              && line.recordId == recordId && line.agentDid == did && line.action == request.action
              && line.resourceCategory == request.resourceCategory && line.timestamp == clock.stamp
              && line.prevHash == old(log.lastHash)
              && (line.outcome == Permitted <==> !Refused(old(Records(log.disk.lines)), did, request, clock.second[1]))
              && (r.Ok? <==> io.Written?)
              && (r.Ok? ==> && (r.value.success <==> line.outcome == Permitted)
                            && (!r.value.success ==> NamesFirstViolation(r.value.results, line.outcome)))
  {
    if ringAnswer.Err? {
      return Err(ringAnswer.error);
    }
    if ringAnswer.value.None? {
      return Err("Agent not registered");
    }
    var loaded := log.LoadHistory(did);
    if loaded.Err? {
      return Err(loaded.error);
    }
    var input := ComplianceInput(did, ringAnswer.value.value, [], request.action, request.resourceCategory,
                                 loaded.value, request.jurisdiction);
    DecisionsCohere(did, ringAnswer.value.value, request, loaded.value, clock, recordId);
    DecisionExact(Records(log.disk.lines), did, ringAnswer.value.value, request, clock, recordId);

    var results := Evaluate(DefaultPolicy(), input, clock.first);
    var isCompliant := IsCompliant(DefaultPolicy(), input, clock.second);
    var outcome := OutcomeToLog(results, isCompliant);
    var record := ActionLogRecord(recordId, did, request.action, request.resourceCategory, clock.stamp, outcome, "");
    var appended := log.AppendRecord(record, io);
    if appended.Err? {
      return Err(appended.error);
    }
    return Ok(Response(isCompliant, results));
  }

  lemma {:induction false} FirstViolationAt(results: seq<ComplianceResult>, i: nat)
    requires i <= |results| && NoViolation(results[..i]) && (i < |results| ==> results[i].Violation?)
    ensures FirstViolation(results) == if i < |results| then Some(results[i]) else None
  {
    if 0 < i {
      assert results[..i][0] == results[0];
      forall k | 0 <= k < i - 1 ensures !results[1..][k].Violation? {
        assert results[1..][k] == results[..i][k + 1];
      }
      FirstViolationAt(results[1..], i - 1);
    }
  }
}
