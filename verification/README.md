# Governance core of the agent stack, modelled and proved in Dafny

The project models the stateful core of the Rust agent-governance workspace: the hash-chained action
log and its checkpoint, the compliance decisions taken over it, the escalation protocol, the agent
registry with its replayed file and its client cache, the rate limiter, the circuit breaker, the
expiring state store, shadow-agent discovery with its alert stream, the risk fold, and the texts that
are printed, parsed and signed. `dafny verify dfyconfig.toml` checks all of it.

How it is laid out:

* One module per source component. Code that changes state in place is a class whose methods state
  their whole new state, through a step function on values (`Step`) or directly.
* Whole runs are sequences of steps folded by `Exec`. A step names everything the program does not
  control: clock readings, random jitter, fresh ids, answers of the registry, results of writes, and
  which call moves next. A step that cannot happen leaves the state as it is. Each block that the
  source runs under one lock is one step; a call that awaits is several steps, with other calls between.
* A class of a timed component carries the history of its own calls as ghost state, so that what a
  method returns is stated over that history.
* Main results speak of every run and relate it to a rule over its history, or compare two
  independent definitions.

What is assumed, and where:

* SHA-256 is a function parameter `sha`. Only the tamper results ask that it has no collisions and
  never yields "genesis" (`Audit.CollisionFree`); the crash results hold for any function. Ed25519
  verification and the bytes of a claim are parameters too (`Attestation.Crypto`); only
  `ApprovalSoundness.SignatureApprovesOnce` asks that a signature verifies for no two messages under
  one key, and only the cache results ask that nothing verifies under the registry's key that the
  registry has not signed (`AttestationCache.Authentic`). Event serialisation is a parameter whose
  round trip is asked for where it is used.
* A UUID is new when it is made, and prints as 36 characters, hyphens and hexadecimal digits.
* Time is an integer count of nanoseconds and does not go back; the readings of concurrent requests may
  overlap in any way, each request's own are in order. A line of a file, with its newline, is
  written whole or not at all.
* u32 arithmetic is written out: the wrapping failure counter, the cast of a rate limit to i32, the
  saturating subtractions and casts of the risk score. Risk values are reals.

Where the code falls short of what the repository promises, the code is kept, an example is given and
the exact condition is proved:

* `chaos_test.sh` kills the daemon in the middle of a write and expects the log to verify afterwards.
  A kill between the flush of a line and the checkpoint write, followed by a reopening and an append,
  breaks the chain (`LogRecovery.CrashWindowBreaksChain`). `LogRecovery.CleanIff` says exactly when the
  log verifies; `LogRecovery.CleanWhenCheckpointed` gives the runs that are safe.
* A record's link is not part of its hash, so an edit of a logged record is hidden by relinking only the
  record after it. `ActionLog.RelinkedEditUnseen` says exactly which link does it;
  `ActionLog.EditDetectedAtNext` and `ActionLog.RearrangementsDetected` say what is still evident.
* Two overlapping requests of one agent can both be permitted although the 24-hour separation rule
  would refuse the second (`Execute.OverlapEscapes`). `Execute.SeparationIff` says exactly when
  separation holds, and `Execute.SeparationOfDuty` that one request at a time per agent suffices.
* Two overlapping registrations of one agent can leave file and memory different
  (`Registry.OverlapDiverges`); `Registry.AgreesIff` is the exact condition.
* `architecture/ADR-004-attested-adapters.md` asks that verifying an attestation includes its subject.
  The client checks signature and expiry only, so another agent's attestation is cached and its key
  served (`AttestationCache.OtherAgentsKeyServed`). `AttestationCache.ServedKeyIsOwnIff` and
  `AttestationCache.FiledRightIff` say exactly when the key is the agent's own.
* The breaker's counter is a u32; the 2^32-th failure in a row is not timed
  (`CircuitBreaker.WrapForgetsFailure`). `CircuitBreaker.FollowsRuleIff` says exactly at which times
  the breaker departs from its rule.
* `architecture/ADR-005-grpc-migration.md` asks that no shadow alert is lost. A watch reads the log
  first and subscribes afterwards, and an alert sent before and logged only later is in neither part
  (`WatchShadows.GapMissesAlert`). `WatchShadows.MissedExactly` and `WatchShadows.BridgeIsComplete`
  say exactly which alerts a stream and the log miss.
* Shadow agents are meant to be the unregistered ones. An agent that registers before it is first seen,
  or over gRPC, is listed as a shadow all the same (`Enrollment.EarlyRegistrationIsShadow`,
  `Enrollment.GrpcRegistrationStaysShadow`); `Enrollment.ShadowsAreUnregisteredIff` is the exact condition.

## Model

| member | source | states |
|---|---|---|
| Identity.ParseUndoesPrint | crates/daemon/src/lib.rs:214-223 | parsing a printed DID gives it back if and only if its method is "mesh" and its unique part has no colon |
| Identity.ParsePrints | crates/daemon/src/grpc/discovery.rs:109-118 | every text the parser accepts prints back to itself |
| Identity.RingNameInjective | crates/core/mesh/src/identity/agent_id.rs:35-44 | ring names are distinct and hold no colon |
| Identity.PayloadInjective | crates/core/mesh/src/identity/escalation.rs:33-35 | one signed payload stands for one event id, one agent DID (colons and all) and one ring |
| Identity.PayloadText | crates/core/mesh/src/identity/escalation.rs:33-35 | the signed text, written out for each of the four rings |
| Identity.RankIsPrivilege | crates/core/mesh/src/identity/agent_id.rs:14-19 | the derived order is the order of privilege: System over Trusted over Standard over Sandboxed |
| Audit.HashedFields | crates/core/mesh/src/audit.rs:64-84 | two records have the same hashed bytes if and only if they agree on id, agent, action, category, timestamp and outcome; the link is not hashed |
| ActionLog.VerdictExact | crates/ext/compliance/src/lib.rs:176-199 | the chain verdict is the one ascending list of exactly the records whose link is not the hash of the record before (or "genesis" at 0), each with its id and both hashes |
| ActionLog.VerdictReports | crates/ext/compliance/src/lib.rs:176-199 | record i is reported if and only if its link is not the hash of the six fields of the record before, or "genesis" at 0, and then with that expected link |
| ActionLog.RearrangementsDetected | crates/core/mesh/src/audit.rs:64-91 | any selection of records of a clean log, reordered, repeated or with gaps, verifies clean if and only if it is a prefix of the log |
| ActionLog.EditDetectedAtNext | crates/core/mesh/src/audit.rs:64-91 | an edit of any field but the link in a clean log is reported at the next index and only there, with the edited record's hash as expected, and goes unseen exactly at the last record |
| ActionLog.RelinkedEditUnseen | crates/core/mesh/src/audit.rs:64-91 | an edit of one record of a clean log with a new link in the next record goes unseen if and only if that link is the edited record's hash |
| ActionLog.HistoryExact | crates/ext/compliance/src/lib.rs:201-218 | an agent's loaded history holds exactly its permitted records |
| ActionLog.SinceExact | crates/ext/compliance/src/lib.rs:220-233 | replay from a time holds exactly the records stamped then or later |
| ActionLog.SinceOfConcat | crates/ext/compliance/src/lib.rs:220-233 | replay from a time distributes over the log, so it keeps order and repetitions |
| LogRecovery.BrokenExactlyAfterStaleOpen | crates/ext/compliance/src/lib.rs:116-170 | over every run of appends, failed checkpoint writes, crashes and reopenings, record i is reported if and only if it was the first appended after an opening that loaded a hash other than the last record's |
| LogRecovery.CleanIff | crates/ext/compliance/src/lib.rs:116-170 | the log verifies clean if and only if no such opening was followed by an append |
| LogRecovery.ViolationsBoundedByStaleOpens | crates/ext/compliance/src/lib.rs:116-147 | violations never outnumber the openings with a stale hash |
| LogRecovery.CleanWhenCheckpointed | crates/ext/compliance/src/lib.rs:160-167 | if every append reached its checkpoint, crashes and reopenings elsewhere leave the log clean |
| LogRecovery.CleanWithinOneSession | crates/ext/compliance/src/lib.rs:149-170 | within one session even failing checkpoint writes never break the chain |
| LogRecovery.CrashWindowBreaksChain | chaos_test.sh:24-38 | a kill between flush and checkpoint, then a reopening and an append: the verdict is index 1, linked to "genesis" where the first record's hash is due |
| LogRecovery.FileActionLog.OpenLog | crates/ext/compliance/src/lib.rs:116-147 | opening fails only on an unreadable checkpoint, and otherwise starts from the loaded hash or "genesis" |
| LogRecovery.FileActionLog.AppendRecord | crates/ext/compliance/src/lib.rs:149-170 | one line linked to the hash in memory, the hash of its six fields in memory, and the checkpoint written or, with an error, left as it may be |
| LogRecovery.FileActionLog.VerifyChain | crates/ext/compliance/src/lib.rs:176-199 | the loop reports exactly the records whose link is not the hash of the six fields of the record before, or fails on a malformed line |
| LogRecovery.FileActionLog.LoadHistory | crates/ext/compliance/src/lib.rs:201-218 | the loop returns the agent's history, or an error on a malformed line |
| LogRecovery.FileActionLog.ReplaySince | crates/ext/compliance/src/lib.rs:220-233 | the loop returns the records from the given time on, or an error on a malformed line |
| Compliance.MutationsExact | crates/ext/compliance/src/lib.rs:78-82 | mutations are the actions on financial records or the audit log whose name is write, delete or update followed by anything |
| Compliance.DefaultPermits | crates/ext/compliance/src/lib.rs:44-92 | the default policy refuses exactly unlicensed exports of personal data outside the US, by GDPR-001, and audit reads with a write, delete or update of protected data in the last 24 hours of history, by SOX-001 |
| Compliance.DefaultApplies | crates/ext/compliance/src/lib.rs:44-73 | the export rule applies to exports of personal data outside the US only, the audit rule to the two read actions on the audit log only |
| Compliance.FindingsRelax | crates/ext/compliance/src/lib.rs:66-92 | on one history, a violation at a later time was the same violation at any earlier time |
| Compliance.DenialHasViolation | crates/ext/compliance/src/lib.rs:309-315 | for any rules, when the second evaluation denies, the first one's results hold a violation |
| Compliance.FirstViolationFound | crates/daemon/src/lib.rs:402-408 | the violation picked is the first of the list, and none is picked exactly when there is none |
| Compliance.OutcomeCoheres | crates/daemon/src/lib.rs:394-411 | for any rules and two passes on an advancing clock, the outcome is Permitted if and only if the second pass permits, and otherwise denied under the first violation of the first pass |
| Execute.DecisionsCohere | crates/daemon/src/lib.rs:394-422 | the logged outcome is Permitted if and only if the call is compliant, and otherwise denied under the first violation of its results; the fallback text is unreachable |
| Execute.SeparationIff | crates/daemon/src/lib.rs:364-424 | in every interleaving, an agent permitted to read the audit log wrote, deleted or updated protected data in the 24 hours before if and only if such a line was appended between its history read and its own line |
| Execute.SeparationOfDuty | crates/daemon/src/lib.rs:364-424 | with one request in flight per agent, a permitted read of the audit log is stamped at least 86400 seconds after every earlier permitted write, delete or update of financial or audit data by its agent, whatever others do |
| Execute.DecisionExact | crates/daemon/src/lib.rs:379-422 | the record carries the request as it came, and is Permitted if and only if the default policy does not refuse the request over the agent's permitted lines of the log so far |
| Execute.OthersAreLogged | crates/ext/compliance/src/lib.rs:149-170 | in every run, every line of another writer stays in the log |
| Execute.OverlapEscapes | crates/daemon/src/lib.rs:378-424 | two overlapping requests of one agent are both permitted at one instant |
| Execute.RepliesMatchLog | crates/daemon/src/lib.rs:424-441 | every reply says success if and only if its log line is Permitted, and a refusal's line carries the first violation of the results returned |
| Execute.RepliedIfWritten | crates/daemon/src/lib.rs:424-441 | a caller is told the decision if and only if its append reached the checkpoint, and an error otherwise |
| Execute.OutcomeToLog | crates/daemon/src/lib.rs:398-411 | the search loop yields the outcome of the first violation |
| Execute.ExecuteAction | crates/daemon/src/lib.rs:364-442 | one request from start to end: errors log nothing, otherwise exactly one line with the request's fields is appended, permitted if and only if the policy does not refuse it over the log, and the reply says the same |
| Escalation.Conservation | crates/core/runtime/src/rings/escalation.rs:45-173 | at every moment each issued id is in exactly one place: pending, claimed and undecided, decided, or consumed by an approve that failed after removing it |
| Escalation.DecidedOnce | crates/core/runtime/src/rings/escalation.rs:59-62 | no id is decided twice and no two calls ever claim one id |
| Escalation.OneAuditLine | crates/core/runtime/src/rings/escalation.rs:175-184 | with a working audit log, a returned event has exactly one line, itself, and a returned error none |
| Escalation.EscalationManager.RequestEscalation | crates/core/runtime/src/rings/escalation.rs:45-50 | the request becomes pending under its new id |
| Escalation.EscalationManager.Claim | crates/core/runtime/src/rings/escalation.rs:59-62 | the request is removed and returned, or an unknown id is an error |
| Escalation.EscalationManager.LogEvent | crates/core/runtime/src/rings/escalation.rs:175-184 | one line is added when there is a log and it works |
| Escalation.ApproveExact | crates/core/runtime/src/rings/escalation.rs:65-133 | approval if and only if the approver is System, its attestation is unexpired and signed by the registry, its signature covers the request and the ring is more privileged; otherwise which denial; the event carries the request |
| Escalation.ApproveErrors | crates/core/runtime/src/rings/escalation.rs:65-85 | no decision exactly when the approver is unknown, or is System and has no attestation that passes, or the registry fails; and which error |
| Escalation.ApproveAlone | crates/core/runtime/src/rings/escalation.rs:52-133 | from any state, the steps of an undisturbed approve end in the outcome on the registry's answers, with one event and one line |
| Escalation.DenyAlone | crates/core/runtime/src/rings/escalation.rs:148-173 | from any state, the steps of a denial end in the denied event of the request, with one line |
| Escalation.EscalationManager.ApproveRequest | crates/core/runtime/src/rings/escalation.rs:52-133 | on any registry answers the id is removed, an event is logged exactly when one is made, and the event is an approval if and only if approver, attestation, signature and ring are all in order |
| Escalation.EscalationManager.DenyRequest | crates/core/runtime/src/rings/escalation.rs:148-173 | a denial removes the id and logs the denied event, or reports an unknown id |
| ApprovalSoundness.ApprovalsJustified | crates/core/runtime/src/rings/escalation.rs:52-133 | every approval of every run rests, in this order, on an issued request for that agent and those rings, its claim by one call, an approver that held System when that call read its ring, and a signature over exactly this id, agent and ring under the key attested when the call read it; the new ring is strictly more privileged |
| ApprovalSoundness.HonestApprovalSucceeds | crates/core/runtime/src/rings/escalation.rs:45-133 | the converse: from any state, a request for a more privileged ring, approved undisturbed by a registered System approver with proper signatures, ends in an approval that the log holds |
| ApprovalSoundness.SignatureApprovesOnce | crates/core/runtime/src/rings/escalation.rs:87-107 | one signature under one key approves at most one escalation in any run |
| Registry.ReplayLastWins | crates/core/mesh/src/identity/registry.rs:95-112 | replay gives each agent exactly the key and the ring of its last record, and holds no one else |
| Registry.AgreesIff | crates/core/mesh/src/identity/registry.rs:117-137 | in every interleaving, memory and replay agree on an agent if and only if, of its registrations, the one begun last is the one persisted last or carries the same entry |
| Registry.MemoryAgreesWithReplay | crates/core/mesh/src/identity/registry.rs:117-137 | with no overlap for one agent, its memory entry is its in-flight one, or else the replayed one unless its own last write failed |
| Registry.UnsavedExactly | crates/core/mesh/src/identity/registry.rs:117-137 | an agent counts as unsaved exactly when a failed registration of it was followed by no saved one and no restart |
| Registry.ReopeningIsIdentity | crates/core/mesh/src/identity/registry.rs:95-137 | at rest with no failed write outstanding, reopening yields the identical map |
| Registry.OverlapDiverges | crates/core/mesh/src/identity/registry.rs:117-137 | two overlapping registrations of one agent can leave file and memory different |
| Registry.FileAgentRegistry.Open | crates/core/mesh/src/identity/registry.rs:95-112 | the loop skips blank lines, fails on a malformed one, and yields for each agent the key and the ring of its last record |
| Registry.FileAgentRegistry.RegisterInMemory | crates/core/mesh/src/identity/registry.rs:41-45 | the printed DID gets the key and the ring given |
| Registry.FileAgentRegistry.AppendToFile | crates/core/mesh/src/identity/registry.rs:121-136 | one line is added, or none with an error |
| Registry.FileAgentRegistry.Register | crates/core/mesh/src/identity/registry.rs:117-137 | memory gets the key and the ring given, then the file a line, as the two steps of the interleaved model; a registration that works keeps memory equal to the replay |
| Registry.FileAgentRegistry.GetAttestation | crates/core/mesh/src/identity/registry.rs:47-70 | a registered agent's key is attested for 24 hours under its own DID and signed over the claim, an unknown one is not |
| Attestation.VerifyExact | crates/core/mesh/src/identity/attestation.rs:39-62 | an attestation passes if and only if it is unexpired, the registry's key decodes and its signature verifies under it; which error otherwise |
| AttestationCache.BoundedStaleness | crates/core/mesh/src/identity/registry_http.rs:83-122 | whatever the network delivers, an attestation served from the cache is unexpired and signed by the registry, now and when it was cached, and its key was the registry's key for its subject at an earlier moment less than 23 hours ago |
| AttestationCache.ServedKeyIsOwnIff | crates/core/mesh/src/identity/registry_http.rs:103-113 | when no two agents share a key, the key served for an agent was its own within 23 hours if and only if the attestation names it, and otherwise never was |
| AttestationCache.FiledRightIff | crates/core/mesh/src/identity/registry_http.rs:103-113 | the cache is at all times filed by subject if and only if every trusted answer was about the agent asked for |
| AttestationCache.OtherAgentsKeyServed | architecture/ADR-004-attested-adapters.md:13 | delivered another agent's attestation, the client caches it and serves that agent's key |
| AttestationCache.RefreshWindow | crates/core/mesh/src/identity/registry_http.rs:43-56 | every jitter finds an entry fresh exactly until 22 hours and a second after issue, and some jitter exactly until 23 hours |
| AttestationCache.NoEarlyRefetch | crates/core/mesh/src/identity/registry_http.rs:83-92 | an entry at most 22 hours old is served without asking the registry |
| AttestationCache.HttpAgentRegistry.GetAttestation | crates/core/mesh/src/identity/registry_http.rs:83-122 | a fresh entry is served; on a miss an answer is cached and returned if and only if it is unexpired and its signature verifies under the decodable registry key; a failure changes nothing |
| RateLimiter.IntervalExact | crates/daemon/src/gateway.rs:112 | the interval is one second over the limit, rounded down, for limits that fit an i32, and not positive from 2^31 on |
| RateLimiter.GreedyIsMaximal | crates/daemon/src/gateway.rs:108-119 | accepted requests are spaced by the interval, and no spaced choice of requests is larger |
| RateLimiter.WindowBound | crates/daemon/src/gateway.rs:108-119 | any half-open window of W ns accepts at most ceil(W / interval) |
| RateLimiter.RefusalsCostNothing | crates/daemon/src/gateway.rs:113-118 | without the refused requests exactly the same ones are accepted |
| RateLimiter.OthersHaveNoEffect | crates/daemon/src/gateway.rs:109-118 | in the traffic of all agents, one agent under a fixed limit is decided on its own times alone |
| RateLimiter.AgentGuarantee | crates/daemon/src/gateway.rs:108-119 | for one agent in the traffic of all: accepted requests are a billion ns over the limit apart, no spaced set of its requests is larger than the accepted set, and a window of W ns holds at most ceil(W / interval) of them |
| RateLimiter.GatewayState.Admit | crates/daemon/src/gateway.rs:108-119 | one request is admitted by the interval rule, and only an admitted one moves the agent's last time |
| CircuitBreaker.AllowsByTimedFailure | crates/core/sre/src/circuit_breaker.rs:36-70 | after every timed history, however many failures it has, the breaker allows if and only if failures since the last success are below max(threshold, 1) or the last failure that its wrapping counter timed is at least the timeout ago |
| CircuitBreaker.FollowsRuleIff | crates/core/sre/src/circuit_breaker.rs:36-70 | the breaker answers by its rule (too few failures since the last success, or the last failure long ago) except exactly when the last timed failure is long ago and a later one, untimed by the wrapped counter, is not; it then allows what the rule refuses |
| CircuitBreaker.AllowsByRule | crates/core/sre/src/circuit_breaker.rs:36-70 | with fewer than 2^32 failures since the last success, whatever came before, the breaker allows if and only if the rule does |
| CircuitBreaker.AskingIsUnobservable | crates/core/sre/src/circuit_breaker.rs:36-55 | in every timed history earlier questions, and the half-open state, never change an answer |
| CircuitBreaker.WrapForgetsFailure | crates/core/sre/src/circuit_breaker.rs:63-70 | the 2^32-th failure in a row wraps the counter and is not timed |
| CircuitBreaker.CircuitBreaker.IsAllowed | crates/core/sre/src/circuit_breaker.rs:36-55 | while the clock does not go back, the answer is the rule applied to the breaker's own call history, except exactly for a failure that a wrapped counter did not time |
| CircuitBreaker.CircuitBreaker.RecordSuccess | crates/core/sre/src/circuit_breaker.rs:57-61 | closes the breaker and clears the counter, keeps the last failure time, and keeps the state that its history folds to |
| CircuitBreaker.CircuitBreaker.RecordFailure | crates/core/sre/src/circuit_breaker.rs:63-70 | counts, and opens with a new failure time from the threshold on; the state stays what its history folds to |
| StateStore.ReadsByHistory | crates/core/os/src/lib.rs:47-72 | after every timed sequence a get returns the last value set and not deleted, if it has no time to live or that has not run out |
| StateStore.BlockedBySome | crates/core/os/src/lib.rs:148-165 | an action is blocked if and only if some named policy exists and lists it |
| StateStore.BlockingIsMonotone | crates/core/os/src/lib.rs:148-165 | the order and repetition of policy names do not matter, and more names can only block more |
| StateStore.MemoryBackend.Get | crates/core/os/src/lib.rs:47-59 | the answer is what the backend's own history says, and dropping an expired entry changes no later read |
| StateStore.MemoryBackend.Set | crates/core/os/src/lib.rs:61-66 | the value is stored with its deadline, and the store stays what its history folds to |
| StateStore.MemoryBackend.Delete | crates/core/os/src/lib.rs:68-72 | the key is removed, and the store stays what its history folds to |
| StateStore.StatelessKernel.CheckPolicies | crates/core/os/src/lib.rs:148-165 | an error if and only if some named policy lists the action, and it names the first |
| StateStore.StatelessKernel.Execute | crates/core/os/src/lib.rs:88-146 | failure if and only if some named policy lists the action; no read of the store, now or later, gives another result |
| Discovery.ShadowSetExact | crates/ext/discovery/src/lib.rs:50-117 | over every run the shadow agents are exactly those reported and not registered since their first report |
| Discovery.BroadcastsExact | crates/ext/discovery/src/lib.rs:72-89 | reports of one agent broadcast once, and once more exactly when the first was passive and an active one followed |
| Discovery.EntriesOnlyGrow | crates/ext/discovery/src/lib.rs:50-99 | first sighting, registration and active source never revert in any continuation |
| Discovery.SeenInOrder | crates/ext/discovery/src/lib.rs:55-70 | every entry was first seen no later than last seen, and is filed under its own DID |
| Discovery.DiscoveryManager.ReportPresence | crates/ext/discovery/src/lib.rs:50-90 | the new entry field by field, and the event: a shadow alert for a new agent, for an upgrade an alert or, if it is registered, its presence; kept equal to the fold of the history |
| Discovery.DiscoveryManager.RegisterAgent | crates/ext/discovery/src/lib.rs:92-99 | a known agent is marked and its presence sent, an unknown one changes nothing; kept equal to the fold of the history |
| Discovery.DiscoveryManager.DetectShadowAgents | crates/ext/discovery/src/lib.rs:101-117 | as many entries as there are unregistered keys, exactly theirs; by the manager's history, those reported and not registered since |
| Enrollment.KnownByHistory | crates/ext/discovery/src/lib.rs:50-99 | in every interleaving of registrations and sightings, discovery holds exactly the agents sighted, and as registered exactly those with a registration announced since |
| Enrollment.SavedBeforeAnnounced | crates/daemon/src/lib.rs:231-234 | only a registration over HTTP whose write worked waits to be announced |
| Enrollment.ShadowsAreUnregisteredIff | crates/daemon/src/lib.rs:227-236 | every sighted agent the registry does not hold is a shadow, and one it holds is no shadow if and only if a registration of it was announced after it was first sighted |
| Enrollment.EarlyRegistrationIsShadow | crates/daemon/src/lib.rs:231-234 | an agent that registers before it is first seen is broadcast and listed as a shadow |
| Enrollment.GrpcRegistrationStaysShadow | crates/daemon/src/grpc/registry.rs:18-37 | a registration over gRPC leaves an agent a shadow |
| WatchShadows.MissedExactly | crates/daemon/src/grpc/discovery.rs:66-103 | of the alerts seen since its start time, a watcher misses exactly those sent before it subscribed and not in the file when its replay read it, and those the channel overwrote, at least 100 events later, before it came to them |
| WatchShadows.GapMissesAlert | architecture/ADR-005-grpc-migration.md:21 | an alert sent before the replay and logged after the subscription reaches the log and not the stream |
| WatchShadows.NoAlertTwice | crates/daemon/src/grpc/discovery.rs:89-103 | no alert is in both the replayed and the live part of a stream |
| WatchShadows.ResumeIsComplete | crates/daemon/src/grpc/discovery.rs:66-87 | a watch resumed at the time of a logged alert replays it and every alert logged after it, in log order and once each |
| WatchShadows.BridgeIsComplete | crates/daemon/src/lib.rs:139-160 | of the alerts the worker has consumed, the log holds exactly those whose append did not fail |
| WatchShadows.LostExactly | crates/daemon/src/lib.rs:148-156 | the alerts the log has lost are exactly those whose append failed |
| WatchShadows.DroppedExactly | crates/ext/discovery/src/lib.rs:39-47 | a live stream has dropped exactly the alerts that the channel was at least 100 events past before the stream came to them |
| WatchShadows.StoppedExactly | crates/daemon/src/lib.rs:144-146 | the worker has stopped if and only if it once fell more than 100 events behind |
| WatchShadows.NothingBeforeStart | crates/daemon/src/lib.rs:139-146 | the log never holds an alert sent before the worker started and subscribed |
| WatchShadows.CatchesUp | crates/daemon/src/grpc/discovery.rs:89-103 | a live stream that is let run comes to the end of the channel and drops nothing more on the way |
| WatchShadows.ReplayYieldsAlerts | crates/daemon/src/grpc/discovery.rs:73-87 | what the replay loop extracts from the records is, one for one, the alerts at the replayed positions |
| WatchShadows.InitialAlerts | crates/daemon/src/grpc/discovery.rs:73-87 | the loop extracts the alerts of the replayed records, none from an unreadable log |
| WatchShadows.Bridge | crates/daemon/src/lib.rs:144-159 | an alert is appended as one discovery record with the agent's DID, the time and the event, other events are not |
| Risk.SignalExact | crates/core/mesh/src/identity/risk.rs:89-110 | one more signal: none of 24 hours or older counts, a recent one takes its reduction off the component its type begins with, down to zero |
| Risk.SignalCounted | crates/core/mesh/src/identity/risk.rs:114-124 | one more recent signal adds one to the active count, and to the critical one if it is critical, modulo 2^32 |
| Risk.ReductionExact | crates/core/mesh/src/identity/risk.rs:26-34 | a signal's reduction is 20, 16, 10, 4 or 2 times its value by severity, truncated into a u32 |
| Risk.ScoreOfNone | crates/core/mesh/src/identity/risk.rs:99-112 | with no signal the components are 80, 70, 75 and 85 and the total 77; always the total is the weighted tenth of the components |
| Risk.OrderIrrelevant | crates/core/mesh/src/identity/risk.rs:89-124 | at a fixed time the whole score is the same for every order of the signals |
| Risk.OneSignal | crates/core/mesh/src/identity/risk.rs:104-112 | a new signal never raises the score, and one with value in [0,1] lowers it by at most 6 |
| Risk.ScoreAtMost77 | crates/core/mesh/src/identity/risk.rs:99-112 | the score is at most 77, and 77 with no recent signal |
| Risk.ScoreRecovers | crates/core/mesh/src/identity/risk.rs:92-96 | with no new signals, time never lowers the score |
| Risk.ReductionOrdered | crates/core/mesh/src/identity/risk.rs:26-34 | a larger value and no lesser severity reduce at least as much |
| Risk.LowerFollowsSum | crates/core/mesh/src/identity/risk.rs:104-110 | saturating subtractions one by one come to the base less the sum of the recent reductions, or zero |
| Risk.CalculateScore | crates/core/mesh/src/identity/risk.rs:89-124 | the loop computes the closed form of every component, the total and both counts |
| Risk.RiskScorer.AddSignal | crates/core/mesh/src/identity/risk.rs:73-80 | the signal is appended and the cached score is the closed form, not above the one without it |
| Risk.RiskScorer.Recalculate | crates/core/mesh/src/identity/risk.rs:82-87 | the cached score becomes the closed form at this time |

## Left out

- HTTP, gRPC, CLI, WebSocket and mTLS plumbing, the authentication of requests, SIEM export, build scripts: around the modelled state.
- SHA-256, Ed25519, Argon2, XChaCha20 and Base64 themselves: parameters with the stated assumptions.
- LogRecovery.FileActionLog.AppendRecord: does not model torn lines, a failing line write or flush, or a poisoned lock; a line is one step. The byte offset kept in the checkpoint is not modelled: the file is opened in append mode, so the seek at opening does not move writes.
- Registry.FileAgentRegistry.AppendToFile: the two writes of a line and its newline are one step, so a line without its newline does not occur.
- Execute.SeparationOfDuty: covers requests of execute_action as readers; the gateway, which decides before its upstream call and logs after it, appears as another writer of permitted records.
- The gateway's policy enforcer and its tool table: the gateway builds it with no registered tools, so its decisions follow from one branch.
- CircuitBreaker.CircuitBreaker.RecordFailure: the counter wraps as in a release build; a debug build panics at the overflow instead.
- Risk.CalculateScore: reals instead of f64, so rounding and NaN are not modelled; filtering recent signals and folding them are one pass.
- StateStore.StatelessKernel.Execute: the write-back of a state update is not modelled, because the source's placeholder action never returns one; context history and metadata are carried unchanged and left out.
- WatchShadows.MissedExactly: the channel keeps at least the 100 events it is made for; how many more it keeps is left open.
- LogRecovery.FileActionLog.OpenLog: does not model a log file that cannot be opened or seeked.
- Enrollment.ShadowsAreUnregisteredIff: covers one run of the daemon; a restart empties discovery and keeps the registry.
- EscalationManager's listing of pending requests, and the export after each decision: they change nothing modelled.
- Stubs (saga orchestrator, lifecycle manager, delegation, key rotation), the namespace manager, whose rule list has no writer, key stores, policy stores and enum conversions: easy members or no state of interest.
