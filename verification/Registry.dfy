/**
 * The agent registry: a map in memory, and a file that replays to it.
 * Source: MemoryAgentRegistry and FileAgentRegistry of crates/core/mesh/src/identity/registry.rs.
 */
module Registry {
  import opened Common
  import opened Identity
  import opened Attestation

  // One persisted registration: the identity's DID and key, and its ring.
  datatype RegistryRecord = RegistryRecord(did: AgentDID, publicKey: string, ring: PrivilegeRing)

  datatype Line = Blank | Malformed | Record(record: RegistryRecord)

  function KeyOf(r: RegistryRecord): string {
    PrintDid(r.did)
  }

  function EntryOf(r: RegistryRecord): Entry {
    Entry(r.publicKey, r.ring)
  }

  function Put(entries: map<string, Entry>, r: RegistryRecord): map<string, Entry> {
    entries[KeyOf(r) := EntryOf(r)]
  }

  // ---- Replay ----

  function Replay(records: seq<RegistryRecord>): map<string, Entry> {
    if records == [] then map[] else Put(Replay(Init(records)), Last(records))
  }

  /** Record i is the last one of its agent. */
  predicate LastOf(records: seq<RegistryRecord>, i: nat, k: string) {
    i < |records| && PrintDid(records[i].did) == k && forall j | i < j < |records| :: PrintDid(records[j].did) != k
  }

  /** Replay gives each agent the key and the ring of its last record, and holds no one else. */
  lemma {:induction false} ReplayLastWins(records: seq<RegistryRecord>, k: string, e: Entry)
    ensures Get(Replay(records), k) == Some(e) <==>
              exists i: nat :: LastOf(records, i, k) && e.publicKey == records[i].publicKey && e.ring == records[i].ring
  {
    if records != [] {
      var p, n := Init(records), |records| - 1;
      ReplayLastWins(p, k, e);
      if KeyOf(records[n]) == k {
        assert LastOf(records, n, k);
        assert forall i: nat :: LastOf(records, i, k) ==> i == n;
      } else {
        forall i: nat ensures LastOf(records, i, k) <==> LastOf(p, i, k) {
          if LastOf(p, i, k) {
            assert forall j | i < j < |records| :: j < n ==> records[j] == p[j];
          }
        }
        if i: nat :| LastOf(p, i, k) && EntryOf(p[i]) == e {
          assert LastOf(records, i, k);
        }
        if i: nat :| LastOf(records, i, k) && EntryOf(records[i]) == e {
          assert LastOf(p, i, k);
        }
      }
    }
  }

  function RecordsOf(lines: seq<Line>): seq<RegistryRecord> {
    if lines == [] then []
    else RecordsOf(Init(lines)) + if Last(lines).Record? then [Last(lines).record] else []
  }

  predicate Readable(lines: seq<Line>) {
    forall i | 0 <= i < |lines| :: !lines[i].Malformed?
  }

  // ---- Interleaved registrations: memory first, then the file ----

  datatype State = State(memory: map<string, Entry>, file: seq<RegistryRecord>, inFlight: map<nat, RegistryRecord>)

  datatype Action =
    | Begin(call: nat, record: RegistryRecord)  // the memory half of register
    | Persist(call: nat)                        // the file half, succeeding
    | PersistFails(call: nat)                   // the file half, failing without a line
    | Restart                                   // the process ends and the file is replayed

  const INITIAL: State := State(map[], [], map[])

  function Step(s: State, a: Action): State {
    match a
    case Begin(c, r) =>
      if c in s.inFlight then s else s.(memory := Put(s.memory, r), inFlight := s.inFlight[c := r])
    case Persist(c) =>
      if c !in s.inFlight then s else s.(file := s.file + [s.inFlight[c]], inFlight := s.inFlight - {c})
    case PersistFails(c) => s.(inFlight := s.inFlight - {c})
    case Restart => State(Replay(s.file), s.file, map[])
  }

  function Exec(acts: seq<Action>): State {
    if acts == [] then INITIAL else Step(Exec(Init(acts)), Last(acts))
  }

  // What the history alone says; a registration is named by the position of its Begin in the run.

  /** The registration that call c is in the middle of, or was last. */
  function BegunBy(acts: seq<Action>, c: nat): Option<nat> {
    if acts == [] then None
    else if Last(acts).Begin? && Last(acts).call == c && c !in Exec(Init(acts)).inFlight then Some(|acts| - 1)
    else BegunBy(Init(acts), c)
  }

  /** The registration of the agent whose line was persisted last. */
  function LastPersisted(acts: seq<Action>, k: string): Option<nat> {
    if acts == [] then None
    else
      var s, a := Exec(Init(acts)), Last(acts);
      if a.Persist? && a.call in s.inFlight && KeyOf(s.inFlight[a.call]) == k then BegunBy(Init(acts), a.call)
      else LastPersisted(Init(acts), k)
  }

  /** The registration of the agent begun last; a restart goes back to the one persisted last. */
  function LastBegun(acts: seq<Action>, k: string): Option<nat> {
    if acts == [] then None
    else
      var s, a := Exec(Init(acts)), Last(acts);
      if a.Begin? && a.call !in s.inFlight && KeyOf(a.record) == k then Some(|acts| - 1)
      else if a.Restart? then LastPersisted(Init(acts), k)
      else LastBegun(Init(acts), k)
  }

  predicate IsBegin(acts: seq<Action>, n: Option<nat>) {
    n.Some? ==> n.value < |acts| && acts[n.value].Begin?
  }

  /** The entry that a registration of the run carries. */
  function EntryIn(acts: seq<Action>, n: Option<nat>): Option<Entry>
    requires IsBegin(acts, n)
  {
    if n.None? then None else Some(EntryOf(acts[n.value].record))
  }

  lemma ReplaySnoc(records: seq<RegistryRecord>, r: RegistryRecord)
    ensures Replay(records + [r]) == Put(Replay(records), r)
  {
    InitOfSnoc(records, r);
  }

  lemma GetOfPut(entries: map<string, Entry>, r: RegistryRecord, k: string)
    ensures Get(Put(entries, r), k) == if KeyOf(r) == k then Some(EntryOf(r)) else Get(entries, k)
  {
  }

  lemma {:induction false} InFlightByHistory(acts: seq<Action>, c: nat)
    requires c in Exec(acts).inFlight
    ensures BegunBy(acts, c).Some? && BegunBy(acts, c).value < |acts|
    ensures acts[BegunBy(acts, c).value] == Begin(c, Exec(acts).inFlight[c])
  {
    if c in Exec(Init(acts)).inFlight {
      InFlightByHistory(Init(acts), c);
    }
  }

  lemma {:induction false} FileByHistory(acts: seq<Action>, k: string)
    ensures IsBegin(acts, LastPersisted(acts, k))
    ensures Get(Replay(Exec(acts).file), k) == EntryIn(acts, LastPersisted(acts, k))
  {
    if acts != [] {
      var s, a := Exec(Init(acts)), Last(acts);
      FileByHistory(Init(acts), k);
      if a.Persist? && a.call in s.inFlight {
        InFlightByHistory(Init(acts), a.call);
        ReplaySnoc(s.file, s.inFlight[a.call]);
        GetOfPut(Replay(s.file), s.inFlight[a.call], k);
      }
    }
  }

  lemma {:induction false} MemoryByHistory(acts: seq<Action>, k: string)
    ensures IsBegin(acts, LastBegun(acts, k))
    ensures Get(Exec(acts).memory, k) == EntryIn(acts, LastBegun(acts, k))
  {
    if acts != [] {
      var s, a := Exec(Init(acts)), Last(acts);
      MemoryByHistory(Init(acts), k);
      if a.Begin? {
        GetOfPut(s.memory, a.record, k);
      } else if a.Restart? {
        FileByHistory(Init(acts), k);
      }
    }
  }

  /** The registration begun last is the one persisted last, or carries the same entry. */
  predicate BegunLastPersistedLast(acts: seq<Action>, k: string)
    requires IsBegin(acts, LastBegun(acts, k)) && IsBegin(acts, LastPersisted(acts, k))
  {
    var begun, persisted := LastBegun(acts, k), LastPersisted(acts, k);
    || begun == persisted
    || (begun.Some? && persisted.Some? && EntryIn(acts, begun) == EntryIn(acts, persisted))
  }

  /**
   * Memory agrees with what a reopening would replay, for one agent, exactly when of its
   * registrations the one begun last is the one persisted last, or happens to carry the same entry.
   * This holds of every interleaving, overlapping registrations and failed writes included.
   */
  lemma AgreesIff(acts: seq<Action>, k: string)
    ensures IsBegin(acts, LastBegun(acts, k)) && IsBegin(acts, LastPersisted(acts, k))
    ensures Get(Exec(acts).memory, k) == Get(Replay(Exec(acts).file), k) <==> BegunLastPersistedLast(acts, k)
  {
    MemoryByHistory(acts, k);
    FileByHistory(acts, k);
  }

  // ---- One registration in flight per agent ----

  predicate Busy(s: State, k: string) {
    exists c | c in s.inFlight :: KeyOf(s.inFlight[c]) == k
  }

  predicate SerialAt(acts: seq<Action>, n: nat) {
    n < |acts| && acts[n].Begin? ==> !Busy(Exec(acts[..n]), KeyOf(acts[n].record))
  }

  ghost predicate Serial(acts: seq<Action>) {
    forall n: nat :: SerialAt(acts, n)
  }

  lemma SerialInit(acts: seq<Action>)
    requires Serial(acts) && acts != []
    ensures Serial(Init(acts))
    ensures Last(acts).Begin? ==> !Busy(Exec(Init(acts)), KeyOf(Last(acts).record))
  {
    forall n: nat ensures SerialAt(Init(acts), n) {
      assert SerialAt(acts, n);
      if n < |Init(acts)| {
        PrefixOfInit(acts, n);
      }
    }
    assert SerialAt(acts, |acts| - 1);
  }

  /** The agent's last finished registration failed to reach the file, and no restart came since. */
  predicate Unsaved(acts: seq<Action>, k: string) {
    if acts == [] then false
    else
      var s, a := Exec(Init(acts)), Last(acts);
      match a
      case Begin(_, _) => Unsaved(Init(acts), k)
      case Persist(c) => Unsaved(Init(acts), k) && !(c in s.inFlight && KeyOf(s.inFlight[c]) == k)
      case PersistFails(c) => Unsaved(Init(acts), k) || (c in s.inFlight && KeyOf(s.inFlight[c]) == k)
      case Restart => false
  }

  /** Action n ends a registration of the agent, with its line in the file or without. */
  predicate EndsAt(acts: seq<Action>, n: nat, k: string, saved: bool) {
    && n < |acts| && (if saved then acts[n].Persist? else acts[n].PersistFails?)
    && var s := Exec(acts[..n]); acts[n].call in s.inFlight && PrintDid(s.inFlight[acts[n].call].did) == k
  }

  /** Action n ends a registration of the agent without a line, and nothing has made up for it since. */
  predicate LacksSince(acts: seq<Action>, n: nat, k: string) {
    EndsAt(acts, n, k, false) && forall m | n < m < |acts| :: acts[m] != Restart && !EndsAt(acts, m, k, true)
  }

  lemma LacksSinceInit(acts: seq<Action>, n: nat, k: string)
    requires acts != [] && n < |acts| - 1
    ensures LacksSince(acts, n, k) <==>
              LacksSince(Init(acts), n, k) && Last(acts) != Restart && !EndsAt(acts, |acts| - 1, k, true)
  {
    forall m | n <= m < |acts| - 1 ensures Init(acts)[..m] == acts[..m] && Init(acts)[m] == acts[m] {
      PrefixOfInit(acts, m);
    }
    assert acts[|acts| - 1] == Last(acts);
  }

  /** An agent is unsaved exactly when a failed registration of it was not followed by a saved one or a restart. */
  lemma {:induction false} UnsavedExactly(acts: seq<Action>, k: string)
    ensures Unsaved(acts, k) <==> exists n: nat :: LacksSince(acts, n, k)
  {
    if acts != [] {
      UnsavedExactly(Init(acts), k);
      assert acts[..|acts| - 1] == Init(acts);
      if n: nat :| LacksSince(acts, n, k) && n < |acts| - 1 {
        LacksSinceInit(acts, n, k);
      }
      if n: nat :| LacksSince(Init(acts), n, k) {
        LacksSinceInit(acts, n, k);
      }
      assert EndsAt(acts, |acts| - 1, k, false) <==> LacksSince(acts, |acts| - 1, k);
    }
  }

  /** For one agent: its own in-flight entry, or else the replayed one unless its last write failed. */
  ghost predicate AgentInv(acts: seq<Action>, k: string) {
    var s := Exec(acts);
    && (forall c | c in s.inFlight && KeyOf(s.inFlight[c]) == k :: Get(s.memory, k) == Some(EntryOf(s.inFlight[c])))
    && (forall c, d | c in s.inFlight && d in s.inFlight && KeyOf(s.inFlight[c]) == KeyOf(s.inFlight[d]) == k :: c == d)
    && (!Busy(s, k) && !Unsaved(acts, k) ==> Get(s.memory, k) == Get(Replay(s.file), k))
  }

  lemma AgentInvPersist(acts: seq<Action>, k: string)
    requires acts != [] && Last(acts).Persist? && AgentInv(Init(acts), k)
    ensures AgentInv(acts, k)
  {
    var s, t, c := Exec(Init(acts)), Exec(acts), Last(acts).call;
    if c in s.inFlight {
      ReplaySnoc(s.file, s.inFlight[c]);
      if KeyOf(s.inFlight[c]) != k && Busy(s, k) {
        var d :| d in s.inFlight && KeyOf(s.inFlight[d]) == k;
        assert d in t.inFlight && KeyOf(t.inFlight[d]) == k;
      }
    }
  }

  lemma AgentInvFails(acts: seq<Action>, k: string)
    requires acts != [] && Last(acts).PersistFails? && AgentInv(Init(acts), k)
    ensures AgentInv(acts, k)
  {
    var s, t, c := Exec(Init(acts)), Exec(acts), Last(acts).call;
    if Busy(s, k) && !(c in s.inFlight && KeyOf(s.inFlight[c]) == k) {
      var d :| d in s.inFlight && KeyOf(s.inFlight[d]) == k;
      assert d in t.inFlight && KeyOf(t.inFlight[d]) == k;
    }
  }

  lemma AgentInvBegin(acts: seq<Action>, k: string)
    requires acts != [] && Last(acts).Begin? && AgentInv(Init(acts), k)
    requires !Busy(Exec(Init(acts)), KeyOf(Last(acts).record))
    ensures AgentInv(acts, k)
  {
    var s, t, a := Exec(Init(acts)), Exec(acts), Last(acts);
    if a.call !in s.inFlight {
      if KeyOf(a.record) == k {
        assert t.inFlight[a.call] == a.record && Busy(t, k);
      } else if Busy(s, k) {
        var d :| d in s.inFlight && KeyOf(s.inFlight[d]) == k;
        assert t.inFlight[d] == s.inFlight[d];
      }
    }
  }

  lemma {:induction false} AgentInvAlways(acts: seq<Action>, k: string)
    requires Serial(acts)
    ensures AgentInv(acts, k)
  {
    if acts != [] {
      SerialInit(acts);
      AgentInvAlways(Init(acts), k);
      match Last(acts) {
        case Begin(_, _) => AgentInvBegin(acts, k);
        case Persist(_) => AgentInvPersist(acts, k);
        case PersistFails(_) => AgentInvFails(acts, k);
        case Restart =>
      }
    }
  }

  /**
   * With no two registrations of one agent overlapping, each agent's memory entry is its in-flight
   * one, or else the one a reopening would replay, unless its own last write failed; other agents'
   * failures do not matter.
   */
  lemma MemoryAgreesWithReplay(acts: seq<Action>, k: string)
    requires forall n: nat | n < |acts| && acts[n].Begin? ::
               forall c | c in Exec(acts[..n]).inFlight ::
                 PrintDid(Exec(acts[..n]).inFlight[c].did) != PrintDid(acts[n].record.did)
    ensures var s := Exec(acts);
            && (forall c | c in s.inFlight && PrintDid(s.inFlight[c].did) == k ::
                  Get(s.memory, k) == Some(Entry(s.inFlight[c].publicKey, s.inFlight[c].ring)))
            && (!Busy(s, k) && !Unsaved(acts, k) ==> Get(s.memory, k) == Get(Replay(s.file), k))
  {
    assert forall n: nat :: SerialAt(acts, n);
    AgentInvAlways(acts, k);
  }

  /** At rest, with no failed write outstanding, reopening the file yields the identical map. */
  lemma ReopeningIsIdentity(acts: seq<Action>)
    requires Serial(acts) && Exec(acts).inFlight == map[]
    requires forall k :: !Unsaved(acts, k)
    ensures Replay(Exec(acts).file) == Exec(acts).memory
  {
    var s := Exec(acts);
    forall k ensures Get(s.memory, k) == Get(Replay(s.file), k) {
      AgentInvAlways(acts, k);
    }
    var m := Replay(s.file);
    forall k ensures (k in m <==> k in s.memory) && (k in m ==> m[k] == s.memory[k]) {
      assert Get(s.memory, k) == Get(m, k);
    }
  }

  /** Overlapping registrations of one agent can reach the file in the other order than memory. */
  lemma OverlapDiverges(r1: RegistryRecord, r2: RegistryRecord)
    requires r1.did == r2.did && (r1.publicKey != r2.publicKey || r1.ring != r2.ring)
    ensures var s := Exec([Begin(1, r1), Begin(2, r2), Persist(2), Persist(1)]);
            s.inFlight == map[] && Replay(s.file) != s.memory
  {
    var a1, a2, a3 := [Begin(1, r1)], [Begin(1, r1), Begin(2, r2)], [Begin(1, r1), Begin(2, r2), Persist(2)];
    var acts := [Begin(1, r1), Begin(2, r2), Persist(2), Persist(1)];
    assert Init(acts) == a3 && Init(a3) == a2 && Init(a2) == a1 && Init(a1) == [];
    assert Exec([]) == INITIAL && Exec(a1) == State(Put(map[], r1), [], map[1 := r1]);
    assert Exec(a2) == State(Put(Put(map[], r1), r2), [], map[1 := r1, 2 := r2]);
    assert Exec(acts) == State(Put(Put(map[], r1), r2), [r2, r1], map[]);
    ReplaySnoc([r2], r1);
    assert [r2] + [r1] == [r2, r1];
    assert Get(Exec(acts).memory, KeyOf(r1)) == Some(EntryOf(r2));
    assert Get(Replay([r2, r1]), KeyOf(r1)) == Some(EntryOf(r1));
  }

  // ---- The registry objects ----

  class RegistryFile {
    var lines: seq<Line>

    constructor ()
      ensures lines == []
    {
      lines := [];
    }
  }

  /** The map holds this entry for the agent if and only if it is the key and the ring of the agent's last record. */
  predicate HoldsLast(records: seq<RegistryRecord>, entries: map<string, Entry>, k: string, e: Entry) {
    Get(entries, k) == Some(e) <==>
      exists i: nat | i < |records| :: LastOf(records, i, k) && e == Entry(records[i].publicKey, records[i].ring)
  }

  class FileAgentRegistry {
    const crypto: Crypto
    const issuer: Issuer
    const file: RegistryFile
    var entries: map<string, Entry>

    constructor (crypto: Crypto, issuer: Issuer, file: RegistryFile, entries: map<string, Entry>)
      ensures this.crypto == crypto && this.issuer == issuer && this.file == file && this.entries == entries
    {
      this.crypto, this.issuer, this.file, this.entries := crypto, issuer, file, entries;
    }

    /** Replays the file, skipping blank lines; a malformed line makes opening fail. */
    static method Open(crypto: Crypto, issuer: Issuer, file: RegistryFile) returns (r: Result<FileAgentRegistry, string>)
      ensures r.Ok? <==> Readable(file.lines)
      ensures r.Ok? ==> fresh(r.value) && r.value.crypto == crypto && r.value.issuer == issuer && r.value.file == file
      ensures r.Ok? ==> r.value.entries == Replay(RecordsOf(file.lines))
      ensures r.Ok? ==> forall k, e :: HoldsLast(RecordsOf(file.lines), r.value.entries, k, e)
    {
      var entries: map<string, Entry> := map[];
      for i := 0 to |file.lines|
        invariant Readable(file.lines[..i])
        invariant entries == Replay(RecordsOf(file.lines[..i]))
      {
        var line := file.lines[i];
        assert Init(file.lines[..i + 1]) == file.lines[..i] && Last(file.lines[..i + 1]) == line;
        if !line.Record? {
          assert RecordsOf(file.lines[..i + 1]) == RecordsOf(file.lines[..i]) + [] == RecordsOf(file.lines[..i]);
        }
        if line.Blank? {
          continue;
        }
        if line.Malformed? {
          return Err("malformed line");
        }
        ReplaySnoc(RecordsOf(file.lines[..i]), line.record);
        entries := entries[PrintDid(line.record.did) := Entry(line.record.publicKey, line.record.ring)];
      }
      assert file.lines[..|file.lines|] == file.lines;
      forall k, e ensures HoldsLast(RecordsOf(file.lines), entries, k, e) {
        ReplayLastWins(RecordsOf(file.lines), k, e);
      }
      var registry := new FileAgentRegistry(crypto, issuer, file, entries);
      return Ok(registry);
    }

    method RegisterInMemory(r: RegistryRecord)
      modifies this
      ensures entries == old(entries)[PrintDid(r.did) := Entry(r.publicKey, r.ring)]
    {
      entries := entries[PrintDid(r.did) := Entry(r.publicKey, r.ring)];
    }

    /** works: whether the append to the file succeeds. */
    method AppendToFile(r: RegistryRecord, works: bool) returns (ok: Result<(), string>)
      modifies file
      ensures ok.Ok? <==> works
      ensures file.lines == if works then old(file.lines) + [Record(r)] else old(file.lines)
    {
      if !works {
        return Err("append failed");
      }
      file.lines := file.lines + [Record(r)];
      return Ok(());
    }

    /**
     * The registration as the two steps it takes, memory and file; one that works keeps what a
     * reopening would replay equal to memory.
     */
    method Register(r: RegistryRecord, works: bool) returns (ok: Result<(), string>)
      modifies this, file
      ensures ok.Ok? <==> works
      ensures entries == old(entries)[PrintDid(r.did) := Entry(r.publicKey, r.ring)]
      ensures State(entries, RecordsOf(file.lines), map[])
              == Step(Step(State(old(entries), old(RecordsOf(file.lines)), map[]), Begin(0, r)),
                      if works then Persist(0) else PersistFails(0))
      ensures RecordsOf(file.lines) == old(RecordsOf(file.lines)) + if works then [r] else []
      ensures works && old(entries == Replay(RecordsOf(file.lines))) ==> entries == Replay(RecordsOf(file.lines))
    {
      RegisterInMemory(r);
      ok := AppendToFile(r, works);
      if works {
        InitOfSnoc(old(file.lines), Record(r));
        ReplaySnoc(RecordsOf(old(file.lines)), r);
      }
    }

    method GetAttestation(did: string, issuedAt: int, readAgainAt: int) returns (a: Option<SignedAttestation>)
      ensures a.Some? <==> did in entries
      ensures a.Some? ==>
                && a.value.claim.subjectDid == did && a.value.claim.publicKey == entries[did].publicKey
                && a.value.claim.issuedAt == issuedAt && a.value.claim.expiresAt == readAgainAt + 86_400_000_000_000
                && a.value.registryDid == issuer.did
                && a.value.signature == issuer.sign(crypto.claimBytes(a.value.claim))
      ensures a == Issue(crypto, issuer, entries, did, issuedAt, readAgainAt)
    {
      if did !in entries {
        return None;
      }
      var claim := AttestationClaim(did, entries[did].publicKey, issuedAt, readAgainAt + VALIDITY);
      return Some(SignedAttestation(claim, issuer.did, issuer.sign(crypto.claimBytes(claim))));
    }
  }
}
