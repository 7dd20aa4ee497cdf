/**
 * The action log over whole runs: appends, failed checkpoint writes, crashes and reopenings.
 * Source: FileActionLog::open and FileActionLog::append of crates/ext/compliance/src/lib.rs.
 */
module LogRecovery {
  import opened Common
  import opened Audit
  import opened ActionLog

  // Unreadable: the file exists and is not text. Unparsable: text that is not a checkpoint.
  datatype CheckpointFile = Absent | Unreadable | Unparsable | Checkpoint(lastHash: string)

  // Down: no process holds the log. Up: a process holds it, with this hash in memory.
  datatype Session = Down | Up(lastHash: string)

  datatype State = State(log: seq<ActionLogRecord>, checkpoint: CheckpointFile, session: Session)

  datatype Event =
    | Open
    | Append(record: ActionLogRecord)                                    // line, then hash, then checkpoint
    | AppendUncheckpointed(record: ActionLogRecord, left: CheckpointFile) // checkpoint write fails, leaving left
    | CrashInAppend(record: ActionLogRecord, left: CheckpointFile)        // process dies after the line is flushed
    | Crash
    | Query                                                               // verify, history or replay: reads only

  const INITIAL: State := State([], Absent, Down)

  function Loaded(c: CheckpointFile): Option<string> {
    match c
    case Absent => Some(GENESIS)
    case Unreadable => None
    case Unparsable => Some(GENESIS)
    case Checkpoint(h) => Some(h)
  }

  predicate Appends(e: Event) {
    e.Append? || e.AppendUncheckpointed? || e.CrashInAppend?
  }

  function Step(sha: Sha, s: State, e: Event): State {
    match e
    case Open =>
      s.(session := match Loaded(s.checkpoint) case None => Down case Some(h) => Up(h))
    case Append(r) =>
      if s.session.Down? then s
      else
        var h := ComputeHash(sha, r);
        State(s.log + [r.(prevHash := s.session.lastHash)], Checkpoint(h), Up(h))
    case AppendUncheckpointed(r, left) =>
      if s.session.Down? then s
      else State(s.log + [r.(prevHash := s.session.lastHash)], left, Up(ComputeHash(sha, r)))
    case CrashInAppend(r, left) =>
      if s.session.Down? then s
      else State(s.log + [r.(prevHash := s.session.lastHash)], left, Down)
    case Crash => s.(session := Down)
    case Query => s
  }

  function Exec(sha: Sha, evs: seq<Event>): State {
    if evs == [] then INITIAL else Step(sha, Exec(sha, Init(evs)), Last(evs))
  }

  /** Event k opens the log and loads a hash that is not the hash of the log's last record. */
  predicate StaleOpen(sha: Sha, evs: seq<Event>, k: nat) {
    && k < |evs| && evs[k].Open?
    && var s := Exec(sha, evs[..k]);
    && Loaded(s.checkpoint).Some? && Loaded(s.checkpoint).value != Tail(sha, s.log)
  }

  /** Event j is the first to append after event k, with nothing but reads between them. */
  predicate FirstAppendAfter(evs: seq<Event>, k: nat, j: nat) {
    k < j < |evs| && Appends(evs[j]) && forall m | k < m < j :: evs[m].Query?
  }

  /** Record i is the first appended after a stale opening. */
  ghost predicate AppendedAfterStaleOpen(sha: Sha, evs: seq<Event>, i: nat) {
    exists k: nat, j: nat :: FirstAppendAfter(evs, k, j) && StaleOpen(sha, evs, k) && |Exec(sha, evs[..j]).log| == i
  }

  /** The process now holding the log opened it stale and has not appended yet. */
  ghost predicate StalePending(sha: Sha, evs: seq<Event>) {
    exists k: nat | k < |evs| :: StaleOpen(sha, evs, k) && forall m | k < m < |evs| :: evs[m].Query?
  }

  lemma StaleOpenOfInit(sha: Sha, evs: seq<Event>, k: nat)
    requires k + 1 < |evs|
    ensures StaleOpen(sha, Init(evs), k) <==> StaleOpen(sha, evs, k)
  {
    PrefixOfInit(evs, k);
  }

  lemma StalePendingStep(sha: Sha, evs: seq<Event>)
    requires evs != []
    ensures StalePending(sha, evs) <==>
            match Last(evs)
            case Open => StaleOpen(sha, evs, |evs| - 1)
            case Query => StalePending(sha, Init(evs))
            case _ => false
  {
    var p, n := Init(evs), |evs| - 1;
    match Last(evs) {
      case Query =>
        if StalePending(sha, p) {
          var k: nat :| k < |p| && StaleOpen(sha, p, k) && forall m | k < m < |p| :: p[m].Query?;
          StaleOpenOfInit(sha, evs, k);
          assert forall m | k < m < |evs| :: m < n ==> evs[m] == p[m];
        }
        if StalePending(sha, evs) {
          var k: nat :| k < |evs| && StaleOpen(sha, evs, k) && forall m | k < m < |evs| :: evs[m].Query?;
          StaleOpenOfInit(sha, evs, k);
          assert forall m | k < m < |p| :: p[m] == evs[m];
        }
      case _ =>
        assert evs[n] == Last(evs);
    }
  }

  /** The hash in memory is wrong exactly while a stale opening waits for its first append. */
  lemma {:induction false} SessionHash(sha: Sha, evs: seq<Event>)
    ensures var s := Exec(sha, evs);
            s.session.Up? ==> (s.session.lastHash != Tail(sha, s.log) <==> StalePending(sha, evs))
  {
    if evs != [] {
      SessionHash(sha, Init(evs));
      StalePendingStep(sha, evs);
      assert evs[..|evs| - 1] == Init(evs);
    }
  }

  lemma AppendedAfterStaleGrows(sha: Sha, evs: seq<Event>, i: nat)
    requires evs != [] && AppendedAfterStaleOpen(sha, Init(evs), i)
    ensures AppendedAfterStaleOpen(sha, evs, i)
  {
    var p := Init(evs);
    var k: nat, j: nat :|
      FirstAppendAfter(p, k, j) && StaleOpen(sha, p, k) && |Exec(sha, p[..j]).log| == i;
    StaleOpenOfInit(sha, evs, k);
    PrefixOfInit(evs, j);
    assert forall m | k <= m <= j :: evs[m] == p[m];
    assert FirstAppendAfter(evs, k, j);
  }

  lemma AppendedAfterPending(sha: Sha, evs: seq<Event>)
    requires evs != [] && Appends(Last(evs)) && StalePending(sha, Init(evs))
    ensures AppendedAfterStaleOpen(sha, evs, |Exec(sha, Init(evs)).log|)
  {
    var p, n := Init(evs), |evs| - 1;
    var k: nat :| k < |p| && StaleOpen(sha, p, k) && forall m | k < m < |p| :: p[m].Query?;
    StaleOpenOfInit(sha, evs, k);
    assert forall m | k < m < n :: evs[m] == p[m];
    assert evs[..n] == p;
    assert FirstAppendAfter(evs, k, n);
  }

  lemma AppendedAfterStaleSplits(sha: Sha, evs: seq<Event>, i: nat)
    requires evs != [] && AppendedAfterStaleOpen(sha, evs, i)
    ensures || AppendedAfterStaleOpen(sha, Init(evs), i)
            || (Appends(Last(evs)) && StalePending(sha, Init(evs)) && |Exec(sha, Init(evs)).log| == i)
  {
    var p, n := Init(evs), |evs| - 1;
    var k: nat, j: nat :|
      FirstAppendAfter(evs, k, j) && StaleOpen(sha, evs, k) && |Exec(sha, evs[..j]).log| == i;
    StaleOpenOfInit(sha, evs, k);
    assert forall m | k < m < j :: p[m] == evs[m];
    if j < n {
      PrefixOfInit(evs, j);
      assert p[j] == evs[j];
      assert FirstAppendAfter(p, k, j);
    } else {
      assert evs[..j] == p;
      assert StalePending(sha, p);
    }
  }

  /** A stale opening that still waits for its first append left the log open. */
  lemma {:induction false} StaleStaysOpen(sha: Sha, evs: seq<Event>)
    requires StalePending(sha, evs)
    ensures Exec(sha, evs).session.Up?
  {
    StalePendingStep(sha, evs);
    assert evs[..|evs| - 1] == Init(evs);
    if Last(evs).Query? {
      StaleStaysOpen(sha, Init(evs));
    }
  }

  lemma AppendKeepsEarlierLinks(sha: Sha, log: seq<ActionLogRecord>, r: ActionLogRecord, i: nat)
    ensures BrokenAt(sha, log + [r], i) <==>
            BrokenAt(sha, log, i) || (i == |log| && r.prevHash != Tail(sha, log))
  {
  }

  /** A step breaks a link only by appending while a stale opening waits for its first append. */
  lemma BrokenStep(sha: Sha, evs: seq<Event>, i: nat)
    requires evs != []
    ensures BrokenAt(sha, Exec(sha, evs).log, i) <==>
            || BrokenAt(sha, Exec(sha, Init(evs)).log, i)
            || (Appends(Last(evs)) && StalePending(sha, Init(evs)) && |Exec(sha, Init(evs)).log| == i)
  {
    var s, e := Exec(sha, Init(evs)), Last(evs);
    SessionHash(sha, Init(evs));
    if s.session.Up? && Appends(e) {
      AppendKeepsEarlierLinks(sha, s.log, e.record.(prevHash := s.session.lastHash), i);
    }
    if StalePending(sha, Init(evs)) {
      StaleStaysOpen(sha, Init(evs));
    }
  }

  lemma StaleStep(sha: Sha, evs: seq<Event>, i: nat)
    requires evs != []
    ensures AppendedAfterStaleOpen(sha, evs, i) <==>
            || AppendedAfterStaleOpen(sha, Init(evs), i)
            || (Appends(Last(evs)) && StalePending(sha, Init(evs)) && |Exec(sha, Init(evs)).log| == i)
  {
    if AppendedAfterStaleOpen(sha, Init(evs), i) {
      AppendedAfterStaleGrows(sha, evs, i);
    }
    if AppendedAfterStaleOpen(sha, evs, i) {
      AppendedAfterStaleSplits(sha, evs, i);
    }
    if Appends(Last(evs)) && StalePending(sha, Init(evs)) {
      AppendedAfterPending(sha, evs);
    }
  }

  /**
   * Crash recovery, exactly. Over every run of appends, failed checkpoint writes, crashes (in the
   * window between flush and checkpoint write or elsewhere, leaving any checkpoint file behind) and
   * reopenings, verification reports record i if and only if record i was the first one appended
   * after an opening that loaded a hash other than that of the log's last record.
   */
  lemma {:induction false} BrokenExactlyAfterStaleOpen(sha: Sha, evs: seq<Event>, i: nat)
    ensures BrokenAt(sha, Exec(sha, evs).log, i) <==> AppendedAfterStaleOpen(sha, evs, i)
  {
    if evs != [] {
      BrokenExactlyAfterStaleOpen(sha, Init(evs), i);
      BrokenStep(sha, evs, i);
      StaleStep(sha, evs, i);
    }
  }

  /** The log verifies clean exactly when no stale opening was followed by an append. */
  lemma CleanIff(sha: Sha, evs: seq<Event>)
    ensures Verdict(sha, Exec(sha, evs).log) == [] <==>
            forall k: nat, j: nat :: FirstAppendAfter(evs, k, j) ==> !StaleOpen(sha, evs, k)
  {
    var log := Exec(sha, evs).log;
    CleanMeansUnbroken(sha, log);
    if Verdict(sha, log) == [] {
      forall k: nat, j: nat | FirstAppendAfter(evs, k, j) ensures !StaleOpen(sha, evs, k) {
        var i := |Exec(sha, evs[..j]).log|;
        BrokenExactlyAfterStaleOpen(sha, evs, i);
      }
    } else {
      var i: nat :| BrokenAt(sha, log, i);
      BrokenExactlyAfterStaleOpen(sha, evs, i);
    }
  }

  // ---- Counting ----

  function StaleOpens(sha: Sha, evs: seq<Event>): set<nat> {
    set k: nat | k < |evs| && StaleOpen(sha, evs, k)
  }

  lemma StaleOpensStep(sha: Sha, evs: seq<Event>)
    requires evs != []
    ensures |StaleOpens(sha, evs)|
            == |StaleOpens(sha, Init(evs))| + if StaleOpen(sha, evs, |evs| - 1) then 1 else 0
  {
    StaleOpensOfInit(sha, evs);
  }

  lemma StaleOpensOfInit(sha: Sha, evs: seq<Event>)
    requires evs != []
    ensures StaleOpens(sha, evs)
            == StaleOpens(sha, Init(evs)) + if StaleOpen(sha, evs, |evs| - 1) then {|evs| - 1} else {}
  {
    forall k: nat ensures k in StaleOpens(sha, evs) <==>
                            k in StaleOpens(sha, Init(evs)) || (k == |evs| - 1 && StaleOpen(sha, evs, k))
    {
      if k < |evs| - 1 {
        StaleOpenOfInit(sha, evs, k);
      }
    }
  }

  /** Violations never outnumber the stale openings. */
  lemma {:induction false} ViolationsBoundedByStaleOpens(sha: Sha, evs: seq<Event>)
    ensures var s := Exec(sha, evs);
            |Verdict(sha, s.log)| + (if s.session.Up? && s.session.lastHash != Tail(sha, s.log) then 1 else 0)
            <= |StaleOpens(sha, evs)|
  {
    if evs != [] {
      StaleOpensStep(sha, evs);
      var s, e := Exec(sha, Init(evs)), Last(evs);
      ViolationsBoundedByStaleOpens(sha, Init(evs));
      assert evs[..|evs| - 1] == Init(evs);
      if s.session.Up? && Appends(e) {
        VerdictOfSnoc(sha, s.log, e.record.(prevHash := s.session.lastHash));
      }
    }
  }

  // ---- When recovery is safe, and when it is not ----

  /** No append of the run is cut short between its line and its checkpoint. */
  predicate EveryCheckpointWritten(evs: seq<Event>) {
    forall i | 0 <= i < |evs| :: !evs[i].AppendUncheckpointed? && !evs[i].CrashInAppend?
  }

  lemma {:induction false} CheckpointFollowsLog(sha: Sha, evs: seq<Event>)
    requires EveryCheckpointWritten(evs)
    ensures Loaded(Exec(sha, evs).checkpoint) == Some(Tail(sha, Exec(sha, evs).log))
  {
    if evs != [] {
      assert EveryCheckpointWritten(Init(evs)) by {
        assert forall i | 0 <= i < |Init(evs)| :: Init(evs)[i] == evs[i];
      }
      CheckpointFollowsLog(sha, Init(evs));
    }
  }

  /** With every checkpoint written, crashes and reopenings at any other moments leave the chain whole. */
  lemma CleanWhenCheckpointed(sha: Sha, evs: seq<Event>)
    requires forall i | 0 <= i < |evs| :: evs[i].Open? || evs[i].Append? || evs[i].Crash? || evs[i].Query?
    ensures Verdict(sha, Exec(sha, evs).log) == []
  {
    forall k: nat, j: nat | FirstAppendAfter(evs, k, j) ensures !StaleOpen(sha, evs, k) {
      assert EveryCheckpointWritten(evs[..k]);
      CheckpointFollowsLog(sha, evs[..k]);
    }
    CleanIff(sha, evs);
  }

  /** Within one session checkpoint writes may all fail: the chain stays whole. */
  lemma CleanWithinOneSession(sha: Sha, evs: seq<Event>)
    requires forall k | 0 < k < |evs| :: !evs[k].Open?
    ensures Verdict(sha, Exec(sha, evs).log) == []
  {
    forall k: nat, j: nat | FirstAppendAfter(evs, k, j) ensures !StaleOpen(sha, evs, k) {
      if k == 0 {
        assert evs[..k] == [];
      }
    }
    CleanIff(sha, evs);
  }

  /**
   * The recovery window is real: killed between the flush of the first line and its checkpoint,
   * reopened and appended to once, the log fails verification at index 1.
   */
  lemma CrashWindowBreaksChain(sha: Sha, r1: ActionLogRecord, r2: ActionLogRecord)
    requires CollisionFree(sha)
    ensures var evs := [Open, CrashInAppend(r1, Absent), Open, Append(r2)];
            var first := HashableRecord(r1.recordId, r1.agentDid, r1.action, r1.resourceCategory, r1.timestamp, r1.outcome);
            Verdict(sha, Exec(sha, evs).log) == [ChainViolation(1, r2.recordId, sha(first), "genesis")]
  {
    var evs := [Open, CrashInAppend(r1, Absent), Open, Append(r2)];
    assert Init(evs) == [Open, CrashInAppend(r1, Absent), Open];
    assert Init(Init(evs)) == [Open, CrashInAppend(r1, Absent)];
    assert Init(Init(Init(evs))) == [Open];
    assert Exec(sha, [Open]) == State([], Absent, Up(GENESIS));
    var first := r1.(prevHash := GENESIS);
    assert Exec(sha, Init(evs)) == State([first], Absent, Up(GENESIS));
    var log := Exec(sha, evs).log;
    assert log == [first, r2.(prevHash := GENESIS)];
    assert sha(CanonicalBytes(first)) != GENESIS;
    assert Init(log) == [first] && Init([first]) == [];
    assert Verdict(sha, [first]) == [];
  }

  // ---- The log object, over the files it shares with later processes ----

  class Disk {
    var lines: seq<Line>
    var checkpoint: CheckpointFile

    constructor ()
      ensures lines == [] && checkpoint == Absent
    {
      lines, checkpoint := [], Absent;
    }
  }

  // How the last step of an append, writing the checkpoint file, turns out.
  datatype CheckpointWrite = Written | Failed(left: CheckpointFile)

  class FileActionLog {
    const sha: Sha
    const disk: Disk
    var lastHash: string

    ghost function Abstract(): State
      reads this, disk
      requires WellFormed(disk.lines)
    {
      State(Records(disk.lines), disk.checkpoint, Up(lastHash))
    }

    constructor (sha: Sha, disk: Disk, lastHash: string)
      ensures this.sha == sha && this.disk == disk && this.lastHash == lastHash
    {
      this.sha, this.disk, this.lastHash := sha, disk, lastHash;
    }

    /** Opens the log from its files; only an unreadable checkpoint file makes this fail. */
    static method OpenLog(sha: Sha, disk: Disk) returns (r: Result<FileActionLog, string>)
      ensures r.Ok? <==> !disk.checkpoint.Unreadable?
      ensures r.Ok? ==> fresh(r.value) && r.value.sha == sha && r.value.disk == disk
      ensures r.Ok? ==> r.value.lastHash == if disk.checkpoint.Checkpoint? then disk.checkpoint.lastHash else "genesis"
      ensures r.Ok? && WellFormed(disk.lines) ==>
                forall before: Session ::
                  r.value.Abstract() == Step(sha, State(Records(disk.lines), disk.checkpoint, before), Open)
    {
      var last := GENESIS;
      if !disk.checkpoint.Absent? {
        if disk.checkpoint.Unreadable? {
          return Err("stream did not contain valid UTF-8");
        }
        if disk.checkpoint.Checkpoint? {
          last := disk.checkpoint.lastHash;
        }
      }
      var log := new FileActionLog(sha, disk, last);
      return Ok(log);
    }

    method AppendRecord(record: ActionLogRecord, io: CheckpointWrite) returns (r: Result<(), string>)
      modifies this, disk
      ensures r.Ok? <==> io.Written?
      ensures disk.lines == old(disk.lines) + [Entry(record.(prevHash := old(lastHash)))]
      ensures lastHash == sha(HashableRecord(record.recordId, record.agentDid, record.action, record.resourceCategory,
                                             record.timestamp, record.outcome))
      ensures disk.checkpoint == match io case Written => Checkpoint(lastHash) case Failed(left) => left
      ensures old(WellFormed(disk.lines)) ==>
                && WellFormed(disk.lines)
                && Abstract() == Step(sha, old(Abstract()),
                                      match io
                                      case Written => Append(record)
                                      case Failed(left) => AppendUncheckpointed(record, left))
    {
      var stamped := record.(prevHash := lastHash);
      disk.lines := disk.lines + [Entry(stamped)];
      lastHash := ComputeHash(sha, stamped);
      match io {
        case Written =>
          disk.checkpoint := Checkpoint(lastHash);
          r := Ok(());
        case Failed(left) =>
          disk.checkpoint := left;
          r := Err("checkpoint write failed");
      }
    }

    method VerifyChain() returns (r: Result<seq<ChainViolation>, string>)
      ensures r.Ok? <==> WellFormed(disk.lines)
      ensures r.Ok? ==> r.value == Verdict(sha, Records(disk.lines))
      ensures r.Ok? ==> forall i: nat | i < |disk.lines| :: ReportsAt(sha, Records(disk.lines), r.value, i)
    {
      var violations: seq<ChainViolation> := [];
      var expected := GENESIS;
      var index := 0;
      while index < |disk.lines|
        invariant 0 <= index <= |disk.lines|
        invariant WellFormed(disk.lines[..index])
        invariant expected == Tail(sha, Records(disk.lines[..index]))
        invariant violations == Verdict(sha, Records(disk.lines[..index]))
      {
        var line := disk.lines[index];
        if line.Malformed? {
          return Err("malformed line");
        }
        var record := line.record;
        ExtendRecords(disk.lines, index);
        if record.prevHash != expected {
          violations := violations + [ChainViolation(index, record.recordId, expected, record.prevHash)];
        }
        expected := ComputeHash(sha, record);
        index := index + 1;
      }
      assert disk.lines[..index] == disk.lines;
      VerdictReports(sha, Records(disk.lines));
      return Ok(violations);
    }

    method LoadHistory(did: string) returns (r: Result<seq<ActionRecord>, string>)
      ensures r.Ok? <==> WellFormed(disk.lines)
      ensures r.Ok? ==> r.value == History(Records(disk.lines), did)
    {
      var history: seq<ActionRecord> := [];
      for i := 0 to |disk.lines|
        invariant WellFormed(disk.lines[..i])
        invariant history == History(Records(disk.lines[..i]), did)
      {
        if disk.lines[i].Malformed? {
          return Err("malformed line");
        }
        var record := disk.lines[i].record;
        ExtendRecords(disk.lines, i);
        if record.agentDid == did && record.outcome.Permitted? {
          history := history + [ActionRecord(record.action, record.timestamp, record.resourceCategory)];
        }
      }
      assert disk.lines[..|disk.lines|] == disk.lines;
      return Ok(history);
    }

    method ReplaySince(since: int) returns (r: Result<seq<ActionLogRecord>, string>)
      ensures r.Ok? <==> WellFormed(disk.lines)
      ensures r.Ok? ==> r.value == ActionLog.Since(Records(disk.lines), since)
    {
      var records: seq<ActionLogRecord> := [];
      for i := 0 to |disk.lines|
        invariant WellFormed(disk.lines[..i])
        invariant records == ActionLog.Since(Records(disk.lines[..i]), since)
      {
        if disk.lines[i].Malformed? {
          return Err("malformed line");
        }
        ExtendRecords(disk.lines, i);
        if disk.lines[i].record.timestamp >= since {
          records := records + [disk.lines[i].record];
        }
      }
      assert disk.lines[..|disk.lines|] == disk.lines;
      return Ok(records);
    }
  }

  lemma ExtendRecords(lines: seq<Line>, i: nat)
    requires i < |lines| && WellFormed(lines[..i]) && lines[i].Entry?
    ensures WellFormed(lines[..i + 1])
    ensures Records(lines[..i + 1]) != [] && |Records(lines[..i + 1])| == i + 1
    ensures Init(Records(lines[..i + 1])) == Records(lines[..i])
    ensures Last(Records(lines[..i + 1])) == lines[i].record
    ensures Records(lines[..i + 1])[..i] == Records(lines[..i])
  {
  }
}
