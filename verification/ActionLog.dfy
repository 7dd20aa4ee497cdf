/**
 * The hash-chained action log: its chain verdict, its file, its checkpoint.
 * Source: FileActionLog of crates/ext/compliance/src/lib.rs.
 */
module ActionLog {
  import opened Common
  import opened Audit

  datatype ChainViolation = ChainViolation(
    index: nat, recordId: string, expectedPrevHash: string, actualPrevHash: string)

  // ---- The chain and its verdict ----

  /** What the link of record i, or of a record appended when i is the length, ought to be. */
  function Expected(sha: Sha, log: seq<ActionLogRecord>, i: nat): string
    requires i <= |log|
  {
    if i == 0 then GENESIS else ComputeHash(sha, log[i - 1])
  }

  function Tail(sha: Sha, log: seq<ActionLogRecord>): string {
    Expected(sha, log, |log|)
  }

  predicate BrokenAt(sha: Sha, log: seq<ActionLogRecord>, i: nat) {
    i < |log| && log[i].prevHash != Expected(sha, log, i)
  }

  function ViolationAt(sha: Sha, log: seq<ActionLogRecord>, i: nat): ChainViolation
    requires i < |log|
  {
    ChainViolation(i, log[i].recordId, Expected(sha, log, i), log[i].prevHash)
  }

  /** The violations of every proper prefix of the log, then the last record's, if it is one. */
  function Verdict(sha: Sha, log: seq<ActionLogRecord>): seq<ChainViolation> {
    if log == [] then []
    else
      var before, i := Verdict(sha, Init(log)), |log| - 1;
      if BrokenAt(sha, log, i) then before + [ViolationAt(sha, log, i)] else before
  }

  predicate Ascending(vs: seq<ChainViolation>) {
    forall j, k | 0 <= j < k < |vs| :: vs[j].index < vs[k].index
  }

  /** Every entry is a broken link of the log, described as it is. */
  predicate Genuine(sha: Sha, log: seq<ActionLogRecord>, vs: seq<ChainViolation>) {
    forall k | 0 <= k < |vs| :: BrokenAt(sha, log, vs[k].index) && vs[k] == ViolationAt(sha, log, vs[k].index)
  }

  predicate Listed(vs: seq<ChainViolation>, i: nat) {
    exists k | 0 <= k < |vs| :: vs[k].index == i
  }

  /** vs lists exactly the broken links of the log, each once, in ascending order. */
  ghost predicate ListsBreaks(sha: Sha, log: seq<ActionLogRecord>, vs: seq<ChainViolation>) {
    && Genuine(sha, log, vs)
    && Ascending(vs)
    && (forall i: nat :: BrokenAt(sha, log, i) ==> Listed(vs, i))
  }

  lemma BrokenInPrefix(sha: Sha, log: seq<ActionLogRecord>, i: nat)
    requires i + 1 < |log|
    ensures BrokenAt(sha, Init(log), i) <==> BrokenAt(sha, log, i)
    ensures ViolationAt(sha, Init(log), i) == ViolationAt(sha, log, i)
  {
  }

  lemma GenuineStep(sha: Sha, log: seq<ActionLogRecord>)
    requires log != [] && Genuine(sha, Init(log), Verdict(sha, Init(log)))
    ensures Genuine(sha, log, Verdict(sha, log))
    ensures forall k | 0 <= k < |Verdict(sha, Init(log))| :: Verdict(sha, Init(log))[k].index < |log| - 1
  {
    var before := Verdict(sha, Init(log));
    forall k | 0 <= k < |before|
      ensures before[k].index < |log| - 1 && BrokenAt(sha, log, before[k].index)
              && before[k] == ViolationAt(sha, log, before[k].index)
    {
      assert BrokenAt(sha, Init(log), before[k].index);
      BrokenInPrefix(sha, log, before[k].index);
    }
  }

  lemma ListedStep(sha: Sha, log: seq<ActionLogRecord>, i: nat)
    requires log != [] && BrokenAt(sha, log, i)
    requires i < |log| - 1 ==> Listed(Verdict(sha, Init(log)), i)
    ensures Listed(Verdict(sha, log), i)
  {
    var before, vs := Verdict(sha, Init(log)), Verdict(sha, log);
    if i < |log| - 1 {
      var k :| 0 <= k < |before| && before[k].index == i;
      assert vs[k].index == i;
    } else {
      assert vs[|vs| - 1].index == i;
    }
  }

  lemma {:induction false} VerdictListsBreaks(sha: Sha, log: seq<ActionLogRecord>)
    ensures ListsBreaks(sha, log, Verdict(sha, log))
  {
    if log != [] {
      VerdictListsBreaks(sha, Init(log));
      GenuineStep(sha, log);
      forall i: nat | BrokenAt(sha, log, i) ensures Listed(Verdict(sha, log), i) {
        if i < |log| - 1 {
          BrokenInPrefix(sha, log, i);
        }
        ListedStep(sha, log, i);
      }
    }
  }

  /** Two ascending lists of the same violations are one list. */
  lemma {:induction false} SameAscending(vs: seq<ChainViolation>, ws: seq<ChainViolation>, n: nat)
    requires Ascending(vs) && Ascending(ws)
    requires forall v :: v in vs <==> v in ws
    requires n <= |vs|
    ensures n <= |ws| && forall m | 0 <= m < n :: vs[m] == ws[m]
  {
    if n > 0 {
      var m := n - 1;
      SameAscending(vs, ws, m);
      assert vs[m] in ws;
      var k :| 0 <= k < |ws| && ws[k] == vs[m];
      assert k >= m;
      assert ws[m] in vs;
      var j :| 0 <= j < |vs| && vs[j] == ws[m];
      assert j >= m;
    }
  }

  /** The verdict is the only ascending list of the broken links. */
  lemma VerdictExact(sha: Sha, log: seq<ActionLogRecord>, vs: seq<ChainViolation>)
    ensures ListsBreaks(sha, log, vs) <==> vs == Verdict(sha, log)
  {
    VerdictListsBreaks(sha, log);
    if ListsBreaks(sha, log, vs) {
      var ws := Verdict(sha, log);
      forall v ensures v in vs <==> v in ws {
        SameMembers(sha, log, vs, ws, v);
        SameMembers(sha, log, ws, vs, v);
      }
      SameAscending(vs, ws, |vs|);
      SameAscending(ws, vs, |ws|);
    }
  }

  /** The link that record i has to carry: the hash of six fields of the record before it, or "genesis" at the start. */
  function LinkDue(sha: Sha, log: seq<ActionLogRecord>, i: nat): string
    requires i < |log|
  {
    if i == 0 then "genesis"
    else
      var p := log[i - 1];
      sha(HashableRecord(p.recordId, p.agentDid, p.action, p.resourceCategory, p.timestamp, p.outcome))
  }

  /** The verdict reports each record with another link than the one due, and these only. */
  predicate ReportsAt(sha: Sha, log: seq<ActionLogRecord>, vs: seq<ChainViolation>, i: nat)
    requires i < |log|
  {
    if log[i].prevHash == LinkDue(sha, log, i) then forall v | v in vs :: v.index != i
    else ChainViolation(i, log[i].recordId, LinkDue(sha, log, i), log[i].prevHash) in vs
  }

  lemma VerdictReports(sha: Sha, log: seq<ActionLogRecord>)
    ensures forall i: nat | i < |log| :: ReportsAt(sha, log, Verdict(sha, log), i)
  {
    VerdictListsBreaks(sha, log);
    forall i: nat | i < |log| ensures ReportsAt(sha, log, Verdict(sha, log), i) {
      if BrokenAt(sha, log, i) {
        assert Listed(Verdict(sha, log), i);
      }
    }
  }

  lemma SameMembers(
      sha: Sha, log: seq<ActionLogRecord>, vs: seq<ChainViolation>, ws: seq<ChainViolation>, v: ChainViolation)
    requires ListsBreaks(sha, log, vs) && ListsBreaks(sha, log, ws)
    ensures v in vs ==> v in ws
  {
    if v in vs {
      var k :| 0 <= k < |vs| && vs[k] == v;
      assert BrokenAt(sha, log, vs[k].index);
      assert Listed(ws, v.index);
      var j :| 0 <= j < |ws| && ws[j].index == v.index;
      assert ws[j] == v;
    }
  }

  /** No link of the log is broken. */
  ghost predicate Unbroken(sha: Sha, log: seq<ActionLogRecord>) {
    forall i: nat :: !BrokenAt(sha, log, i)
  }

  lemma CleanMeansUnbroken(sha: Sha, log: seq<ActionLogRecord>)
    ensures Verdict(sha, log) == [] <==> Unbroken(sha, log)
  {
    VerdictListsBreaks(sha, log);
    if Verdict(sha, log) != [] {
      assert BrokenAt(sha, log, Verdict(sha, log)[0].index);
    }
  }

  lemma VerdictOfSnoc(sha: Sha, log: seq<ActionLogRecord>, r: ActionLogRecord)
    ensures |Verdict(sha, log + [r])| == |Verdict(sha, log)| + if r.prevHash != Tail(sha, log) then 1 else 0
  {
    InitOfSnoc(log, r);
    assert Expected(sha, log + [r], |log|) == Tail(sha, log);
  }

  // ---- Tamper evidence ----

  predicate DistinctIds(log: seq<ActionLogRecord>) {
    forall i, j | 0 <= i < j < |log| :: log[i].recordId != log[j].recordId
  }

  lemma HashIdentifies(sha: Sha, log: seq<ActionLogRecord>, i: nat, j: nat)
    requires CollisionFree(sha) && DistinctIds(log) && i < |log| && j < |log|
    requires ComputeHash(sha, log[i]) == ComputeHash(sha, log[j])
    ensures i == j
  {
    assert CanonicalBytes(log[i]) == CanonicalBytes(log[j]);
    assert log[i].recordId == log[j].recordId;
  }

  /** In an unbroken log, a link that names record i is the link of record i + 1. */
  lemma LinkNamesPredecessor(sha: Sha, log: seq<ActionLogRecord>, i: nat, j: nat)
    requires CollisionFree(sha) && DistinctIds(log) && Unbroken(sha, log)
    requires i < |log| && j < |log|
    ensures log[j].prevHash == GENESIS ==> j == 0
    ensures log[j].prevHash == ComputeHash(sha, log[i]) ==> j == i + 1
  {
    assert !BrokenAt(sha, log, j);
    if j == 0 {
      assert sha(CanonicalBytes(log[i])) != GENESIS;
    } else {
      assert sha(CanonicalBytes(log[j - 1])) != GENESIS;
      if ComputeHash(sha, log[j - 1]) == ComputeHash(sha, log[i]) {
        HashIdentifies(sha, log, j - 1, i);
      }
    }
  }

  /** After agreeing with the log before m, an unbroken sequence can only continue with record m. */
  lemma NextMustFollow(sha: Sha, log: seq<ActionLogRecord>, forged: seq<ActionLogRecord>, m: nat, j: nat)
    requires CollisionFree(sha) && DistinctIds(log) && Unbroken(sha, log)
    requires m < |forged| && j < |log| && forged[m] == log[j] && !BrokenAt(sha, forged, m)
    requires m > 0 ==> m - 1 < |log| && forged[m - 1] == log[m - 1]
    ensures j == m
  {
    LinkNamesPredecessor(sha, log, if m == 0 then 0 else m - 1, j);
  }

  lemma {:induction false} RearrangedAt(
      sha: Sha, log: seq<ActionLogRecord>, forged: seq<ActionLogRecord>, n: nat)
    requires CollisionFree(sha) && DistinctIds(log)
    requires Unbroken(sha, log) && Unbroken(sha, forged)
    requires forall k | 0 <= k < |forged| :: forged[k] in log
    requires n <= |forged|
    ensures n <= |log| && forall m | 0 <= m < n :: forged[m] == log[m]
  {
    if n > 0 {
      var m := n - 1;
      RearrangedAt(sha, log, forged, m);
      var j :| 0 <= j < |log| && log[j] == forged[m];
      NextMustFollow(sha, log, forged, m, j);
    }
  }

  /**
   * Take records from a clean log in any order, with any repetitions and omissions: the result
   * verifies clean exactly when it is a prefix of the log. Only cutting off the end goes unseen.
   */
  lemma RearrangementsDetected(sha: Sha, log: seq<ActionLogRecord>, forged: seq<ActionLogRecord>)
    requires CollisionFree(sha) && DistinctIds(log) && Verdict(sha, log) == []
    requires forall k | 0 <= k < |forged| :: forged[k] in log
    ensures Verdict(sha, forged) == [] <==> forged <= log
  {
    CleanMeansUnbroken(sha, log);
    CleanMeansUnbroken(sha, forged);
    if Unbroken(sha, forged) {
      RearrangedAt(sha, log, forged, |forged|);
    }
    if forged <= log {
      forall i: nat ensures !BrokenAt(sha, forged, i) {
        assert !BrokenAt(sha, log, i);
      }
    }
  }

  /** Replacing one record can change the verdict at that record and at the next, nowhere else. */
  lemma EditIsLocal(sha: Sha, log: seq<ActionLogRecord>, i: nat, r: ActionLogRecord, k: nat)
    requires i < |log| && k != i + 1
    requires k == i ==> r.prevHash == log[i].prevHash
    ensures BrokenAt(sha, log[i := r], k) <==> BrokenAt(sha, log, k)
  {
  }

  /**
   * Editing one record of a clean log in any field but its link: the verdict is the single index
   * after it, where the edited record's hash is now expected, or stays clean when the edited record
   * is the last.
   */
  lemma EditDetectedAtNext(sha: Sha, log: seq<ActionLogRecord>, i: nat, r: ActionLogRecord)
    requires CollisionFree(sha) && Verdict(sha, log) == [] && i < |log|
    requires r.prevHash == log[i].prevHash
    requires || r.recordId != log[i].recordId || r.agentDid != log[i].agentDid || r.action != log[i].action
             || r.resourceCategory != log[i].resourceCategory || r.timestamp != log[i].timestamp
             || r.outcome != log[i].outcome
    ensures var expected := sha(HashableRecord(r.recordId, r.agentDid, r.action, r.resourceCategory, r.timestamp, r.outcome));
            Verdict(sha, log[i := r]) ==
              if i + 1 < |log| then [ChainViolation(i + 1, log[i + 1].recordId, expected, log[i + 1].prevHash)] else []
  {
    var edited := log[i := r];
    HashedFields(r, log[i]);
    CleanMeansUnbroken(sha, log);
    forall k: nat ensures BrokenAt(sha, edited, k) <==> k == i + 1 && k < |log| {
      assert !BrokenAt(sha, log, k);
      if k != i + 1 {
        EditIsLocal(sha, log, i, r, k);
      }
    }
    var vs := if i + 1 < |log| then [ViolationAt(sha, edited, i + 1)] else [];
    assert BrokenAt(sha, edited, i + 1) <==> i + 1 < |log|;
    assert ListsBreaks(sha, edited, vs) by {
      if i + 1 < |log| {
        assert vs[0].index == i + 1;
      }
    }
    VerdictExact(sha, edited, vs);
  }

  /**
   * Where tamper evidence ends. A link is not itself hashed, so an edit followed by a change of the
   * next record's link goes unseen exactly when the new link is the edited record's hash: nothing
   * after that record has to be touched.
   */
  lemma RelinkedEditUnseen(sha: Sha, log: seq<ActionLogRecord>, i: nat, r: ActionLogRecord, link: string)
    requires Verdict(sha, log) == [] && i + 1 < |log| && r.prevHash == log[i].prevHash
    ensures Verdict(sha, log[i := r][i + 1 := log[i + 1].(prevHash := link)]) == [] <==> link == ComputeHash(sha, r)
  {
    var relinked := log[i + 1].(prevHash := link);
    var edited := log[i := r][i + 1 := relinked];
    CleanMeansUnbroken(sha, log);
    CleanMeansUnbroken(sha, edited);
    assert CanonicalBytes(relinked) == CanonicalBytes(log[i + 1]);
    forall k: nat ensures BrokenAt(sha, edited, k) <==> k == i + 1 && link != ComputeHash(sha, r) {
      assert !BrokenAt(sha, log, k);
    }
    assert BrokenAt(sha, edited, i + 1) <==> link != ComputeHash(sha, r);
  }

  // ---- Reading the file ----

  datatype Line = Entry(record: ActionLogRecord) | Malformed

  predicate WellFormed(lines: seq<Line>) {
    forall i | 0 <= i < |lines| :: lines[i].Entry?
  }

  function Records(lines: seq<Line>): (log: seq<ActionLogRecord>)
    requires WellFormed(lines)
    ensures |log| == |lines| && forall i | 0 <= i < |lines| :: log[i] == lines[i].record
  {
    seq(|lines|, i requires 0 <= i < |lines| => lines[i].record)
  }

  // What the compliance rules see of an earlier record.
  datatype ActionRecord = ActionRecord(action: string, timestamp: int, resourceCategory: DataCategory)

  predicate CountsFor(r: ActionLogRecord, did: string) {
    r.agentDid == did && r.outcome.Permitted?
  }

  function History(log: seq<ActionLogRecord>, did: string): seq<ActionRecord> {
    if log == [] then []
    else
      var r := Last(log);
      History(Init(log), did) + if CountsFor(r, did) then [ActionRecord(r.action, r.timestamp, r.resourceCategory)] else []
  }

  function Since(log: seq<ActionLogRecord>, since: int): seq<ActionLogRecord> {
    if log == [] then []
    else Since(Init(log), since) + if Last(log).timestamp >= since then [Last(log)] else []
  }

  /** An agent's history holds exactly the permitted records of that agent. */
  lemma {:induction false} HistoryExact(log: seq<ActionLogRecord>, did: string, h: ActionRecord)
    ensures h in History(log, did) <==>
            exists i | 0 <= i < |log| ::
              && log[i].agentDid == did && log[i].outcome.Permitted?
              && h == ActionRecord(log[i].action, log[i].timestamp, log[i].resourceCategory)
  {
    if log != [] {
      var p, n := Init(log), |log| - 1;
      HistoryExact(p, did, h);
      assert forall i | 0 <= i < n :: p[i] == log[i];
      if h in History(log, did) && h !in History(p, did) {
        assert CountsFor(log[n], did);
      }
      if i :| 0 <= i < |log| && CountsFor(log[i], did)
              && h == ActionRecord(log[i].action, log[i].timestamp, log[i].resourceCategory) {
        if i < n {
          assert CountsFor(p[i], did);
        }
      }
    }
  }

  /** Replay returns exactly the records from the given time on. */
  lemma {:induction false} SinceExact(log: seq<ActionLogRecord>, since: int, r: ActionLogRecord)
    ensures r in Since(log, since) <==> r in log && since <= r.timestamp
  {
    if log != [] {
      SinceExact(Init(log), since, r);
      assert log == Init(log) + [Last(log)];
    }
  }

  /** Replay keeps the order and the repetitions of the records. */
  lemma {:induction false} SinceOfConcat(a: seq<ActionLogRecord>, b: seq<ActionLogRecord>, since: int)
    ensures Since(a + b, since) == Since(a, since) + Since(b, since)
    decreases |b|
  {
    if b == [] {
      assert a + b == a;
    } else {
      SinceOfConcat(a, Init(b), since);
      assert Init(a + b) == a + Init(b);
    }
  }
}
