/**
 * Records of the action log and their hash.
 * Source: crates/core/mesh/src/audit.rs.
 */
module Audit {
  import opened Common

  datatype DataCategory = PersonalData | FinancialRecord | AuditLog | SystemConfig | Unknown

  datatype ActionOutcome =
    | Permitted
    | Denied(rule: string, reason: string)
    | Discovered(eventJson: string)

  datatype ActionLogRecord = ActionLogRecord(
    recordId: string,
    agentDid: string,
    action: string,
    resourceCategory: DataCategory,
    timestamp: int,
    outcome: ActionOutcome,
    prevHash: string)

  // The six fields that are serialised for hashing: every field but prevHash.
  datatype HashableRecord = HashableRecord(
    recordId: string,
    agentDid: string,
    action: string,
    resourceCategory: DataCategory,
    timestamp: int,
    outcome: ActionOutcome)

  // SHA-256 over the JSON of the hashable fields, as hexadecimal text.
  type Sha = HashableRecord -> string

  const GENESIS: string := "genesis"

  /** What SHA-256 is trusted for: no collisions, and no digest reads "genesis". */
  ghost predicate CollisionFree(sha: Sha) {
    && (forall a, b :: sha(a) == sha(b) ==> a == b)
    && (forall a :: sha(a) != GENESIS)
  }

  function CanonicalBytes(r: ActionLogRecord): HashableRecord {
    HashableRecord(r.recordId, r.agentDid, r.action, r.resourceCategory, r.timestamp, r.outcome)
  }

  /** What is hashed: records have the same bytes exactly when they agree on every field but the link. */
  lemma HashedFields(a: ActionLogRecord, b: ActionLogRecord)
    ensures CanonicalBytes(a) == CanonicalBytes(b) <==>
              && a.recordId == b.recordId
              && a.agentDid == b.agentDid
              && a.action == b.action
              && a.resourceCategory == b.resourceCategory
              && a.timestamp == b.timestamp
              && a.outcome == b.outcome
  {
  }

  function ComputeHash(sha: Sha, r: ActionLogRecord): string {
    sha(CanonicalBytes(r))
  }
}
