/**
 * Compliance rules and their verifier.
 * Source: GdprDataExportRule, SoxAuditImmutabilityRule and ComplianceVerifier of
 * crates/ext/compliance/src/lib.rs.
 */
module Compliance {
  import opened Common
  import opened Identity
  import opened Audit
  import opened ActionLog

  datatype ComplianceInput = ComplianceInput(
    agentDid: string,
    agentRing: PrivilegeRing,
    agentCapabilities: seq<string>,
    action: string,
    resourceCategory: DataCategory,
    actionHistory: seq<ActionRecord>,
    jurisdiction: Option<string>)

  datatype ComplianceResult = Compliant | NotApplicable | Violation(rule: string, reason: string)

  // windowText is how the isolation window prints inside a reason.
  datatype ComplianceRule = GdprDataExport | SoxAuditImmutability(isolationWindow: int, windowText: string)

  const ISOLATION_WINDOW: int := 24 * HOUR

  function DefaultPolicy(): seq<ComplianceRule> {
    [GdprDataExport, SoxAuditImmutability(ISOLATION_WINDOW, "TimeDelta { secs: 86400, nanos: 0 }")]
  }

  predicate IsAuditRead(action: string, category: DataCategory) {
    category.AuditLog? && (action == "read" || action == "read_audit_log")
  }

  predicate IsMutation(action: string, category: DataCategory) {
    && (category.FinancialRecord? || category.AuditLog?)
    && ("write" <= action || "delete" <= action || "update" <= action)
  }

  predicate RecentMutation(history: seq<ActionRecord>, cutoff: int) {
    exists i | 0 <= i < |history| ::
      history[i].timestamp > cutoff && IsMutation(history[i].action, history[i].resourceCategory)
  }

  /** One rule's finding, when its own reading of the clock is now. */
  function EvaluateRule(rule: ComplianceRule, input: ComplianceInput, now: int): ComplianceResult {
    match rule
    case GdprDataExport =>
      if input.action != "data_export" then NotApplicable
      else if !input.resourceCategory.PersonalData? then NotApplicable
      else if input.jurisdiction == Some("US") then NotApplicable
      else if "gdpr_data_processor" !in input.agentCapabilities then
        Violation("GDPR-001", "Agent lacks gdpr_data_processor capability for PersonalData export")
      else Compliant
    case SoxAuditImmutability(window, text) =>
      if !IsAuditRead(input.action, input.resourceCategory) then NotApplicable
      else if RecentMutation(input.actionHistory, now - window) then
        Violation("SOX-001", "Agent has recent write history within window (" + text + "); audit log read denied")
      else Compliant
  }

  /** Every rule in order; clock[i] is the time rule i reads. */
  function Evaluate(rules: seq<ComplianceRule>, input: ComplianceInput, clock: seq<int>): (rs: seq<ComplianceResult>)
    requires |clock| == |rules|
    ensures |rs| == |rules| && forall i | 0 <= i < |rules| :: rs[i] == EvaluateRule(rules[i], input, clock[i])
  {
    seq(|rules|, i requires 0 <= i < |rules| => EvaluateRule(rules[i], input, clock[i]))
  }

  predicate NoViolation(results: seq<ComplianceResult>) {
    forall i | 0 <= i < |results| :: !results[i].Violation?
  }

  /** The verifier's second pass: it evaluates all rules again, on a later clock. */
  predicate IsCompliant(rules: seq<ComplianceRule>, input: ComplianceInput, clock: seq<int>)
    requires |clock| == |rules|
  {
    NoViolation(Evaluate(rules, input, clock))
  }

  function FirstViolation(results: seq<ComplianceResult>): Option<ComplianceResult> {
    if results == [] then None
    else if results[0].Violation? then Some(results[0])
    else FirstViolation(results[1..])
  }

  lemma {:induction false} FirstViolationFound(results: seq<ComplianceResult>)
    ensures FirstViolation(results).None? <==> NoViolation(results)
    ensures FirstViolation(results).Some? ==>
              exists i | 0 <= i < |results| ::
                results[i].Violation? && FirstViolation(results) == Some(results[i]) && NoViolation(results[..i])
  {
    if results != [] {
      FirstViolationFound(results[1..]);
      if results[0].Violation? {
        assert NoViolation(results[..0]);
      } else if FirstViolation(results).Some? {
        var i :| 0 <= i < |results[1..]| && results[1..][i].Violation?
                 && FirstViolation(results[1..]) == Some(results[1..][i]) && NoViolation(results[1..][..i]);
        assert results[i + 1] == results[1..][i];
        var head := results[..i + 1];
        forall k | 0 <= k < |head| ensures !head[k].Violation? {
          if k > 0 {
            assert head[k] == results[1..][..i][k - 1];
          }
        }
      } else {
        assert forall k | 0 < k < |results| :: results[k] == results[1..][k - 1];
      }
    }
  }

  /**
   * A rule's finding on a fixed history can only relax as the clock advances: whatever is a
   * violation later was the same violation earlier.
   */
  lemma FindingsRelax(rule: ComplianceRule, input: ComplianceInput, earlier: int, later: int)
    requires earlier <= later
    ensures EvaluateRule(rule, input, later).Violation? ==>
              EvaluateRule(rule, input, earlier) == EvaluateRule(rule, input, later)
  {
    if rule.SoxAuditImmutability? && RecentMutation(input.actionHistory, later - rule.isolationWindow) {
      var i :| 0 <= i < |input.actionHistory|
               && input.actionHistory[i].timestamp > later - rule.isolationWindow
               && IsMutation(input.actionHistory[i].action, input.actionHistory[i].resourceCategory);
      assert input.actionHistory[i].timestamp > earlier - rule.isolationWindow;
    }
  }

  /** Whatever the rules, a denial by the second pass finds a violation in the first pass's results. */
  lemma DenialHasViolation(rules: seq<ComplianceRule>, input: ComplianceInput, first: seq<int>, second: seq<int>)
    requires |first| == |second| == |rules|
    requires forall i | 0 <= i < |rules| :: first[i] <= second[i]
    requires !IsCompliant(rules, input, second)
    ensures FirstViolation(Evaluate(rules, input, first)).Some?
  {
    var i :| 0 <= i < |rules| && Evaluate(rules, input, second)[i].Violation?;
    FindingsRelax(rules[i], input, first[i], second[i]);
    FirstViolationFound(Evaluate(rules, input, first));
    assert Evaluate(rules, input, first)[i].Violation?;
  }

  /** What execute_action records, from the first pass's results and the second pass's answer. */
  function OutcomeOf(results: seq<ComplianceResult>, isCompliant: bool): ActionOutcome {
    if isCompliant then Permitted
    else match FirstViolation(results)
         case Some(Violation(rule, reason)) => Denied(rule, reason)
         case _ => Denied("Unknown", "Access denied")
  }

  /** The outcome is the denial under the first violation of the results. */
  predicate NamesFirstViolation(results: seq<ComplianceResult>, outcome: ActionOutcome) {
    exists i | 0 <= i < |results| ::
      results[i].Violation? && NoViolation(results[..i]) && outcome == Denied(results[i].rule, results[i].reason)
  }

  lemma DenialNamesFirst(results: seq<ComplianceResult>)
    requires FirstViolation(results).Some?
    ensures NamesFirstViolation(results, OutcomeOf(results, false))
  {
    FirstViolationFound(results);
    var i :| 0 <= i < |results| && results[i].Violation? && FirstViolation(results) == Some(results[i])
             && NoViolation(results[..i]);
    assert OutcomeOf(results, false) == Denied(results[i].rule, results[i].reason);
  }

  /** What is recorded agrees with the second pass, and a denial is recorded under the first pass's first violation. */
  lemma OutcomeCoheres(rules: seq<ComplianceRule>, input: ComplianceInput, first: seq<int>, second: seq<int>)
    requires |first| == |second| == |rules|
    requires forall i | 0 <= i < |rules| :: first[i] <= second[i]
    ensures var results := Evaluate(rules, input, first);
            var isCompliant := IsCompliant(rules, input, second);
            && (OutcomeOf(results, isCompliant).Permitted? <==> isCompliant)
            && (!isCompliant ==> NamesFirstViolation(results, OutcomeOf(results, isCompliant)))
  {
    if !IsCompliant(rules, input, second) {
      DenialHasViolation(rules, input, first, second);
      DenialNamesFirst(Evaluate(rules, input, first));
    }
  }

  /** The mutations: any action on financial records or the audit log whose name begins with one of three verbs. */
  lemma MutationsExact(action: string, category: DataCategory)
    ensures IsMutation(action, category) <==>
              && (category == FinancialRecord || category == AuditLog)
              && ((exists t :: action == "write" + t) || (exists t :: action == "delete" + t)
                  || (exists t :: action == "update" + t))
  {
    if "write" <= action {
      assert action == "write" + action[5..];
    }
    if "delete" <= action {
      assert action == "delete" + action[6..];
    }
    if "update" <= action {
      assert action == "update" + action[6..];
    }
  }

  /** An export of personal data outside the US by an agent that may not process it. */
  predicate UnlicensedExport(input: ComplianceInput) {
    && input.action == "data_export" && input.resourceCategory.PersonalData?
    && input.jurisdiction != Some("US")
    && "gdpr_data_processor" !in input.agentCapabilities
  }

  /** A read of the audit log with a mutation of protected data less than 24 hours before now in the reader's history. */
  predicate RecentWriterReads(input: ComplianceInput, now: int) {
    && input.resourceCategory.AuditLog? && (input.action == "read" || input.action == "read_audit_log")
    && exists i | 0 <= i < |input.actionHistory| ::
         var a := input.actionHistory[i];
         && a.timestamp > now - 86_400_000_000_000
         && (a.resourceCategory.FinancialRecord? || a.resourceCategory.AuditLog?)
         && ("write" <= a.action || "delete" <= a.action || "update" <= a.action)
  }

  /**
   * The default rules permit everything except an export of personal data outside the US without
   * the processor capability, found by GDPR-001, and an audit read with a mutation in the history
   * less than 24 hours before the SOX rule's reading of the clock, found by SOX-001.
   */
  lemma DefaultPermits(input: ComplianceInput, clock: seq<int>)
    requires |clock| == 2
    ensures IsCompliant(DefaultPolicy(), input, clock) <==>
              !UnlicensedExport(input) && !RecentWriterReads(input, clock[1])
    ensures var found := Evaluate(DefaultPolicy(), input, clock);
            && |found| == 2
            && (UnlicensedExport(input) <==> found[0].Violation?) && (found[0].Violation? ==> found[0].rule == "GDPR-001")
            && (RecentWriterReads(input, clock[1]) <==> found[1].Violation?)
            && (found[1].Violation? ==> found[1].rule == "SOX-001")
  {
    var found := Evaluate(DefaultPolicy(), input, clock);
    assert found[0] == EvaluateRule(GdprDataExport, input, clock[0]);
    assert found[1] == EvaluateRule(DefaultPolicy()[1], input, clock[1]);
    if RecentWriterReads(input, clock[1]) {
      var i :| && 0 <= i < |input.actionHistory|
               && var a := input.actionHistory[i];
               && a.timestamp > clock[1] - 86_400_000_000_000
               && (a.resourceCategory.FinancialRecord? || a.resourceCategory.AuditLog?)
               && ("write" <= a.action || "delete" <= a.action || "update" <= a.action);
      assert IsMutation(input.actionHistory[i].action, input.actionHistory[i].resourceCategory);
    }
  }

  /** A rule that finds no violation does not apply, or finds compliance, in exactly these cases. */
  lemma DefaultApplies(input: ComplianceInput, clock: seq<int>)
    requires |clock| == 2
    ensures var found := Evaluate(DefaultPolicy(), input, clock);
            && (found[0] == NotApplicable <==>
                  input.action != "data_export" || input.resourceCategory != PersonalData || input.jurisdiction == Some("US"))
            && (found[1] == NotApplicable <==>
                  input.resourceCategory != AuditLog || (input.action != "read" && input.action != "read_audit_log"))
  {
    var found := Evaluate(DefaultPolicy(), input, clock);
    assert found[0] == EvaluateRule(GdprDataExport, input, clock[0]);
    assert found[1] == EvaluateRule(DefaultPolicy()[1], input, clock[1]);
  }
}
