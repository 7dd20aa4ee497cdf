/**
 * Agent identity: privilege rings, decentralised identifiers and the text that an approver signs.
 * Source: crates/core/mesh/src/identity/agent_id.rs, crates/core/mesh/src/identity/escalation.rs,
 * and parse_did of crates/daemon/src/lib.rs.
 */
module Identity {
  import opened Common

  datatype PrivilegeRing = System | Trusted | Standard | Sandboxed {
    /** The discriminant; the derived order compares it, so a smaller rank is more privileged. */
    function Rank(): nat {
      match this
      case System => 0
      case Trusted => 1
      case Standard => 2
      case Sandboxed => 3
    }

    function Name(): string {
      match this
      case System => "System"
      case Trusted => "Trusted"
      case Standard => "Standard"
      case Sandboxed => "Sandboxed"
    }
  }

  /** Privilege, ring by ring: System over all others, then Trusted, Standard and Sandboxed. */
  predicate MorePrivileged(a: PrivilegeRing, b: PrivilegeRing) {
    match a
    case System => b == Trusted || b == Standard || b == Sandboxed
    case Trusted => b == Standard || b == Sandboxed
    case Standard => b == Sandboxed
    case Sandboxed => false
  }

  lemma RankIsPrivilege(a: PrivilegeRing, b: PrivilegeRing)
    ensures a.Rank() < b.Rank() <==> MorePrivileged(a, b)
  {
  }

  datatype AgentDID = AgentDID(didMethod: string, uniqueId: string)

  predicate IsHexDigit(c: char) {
    '0' <= c <= '9' || 'a' <= c <= 'f'
  }

  /** The hyphenated lower-case text of a UUID. */
  predicate IsUuidText(s: string) {
    && |s| == 36
    && forall i | 0 <= i < 36 :: if i in {8, 13, 18, 23} then s[i] == '-' else IsHexDigit(s[i])
  }

  lemma UuidHasNoColon(i: string)
    requires IsUuidText(i)
    ensures ':' !in i
  {
    forall k | 0 <= k < |i| ensures i[k] != ':' {
      assert k in {8, 13, 18, 23} || IsHexDigit(i[k]);
    }
  }

  // ---- Splitting and joining on a separator ----

  function Split(s: string, sep: char): (parts: seq<string>)
    ensures |parts| >= 1
  {
    if s == "" then [""]
    else
      var rest := Split(s[1..], sep);
      if s[0] == sep then [""] + rest else [[s[0]] + rest[0]] + rest[1..]
  }

  function Join(parts: seq<string>, sep: char): string
    requires |parts| >= 1
  {
    if |parts| == 1 then parts[0] else parts[0] + [sep] + Join(parts[1..], sep)
  }

  lemma JoinPrepends(c: char, rest: seq<string>, sep: char)
    requires |rest| >= 1
    ensures Join([[c] + rest[0]] + rest[1..], sep) == [c] + Join(rest, sep)
  {
    var parts := [[c] + rest[0]] + rest[1..];
    assert parts[1..] == rest[1..];
    if |rest| > 1 {
      var tail := Join(rest[1..], sep);
      assert [c] + (rest[0] + [sep] + tail) == ([c] + rest[0]) + [sep] + tail;
    }
  }

  lemma {:induction false} JoinOfSplit(s: string, sep: char)
    ensures Join(Split(s, sep), sep) == s
  {
    if s != "" {
      JoinOfSplit(s[1..], sep);
      var rest := Split(s[1..], sep);
      assert s == [s[0]] + s[1..];
      if s[0] == sep {
        assert ([""] + rest)[1..] == rest;
        assert "" + [sep] + s[1..] == [sep] + s[1..];
      } else {
        JoinPrepends(s[0], rest, sep);
      }
    }
  }

  lemma {:induction false} PartsHaveNoSep(s: string, sep: char, i: nat)
    requires i < |Split(s, sep)|
    ensures sep !in Split(s, sep)[i]
  {
    if s != "" {
      if s[0] == sep {
        if i > 0 {
          PartsHaveNoSep(s[1..], sep, i - 1);
        }
      } else {
        PartsHaveNoSep(s[1..], sep, i);
      }
    }
  }

  lemma {:induction false} SplitOfWord(w: string, sep: char)
    requires sep !in w
    ensures Split(w, sep) == [w]
  {
    if w != "" {
      SplitOfWord(w[1..], sep);
      assert w == [w[0]] + w[1..];
    }
  }

  lemma {:induction false} SplitAfterWord(w: string, rest: string, sep: char)
    requires sep !in w
    ensures Split(w + [sep] + rest, sep) == [w] + Split(rest, sep)
  {
    var s := w + [sep] + rest;
    if w == "" {
      assert s[1..] == rest;
    } else {
      SplitAfterWord(w[1..], rest, sep);
      assert s[1..] == w[1..] + [sep] + rest;
      assert w == [w[0]] + w[1..];
      var tail := Split(rest, sep);
      assert ([w[1..]] + tail)[1..] == tail;
    }
  }

  // ---- DID text ----

  function PrintDid(d: AgentDID): string {
    "did:" + d.didMethod + ":" + d.uniqueId
  }

  function ParseDid(s: string): Result<AgentDID, string> {
    var parts := Split(s, ':');
    if |parts| != 3 || parts[0] != "did" || parts[1] != "mesh" then Err("Invalid DID format")
    else Ok(AgentDID("mesh", parts[2]))
  }

  /** Whatever the parser accepts prints back to the text it was given, and holds no further colon. */
  lemma ParsePrints(s: string)
    requires ParseDid(s).Ok?
    ensures PrintDid(ParseDid(s).value) == s
    ensures ':' !in ParseDid(s).value.uniqueId
  {
    JoinOfSplit(s, ':');
    PartsHaveNoSep(s, ':', 2);
    var parts := Split(s, ':');
    assert Join([parts[2]], ':') == parts[2];
    assert parts[1..][1..] == [parts[2]];
    assert Join(parts[1..], ':') == parts[1] + [':'] + parts[2];
    assert Join(parts, ':') == parts[0] + [':'] + Join(parts[1..], ':');
    assert PrintDid(ParseDid(s).value) == Join(parts, ':');
  }

  /** The parser undoes the printer exactly on "mesh" identifiers whose unique part has no colon. */
  lemma ParseUndoesPrint(d: AgentDID)
    ensures ParseDid(PrintDid(d)) == Ok(d) <==> d.didMethod == "mesh" && ':' !in d.uniqueId
  {
    if d.didMethod == "mesh" && ':' !in d.uniqueId {
      assert PrintDid(d) == "did" + [':'] + ("mesh" + [':'] + d.uniqueId);
      SplitAfterWord("did", "mesh" + [':'] + d.uniqueId, ':');
      SplitAfterWord("mesh", d.uniqueId, ':');
      SplitOfWord(d.uniqueId, ':');
    } else if ParseDid(PrintDid(d)) == Ok(d) {
      ParsePrints(PrintDid(d));
    }
  }

  // ---- The payload an approver signs ----

  function ApprovalPayload(eventId: string, agentDid: string, requestedRing: PrivilegeRing): string {
    eventId + ":" + agentDid + ":" + requestedRing.Name()
  }

  /** The text as it is signed, ring by ring. */
  lemma PayloadText(eventId: string, agentDid: string)
    ensures ApprovalPayload(eventId, agentDid, System) == eventId + ":" + agentDid + ":System"
    ensures ApprovalPayload(eventId, agentDid, Trusted) == eventId + ":" + agentDid + ":Trusted"
    ensures ApprovalPayload(eventId, agentDid, Standard) == eventId + ":" + agentDid + ":Standard"
    ensures ApprovalPayload(eventId, agentDid, Sandboxed) == eventId + ":" + agentDid + ":Sandboxed"
  {
    var before := eventId + ":" + agentDid;
    assert before + ":" + "System" == before + ":System" && before + ":" + "Trusted" == before + ":Trusted";
    assert before + ":" + "Standard" == before + ":Standard" && before + ":" + "Sandboxed" == before + ":Sandboxed";
  }

  /** Text before the first colon is determined by the whole. */
  lemma FirstColonUnique(x: string, a: string, y: string, b: string)
    requires ':' !in x && ':' !in y
    requires x + ":" + a == y + ":" + b
    ensures x == y && a == b
  {
    SplitAfterWord(x, a, ':');
    SplitAfterWord(y, b, ':');
    assert x + [':'] + a == x + ":" + a && y + [':'] + b == y + ":" + b;
    assert x == ([x] + Split(a, ':'))[0] == y;
    assert a == (x + ":" + a)[|x| + 1..] && b == (y + ":" + b)[|y| + 1..];
  }

  lemma LastColonAt(a: string, x: string)
    requires ':' !in x
    ensures |a + ":" + x| == |a| + 1 + |x| && (a + ":" + x)[|a|] == ':'
    ensures forall k | |a| < k < |a + ":" + x| :: (a + ":" + x)[k] != ':'
  {
    forall k | |a| < k < |a + ":" + x| ensures (a + ":" + x)[k] != ':' {
      assert (a + ":" + x)[k] == x[k - |a| - 1];
    }
  }

  /** Text after the last colon is determined by the whole. */
  lemma LastColonUnique(a: string, x: string, b: string, y: string)
    requires ':' !in x && ':' !in y
    requires a + ":" + x == b + ":" + y
    ensures a == b && x == y
  {
    LastColonAt(a, x);
    LastColonAt(b, y);
    assert |a| == |b|;
    assert a == (a + ":" + x)[..|a|] && b == (b + ":" + y)[..|b|];
    assert x == (a + ":" + x)[|a| + 1..] && y == (b + ":" + y)[|b| + 1..];
  }

  lemma RingNameInjective(r: PrivilegeRing, q: PrivilegeRing)
    ensures r.Name() == q.Name() ==> r == q
    ensures ':' !in r.Name()
  {
    assert |"System"| == 6 && |"Trusted"| == 7 && |"Standard"| == 8 && |"Sandboxed"| == 9;
  }

  /**
   * One payload text stands for one event id, one agent and one ring, even though an agent's DID
   * itself contains colons.
   */
  lemma PayloadInjective(i: string, d: string, r: PrivilegeRing, j: string, e: string, q: PrivilegeRing)
    requires IsUuidText(i) && IsUuidText(j)
    requires ApprovalPayload(i, d, r) == ApprovalPayload(j, e, q)
    ensures i == j && d == e && r == q
  {
    UuidHasNoColon(i);
    UuidHasNoColon(j);
    RingNameInjective(r, q);
    RingNameInjective(q, r);
    ThreePartsUnique(i, d, r.Name(), j, e, q.Name());
  }

  lemma ThreePartsUnique(i: string, d: string, r: string, j: string, e: string, q: string)
    requires ':' !in i && ':' !in j && ':' !in r && ':' !in q
    requires i + ":" + d + ":" + r == j + ":" + e + ":" + q
    ensures i == j && d == e && r == q
  {
    assert i + ":" + d + ":" + r == i + ":" + (d + ":" + r);
    assert j + ":" + e + ":" + q == j + ":" + (e + ":" + q);
    FirstColonUnique(i, d + ":" + r, j, e + ":" + q);
    LastColonUnique(d, r, e, q);
  }
}
