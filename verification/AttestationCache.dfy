/**
 * The registry client's attestation cache, in the joint system of registry, clients' calls and clock.
 * Source: crates/core/mesh/src/identity/registry_http.rs and get_attestation of
 * crates/core/mesh/src/identity/registry.rs.
 */
module AttestationCache {
  import opened Common
  import opened Identity
  import opened Attestation

  // The refresh jitter is drawn, per check, from whole seconds in [3600, 7200).
  const JITTER_LOW: int := 3600
  const JITTER_HIGH: int := 7200

  predicate Fresh(a: SignedAttestation, now: int, jitter: int) {
    now < a.claim.expiresAt && now < a.claim.expiresAt - jitter * SECOND
  }

  // registryKey is the registry key that the client trusts.
  datatype Env = Env(crypto: Crypto, issuer: Issuer, registryKey: string)

  // calls: the agent that each call under way asked for.
  datatype State = State(
    now: int,
    entries: map<string, Entry>,              // at the registry
    cache: map<string, SignedAttestation>,    // at the client
    calls: map<nat, string>)

  datatype Action =
    | Tick(to: int)
    | Register(did: string, entry: Entry)
    | Attest(did: string, issuedAt: int, readAgainAt: int)            // the registry signs, for whoever asked
    | Request(call: nat, did: string, jitter: int)                    // check the cache; on a miss, ask
    | Receive(call: nat, answer: Option<SignedAttestation>)           // whatever the network delivers to the call
    | Lose(call: nat)                                                 // network error or error status

  const INITIAL: State := State(0, map[], map[], map[])

  predicate Hit(s: State, did: string, jitter: int) {
    did in s.cache && Fresh(s.cache[did], s.now, jitter)
  }

  predicate Attests(s: State, a: Action)
    requires a.Attest?
  {
    a.did in s.entries && s.now <= a.issuedAt <= a.readAgainAt
  }

  /** The answer has an attestation that has not expired and is signed under the registry's key. */
  predicate Trusted(env: Env, answer: Option<SignedAttestation>, now: int) {
    && answer.Some?
    && now <= answer.value.claim.expiresAt
    && env.crypto.isKey(env.registryKey)
    && SignedByRegistry(env, answer.value)
  }

  predicate SignedByRegistry(env: Env, a: SignedAttestation) {
    env.crypto.verifies(env.registryKey, env.crypto.claimBytes(a.claim), a.signature)
  }

  /** The client's check of an answer is exactly this trust. */
  lemma PassesIfTrusted(env: Env, answer: Option<SignedAttestation>, now: int)
    ensures answer.Some? && Verify(env.crypto, env.registryKey, answer.value, now).Ok? <==> Trusted(env, answer, now)
  {
    if answer.Some? {
      VerifyExact(env.crypto, env.registryKey, answer.value, now);
    }
  }

  function Step(env: Env, s: State, a: Action): State {
    match a
    case Tick(to) => if s.now <= to then s.(now := to) else s
    case Register(did, entry) => s.(entries := s.entries[did := entry])
    case Attest(_, _, readAgainAt) => if Attests(s, a) then s.(now := readAgainAt) else s
    case Request(c, did, jitter) =>
      if c in s.calls || Hit(s, did, jitter) then s else s.(calls := s.calls[c := did])
    case Receive(c, answer) =>
      if c !in s.calls then s
      else
        s.(calls := s.calls - {c},
           cache := if answer.Some? && Verify(env.crypto, env.registryKey, answer.value, s.now).Ok?
                    then s.cache[s.calls[c] := answer.value]
                    else s.cache)
    case Lose(c) => s.(calls := s.calls - {c})
  }

  function Exec(env: Env, acts: seq<Action>): State {
    if acts == [] then INITIAL else Step(env, Exec(env, Init(acts)), Last(acts))
  }

  // ---- Where a cached attestation comes from ----

  /** At action k the registry attested, with this claim, the key it held for the claim's subject. */
  predicate IssuedAt(env: Env, acts: seq<Action>, k: nat, a: SignedAttestation) {
    && k < |acts| && acts[k].Attest? && acts[k].did == a.claim.subjectDid
    && var s := Exec(env, acts[..k]);
    && Attests(s, acts[k])
    && a.claim == AttestationClaim(acts[k].did, s.entries[acts[k].did].publicKey, acts[k].issuedAt,
                                   acts[k].readAgainAt + 86_400_000_000_000)
  }

  /** At action m the client cached a for did: a call that had asked for did received it, and it verified. */
  predicate CachedAt(env: Env, acts: seq<Action>, m: nat, did: string, a: SignedAttestation) {
    && m < |acts| && acts[m].Receive? && acts[m].answer == Some(a)
    && var s := Exec(env, acts[..m]);
    && acts[m].call in s.calls && s.calls[acts[m].call] == did && Trusted(env, acts[m].answer, s.now)
  }

  ghost predicate Issued(env: Env, acts: seq<Action>, a: SignedAttestation) {
    exists k: nat :: IssuedAt(env, acts, k, a)
  }

  /** If action n delivers something signed under the registry's key, the registry has attested it before. */
  ghost predicate AuthenticAt(env: Env, acts: seq<Action>, n: nat) {
    n < |acts| && acts[n].Receive? && acts[n].answer.Some? && SignedByRegistry(env, acts[n].answer.value) ==>
      Issued(env, acts[..n], acts[n].answer.value)
  }

  /** The registry's signature was not forged in this run. */
  ghost predicate Authentic(env: Env, acts: seq<Action>) {
    forall n: nat :: AuthenticAt(env, acts, n)
  }

  lemma {:induction false} EntryWasCached(env: Env, acts: seq<Action>, did: string)
    requires did in Exec(env, acts).cache
    ensures exists m: nat :: CachedAt(env, acts, m, did, Exec(env, acts).cache[did])
  {
    var s, a := Exec(env, Init(acts)), Exec(env, acts).cache[did];
    assert acts[..|acts| - 1] == Init(acts);
    if did in s.cache && s.cache[did] == a {
      EntryWasCached(env, Init(acts), did);
      var m: nat :| CachedAt(env, Init(acts), m, did, a);
      PrefixOfInit(acts, m);
      assert CachedAt(env, acts, m, did, a);
    } else {
      PassesIfTrusted(env, Last(acts).answer, s.now);
      assert CachedAt(env, acts, |acts| - 1, did, a);
    }
  }

  lemma {:induction false} ClockForward(env: Env, acts: seq<Action>, k: nat)
    requires k <= |acts|
    ensures Exec(env, acts[..k]).now <= Exec(env, acts).now
    decreases |acts|
  {
    if k == |acts| {
      assert acts[..k] == acts;
    } else {
      ClockForward(env, Init(acts), k);
      PrefixOfInit(acts, k);
    }
  }

  /** When the registry has attested a key, it still holds it. */
  lemma AfterAttesting(env: Env, acts: seq<Action>, k: nat, a: SignedAttestation)
    requires IssuedAt(env, acts, k, a)
    ensures var s := Exec(env, acts[..k + 1]);
            && s.now == acts[k].readAgainAt <= Exec(env, acts).now
            && HeldAt(env, acts, k + 1, a.claim.subjectDid, a.claim.publicKey)
  {
    InitOfSnoc(acts[..k], acts[k]);
    assert acts[..k] + [acts[k]] == acts[..k + 1];
    ClockForward(env, acts, k + 1);
  }

  /** Issued at k, cached for did at a later m. */
  predicate Served(env: Env, acts: seq<Action>, k: nat, m: nat, did: string, a: SignedAttestation) {
    k < m && IssuedAt(env, acts, k, a) && CachedAt(env, acts, m, did, a)
  }

  /**
   * Bounded staleness. Whatever registrations a run interleaves and whatever the network delivers,
   * as long as no signature of the registry is forged: an attestation served from the cache has not
   * expired and is signed under the registry's key, was so when it was cached, had been issued before
   * that, and its key was the registry's key for its subject less than 23 hours before now.
   */
  lemma BoundedStaleness(env: Env, acts: seq<Action>, did: string, jitter: int)
    requires JITTER_LOW <= jitter < JITTER_HIGH
    requires Authentic(env, acts) && Hit(Exec(env, acts), did, jitter)
    ensures var s := Exec(env, acts);
            && s.now < s.cache[did].claim.expiresAt
            && env.crypto.verifies(env.registryKey, env.crypto.claimBytes(s.cache[did].claim), s.cache[did].signature)
            && exists k: nat, m: nat | Served(env, acts, k, m, did, s.cache[did]) ::
                 0 <= s.now - Exec(env, acts[..k + 1]).now < 82_800_000_000_000
  {
    var s := Exec(env, acts);
    var a := s.cache[did];
    EntryWasCached(env, acts, did);
    var m: nat :| CachedAt(env, acts, m, did, a);
    assert AuthenticAt(env, acts, m);
    var k: nat :| IssuedAt(env, acts[..m], k, a);
    assert acts[..m][..k] == acts[..k];
    assert Served(env, acts, k, m, did, a);
    AfterAttesting(env, acts, k, a);
  }

  // ---- Whose key is served ----

  /** After the first k actions the registry held this key for did. */
  predicate HeldAt(env: Env, acts: seq<Action>, k: nat, did: string, key: string) {
    k <= |acts| && var entries := Exec(env, acts[..k]).entries; did in entries && entries[did].publicKey == key
  }

  ghost predicate HeldBefore(env: Env, acts: seq<Action>, did: string, key: string) {
    exists k: nat :: HeldAt(env, acts, k, did, key)
  }

  ghost predicate HeldRecently(env: Env, acts: seq<Action>, did: string, key: string) {
    exists k: nat :: HeldAt(env, acts, k, did, key) && Exec(env, acts).now - Exec(env, acts[..k]).now < 82_800_000_000_000
  }

  predicate RegistersKey(acts: seq<Action>, i: nat, did: string, key: string) {
    i < |acts| && acts[i].Register? && acts[i].did == did && acts[i].entry.publicKey == key
  }

  /** No two agents ever register the same key. */
  ghost predicate KeysAreOwn(acts: seq<Action>) {
    forall i: nat, j: nat, d, e, key :: RegistersKey(acts, i, d, key) && RegistersKey(acts, j, e, key) ==> d == e
  }

  lemma {:induction false} HeldWasRegistered(env: Env, acts: seq<Action>, did: string)
    requires did in Exec(env, acts).entries
    ensures exists i: nat :: RegistersKey(acts, i, did, Exec(env, acts).entries[did].publicKey)
  {
    var key := Exec(env, acts).entries[did].publicKey;
    if Last(acts).Register? && Last(acts).did == did {
      assert RegistersKey(acts, |acts| - 1, did, key);
    } else {
      HeldWasRegistered(env, Init(acts), did);
      var i: nat :| RegistersKey(Init(acts), i, did, key);
      assert RegistersKey(acts, i, did, key);
    }
  }

  /** The two agents are one if the registry ever held the key for both. */
  lemma OneHolder(env: Env, acts: seq<Action>, d: string, e: string, key: string)
    requires KeysAreOwn(acts) && HeldBefore(env, acts, d, key) && HeldBefore(env, acts, e, key)
    ensures d == e
  {
    var k: nat :| HeldAt(env, acts, k, d, key);
    var l: nat :| HeldAt(env, acts, l, e, key);
    HeldWasRegistered(env, acts[..k], d);
    HeldWasRegistered(env, acts[..l], e);
    var i: nat :| RegistersKey(acts[..k], i, d, key);
    var j: nat :| RegistersKey(acts[..l], j, e, key);
    assert RegistersKey(acts, i, d, key) && RegistersKey(acts, j, e, key);
  }

  /**
   * The key served for an agent was the agent's own, less than 23 hours ago, if and only if the
   * attestation's subject is the agent that was asked for; otherwise it never was. The client's
   * verification does not look at the subject.
   */
  lemma ServedKeyIsOwnIff(env: Env, acts: seq<Action>, did: string, jitter: int)
    requires JITTER_LOW <= jitter < JITTER_HIGH
    requires Authentic(env, acts) && KeysAreOwn(acts) && Hit(Exec(env, acts), did, jitter)
    ensures var claim := Exec(env, acts).cache[did].claim;
            && (HeldRecently(env, acts, did, claim.publicKey) <==> claim.subjectDid == did)
            && (HeldBefore(env, acts, did, claim.publicKey) <==> claim.subjectDid == did)
  {
    var s := Exec(env, acts);
    var a := s.cache[did];
    BoundedStaleness(env, acts, did, jitter);
    var k: nat, m: nat :| Served(env, acts, k, m, did, a) && 0 <= s.now - Exec(env, acts[..k + 1]).now < 82_800_000_000_000;
    AfterAttesting(env, acts, k, a);
    assert HeldBefore(env, acts, a.claim.subjectDid, a.claim.publicKey);
    if HeldBefore(env, acts, did, a.claim.publicKey) {
      OneHolder(env, acts, did, a.claim.subjectDid, a.claim.publicKey);
    }
  }

  /** If action n delivers a trusted attestation to a call, its subject is the agent that the call asked for. */
  predicate AnswersAskedAt(env: Env, acts: seq<Action>, n: nat) {
    n < |acts| && acts[n].Receive? ==>
      var s := Exec(env, acts[..n]);
      acts[n].call in s.calls && Trusted(env, acts[n].answer, s.now) ==>
        acts[n].answer.value.claim.subjectDid == s.calls[acts[n].call]
  }

  /** After the first n actions every cached attestation is filed under its own subject. */
  predicate FiledRightAt(env: Env, acts: seq<Action>, n: nat) {
    n <= |acts| ==> var cache := Exec(env, acts[..n]).cache; forall did | did in cache :: cache[did].claim.subjectDid == did
  }

  /**
   * The cache is at all times filed by subject exactly when every trusted answer was about the agent
   * asked for: that is left to the registry's answer.
   */
  lemma FiledRightIff(env: Env, acts: seq<Action>)
    ensures (forall n: nat :: FiledRightAt(env, acts, n)) <==> (forall n: nat :: AnswersAskedAt(env, acts, n))
  {
    if forall n: nat :: FiledRightAt(env, acts, n) {
      forall n: nat ensures AnswersAskedAt(env, acts, n) {
        assert FiledRightAt(env, acts, n + 1);
        AskedIfFiledRight(env, acts, n);
      }
    }
    if forall n: nat :: AnswersAskedAt(env, acts, n) {
      forall n: nat ensures FiledRightAt(env, acts, n) {
        FiledRightUpTo(env, acts, n);
      }
    }
  }

  lemma AskedIfFiledRight(env: Env, acts: seq<Action>, n: nat)
    requires FiledRightAt(env, acts, n + 1)
    ensures AnswersAskedAt(env, acts, n)
  {
    ExecNext(env, acts, n);
    if n < |acts| && acts[n].Receive? {
      var s, a := Exec(env, acts[..n]), acts[n];
      if a.call in s.calls && Trusted(env, a.answer, s.now) {
        assert Exec(env, acts[..n + 1]).cache[s.calls[a.call]] == a.answer.value;
      }
    }
  }

  lemma ExecNext(env: Env, acts: seq<Action>, n: nat)
    ensures n < |acts| ==> Exec(env, acts[..n + 1]) == Step(env, Exec(env, acts[..n]), acts[n])
  {
    if n < |acts| {
      InitOfSnoc(acts[..n], acts[n]);
      assert acts[..n] + [acts[n]] == acts[..n + 1];
    }
  }

  lemma {:induction false} FiledRightUpTo(env: Env, acts: seq<Action>, n: nat)
    requires forall m: nat :: AnswersAskedAt(env, acts, m)
    ensures FiledRightAt(env, acts, n)
  {
    if 0 < n <= |acts| {
      FiledRightUpTo(env, acts, n - 1);
      assert AnswersAskedAt(env, acts, n - 1);
      ExecNext(env, acts, n - 1);
    }
  }

  // A call asks about one agent while the registry attests another.
  function AskedAboutOne(asked: string, own: Entry, other: string, key: Entry, jitter: int): seq<Action> {
    [Register(asked, own), Register(other, key), Attest(other, 0, 0), Request(0, asked, jitter)]
  }

  lemma AfterAskedAboutOne(env: Env, asked: string, own: Entry, other: string, key: Entry, jitter: int)
    ensures Exec(env, AskedAboutOne(asked, own, other, key, jitter))
            == State(0, map[asked := own][other := key], map[], map[0 := asked])
  {
    var a4 := AskedAboutOne(asked, own, other, key, jitter);
    var a3, a2, a1 := a4[..3], a4[..2], a4[..1];
    assert Init(a4) == a3 && Init(a3) == a2 && Init(a2) == a1 && Init(a1) == [];
    assert Exec(env, a1) == State(0, map[asked := own], map[], map[]);
    assert Exec(env, a3) == State(0, map[asked := own][other := key], map[], map[]);
  }

  /** Delivered another agent's attestation, the client caches it and serves that agent's key. */
  lemma OtherAgentsKeyServed(
      env: Env, asked: string, own: Entry, other: string, key: Entry, jitter: int, a: SignedAttestation)
    requires asked != other && JITTER_LOW <= jitter < JITTER_HIGH
    requires Some(a) == Issue(env.crypto, env.issuer, map[asked := own][other := key], other, 0, 0)
    requires Trusted(env, Some(a), 0)
    ensures var s := Exec(env, AskedAboutOne(asked, own, other, key, jitter) + [Receive(0, Some(a))]);
            && Hit(s, asked, jitter) && s.cache[asked].claim.publicKey == key.publicKey
            && asked in s.entries && s.entries[asked] == own
  {
    AfterAskedAboutOne(env, asked, own, other, key, jitter);
    InitOfSnoc(AskedAboutOne(asked, own, other, key, jitter), Receive(0, Some(a)));
  }

  /** Every drawn jitter finds the attestation fresh until 22 hours and a second after issue; some jitter, until 23 hours. */
  lemma RefreshWindow(a: SignedAttestation, issued: int, now: int)
    requires a.claim.expiresAt == issued + 86_400_000_000_000
    ensures (forall jitter | JITTER_LOW <= jitter < JITTER_HIGH :: Fresh(a, now, jitter))
            <==> now < issued + 79_201_000_000_000
    ensures (exists jitter | JITTER_LOW <= jitter < JITTER_HIGH :: Fresh(a, now, jitter)) <==> now < issued + 82_800_000_000_000
  {
    assert Fresh(a, now, JITTER_HIGH - 1) <==> now < issued + 79_201_000_000_000;
    assert Fresh(a, now, JITTER_LOW) <==> now < issued + 82_800_000_000_000;
  }

  /** An entry issued at most 22 hours ago is served without asking the registry, whatever the jitter. */
  lemma NoEarlyRefetch(env: Env, acts: seq<Action>, k: nat, did: string, call: nat, jitter: int)
    requires JITTER_LOW <= jitter < JITTER_HIGH
    requires did in Exec(env, acts).cache && IssuedAt(env, acts, k, Exec(env, acts).cache[did])
    requires Exec(env, acts).now - acts[k].readAgainAt <= 79_200_000_000_000
    ensures Hit(Exec(env, acts), did, jitter)
    ensures Exec(env, acts + [Request(call, did, jitter)]) == Exec(env, acts)
  {
    var s := Exec(env, acts);
    RefreshWindow(s.cache[did], acts[k].readAgainAt, s.now);
    assert Fresh(s.cache[did], s.now, jitter);
    InitOfSnoc(acts, Request(call, did, jitter));
  }

  // ---- The client object ----

  datatype Response = Success(answer: Option<SignedAttestation>) | NotFound | Failed(error: string)

  class HttpAgentRegistry {
    const env: Env
    var cache: map<string, SignedAttestation>

    constructor (env: Env)
      ensures this.env == env && cache == map[]
    {
      this.env := env;
      cache := map[];
    }

    predicate IsCacheFresh(a: SignedAttestation, now: int, jitter: int) {
      if a.claim.expiresAt <= now then false
      else
        var refreshAt := a.claim.expiresAt - jitter * SECOND;
        now < refreshAt
    }

    /**
     * checkedAt and jitter belong to the cache check; response is what the network returned, looked
     * at only on a miss, and receivedAt the time at which it is verified.
     */
    method GetAttestation(did: string, checkedAt: int, jitter: int, response: Response, receivedAt: int)
      returns (r: Result<Option<SignedAttestation>, string>)
      modifies this
      ensures var hit := did in old(cache) && Fresh(old(cache)[did], checkedAt, jitter);
              var trusted := && response.Success? && response.answer.Some?
                             && receivedAt <= response.answer.value.claim.expiresAt
                             && env.crypto.isKey(env.registryKey)
                             && env.crypto.verifies(env.registryKey, env.crypto.claimBytes(response.answer.value.claim),
                                                    response.answer.value.signature);
              && (hit ==> r == Ok(Some(old(cache)[did])))
              && (!hit && response.Failed? ==> r.Err?)
              && (!hit && (response.NotFound? || response == Success(None)) ==> r == Ok(None))
              && (!hit && response.Success? && response.answer.Some? ==>
                    if trusted then r == Ok(response.answer) else r.Err?)
              && cache == if !hit && trusted then old(cache)[did := response.answer.value] else old(cache)
      ensures response.Success? && checkedAt <= receivedAt ==>
                var asked := Step(env, State(checkedAt, map[], old(cache), map[]), Request(0, did, jitter));
                Step(env, Step(env, asked, Tick(receivedAt)), Receive(0, response.answer))
                == State(receivedAt, map[], cache, map[])
      ensures response.Failed? ==>
                var asked := Step(env, State(checkedAt, map[], old(cache), map[]), Request(0, did, jitter));
                Step(env, asked, Lose(0)) == State(checkedAt, map[], cache, map[])
    {
      if did in cache {
        var isFresh := IsCacheFresh(cache[did], checkedAt, jitter);
        if isFresh {
          return Ok(Some(cache[did]));
        }
      }
      match response {
        case Success(answer) =>
          if answer.Some? {
            VerifyExact(env.crypto, env.registryKey, answer.value, receivedAt);
            var verdict := Verify(env.crypto, env.registryKey, answer.value, receivedAt);
            if verdict.Err? {
              return Err("Attestation verification failed");
            }
            cache := cache[did := answer.value];
          }
          return Ok(answer);
        case NotFound =>
          return Ok(None);
        case Failed(error) =>
          return Err(error);
      }
    }
  }
}
