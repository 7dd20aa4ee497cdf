/**
 * The in-memory state backend with lazy expiry, and the stateless kernel over it.
 * Source: crates/core/os/src/lib.rs.
 */
module StateStore {
  import opened Common

  datatype Json = Null | Text(text: string) | Array(items: seq<Json>) | Object(fields: map<string, Json>)

  type Document = map<string, Json>

  // A stored value and, if it has one, the instant from which it is expired.
  datatype Slot = Slot(value: Document, expiresAt: Option<int>)

  type Store = map<string, Slot>

  datatype Event =
    | Fetch(key: string, at: int)
    | Put(key: string, value: Document, ttl: Option<nat>, at: int)   // ttl in seconds
    | Remove(key: string, at: int)

  predicate Live(s: Slot, now: int) {
    s.expiresAt.None? || now < s.expiresAt.value
  }

  function Read(store: Store, key: string, now: int): Option<Document> {
    if key in store && Live(store[key], now) then Some(store[key].value) else None
  }

  function Deadline(ttl: Option<nat>, now: int): Option<int> {
    match ttl case None => None case Some(t) => Some(now + t * SECOND)
  }

  function Step(store: Store, e: Event): Store {
    match e
    case Fetch(k, at) => if k in store && !Live(store[k], at) then store - {k} else store
    case Put(k, v, ttl, at) => store[k := Slot(v, Deadline(ttl, at))]
    case Remove(k, _) => store - {k}
  }

  function Exec(h: seq<Event>): Store {
    if h == [] then map[] else Step(Exec(Init(h)), Last(h))
  }

  predicate Timely(h: seq<Event>) {
    forall i, j | 0 <= i < j < |h| :: h[i].at <= h[j].at
  }

  // ---- The history's own answer ----

  /** The last event that wrote or deleted the key. */
  function LastWrite(h: seq<Event>, key: string): Option<Event> {
    if h == [] then None
    else if !Last(h).Fetch? && Last(h).key == key then Some(Last(h))
    else LastWrite(Init(h), key)
  }

  /** The last value set and not deleted since, if it has no time to live or that has not run out. */
  function Lookup(h: seq<Event>, key: string, now: int): Option<Document> {
    match LastWrite(h, key)
    case Some(Put(_, v, ttl, at)) => if ttl.None? || now < at + ttl.value * 1_000_000_000 then Some(v) else None
    case _ => None
  }

  /**
   * Lazy expiry is invisible: after any timed sequence of gets, sets and deletes, a read returns
   * what the history alone says, although gets remove expired entries and nothing else does.
   */
  lemma {:induction false} ReadsByHistory(h: seq<Event>, key: string, now: int)
    requires Timely(h) && forall i | 0 <= i < |h| :: h[i].at <= now
    ensures Read(Exec(h), key, now) == Lookup(h, key, now)
  {
    if h != [] {
      var p := Init(h);
      assert forall i | 0 <= i < |p| :: p[i] == h[i];
      assert Last(h).at == h[|h| - 1].at;
      ReadsByHistory(p, key, now);
    }
  }

  lemma ReadsByHistoryNext(h: seq<Event>, e: Event)
    requires Timely(h + [e])
    ensures Read(Exec(h), e.key, e.at) == Lookup(h, e.key, e.at)
  {
    var g := h + [e];
    assert forall i | 0 <= i < |h| :: h[i] == g[i] && g[i].at <= g[|h|].at;
    ReadsByHistory(h, e.key, e.at);
  }

  // ---- Policies ----

  datatype Policy = Policy(blockedActions: Option<seq<Json>>)

  /** The policy exists, has a list of blocked actions, and the list holds the action. */
  predicate Blocks(policies: map<string, Policy>, name: string, action: string) {
    name in policies && policies[name].blockedActions.Some? && Text(action) in policies[name].blockedActions.value
  }

  /** The first of the named policies that blocks the action. */
  function FirstBlocker(policies: map<string, Policy>, names: seq<string>, action: string): Option<string> {
    if names == [] then None
    else if Blocks(policies, names[0], action) then Some(names[0])
    else FirstBlocker(policies, names[1..], action)
  }

  lemma {:induction false} BlockedBySome(policies: map<string, Policy>, names: seq<string>, action: string)
    ensures FirstBlocker(policies, names, action).Some? <==>
              exists n | n in names :: && n in policies && policies[n].blockedActions.Some?
                                       && Text(action) in policies[n].blockedActions.value
  {
    if names != [] {
      BlockedBySome(policies, names[1..], action);
      assert names == [names[0]] + names[1..];
    }
  }

  /** Blocking depends only on which policies are named, and naming more can only block more. */
  lemma BlockingIsMonotone(policies: map<string, Policy>, names: seq<string>, more: seq<string>, action: string)
    requires forall n :: n in names ==> n in more
    ensures FirstBlocker(policies, names, action).Some? ==> FirstBlocker(policies, more, action).Some?
    ensures (forall n :: n in more ==> n in names) ==>
              (FirstBlocker(policies, names, action).Some? <==> FirstBlocker(policies, more, action).Some?)
  {
    BlockedBySome(policies, names, action);
    BlockedBySome(policies, more, action);
  }

  // ---- The objects ----

  class MemoryBackend {
    var store: Store
    // Every call so far, oldest first.
    ghost var history: seq<Event>

    ghost predicate Valid()
      reads this
    {
      store == Exec(history)
    }

    constructor ()
      ensures Valid() && history == []
    {
      store, history := map[], [];
    }

    /** The answer is what the backend's own history says, while the clock does not go back. */
    method Get(key: string, now: int) returns (r: Option<Document>)
      requires Valid()
      modifies this
      ensures Valid() && history == old(history) + [Fetch(key, now)]
      ensures r == Read(old(store), key, now)
      ensures Timely(history) ==> r == Lookup(old(history), key, now)
      ensures forall k, later :: now <= later ==> Read(store, k, later) == Read(old(store), k, later)
    {
      InitOfSnoc(history, Fetch(key, now));
      if Timely(history + [Fetch(key, now)]) {
        ReadsByHistoryNext(history, Fetch(key, now));
      }
      history := history + [Fetch(key, now)];
      if key in store {
        var slot := store[key];
        if slot.expiresAt.Some? {
          if now >= slot.expiresAt.value {
            store := store - {key};
            return None;
          }
        }
        return Some(slot.value);
      }
      return None;
    }

    method Set(key: string, value: Document, ttl: Option<nat>, now: int)
      requires Valid()
      modifies this
      ensures Valid() && history == old(history) + [Put(key, value, ttl, now)]
      ensures store == old(store)[key := Slot(value, if ttl.None? then None else Some(now + ttl.value * 1_000_000_000))]
    {
      InitOfSnoc(history, Put(key, value, ttl, now));
      history := history + [Put(key, value, ttl, now)];
      var expiry := match ttl case None => None case Some(t) => Some(now + t * SECOND);
      store := store[key := Slot(value, expiry)];
    }

    method Delete(key: string, now: int)
      requires Valid()
      modifies this
      ensures Valid() && history == old(history) + [Remove(key, now)]
      ensures store == old(store) - {key}
    {
      InitOfSnoc(history, Remove(key, now));
      history := history + [Remove(key, now)];
      store := store - {key};
    }
  }

  datatype ExecutionContext = ExecutionContext(agentId: string, policies: seq<string>, stateRef: Option<string>)

  datatype ExecutionResult = ExecutionResult(
    success: bool, data: Option<Json>, error: Option<string>, signal: Option<string>,
    updatedContext: Option<ExecutionContext>)

  class StatelessKernel {
    const backend: MemoryBackend
    const policies: map<string, Policy>

    constructor (backend: MemoryBackend, policies: map<string, Policy>)
      ensures this.backend == backend && this.policies == policies
    {
      this.backend, this.policies := backend, policies;
    }

    method CheckPolicies(action: string, names: seq<string>) returns (r: Result<(), string>)
      ensures r == match FirstBlocker(policies, names, action)
                   case None => Ok(())
                   case Some(n) => Err("Action '" + action + "' blocked by policy '" + n + "'")
      ensures r.Err? <==> exists n | n in names :: && n in policies && policies[n].blockedActions.Some?
                                                   && Text(action) in policies[n].blockedActions.value
    {
      BlockedBySome(policies, names, action);
      var i := 0;
      while i < |names|
        invariant 0 <= i <= |names|
        invariant FirstBlocker(policies, names, action) == FirstBlocker(policies, names[i..], action)
      {
        if names[i] in policies {
          var policy := policies[names[i]];
          if policy.blockedActions.Some? {
            if Text(action) in policy.blockedActions.value {
              return Err("Action '" + action + "' blocked by policy '" + names[i] + "'");
            }
          }
        }
        i := i + 1;
      }
      return Ok(());
    }

    /** The action itself is a placeholder in the source: it yields data and no state update. */
    method Execute(action: string, context: ExecutionContext, now: int) returns (r: ExecutionResult)
      requires backend.Valid()
      modifies backend
      ensures backend.Valid()
      ensures !r.success <==>
                exists n | n in context.policies :: && n in policies && policies[n].blockedActions.Some?
                                                    && Text(action) in policies[n].blockedActions.value
      ensures !r.success ==> r.signal == Some("SIGKILL") && r.data.None? && r.updatedContext.None?
      ensures r.success ==> r.error.None? && r.updatedContext == Some(context)
      ensures forall key, later :: now <= later ==> Read(backend.store, key, later) == Read(old(backend.store), key, later)
    {
      if context.stateRef.Some? {
        var _ := backend.Get(context.stateRef.value, now);
      }
      var checked := CheckPolicies(action, context.policies);
      if checked.Err? {
        return ExecutionResult(false, None, Some(checked.error), Some("SIGKILL"), None);
      }
      return ExecutionResult(true, Some(Object(map["status" := Text("executed")])), None, None, Some(context));
    }
  }
}
