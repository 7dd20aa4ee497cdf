/**
 * Shadow alerts: broadcast, bridged to the action log by a worker, and streamed to watchers as a
 * replay of the log followed by the live broadcast.
 * Source: the worker of run in crates/daemon/src/lib.rs, and watch_shadows of
 * crates/daemon/src/grpc/discovery.rs.
 */
module WatchShadows {
  import opened Common
  import opened Audit
  import opened ActionLog
  import Identity
  import Discovery
  import LogRecovery

  type DiscoveryEvent = Discovery.DiscoveryEvent

  // Serialisation of events into a record's outcome, and parsing back.
  datatype Codec = Codec(encode: DiscoveryEvent -> string, decode: string -> Option<DiscoveryEvent>)

  ghost predicate RoundTrips(codec: Codec) {
    forall e :: codec.decode(codec.encode(e)) == Some(e)
  }

  // ---- The system as a state machine ----

  // A log line; origin is the position on the broadcast channel of the alert it records, if it records one.
  datatype Line = Line(record: ActionLogRecord, origin: Option<nat>)

  datatype Phase = Idle | Waiting | Holding(at: int) | Stopped

  // How many events the broadcast channel keeps for a slow receiver, at least.
  const CAPACITY: nat := 100

  // The worker has consumed the channel from start up to next; Holding has also taken event next.
  // lost: the alerts it consumed and could not write.
  datatype Worker = Worker(phase: Phase, start: nat, next: nat, lost: set<nat>)

  // readAt: how many lines the log had when replay read it. from: how much had been sent at the subscribe.
  // The live part has come to next; dropped: the alerts the channel
  // had overwritten before it got there.
  datatype Watch =
    | Replayed(since: int, readAt: nat, replayed: seq<nat>)
    | Live(since: int, readAt: nat, replayed: seq<nat>, from: nat, next: nat, dropped: set<nat>)

  datatype State = State(discovery: Discovery.State, worker: Worker, log: seq<Line>, watches: map<nat, Watch>)

  datatype Action =
    | Discover(action: Discovery.Action)
    | WorkerStart
    | WorkerTake(at: int)
    | WorkerAppend(recordId: string)
    | WorkerAppendFails                 // no line is written; the worker goes on regardless
    | WorkerLags                        // too slow for the channel, the worker stops for good
    | OtherAppend(record: ActionLogRecord)
    | Replay(watch: nat, since: int)
    | Subscribe(watch: nat)
    | Deliver(watch: nat)               // the live part passes on its next event
    | Overrun(watch: nat, kept: nat)    // the channel kept only the last events; the live part goes on with them

  const INITIAL: State := State(Discovery.INITIAL, Worker(Idle, 0, 0, {}), [], map[])

  /** The positions of the alerts that a replay from since finds in the log, in log order. */
  function ReplayFrom(log: seq<Line>, since: int): seq<nat> {
    if log == [] then []
    else
      var l := Last(log);
      ReplayFrom(Init(log), since) + if l.origin.Some? && l.record.timestamp >= since then [l.origin.value] else []
  }

  function AlertRecord(codec: Codec, event: DiscoveryEvent, at: int, recordId: string): ActionLogRecord {
    ActionLogRecord(recordId, Identity.PrintDid(event.agent.did), "discovery_alert", Unknown, at,
                    Discovered(codec.encode(event)), "")
  }

  function Step(codec: Codec, s: State, a: Action): State {
    match a
    case Discover(d) => s.(discovery := Discovery.Step(s.discovery, d))
    case WorkerStart =>
      if !s.worker.phase.Idle? then s
      else s.(worker := Worker(Waiting, |s.discovery.sent|, |s.discovery.sent|, {}))
    case WorkerTake(at) =>
      var w := s.worker;
      if !w.phase.Waiting? || w.next >= |s.discovery.sent| || at < s.discovery.now then s
      else if s.discovery.sent[w.next].Shadow?
      then s.(worker := w.(phase := Holding(at)), discovery := s.discovery.(now := at))
      else s.(worker := w.(next := w.next + 1))
    case WorkerAppend(id) =>
      var w := s.worker;
      if !w.phase.Holding? || w.next >= |s.discovery.sent| then s
      else s.(log := s.log + [Line(AlertRecord(codec, s.discovery.sent[w.next], w.phase.at, id), Some(w.next))],
              worker := w.(phase := Waiting, next := w.next + 1))
    case WorkerAppendFails =>
      var w := s.worker;
      if !w.phase.Holding? then s
      else s.(worker := w.(phase := Waiting, next := w.next + 1, lost := w.lost + {w.next}))
    case WorkerLags =>
      if !s.worker.phase.Waiting? || s.worker.next + CAPACITY >= |s.discovery.sent| then s
      else s.(worker := s.worker.(phase := Stopped))
    case OtherAppend(r) => if r.outcome.Discovered? then s else s.(log := s.log + [Line(r, None)])
    case Replay(w, since) =>
      if w in s.watches then s
      else s.(watches := s.watches[w := Replayed(since, |s.log|, ReplayFrom(s.log, since))])
    case Subscribe(w) =>
      if w !in s.watches || s.watches[w].Live? then s
      else
        var r := s.watches[w];
        s.(watches := s.watches[w := Live(r.since, r.readAt, r.replayed, |s.discovery.sent|, |s.discovery.sent|, {})])
    case Deliver(w) =>
      if w !in s.watches || !s.watches[w].Live? || s.watches[w].next >= |s.discovery.sent| then s
      else s.(watches := s.watches[w := s.watches[w].(next := s.watches[w].next + 1)])
    case Overrun(w, kept) =>
      if w !in s.watches || !s.watches[w].Live? || kept < CAPACITY || s.watches[w].next + kept >= |s.discovery.sent| then s
      else
        var r, next := s.watches[w], |s.discovery.sent| - kept;
        s.(watches := s.watches[w := r.(next := next, dropped := r.dropped + AlertsSent(s.discovery.sent, r.next, next))])
  }

  /** The positions of the alerts sent from lo on and before hi. */
  function AlertsSent(sent: seq<DiscoveryEvent>, lo: nat, hi: nat): set<nat>
    requires hi <= |sent|
  {
    set n: nat | lo <= n < hi && sent[n].Shadow?
  }

  function Exec(codec: Codec, acts: seq<Action>): State {
    if acts == [] then INITIAL else Step(codec, Exec(codec, Init(acts)), Last(acts))
  }

  // ---- Invariants ----

  /** The latest timestamp an alert line can carry so far. */
  function Horizon(s: State): int {
    if s.worker.phase.Holding? then s.worker.phase.at else s.discovery.now
  }

  predicate SentInv(s: State) {
    forall n | 0 <= n < |s.discovery.sent| :: s.discovery.sent[n].agent.lastSeen <= s.discovery.now
  }

  predicate WorkerInv(s: State) {
    var w := s.worker;
    && w.start <= w.next <= |s.discovery.sent|
    && (w.phase.Holding? ==>
          && w.next < |s.discovery.sent| && s.discovery.sent[w.next].Shadow?
          && s.discovery.sent[w.next].agent.lastSeen <= w.phase.at <= s.discovery.now)
    && (w.phase.Idle? ==> w.start == w.next == 0)
    && forall n | n in w.lost :: w.start <= n < w.next
  }

  /** Each alert line records the alert at its origin, no earlier than the alert was seen. */
  predicate LineInv(codec: Codec, s: State, i: nat)
    requires i < |s.log|
  {
    match s.log[i].origin
    case None => !s.log[i].record.outcome.Discovered?
    case Some(n) =>
      && s.worker.start <= n < s.worker.next && n < |s.discovery.sent|
      && s.discovery.sent[n].Shadow?
      && s.log[i].record.outcome == Discovered(codec.encode(s.discovery.sent[n]))
      && s.discovery.sent[n].agent.lastSeen <= s.log[i].record.timestamp <= Horizon(s)
  }

  predicate LinesInv(codec: Codec, s: State) {
    && (forall i: nat | i < |s.log| :: LineInv(codec, s, i))
    && (forall i, j | 0 <= i < j < |s.log| && s.log[i].origin.Some? && s.log[j].origin.Some? ::
          s.log[i].origin.value < s.log[j].origin.value && s.log[i].record.timestamp <= s.log[j].record.timestamp)
  }

  ghost predicate HasLine(log: seq<Line>, n: nat) {
    exists i | 0 <= i < |log| :: log[i].origin == Some(n)
  }

  /** Every alert the worker has consumed is in the log, or was lost to a failed append. */
  ghost predicate CompleteInv(s: State) {
    forall n: nat | s.worker.start <= n < s.worker.next && n < |s.discovery.sent| && s.discovery.sent[n].Shadow? ::
      HasLine(s.log, n) <==> n !in s.worker.lost
  }

  predicate WatchInv(s: State, w: Watch) {
    && w.readAt <= |s.log|
    && w.replayed == ReplayFrom(s.log[..w.readAt], w.since)
    && (w.Live? ==>
          && w.from <= w.next <= |s.discovery.sent|
          && (forall n | n in w.dropped :: w.from <= n < w.next && n + CAPACITY < |s.discovery.sent|)
          && forall i | 0 <= i < w.readAt && s.log[i].origin.Some? :: s.log[i].origin.value < w.from)
  }

  predicate WatchesInv(s: State) {
    forall w | w in s.watches :: WatchInv(s, s.watches[w])
  }

  ghost predicate Inv(codec: Codec, s: State) {
    SentInv(s) && WorkerInv(s) && LinesInv(codec, s) && CompleteInv(s) && WatchesInv(s)
  }

  lemma DiscoveryStepGrows(d: Discovery.State, a: Discovery.Action)
    requires forall n | 0 <= n < |d.sent| :: d.sent[n].agent.lastSeen <= d.now
    requires forall k | k in d.agents :: d.agents[k].lastSeen <= d.now
    ensures var e := Discovery.Step(d, a);
            && d.sent <= e.sent && d.now <= e.now
            && forall n | 0 <= n < |e.sent| :: e.sent[n].agent.lastSeen <= e.now
  {
  }

  /** The channel and the clock move on; the worker, the log and the watches stay. */
  lemma InvDiscover(codec: Codec, s: State, t: State)
    requires Inv(codec, s) && t == s.(discovery := t.discovery)
    requires s.discovery.sent <= t.discovery.sent && s.discovery.now <= t.discovery.now && SentInv(t)
    ensures Inv(codec, t)
  {
    assert forall n | 0 <= n < |s.discovery.sent| :: t.discovery.sent[n] == s.discovery.sent[n];
    forall i: nat | i < |t.log| ensures LineInv(codec, t, i) {
      assert LineInv(codec, s, i);
    }
    forall w | w in t.watches ensures WatchInv(t, t.watches[w]) {
      assert WatchInv(s, s.watches[w]);
    }
  }

  lemma InvStart(codec: Codec, s: State)
    requires Inv(codec, s) && s.worker.phase.Idle?
    ensures Inv(codec, Step(codec, s, WorkerStart))
  {
    var t := Step(codec, s, WorkerStart);
    forall i: nat | i < |t.log| ensures LineInv(codec, t, i) {
      assert LineInv(codec, s, i);
    }
    forall w | w in t.watches ensures WatchInv(t, t.watches[w]) {
      assert WatchInv(s, s.watches[w]);
    }
  }

  /** The worker takes an alert. */
  lemma InvHold(codec: Codec, s: State, at: int)
    requires Inv(codec, s) && s.worker.phase.Waiting? && s.worker.next < |s.discovery.sent|
    requires s.discovery.sent[s.worker.next].Shadow? && s.discovery.now <= at
    ensures Inv(codec, s.(worker := s.worker.(phase := Holding(at)), discovery := s.discovery.(now := at)))
  {
    var t := s.(worker := s.worker.(phase := Holding(at)), discovery := s.discovery.(now := at));
    forall i: nat | i < |t.log| ensures LineInv(codec, t, i) {
      assert LineInv(codec, s, i);
    }
    forall w | w in t.watches ensures WatchInv(t, t.watches[w]) {
      assert WatchInv(s, s.watches[w]);
    }
  }

  /** The worker passes over an event that is no alert. */
  lemma InvSkip(codec: Codec, s: State)
    requires Inv(codec, s) && s.worker.phase.Waiting? && s.worker.next < |s.discovery.sent|
    requires !s.discovery.sent[s.worker.next].Shadow?
    ensures Inv(codec, s.(worker := s.worker.(next := s.worker.next + 1)))
  {
    var t := s.(worker := s.worker.(next := s.worker.next + 1));
    forall i: nat | i < |t.log| ensures LineInv(codec, t, i) {
      assert LineInv(codec, s, i);
    }
    forall w | w in t.watches ensures WatchInv(t, t.watches[w]) {
      assert WatchInv(s, s.watches[w]);
    }
  }

  lemma InvTake(codec: Codec, s: State, at: int)
    requires Inv(codec, s)
    ensures Inv(codec, Step(codec, s, WorkerTake(at)))
  {
    if s.worker.phase.Waiting? && s.worker.next < |s.discovery.sent| && s.discovery.now <= at {
      if s.discovery.sent[s.worker.next].Shadow? {
        InvHold(codec, s, at);
      } else {
        InvSkip(codec, s);
      }
    }
  }

  lemma HasLineOfSnoc(log: seq<Line>, l: Line, n: nat)
    ensures HasLine(log + [l], n) <==> HasLine(log, n) || l.origin == Some(n)
  {
    if HasLine(log, n) {
      var i :| 0 <= i < |log| && log[i].origin == Some(n);
      assert (log + [l])[i].origin == Some(n);
    }
    if l.origin == Some(n) {
      assert (log + [l])[|log|].origin == Some(n);
    }
  }

  lemma WatchesKept(s: State, t: State, l: Line)
    requires WatchesInv(s) && t.log == s.log + [l] && t.watches == s.watches && t.discovery == s.discovery
    ensures WatchesInv(t)
  {
    forall w | w in t.watches ensures WatchInv(t, t.watches[w]) {
      assert WatchInv(s, s.watches[w]);
      assert t.log[..t.watches[w].readAt] == s.log[..t.watches[w].readAt];
    }
  }

  lemma InvAppend(codec: Codec, s: State, id: string)
    requires Inv(codec, s) && s.worker.phase.Holding?
    ensures Inv(codec, Step(codec, s, WorkerAppend(id)))
  {
    var t := Step(codec, s, WorkerAppend(id));
    var l := t.log[|s.log|];
    forall i: nat | i < |t.log| ensures LineInv(codec, t, i) {
      if i < |s.log| {
        assert LineInv(codec, s, i);
      }
    }
    forall i, j | 0 <= i < j < |t.log| && t.log[i].origin.Some? && t.log[j].origin.Some?
      ensures t.log[i].origin.value < t.log[j].origin.value && t.log[i].record.timestamp <= t.log[j].record.timestamp
    {
      assert LineInv(codec, s, i);
    }
    forall n: nat | t.worker.start <= n < t.worker.next && n < |t.discovery.sent| && t.discovery.sent[n].Shadow?
      ensures HasLine(t.log, n) <==> n !in t.worker.lost
    {
      HasLineOfSnoc(s.log, l, n);
    }
    WatchesKept(s, t, l);
  }

  lemma InvAppendFails(codec: Codec, s: State)
    requires Inv(codec, s) && s.worker.phase.Holding?
    ensures Inv(codec, Step(codec, s, WorkerAppendFails))
  {
    var t := Step(codec, s, WorkerAppendFails);
    forall i: nat | i < |t.log| ensures LineInv(codec, t, i) {
      assert LineInv(codec, s, i);
    }
    forall i: nat | i < |s.log| ensures s.log[i].origin != Some(s.worker.next) {
      assert LineInv(codec, s, i);
    }
    forall w | w in t.watches ensures WatchInv(t, t.watches[w]) {
      assert WatchInv(s, s.watches[w]);
    }
  }

  lemma InvOther(codec: Codec, s: State, r: ActionLogRecord)
    requires Inv(codec, s) && !r.outcome.Discovered?
    ensures Inv(codec, Step(codec, s, OtherAppend(r)))
  {
    var t := Step(codec, s, OtherAppend(r));
    forall i: nat | i < |t.log| ensures LineInv(codec, t, i) {
      if i < |s.log| {
        assert LineInv(codec, s, i);
      }
    }
    forall n: nat | t.worker.start <= n < t.worker.next && n < |t.discovery.sent| && t.discovery.sent[n].Shadow?
      ensures HasLine(t.log, n) <==> n !in t.worker.lost
    {
      HasLineOfSnoc(s.log, Line(r, None), n);
    }
    WatchesKept(s, t, Line(r, None));
  }

  lemma InvWatch(codec: Codec, s: State, a: Action)
    requires Inv(codec, s) && (a.Replay? || a.Subscribe?)
    ensures Inv(codec, Step(codec, s, a))
  {
    var t := Step(codec, s, a);
    forall i: nat | i < |t.log| ensures LineInv(codec, t, i) {
      assert LineInv(codec, s, i);
    }
    forall w | w in t.watches ensures WatchInv(t, t.watches[w]) {
      if w in s.watches {
        assert WatchInv(s, s.watches[w]);
        forall i: nat | i < s.watches[w].readAt && s.log[i].origin.Some? ensures s.log[i].origin.value < |s.discovery.sent| {
          assert LineInv(codec, s, i);
        }
      } else {
        assert s.log[..|s.log|] == s.log;
      }
    }
  }

  /** Only the live part of one watch moves on. */
  lemma InvLive(codec: Codec, s: State, w: nat, next: nat, dropped: set<nat>)
    requires Inv(codec, s) && w in s.watches && s.watches[w].Live?
    requires s.watches[w].next <= next <= |s.discovery.sent|
    requires forall n | n in dropped :: s.watches[w].from <= n < next && n + CAPACITY < |s.discovery.sent|
    ensures Inv(codec, s.(watches := s.watches[w := s.watches[w].(next := next, dropped := dropped)]))
  {
    var t := s.(watches := s.watches[w := s.watches[w].(next := next, dropped := dropped)]);
    forall i: nat | i < |t.log| ensures LineInv(codec, t, i) {
      assert LineInv(codec, s, i);
    }
    forall v | v in t.watches ensures WatchInv(t, t.watches[v]) {
      assert WatchInv(s, s.watches[v]);
    }
  }

  lemma InvDeliver(codec: Codec, s: State, w: nat)
    requires Inv(codec, s)
    ensures Inv(codec, Step(codec, s, Deliver(w)))
  {
    if w in s.watches && s.watches[w].Live? && s.watches[w].next < |s.discovery.sent| {
      assert WatchInv(s, s.watches[w]);
      InvLive(codec, s, w, s.watches[w].next + 1, s.watches[w].dropped);
    }
  }

  lemma InvOverrun(codec: Codec, s: State, w: nat, kept: nat)
    requires Inv(codec, s)
    ensures Inv(codec, Step(codec, s, Overrun(w, kept)))
  {
    if w in s.watches && s.watches[w].Live? && CAPACITY <= kept && s.watches[w].next + kept < |s.discovery.sent| {
      var watch, next := s.watches[w], |s.discovery.sent| - kept;
      assert WatchInv(s, watch);
      InvLive(codec, s, w, next, watch.dropped + AlertsSent(s.discovery.sent, watch.next, next));
    }
  }

  predicate AgentsInv(s: State) {
    forall k | k in s.discovery.agents :: s.discovery.agents[k].lastSeen <= s.discovery.now
  }

  lemma {:induction false} AgentsInvAlways(codec: Codec, acts: seq<Action>)
    ensures AgentsInv(Exec(codec, acts))
  {
    if acts != [] {
      AgentsInvAlways(codec, Init(acts));
    }
  }

  lemma {:induction false} InvAlways(codec: Codec, acts: seq<Action>)
    ensures Inv(codec, Exec(codec, acts))
  {
    if acts != [] {
      InvAlways(codec, Init(acts));
      AgentsInvAlways(codec, Init(acts));
      var s, t := Exec(codec, Init(acts)), Exec(codec, acts);
      match Last(acts) {
        case Discover(d) =>
          DiscoveryStepGrows(s.discovery, d);
          InvDiscover(codec, s, t);
        case WorkerStart => if s.worker.phase.Idle? { InvStart(codec, s); }
        case WorkerTake(at) => InvTake(codec, s, at);
        case WorkerAppend(id) => if s.worker.phase.Holding? { InvAppend(codec, s, id); }
        case WorkerAppendFails => if s.worker.phase.Holding? { InvAppendFails(codec, s); }
        case WorkerLags => InvLags(codec, s);
        case OtherAppend(r) => if !r.outcome.Discovered? { InvOther(codec, s, r); }
        case Replay(_, _) => InvWatch(codec, s, Last(acts));
        case Subscribe(_) => InvWatch(codec, s, Last(acts));
        case Deliver(w) => InvDeliver(codec, s, w);
        case Overrun(w, kept) => InvOverrun(codec, s, w, kept);
      }
    }
  }

  lemma InvLags(codec: Codec, s: State)
    requires Inv(codec, s)
    ensures Inv(codec, Step(codec, s, WorkerLags))
  {
    var t := Step(codec, s, WorkerLags);
    forall i: nat | i < |t.log| ensures LineInv(codec, t, i) {
      assert LineInv(codec, s, i);
    }
    forall w | w in t.watches ensures WatchInv(t, t.watches[w]) {
      assert WatchInv(s, s.watches[w]);
    }
  }

  // ---- What a watcher sees ----

  /** The alert at position n of the channel is part of the stream: replayed, passed on, or about to be. */
  predicate InStream(s: State, w: Watch, n: nat) {
    || n in w.replayed
    || (w.Live? && w.from <= n < |s.discovery.sent| && n !in w.dropped && s.discovery.sent[n].Shadow?)
  }

  lemma {:induction false} ReplayFromExact(log: seq<Line>, since: int, n: nat)
    ensures n in ReplayFrom(log, since) <==>
            exists i | 0 <= i < |log| :: log[i].origin == Some(n) && log[i].record.timestamp >= since
  {
    if log != [] {
      var p := Init(log);
      ReplayFromExact(p, since, n);
      if i :| 0 <= i < |log| && log[i].origin == Some(n) && log[i].record.timestamp >= since {
        if i < |p| {
          assert p[i].origin == Some(n);
        }
      }
      if n in ReplayFrom(p, since) {
        var i :| 0 <= i < |p| && p[i].origin == Some(n) && p[i].record.timestamp >= since;
        assert log[i].origin == Some(n);
      } else if n in ReplayFrom(log, since) {
        assert log[|log| - 1].origin == Some(n);
      }
    }
  }

  /** No alert appears in both the replayed and the live part of one stream. */
  lemma NoAlertTwice(codec: Codec, acts: seq<Action>, w: nat, n: nat)
    requires w in Exec(codec, acts).watches && Exec(codec, acts).watches[w].Live?
    ensures !(n in Exec(codec, acts).watches[w].replayed && Exec(codec, acts).watches[w].from <= n)
  {
    InvAlways(codec, acts);
    var s := Exec(codec, acts);
    var watch := s.watches[w];
    assert WatchInv(s, watch);
    ReplayFromExact(s.log[..watch.readAt], watch.since, n);
  }

  /**
   * Which alerts a live watcher misses: among the alerts seen from its since time on, exactly those
   * sent before it subscribed that were not yet in the file when its replay read it, and those the
   * channel overwrote before it came to them, which takes at least 100 later events.
   */
  lemma MissedExactly(codec: Codec, acts: seq<Action>, w: nat, n: nat)
    requires w in Exec(codec, acts).watches && Exec(codec, acts).watches[w].Live?
    requires n < |Exec(codec, acts).discovery.sent| && Exec(codec, acts).discovery.sent[n].Shadow?
    requires Exec(codec, acts).discovery.sent[n].agent.lastSeen >= Exec(codec, acts).watches[w].since
    ensures var s := Exec(codec, acts);
            var watch := s.watches[w];
            && watch.readAt <= |s.log|
            && (!InStream(s, watch, n) <==>
                  (n < watch.from && !HasLine(s.log[..watch.readAt], n)) || n in watch.dropped)
            && (n in watch.dropped ==> n + 100 < |s.discovery.sent|)
  {
    InvAlways(codec, acts);
    var s := Exec(codec, acts);
    var watch := s.watches[w];
    assert WatchInv(s, watch);
    var read := s.log[..watch.readAt];
    ReplayFromExact(read, watch.since, n);
    if HasLine(read, n) {
      var i :| 0 <= i < |read| && read[i].origin == Some(n);
      assert LineInv(codec, s, i);
      assert read[i].record.timestamp >= watch.since;
    }
  }

  /** Action k starts the worker, for the first time. */
  predicate StartsAt(acts: seq<Action>, k: nat) {
    k < |acts| && acts[k].WorkerStart? && forall m | 0 <= m < k :: !acts[m].WorkerStart?
  }

  lemma {:induction false} IdleUntilStart(codec: Codec, acts: seq<Action>)
    ensures Exec(codec, acts).worker.phase.Idle? <==> forall m | 0 <= m < |acts| :: !acts[m].WorkerStart?
  {
    if acts != [] {
      IdleUntilStart(codec, Init(acts));
      assert acts == Init(acts) + [Last(acts)];
    }
  }

  /** The worker consumes the channel from where it was when the worker started. */
  lemma {:induction false} StartIsFixed(codec: Codec, acts: seq<Action>, k: nat)
    requires StartsAt(acts, k)
    ensures Exec(codec, acts).worker.start == |Exec(codec, acts[..k]).discovery.sent|
    decreases |acts|
  {
    IdleUntilStart(codec, Init(acts));
    if k < |acts| - 1 {
      PrefixOfInit(acts, k);
      StartIsFixed(codec, Init(acts), k);
      assert Init(acts)[k] == acts[k];
    } else {
      assert acts[..k] == Init(acts);
    }
  }

  /** The log never holds an alert sent before the worker subscribed, which is when it started. */
  lemma NothingBeforeStart(codec: Codec, acts: seq<Action>, k: nat, n: nat)
    requires StartsAt(acts, k) && n < |Exec(codec, acts[..k]).discovery.sent|
    ensures !HasLine(Exec(codec, acts).log, n)
  {
    var s := Exec(codec, acts);
    StartIsFixed(codec, acts, k);
    InvAlways(codec, acts);
    forall i: nat | i < |s.log| ensures s.log[i].origin != Some(n) {
      assert LineInv(codec, s, i);
    }
  }

  lemma ExecSnoc(codec: Codec, acts: seq<Action>, a: Action)
    ensures Exec(codec, acts + [a]) == Step(codec, Exec(codec, acts), a)
  {
    InitOfSnoc(acts, a);
  }

  function Deliveries(w: nat, k: nat): seq<Action> {
    if k == 0 then [] else Deliveries(w, k - 1) + [Deliver(w)]
  }

  /** The state with k more events passed on to the watch. */
  function Passed(s: State, w: nat, k: nat): State
    requires w in s.watches && s.watches[w].Live?
  {
    s.(watches := s.watches[w := s.watches[w].(next := s.watches[w].next + k)])
  }

  lemma DeliverPasses(codec: Codec, s: State, w: nat, k: nat)
    requires w in s.watches && s.watches[w].Live? && s.watches[w].next + k < |s.discovery.sent|
    ensures Step(codec, Passed(s, w, k), Deliver(w)) == Passed(s, w, k + 1)
  {
  }

  /** A live stream that is let run comes to the end of the channel and drops nothing more on the way. */
  lemma {:induction false} CatchesUp(codec: Codec, acts: seq<Action>, s: State, w: nat, k: nat)
    requires s == Exec(codec, acts) && w in s.watches && s.watches[w].Live?
    requires s.watches[w].next + k <= |s.discovery.sent|
    ensures Exec(codec, acts + Deliveries(w, k)) == Passed(s, w, k)
  {
    if k == 0 {
      assert acts + Deliveries(w, k) == acts;
    } else {
      CatchesUp(codec, acts, s, w, k - 1);
      var before := acts + Deliveries(w, k - 1);
      assert acts + Deliveries(w, k) == before + [Deliver(w)];
      ExecSnoc(codec, before, Deliver(w));
      DeliverPasses(codec, s, w, k - 1);
    }
  }

  /** At action k the append of alert n fails. */
  predicate LosesAt(codec: Codec, acts: seq<Action>, k: nat, n: nat) {
    k < |acts| && LosesNow(Exec(codec, acts[..k]), acts[k], n)
  }

  /** At action k the channel has gone on by at least 100 events since alert n, which watch w has not come to. */
  predicate OverrunsAt(codec: Codec, acts: seq<Action>, k: nat, w: nat, n: nat) {
    && k < |acts| && acts[k].Overrun? && acts[k].watch == w && acts[k].kept >= 100
    && var s := Exec(codec, acts[..k]);
    && w in s.watches && s.watches[w].Live?
    && s.watches[w].next <= n && n + acts[k].kept < |s.discovery.sent| && s.discovery.sent[n].Shadow?
  }

  lemma LosesKept(codec: Codec, acts: seq<Action>, n: nat)
    requires acts != []
    ensures (exists k: nat :: LosesAt(codec, acts, k, n)) <==>
              (exists k: nat :: LosesAt(codec, Init(acts), k, n)) || LosesNow(Exec(codec, Init(acts)), Last(acts), n)
  {
    assert acts[..|acts| - 1] == Init(acts);
    if k: nat :| LosesAt(codec, acts, k, n) && k < |acts| - 1 {
      PrefixOfInit(acts, k);
      assert LosesAt(codec, Init(acts), k, n);
    }
    if k: nat :| LosesAt(codec, Init(acts), k, n) {
      PrefixOfInit(acts, k);
      assert LosesAt(codec, acts, k, n);
    }
    assert LosesAt(codec, acts, |acts| - 1, n) <==> LosesNow(Exec(codec, Init(acts)), Last(acts), n);
  }

  /** The alerts lost to the log are exactly those whose append failed. */
  lemma {:induction false} LostExactly(codec: Codec, acts: seq<Action>, n: nat)
    ensures n in Exec(codec, acts).worker.lost <==> exists k: nat :: LosesAt(codec, acts, k, n)
  {
    if acts != [] {
      LostExactly(codec, Init(acts), n);
      LosesKept(codec, acts, n);
      InvAlways(codec, Init(acts));
      LostStep(codec, Exec(codec, Init(acts)), Last(acts), n);
    }
  }

  predicate LosesNow(s: State, a: Action, n: nat) {
    a.WorkerAppendFails? && s.worker.phase.Holding? && s.worker.next == n
  }

  lemma LostStep(codec: Codec, s: State, a: Action, n: nat)
    requires WorkerInv(s)
    ensures n in Step(codec, s, a).worker.lost <==> n in s.worker.lost || LosesNow(s, a, n)
  {
  }

  /** The alerts dropped from a live stream are exactly those it was overrun at. */
  lemma {:induction false} DroppedExactly(codec: Codec, acts: seq<Action>, w: nat, n: nat)
    ensures (&& w in Exec(codec, acts).watches && Exec(codec, acts).watches[w].Live?
             && n in Exec(codec, acts).watches[w].dropped) <==> exists k: nat :: OverrunsAt(codec, acts, k, w, n)
  {
    if acts != [] {
      DroppedExactly(codec, Init(acts), w, n);
      assert acts[..|acts| - 1] == Init(acts);
      if k: nat :| OverrunsAt(codec, acts, k, w, n) && k < |acts| - 1 {
        PrefixOfInit(acts, k);
        assert OverrunsAt(codec, Init(acts), k, w, n);
      }
      if k: nat :| OverrunsAt(codec, Init(acts), k, w, n) {
        PrefixOfInit(acts, k);
        assert OverrunsAt(codec, acts, k, w, n);
      }
      DroppedStep(codec, acts, w, n);
    }
  }

  lemma DroppedStep(codec: Codec, acts: seq<Action>, w: nat, n: nat)
    requires acts != []
    ensures var s, t := Exec(codec, Init(acts)), Exec(codec, acts);
            (w in t.watches && t.watches[w].Live? && n in t.watches[w].dropped) <==>
              || (w in s.watches && s.watches[w].Live? && n in s.watches[w].dropped)
              || OverrunsAt(codec, acts, |acts| - 1, w, n)
  {
    assert acts[..|acts| - 1] == Init(acts);
  }

  /** The worker has stopped exactly if it once fell more than 100 events behind the channel. */
  lemma {:induction false} StoppedExactly(codec: Codec, acts: seq<Action>)
    ensures Exec(codec, acts).worker.phase.Stopped? <==> exists k: nat :: LagsAt(codec, acts, k)
  {
    if acts != [] {
      StoppedExactly(codec, Init(acts));
      StoppedStep(codec, Exec(codec, Init(acts)), Last(acts));
      assert acts[..|acts| - 1] == Init(acts);
      if k: nat :| LagsAt(codec, acts, k) && k < |acts| - 1 {
        PrefixOfInit(acts, k);
        assert LagsAt(codec, Init(acts), k);
      }
      if k: nat :| LagsAt(codec, Init(acts), k) {
        PrefixOfInit(acts, k);
        assert LagsAt(codec, acts, k);
      }
      assert LagsAt(codec, acts, |acts| - 1) <==> LagsNow(Exec(codec, Init(acts)), Last(acts));
    }
  }

  predicate LagsNow(s: State, a: Action) {
    a.WorkerLags? && s.worker.phase.Waiting? && s.worker.next + 100 < |s.discovery.sent|
  }

  predicate LagsAt(codec: Codec, acts: seq<Action>, k: nat) {
    k < |acts| && LagsNow(Exec(codec, acts[..k]), acts[k])
  }

  lemma StoppedStep(codec: Codec, s: State, a: Action)
    ensures Step(codec, s, a).worker.phase.Stopped? <==> s.worker.phase.Stopped? || LagsNow(s, a)
  {
  }

  /** An agent is seen, a watch replays and subscribes, and only then the worker writes the alert to the log. */
  function GapRun(report: Discovery.Action, since: int, at: int, id: string): seq<Action> {
    [WorkerStart, Discover(report), Replay(0, since), Subscribe(0), WorkerTake(at), WorkerAppend(id)]
  }

  /** The gap between replay and subscription is real: an alert reaches the log and not the stream that asked for it. */
  lemma GapMissesAlert(codec: Codec, report: Discovery.Action, since: int, at: int, id: string)
    requires report.Report? && 0 <= report.insertedAt <= report.seenAt <= at && since <= report.seenAt
    ensures var s := Exec(codec, GapRun(report, since, at, id));
            && |s.discovery.sent| == 1 && s.discovery.sent[0].Shadow?
            && 0 in s.watches && s.watches[0].Live? && s.discovery.sent[0].agent.lastSeen >= s.watches[0].since
            && HasLine(s.log, 0) && !InStream(s, s.watches[0], 0)
  {
    var a6 := GapRun(report, since, at, id);
    var a5, a4, a3, a2, a1 := a6[..5], a6[..4], a6[..3], a6[..2], a6[..1];
    assert Init(a6) == a5 && Init(a5) == a4 && Init(a4) == a3 && Init(a3) == a2 && Init(a2) == a1 && Init(a1) == [];
    assert Exec(codec, a1) == INITIAL.(worker := Worker(Waiting, 0, 0, {}));
    var seen := Discovery.Step(Discovery.INITIAL, report);
    assert Exec(codec, a2) == INITIAL.(worker := Worker(Waiting, 0, 0, {}), discovery := seen);
    assert |seen.sent| == 1 && seen.sent[0].Shadow? && seen.now == report.seenAt;
    assert Exec(codec, a4) == Exec(codec, a2).(watches := map[0 := Live(since, 0, [], 1, 1, {})]);
    assert Exec(codec, a5).worker.phase == Holding(at);
    assert Exec(codec, a6).log[0].origin == Some(0);
  }

  /** A sublist of log positions in log order. */
  predicate Ascending(ns: seq<nat>) {
    forall i, j | 0 <= i < j < |ns| :: ns[i] < ns[j]
  }

  lemma {:induction false} ReplayAscends(log: seq<Line>, since: int)
    requires forall i, j | 0 <= i < j < |log| && log[i].origin.Some? && log[j].origin.Some? ::
               log[i].origin.value < log[j].origin.value
    ensures Ascending(ReplayFrom(log, since))
  {
    if log != [] {
      var p, l := Init(log), Last(log);
      assert forall i | 0 <= i < |p| :: p[i] == log[i];
      ReplayAscends(p, since);
      if l.origin.Some? {
        forall k | 0 <= k < |ReplayFrom(p, since)| ensures ReplayFrom(p, since)[k] < l.origin.value {
          ReplayFromExact(p, since, ReplayFrom(p, since)[k]);
          var i :| 0 <= i < |p| && p[i].origin == Some(ReplayFrom(p, since)[k]);
          assert log[i].origin.value < log[|log| - 1].origin.value;
        }
      }
    }
  }

  /**
   * Resuming. A watch whose since is the detected time of an alert already in the log replays that
   * alert and every alert logged after it, in log order.
   */
  lemma ResumeIsComplete(codec: Codec, acts: seq<Action>, w: nat, i: nat, j: nat)
    requires w in Exec(codec, acts).watches && i <= j < Exec(codec, acts).watches[w].readAt <= |Exec(codec, acts).log|
    requires Exec(codec, acts).log[i].origin.Some? && Exec(codec, acts).log[j].origin.Some?
    requires Exec(codec, acts).log[i].origin.value < |Exec(codec, acts).discovery.sent|
    requires Exec(codec, acts).watches[w].since
             == Exec(codec, acts).discovery.sent[Exec(codec, acts).log[i].origin.value].agent.lastSeen
    ensures Exec(codec, acts).log[j].origin.value in Exec(codec, acts).watches[w].replayed
    ensures Ascending(Exec(codec, acts).watches[w].replayed)
  {
    InvAlways(codec, acts);
    ReplayCovers(codec, Exec(codec, acts), Exec(codec, acts).watches[w], i, j);
  }

  lemma ReplayCovers(codec: Codec, s: State, watch: Watch, i: nat, j: nat)
    requires LinesInv(codec, s) && WatchInv(s, watch) && i <= j < watch.readAt
    requires s.log[i].origin.Some? && s.log[j].origin.Some? && s.log[i].origin.value < |s.discovery.sent|
    requires watch.since == s.discovery.sent[s.log[i].origin.value].agent.lastSeen
    ensures s.log[j].origin.value in watch.replayed && Ascending(watch.replayed)
  {
    var read := s.log[..watch.readAt];
    assert LineInv(codec, s, i);
    assert s.log[j].record.timestamp >= watch.since;
    assert read[j] == s.log[j];
    ReplayFromExact(read, watch.since, s.log[j].origin.value);
    ReplayAscends(read, watch.since);
  }

  /** Of the alerts the worker has consumed, the log holds exactly those whose append did not fail. */
  lemma BridgeIsComplete(codec: Codec, acts: seq<Action>, n: nat)
    requires Exec(codec, acts).worker.start <= n < Exec(codec, acts).worker.next
    requires n < |Exec(codec, acts).discovery.sent| && Exec(codec, acts).discovery.sent[n].Shadow?
    ensures HasLine(Exec(codec, acts).log, n) <==> n !in Exec(codec, acts).worker.lost
  {
    InvAlways(codec, acts);
  }

  // ---- The replay loop and the worker's append, on the log object ----

  /** The alert that an outcome's text parses to, if it is a discovery outcome and parses to one. */
  function AlertIn(codec: Codec, outcome: ActionOutcome): seq<Discovery.DiscoveredAgent> {
    if !outcome.Discovered? then []
    else
      var event := codec.decode(outcome.eventJson);
      if event.Some? && event.value.Shadow? then [event.value.agent] else []
  }

  function AlertsOf(codec: Codec, records: seq<ActionLogRecord>): seq<Discovery.DiscoveredAgent> {
    if records == [] then [] else AlertsOf(codec, Init(records)) + AlertIn(codec, Last(records).outcome)
  }

  function RecordsIn(log: seq<Line>): seq<ActionLogRecord> {
    seq(|log|, i requires 0 <= i < |log| => log[i].record)
  }

  lemma AlertsOfSnoc(codec: Codec, records: seq<ActionLogRecord>, r: ActionLogRecord)
    ensures AlertsOf(codec, records + [r]) == AlertsOf(codec, records) + AlertIn(codec, r.outcome)
  {
    InitOfSnoc(records, r);
  }

  lemma SinceOfSnoc(records: seq<ActionLogRecord>, r: ActionLogRecord, since: int)
    ensures Since(records + [r], since)
            == if r.timestamp >= since then Since(records, since) + [r] else Since(records, since)
  {
    InitOfSnoc(records, r);
  }

  lemma ReplayFromSnoc(log: seq<Line>, l: Line, since: int)
    ensures ReplayFrom(log + [l], since)
            == if l.origin.Some? && l.record.timestamp >= since then ReplayFrom(log, since) + [l.origin.value]
               else ReplayFrom(log, since)
  {
    InitOfSnoc(log, l);
  }

  /** alerts are, one for one, the alerts at these positions of the channel. */
  predicate AlertsAt(s: State, ns: seq<nat>, alerts: seq<Discovery.DiscoveredAgent>) {
    && |alerts| == |ns|
    && forall k | 0 <= k < |ns| :: ns[k] < |s.discovery.sent| && alerts[k] == s.discovery.sent[ns[k]].agent
  }

  /** The line's record and origin name the same alert, or neither is one. */
  predicate Matches(codec: Codec, s: State, l: Line) {
    match l.origin
    case None => !l.record.outcome.Discovered?
    case Some(n) =>
      && n < |s.discovery.sent| && s.discovery.sent[n].Shadow?
      && l.record.outcome == Discovered(codec.encode(s.discovery.sent[n]))
  }

  /** The extracted alerts for one more record. */
  lemma AlertsAtStep(codec: Codec, s: State, ns: seq<nat>, before: seq<ActionLogRecord>, l: Line)
    requires RoundTrips(codec) && Matches(codec, s, l) && AlertsAt(s, ns, AlertsOf(codec, before))
    ensures AlertsAt(s, if l.origin.Some? then ns + [l.origin.value] else ns, AlertsOf(codec, before + [l.record]))
  {
    AlertsOfSnoc(codec, before, l.record);
    if l.origin.Some? {
      assert AlertIn(codec, l.record.outcome) == [s.discovery.sent[l.origin.value].agent];
      AlertsAtGrow(s, ns, AlertsOf(codec, before), l.origin.value);
    } else {
      assert AlertsOf(codec, before) + [] == AlertsOf(codec, before);
    }
  }

  lemma AlertsAtGrow(s: State, ns: seq<nat>, alerts: seq<Discovery.DiscoveredAgent>, n: nat)
    requires AlertsAt(s, ns, alerts) && n < |s.discovery.sent|
    ensures AlertsAt(s, ns + [n], alerts + [s.discovery.sent[n].agent])
  {
  }

  lemma {:induction false} ExtractedAlerts(codec: Codec, s: State, log: seq<Line>, since: int)
    requires RoundTrips(codec) && forall l | l in log :: Matches(codec, s, l)
    ensures AlertsAt(s, ReplayFrom(log, since), AlertsOf(codec, Since(RecordsIn(log), since)))
  {
    if log == [] {
      assert RecordsIn(log) == [];
    } else {
      var p, l := Init(log), Last(log);
      ExtractedAlerts(codec, s, p, since);
      assert log == p + [l] && RecordsIn(log) == RecordsIn(p) + [l.record];
      ReplayFromSnoc(p, l, since);
      SinceOfSnoc(RecordsIn(p), l.record, since);
      if l.record.timestamp >= since {
        AlertsAtStep(codec, s, ReplayFrom(p, since), Since(RecordsIn(p), since), l);
      }
    }
  }

  /** In every run, the alerts that the replay loop extracts from the log are those at the replayed positions. */
  lemma ReplayYieldsAlerts(codec: Codec, acts: seq<Action>, since: int)
    requires RoundTrips(codec)
    ensures var s := Exec(codec, acts);
            AlertsAt(s, ReplayFrom(s.log, since), AlertsOf(codec, Since(RecordsIn(s.log), since)))
  {
    InvAlways(codec, acts);
    var s := Exec(codec, acts);
    forall l | l in s.log ensures Matches(codec, s, l) {
      var i :| 0 <= i < |s.log| && s.log[i] == l;
      assert LineInv(codec, s, i);
    }
    ExtractedAlerts(codec, s, s.log, since);
  }

  /** The initial alerts of a stream; an unreadable log yields none. */
  method InitialAlerts(codec: Codec, log: LogRecovery.FileActionLog, since: int)
    returns (alerts: seq<Discovery.DiscoveredAgent>)
    ensures alerts == if WellFormed(log.disk.lines) then AlertsOf(codec, Since(Records(log.disk.lines), since)) else []
  {
    alerts := [];
    var replayed := log.ReplaySince(since);
    if replayed.Ok? {
      var records := replayed.value;
      for i := 0 to |records|
        invariant alerts == AlertsOf(codec, records[..i])
      {
        assert Init(records[..i + 1]) == records[..i];
        if records[i].outcome.Discovered? {
          var event := codec.decode(records[i].outcome.eventJson);
          if event.Some? && event.value.Shadow? {
            alerts := alerts + [event.value.agent];
          }
        }
      }
      assert records[..|records|] == records;
    }
  }

  /** One turn of the worker: alerts are appended, other events are not. */
  method Bridge(
      codec: Codec, log: LogRecovery.FileActionLog, event: DiscoveryEvent, at: int, recordId: string,
      io: LogRecovery.CheckpointWrite)
    modifies log, log.disk
    ensures log.disk.lines == old(log.disk.lines) +
              if event.Shadow? then
                [Entry(ActionLogRecord(recordId, Identity.PrintDid(event.agent.did), "discovery_alert", Unknown, at,
                                       Discovered(codec.encode(event)), old(log.lastHash)))]
              else []
    ensures event.Presence? ==> log.lastHash == old(log.lastHash) && log.disk.checkpoint == old(log.disk.checkpoint)
  {
    if event.Shadow? {
      var _ := log.AppendRecord(AlertRecord(codec, event, at, recordId), io);
    }
  }
}
