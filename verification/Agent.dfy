/**
 * The agent's concurrency: mission task, watchdog, init handlers, HTTP events and shutdown as
 * atomic steps over the shared state (`crates/chronos-agent/src/state.rs`, `main.rs`). A move
 * is one step of one task, a tick of the clock or an arrival; a run is any sequence of moves.
 */
module Agent {
  import opened Words
  import opened Containment
  import opened Ledger
  import Wesolowski

  // ── Tasks ────────────────────────────────────────────────────────────────

  /** Who called `admit`, which fixes the event and what happens on return. */
  datatype Caller =
    | InitHandler
    | Http(event: Event)
    | KeyRelease
    | StepErase
    | FinalErase
    | WatchdogErase
    | ShutdownErase
  {
    function Submits(): Event {
      match this
      case InitHandler => MissionInit
      case Http(e) => e
      case KeyRelease => KeyReleased
      case StepErase => Erase
      case FinalErase => Erase
      case WatchdogErase => Erase
      case ShutdownErase => Erase
    }

    predicate Forces() {
      StepErase? || FinalErase? || WatchdogErase? || ShutdownErase?
    }
  }

  /** The events the HTTP handlers other than init submit. */
  predicate HttpEvent(e: Event) {
    e.Infer? || e.IdentityAttest? || e.ErasureAttest? || e.RequestHumanVeto? || e.HumanCorrection?
  }

  /** Program counters, with the locals that survive between atomic steps. */
  datatype Pc =
    | Calling(caller: Caller)
    | Clocked(caller: Caller, elapsed: u64)
    | Critical(caller: Caller, decision: Decision)
    | Unlocking(caller: Caller, decision: Decision)
    | Returned(caller: Caller, decision: Decision)
    /** The instant was read; it is stored in the next step. */
    | StampStart(at: u64)
    | SpawnMission
    | Wiping(caller: Caller)
    | Loading
    /** Inside the delay function, with this many iterations done over both its loops. */
    | Delay(done: nat)
    /** The delay output is at hand; what is left is to open the key and set the identity up. */
    | Opening
    | IdentityReady
    | Snapshotting
    | Proving(snapshot: LedgerValue)
    | Publishing(snapshot: LedgerValue)
    | MissionDone
    | WatchSleep
    | WatchCheck
    | WatchClock
    | WatchStore
    | Done

  /** The shared state; `now` is the monotonic clock in nanoseconds. */
  datatype Sys = Sys(
    now: u64,
    startTime: Option<u64>,
    ledger: LedgerValue,
    lock: Option<nat>,
    abort: bool,
    identityLive: bool,
    attestation: Option<LedgerValue>,
    missions: seq<nat>,
    tasks: map<nat, Pc>)

  /** The mission's time budget is both the monitor's deadline and the watchdog's limit. */
  datatype Config = Config(params: Params, squarings: u64)

  const WATCHDOG: nat := 0

  function Initial(H: Hash, cfg: Config): Sys {
    Sys(0, None, NewLedger(H, cfg.params.Start()), None, false, false, None, [], map[WATCHDOG := WatchSleep])
  }

  const NANOS: u64 := 1_000_000_000

  /** Whole seconds since the start stamp; zero before it, as `admit` reads it. */
  function SecondsSince(startTime: Option<u64>, now: u64): (secs: u64)
    ensures startTime.Some? && startTime.value <= now ==>
              secs * NANOS <= now - startTime.value < (secs + 1) * NANOS
    ensures startTime.None? ==> secs == 0
  {
    if startTime.None? || now < startTime.value then 0 else (now - startTime.value) / NANOS
  }

  function Elapsed(s: Sys): u64 {
    SecondsSince(s.startTime, s.now)
  }

  function Put(s: Sys, tid: nat, pc: Pc): Sys {
    s.(tasks := s.tasks[tid := pc])
  }

  /** The init handler is over and its mission is a task of its own. */
  function Spawned(s: Sys, tid: nat, spawned: nat): Sys {
    Put(Put(s.(missions := s.missions + [spawned]), tid, Done), spawned, Loading)
  }

  // ── Moves ────────────────────────────────────────────────────────────────

  datatype Move =
    | Tick(now: u64)
    | Arrive(tid: nat, caller: Caller)
    /** One step of a task; `ok` resolves failure, `spawned` names a new task. */
    | TaskStep(tid: nat, ok: bool, spawned: nat)

  predicate Arrives(c: Caller) {
    c.InitHandler? || c.ShutdownErase? || (c.Http? && HttpEvent(c.event))
  }

  /** The clock is pushed in and the event arbitrated, under the ledger lock. */
  function Arbitrate(H: Hash, l: LedgerValue, elapsed: u64, event: Event): (LedgerValue, Decision) {
    AdmitEvent(H, l.(state := WithElapsed(l.state, elapsed)), event)
  }

  /** What a task does when `admit` has returned to it. */
  function AfterReturn(c: Caller, d: Decision, now: u64): Pc {
    match c
    case InitHandler => if d == Admit then StampStart(now) else Done
    case Http(_) => Done
    case KeyRelease => if d == Admit then Calling(StepErase) else Calling(FinalErase)
    case StepErase => Wiping(c)
    case FinalErase => Wiping(c)
    case WatchdogErase => Wiping(c)
    case ShutdownErase => Wiping(c)
  }

  /** One iteration of the delay function, which gives up only at a poll that sees the flag. */
  function AfterIteration(cfg: Config, abort: bool, done: nat): Pc {
    if Wesolowski.IsPoll(done, cfg.squarings) && abort then Calling(FinalErase)
    else if done >= 2 * cfg.squarings then Opening
    else Delay(done + 1)
  }

  function AfterWipe(c: Caller): Pc {
    if c.StepErase? then Snapshotting else if c.FinalErase? then MissionDone else Done
  }

  function DoTask(H: Hash, cfg: Config, s: Sys, tid: nat, ok: bool, spawned: nat): Sys
    requires tid in s.tasks
  {
    match s.tasks[tid]
    case Calling(c) => Put(s, tid, Clocked(c, Elapsed(s)))
    case Clocked(c, e) =>
      if s.lock.Some? then s
      else
        var (l, d) := Arbitrate(H, s.ledger, e, c.Submits());
        Put(s.(ledger := l, lock := Some(tid)), tid, Critical(c, d))
    case Critical(c, d) =>
      Put(s.(abort := s.abort || s.ledger.state.phase == Erased), tid, Unlocking(c, d))
    case Unlocking(c, d) => Put(s.(lock := None), tid, Returned(c, d))
    case Returned(c, d) => Put(s, tid, AfterReturn(c, d, s.now))
    case StampStart(at) => Put(s.(startTime := Some(at)), tid, SpawnMission)
    case SpawnMission =>
      if spawned in s.tasks then s
      else Spawned(s, tid, spawned)
    case Wiping(c) => Put(s.(identityLive := false), tid, AfterWipe(c))
    case Loading => Put(s, tid, if ok then Delay(0) else Calling(FinalErase))
    case Delay(done) => Put(s, tid, AfterIteration(cfg, s.abort, done))
    case Opening =>
      if ok then Put(s.(identityLive := true), tid, IdentityReady) else Put(s, tid, Calling(FinalErase))
    case IdentityReady => Put(s, tid, Calling(if ok then KeyRelease else FinalErase))
    case Snapshotting => if s.lock.Some? then s else Put(s, tid, Proving(s.ledger))
    case Proving(x) => Put(s, tid, if ok then Publishing(x) else Calling(FinalErase))
    case Publishing(x) => Put(s.(attestation := Some(x)), tid, Calling(FinalErase))
    case MissionDone => s
    case WatchSleep => Put(s, tid, WatchCheck)
    case WatchCheck =>
      if s.lock.Some? then s
      else if s.ledger.state.phase == Erased then Put(s, tid, Done)
      else if s.ledger.state.phase == Armed then Put(s, tid, WatchSleep)
      else Put(s, tid, WatchClock)
    case WatchClock =>
      if s.startTime.Some? && Elapsed(s) >= cfg.params.deadline then Put(s, tid, WatchStore)
      else Put(s, tid, WatchSleep)
    case WatchStore => Put(s.(abort := true), tid, Calling(WatchdogErase))
    case Done => s
  }

  /** One move; a move that is not enabled leaves the state as it is. */
  function Do(H: Hash, cfg: Config, s: Sys, m: Move): Sys {
    match m
    case Tick(now) => if now >= s.now then s.(now := now) else s
    case Arrive(tid, c) => if tid in s.tasks || !Arrives(c) then s else Put(s, tid, Calling(c))
    case TaskStep(tid, ok, spawned) => if tid in s.tasks then DoTask(H, cfg, s, tid, ok, spawned) else s
  }

  /** Any interleaving. */
  function Exec(H: Hash, cfg: Config, s: Sys, moves: seq<Move>): Sys {
    if moves == [] then s
    else Do(H, cfg, Exec(H, cfg, s, moves[..|moves| - 1]), moves[|moves| - 1])
  }

  // ── Invariant ────────────────────────────────────────────────────────────

  /** An admitted key release is on record. */
  ghost predicate KeyOnRecord(records: seq<Record>) {
    exists i :: 0 <= i < |records| && IsKeyRelease(records[i])
  }

  predicate IsKeyRelease(r: Record) {
    r.eventCode == KeyReleased.Code() && r.decisionCode == Admit.Code()
  }

  /** The ledger is a reachable one and its digest chains its records. */
  ghost predicate LedgerOk(H: Hash, cfg: Config, l: LedgerValue) {
    Reachable(cfg.params, l.state) && l.digest == ChainDigest(H, cfg.params.Start(), l.records)
  }

  /** A snapshot the circuit can prove: erased, with the key release on record, of this history. */
  ghost predicate SnapshotOk(H: Hash, cfg: Config, s: Sys, x: LedgerValue) {
    LedgerOk(H, cfg, x) && x.state.phase == Erased && KeyOnRecord(x.records) && x.records <= s.ledger.records
  }

  predicate IsMission(s: Sys, tid: nat) {
    s.missions == [tid]
  }

  ghost predicate CallerOk(cfg: Config, s: Sys, tid: nat, c: Caller) {
    match c
    case InitHandler => true
    case Http(e) => HttpEvent(e)
    case KeyRelease => IsMission(s, tid)
    case StepErase => IsMission(s, tid) && KeyOnRecord(s.ledger.records)
    case FinalErase => IsMission(s, tid)
    case WatchdogErase => s.abort && s.startTime.Some? && Elapsed(s) >= cfg.params.deadline
    case ShutdownErase => true
  }

  /** What the arbitration of the caller's event has left behind. */
  ghost predicate EffectOk(s: Sys, c: Caller, d: Decision) {
    && (c.Forces() ==> d == Admit && s.ledger.state.phase == Erased)
    && (c.KeyRelease? && d == Admit ==> KeyOnRecord(s.ledger.records))
    && (c.InitHandler? && d == Admit ==> BeforeStart(s))
  }

  /** The mission was admitted and neither stamped nor spawned yet. */
  predicate BeforeStart(s: Sys) {
    s.missions == [] && s.startTime == None && s.ledger.state.phase != Armed
  }

  ghost predicate TaskOk(H: Hash, cfg: Config, s: Sys, tid: nat, pc: Pc) {
    match pc
    case Calling(c) => CallerOk(cfg, s, tid, c)
    case Clocked(c, e) => CallerOk(cfg, s, tid, c) && e <= Elapsed(s)
    case Critical(c, d) => CallerOk(cfg, s, tid, c) && EffectOk(s, c, d) && s.lock == Some(tid)
    case Unlocking(c, d) =>
      CallerOk(cfg, s, tid, c) && EffectOk(s, c, d) && s.lock == Some(tid)
      && (s.ledger.state.phase == Erased ==> s.abort)
    case Returned(c, d) => CallerOk(cfg, s, tid, c) && EffectOk(s, c, d)
    case StampStart(at) => BeforeStart(s) && at <= s.now
    case SpawnMission => s.missions == [] && s.ledger.state.phase != Armed
    case Wiping(c) => c.Forces() && CallerOk(cfg, s, tid, c) && s.ledger.state.phase == Erased
    case Loading => IsMission(s, tid)
    case Delay(_) => IsMission(s, tid)
    case Opening => IsMission(s, tid)
    case IdentityReady => IsMission(s, tid)
    case Snapshotting => IsMission(s, tid) && s.ledger.state.phase == Erased && KeyOnRecord(s.ledger.records)
    case Proving(x) => IsMission(s, tid) && SnapshotOk(H, cfg, s, x)
    case Publishing(x) => IsMission(s, tid) && SnapshotOk(H, cfg, s, x)
    case MissionDone => IsMission(s, tid) && s.ledger.state.phase == Erased
    case WatchStore => s.startTime.Some? && Elapsed(s) >= cfg.params.deadline
    case _ => true
  }

  /** Between the admission of an init and the spawn of its mission. */
  predicate Starting(pc: Pc) {
    ((pc.Critical? || pc.Unlocking? || pc.Returned?) && pc.caller.InitHandler? && pc.decision == Admit)
    || pc.StampStart? || pc.SpawnMission?
  }

  predicate HoldsLock(s: Sys, tid: nat) {
    tid in s.tasks && (s.tasks[tid].Critical? || s.tasks[tid].Unlocking?)
  }

  ghost predicate NotStarted(s: Sys) {
    s.missions == [] && s.startTime == None && forall t :: t in s.tasks ==> !Starting(s.tasks[t])
  }

  /** The part of the invariant that is about the shared state. */
  ghost predicate SharedOk(H: Hash, cfg: Config, s: Sys) {
    && LedgerOk(H, cfg, s.ledger)
    && s.ledger.state.elapsed <= Elapsed(s)
    && (s.startTime.Some? ==> s.startTime.value <= s.now)
    && |s.missions| <= 1
    && (s.missions != [] ==> s.missions[0] in s.tasks)
    && (s.ledger.state.phase == Armed ==> NotStarted(s))
    && (forall t, u :: t in s.tasks && u in s.tasks && Starting(s.tasks[t]) && Starting(s.tasks[u]) ==> t == u)
    && (s.lock == None && s.ledger.state.phase == Erased ==> s.abort)
    && (s.lock.Some? ==> HoldsLock(s, s.lock.value))
    && (s.identityLive ==> s.missions != [] && s.tasks[s.missions[0]] != MissionDone)
    && (s.attestation.Some? ==> SnapshotOk(H, cfg, s, s.attestation.value))
  }

  ghost predicate Inv(H: Hash, cfg: Config, s: Sys) {
    SharedOk(H, cfg, s)
    && (forall t {:trigger TaskOk(H, cfg, s, t, s.tasks[t])} :: t in s.tasks ==> TaskOk(H, cfg, s, t, s.tasks[t]))
  }

  // ── Frame ────────────────────────────────────────────────────────────────

  /** How one move may change what the other tasks rely on. */
  predicate Grows(s: Sys, s': Sys, tid: nat) {
    && s.ledger.records <= s'.ledger.records
    && (s'.ledger == s.ledger || s.lock == None)
    && (s.ledger.state.phase == Erased ==> s'.ledger.state.phase == Erased)
    && (s.ledger.state.phase != Armed ==> s'.ledger.state.phase != Armed)
    && (s.abort ==> s'.abort)
    && (s.startTime.Some? ==> s'.startTime == s.startTime)
    && s.now <= s'.now
    && (s.missions != [] ==> s'.missions == s.missions)
    && (s'.lock == s.lock || s.lock == Some(tid) || (s.lock == None && s'.lock == Some(tid)))
  }

  lemma KeyOnRecordGrows(a: seq<Record>, b: seq<Record>)
    requires a <= b && KeyOnRecord(a)
    ensures KeyOnRecord(b)
  {
    var i :| 0 <= i < |a| && IsKeyRelease(a[i]);
    assert b[i] == a[i];
  }

  lemma ElapsedGrows(s: Sys, s': Sys)
    requires s.now <= s'.now && (s.startTime.Some? ==> s'.startTime == s.startTime)
    ensures Elapsed(s) <= Elapsed(s')
  {
  }

  /** A task that does not move keeps its assertion. */
  lemma OtherTaskKept(H: Hash, cfg: Config, s: Sys, s': Sys, tid: nat, t: nat)
    requires Inv(H, cfg, s) && Grows(s, s', tid) && t in s.tasks && t != tid
    requires Starting(s.tasks[t]) ==> s'.missions == s.missions && s'.startTime == s.startTime
    ensures TaskOk(H, cfg, s', t, s.tasks[t])
  {
    assert TaskOk(H, cfg, s, t, s.tasks[t]);
    ElapsedGrows(s, s');
    if KeyOnRecord(s.ledger.records) { KeyOnRecordGrows(s.ledger.records, s'.ledger.records); }
  }

  lemma SnapshotKept(H: Hash, cfg: Config, s: Sys, s': Sys, x: LedgerValue)
    requires SnapshotOk(H, cfg, s, x) && s.ledger.records <= s'.ledger.records
    ensures SnapshotOk(H, cfg, s', x)
  {
  }

  /** The step from one good state to another where only task `tid` moved, to `pc`. */
  lemma TaskMoved(H: Hash, cfg: Config, s: Sys, s': Sys, tid: nat, pc: Pc)
    requires Inv(H, cfg, s) && Grows(s, s', tid) && tid in s.tasks && s'.tasks == s.tasks[tid := pc]
    requires s'.missions == s.missions && (s'.startTime == s.startTime || Starting(s.tasks[tid]))
    requires LedgerOk(H, cfg, s'.ledger) && s'.ledger.state.elapsed <= Elapsed(s')
    requires s'.startTime.Some? ==> s'.startTime.value <= s'.now
    requires s'.ledger.state.phase == Armed ==> s.ledger.state.phase == Armed && s'.startTime == s.startTime && !Starting(pc)
    requires Starting(pc) ==> Starting(s.tasks[tid]) || s.ledger.state.phase == Armed
    requires s'.lock == None && s'.ledger.state.phase == Erased ==> s'.abort
    requires s'.lock.Some? ==> if s'.lock.value == tid then pc.Critical? || pc.Unlocking? else s'.lock == s.lock
    requires s'.identityLive ==> s'.missions != [] && (s.identityLive || s'.missions[0] == tid)
    requires pc == MissionDone ==> !s'.identityLive
    requires s'.identityLive && !s.identityLive ==> s.tasks[tid] == Opening
    requires s'.attestation == s.attestation || (s'.attestation.Some? && SnapshotOk(H, cfg, s', s'.attestation.value))
    requires TaskOk(H, cfg, s', tid, pc)
    ensures Inv(H, cfg, s')
  {
    if s.attestation.Some? { SnapshotKept(H, cfg, s, s', s.attestation.value); }
    forall t | t in s'.tasks ensures TaskOk(H, cfg, s', t, s'.tasks[t]) {
      if t != tid { OtherTaskKept(H, cfg, s, s', tid, t); }
    }
  }

  // ── One arbitration ──────────────────────────────────────────────────────

  lemma StepAscends(H: Hash, cfg: Config, l: LedgerValue, elapsed: u64, event: Event)
    requires LedgerOk(H, cfg, l)
    ensures var s' := Arbitrate(H, l, elapsed, event).0.state;
            Reachable(cfg.params, s') && Precedes(l.state, s') && s'.elapsed == Max(l.state.elapsed, elapsed)
            && (s'.phase == Erased <==> l.state.phase == Erased || event.Erases())
  {
    var clocked := WithElapsed(l.state, elapsed);
    ClockPrecedes(l.state, elapsed);
    StepReachable(H, cfg.params, clocked, event);
    PrecedesReflexive(clocked);
    PrecedesTransitive(l.state, clocked, Commit(clocked, Step(H, clocked, event).1));
  }

  /** The record appended, and what an admission of the mission events says about the phases. */
  lemma ArbitrationRecorded(H: Hash, cfg: Config, l: LedgerValue, elapsed: u64, event: Event)
    requires LedgerOk(H, cfg, l)
    ensures var (l', d) := Arbitrate(H, l, elapsed, event);
            LedgerOk(H, cfg, l') && l.records <= l'.records
            && (event.Erases() ==> d == Admit)
            && (event.MissionInit? && d == Admit ==> l.state.phase == Armed && l'.state.phase == Active)
            && (event.KeyReleased? && d == Admit ==> KeyOnRecord(l'.records))
            && (l.state.phase == Erased && KeyOnRecord(l'.records) ==> KeyOnRecord(l.records))
  {
    StepAscends(H, cfg, l, elapsed, event);
    var (l', d) := Arbitrate(H, l, elapsed, event);
    var k := |l.records|;
    assert l'.records[..k] == l.records && |l'.records| == k + 1;
    StepPrecedes(H, WithElapsed(l.state, elapsed), event);
    if event.KeyReleased? && d == Admit { assert IsKeyRelease(l'.records[k]); }
    if l.state.phase == Erased && KeyOnRecord(l'.records) {
      var i :| 0 <= i < |l'.records| && IsKeyRelease(l'.records[i]);
      assert i < k && l.records[i] == l'.records[i];
    }
  }

  // ── Every move keeps the invariant ───────────────────────────────────────

  /** A step that changes nothing but the task's own place. */
  lemma OnlyMoved(H: Hash, cfg: Config, s: Sys, tid: nat, pc: Pc)
    requires Inv(H, cfg, s) && tid in s.tasks && !HoldsLock(s, tid)
    requires Starting(pc) ==> Starting(s.tasks[tid])
    requires pc == MissionDone ==> !s.identityLive
    requires TaskOk(H, cfg, s, tid, pc)
    ensures Inv(H, cfg, Put(s, tid, pc))
  {
    var s' := Put(s, tid, pc);
    PlaceOnly(H, cfg, s, s', tid, pc);
    TaskMoved(H, cfg, s, s', tid, pc);
  }

  /** A task's assertion does not depend on where the tasks are. */
  lemma PlaceOnly(H: Hash, cfg: Config, s: Sys, s': Sys, tid: nat, pc: Pc)
    requires s' == s.(tasks := s'.tasks) && TaskOk(H, cfg, s, tid, pc)
    ensures TaskOk(H, cfg, s', tid, pc)
  {
  }

  lemma CallingKeeps(H: Hash, cfg: Config, s: Sys, tid: nat)
    requires Inv(H, cfg, s) && tid in s.tasks && s.tasks[tid].Calling?
    ensures Inv(H, cfg, DoTask(H, cfg, s, tid, true, 0))
  {
    assert TaskOk(H, cfg, s, tid, s.tasks[tid]);
    OnlyMoved(H, cfg, s, tid, Clocked(s.tasks[tid].caller, Elapsed(s)));
  }

  lemma ReturnedKeeps(H: Hash, cfg: Config, s: Sys, tid: nat)
    requires Inv(H, cfg, s) && tid in s.tasks && s.tasks[tid].Returned?
    ensures Inv(H, cfg, DoTask(H, cfg, s, tid, true, 0))
  {
    assert TaskOk(H, cfg, s, tid, s.tasks[tid]);
    OnlyMoved(H, cfg, s, tid, AfterReturn(s.tasks[tid].caller, s.tasks[tid].decision, s.now));
  }

  /** The state after a task acquired the ledger lock and had its event arbitrated. */
  function Arbitrated(H: Hash, s: Sys, tid: nat, c: Caller, e: u64): Sys {
    var (l, d) := Arbitrate(H, s.ledger, e, c.Submits());
    Put(s.(ledger := l, lock := Some(tid)), tid, Critical(c, d))
  }

  lemma ArbitratedCaller(H: Hash, cfg: Config, s: Sys, tid: nat, c: Caller, e: u64)
    requires LedgerOk(H, cfg, s.ledger) && CallerOk(cfg, s, tid, c)
    ensures CallerOk(cfg, Arbitrated(H, s, tid, c, e), tid, c)
  {
    var s' := Arbitrated(H, s, tid, c, e);
    ArbitrationRecorded(H, cfg, s.ledger, e, c.Submits());
    if KeyOnRecord(s.ledger.records) { KeyOnRecordGrows(s.ledger.records, s'.ledger.records); }
  }

  lemma ArbitratedEffect(H: Hash, cfg: Config, s: Sys, tid: nat, c: Caller, e: u64)
    requires LedgerOk(H, cfg, s.ledger) && (s.ledger.state.phase == Armed ==> NotStarted(s))
    ensures EffectOk(Arbitrated(H, s, tid, c, e), c, Arbitrate(H, s.ledger, e, c.Submits()).1)
  {
    StepAscends(H, cfg, s.ledger, e, c.Submits());
    ArbitrationRecorded(H, cfg, s.ledger, e, c.Submits());
  }

  /** What the arbitration of a caller's event turns the ledger into. */
  ghost predicate Arbitrates(H: Hash, cfg: Config, s: Sys, tid: nat, c: Caller, l: LedgerValue, d: Decision) {
    var s' := Put(s.(ledger := l, lock := Some(tid)), tid, Critical(c, d));
    && LedgerOk(H, cfg, l) && s.ledger.records <= l.records && l.state.elapsed <= Elapsed(s)
    && s.ledger.state.phase.Rank() <= l.state.phase.Rank()
    && (Starting(Critical(c, d)) ==> s.ledger.state.phase == Armed && l.state.phase != Armed)
    && CallerOk(cfg, s', tid, c) && EffectOk(s', c, d)
  }

  lemma ArbitrationFacts(H: Hash, cfg: Config, s: Sys, tid: nat, c: Caller, e: u64)
    requires LedgerOk(H, cfg, s.ledger) && (s.ledger.state.phase == Armed ==> NotStarted(s))
    requires CallerOk(cfg, s, tid, c) && s.ledger.state.elapsed <= Elapsed(s) && e <= Elapsed(s)
    ensures var (l, d) := Arbitrate(H, s.ledger, e, c.Submits()); Arbitrates(H, cfg, s, tid, c, l, d)
  {
    ArbitratedCaller(H, cfg, s, tid, c, e);
    ArbitratedEffect(H, cfg, s, tid, c, e);
    StepAscends(H, cfg, s.ledger, e, c.Submits());
    ArbitrationRecorded(H, cfg, s.ledger, e, c.Submits());
  }

  /** Taking the lock with an arbitrated ledger, whatever arbitration made of it. */
  lemma LockTaken(H: Hash, cfg: Config, s: Sys, tid: nat, c: Caller, l: LedgerValue, d: Decision)
    requires Inv(H, cfg, s) && tid in s.tasks && s.tasks[tid].Clocked? && s.lock.None?
    requires Arbitrates(H, cfg, s, tid, c, l, d)
    ensures Inv(H, cfg, Put(s.(ledger := l, lock := Some(tid)), tid, Critical(c, d)))
  {
    TaskMoved(H, cfg, s, Put(s.(ledger := l, lock := Some(tid)), tid, Critical(c, d)), tid, Critical(c, d));
  }

  lemma ClockedKeeps(H: Hash, cfg: Config, s: Sys, tid: nat)
    requires Inv(H, cfg, s) && tid in s.tasks && s.tasks[tid].Clocked?
    ensures Inv(H, cfg, DoTask(H, cfg, s, tid, true, 0))
  {
    var c, e := s.tasks[tid].caller, s.tasks[tid].elapsed;
    assert TaskOk(H, cfg, s, tid, s.tasks[tid]);
    if s.lock.None? {
      var (l, d) := Arbitrate(H, s.ledger, e, c.Submits());
      ArbitrationFacts(H, cfg, s, tid, c, e);
      LockTaken(H, cfg, s, tid, c, l, d);
    }
  }

  lemma CriticalKeeps(H: Hash, cfg: Config, s: Sys, tid: nat)
    requires Inv(H, cfg, s) && tid in s.tasks && s.tasks[tid].Critical?
    ensures Inv(H, cfg, DoTask(H, cfg, s, tid, true, 0))
  {
    assert TaskOk(H, cfg, s, tid, s.tasks[tid]);
    var s' := DoTask(H, cfg, s, tid, true, 0);
    TaskMoved(H, cfg, s, s', tid, s'.tasks[tid]);
  }

  lemma UnlockingKeeps(H: Hash, cfg: Config, s: Sys, tid: nat)
    requires Inv(H, cfg, s) && tid in s.tasks && s.tasks[tid].Unlocking?
    ensures Inv(H, cfg, DoTask(H, cfg, s, tid, true, 0))
  {
    assert TaskOk(H, cfg, s, tid, s.tasks[tid]);
    var s' := DoTask(H, cfg, s, tid, true, 0);
    TaskMoved(H, cfg, s, s', tid, s'.tasks[tid]);
  }

  lemma StampKeeps(H: Hash, cfg: Config, s: Sys, tid: nat)
    requires Inv(H, cfg, s) && tid in s.tasks && s.tasks[tid].StampStart?
    ensures Inv(H, cfg, DoTask(H, cfg, s, tid, true, 0))
  {
    assert TaskOk(H, cfg, s, tid, s.tasks[tid]);
    var s' := DoTask(H, cfg, s, tid, true, 0);
    ElapsedGrows(s, s');
    TaskMoved(H, cfg, s, s', tid, SpawnMission);
  }

  lemma WipingKeeps(H: Hash, cfg: Config, s: Sys, tid: nat)
    requires Inv(H, cfg, s) && tid in s.tasks && s.tasks[tid].Wiping?
    ensures Inv(H, cfg, DoTask(H, cfg, s, tid, true, 0))
  {
    assert TaskOk(H, cfg, s, tid, s.tasks[tid]);
    var s' := DoTask(H, cfg, s, tid, true, 0);
    TaskMoved(H, cfg, s, s', tid, s'.tasks[tid]);
  }

  lemma LoadingKeeps(H: Hash, cfg: Config, s: Sys, tid: nat, ok: bool)
    requires Inv(H, cfg, s) && tid in s.tasks && s.tasks[tid].Loading?
    ensures Inv(H, cfg, DoTask(H, cfg, s, tid, ok, 0))
  {
    assert TaskOk(H, cfg, s, tid, s.tasks[tid]);
    OnlyMoved(H, cfg, s, tid, if ok then Delay(0) else Calling(FinalErase));
  }

  lemma DelayKeeps(H: Hash, cfg: Config, s: Sys, tid: nat)
    requires Inv(H, cfg, s) && tid in s.tasks && s.tasks[tid].Delay?
    ensures Inv(H, cfg, DoTask(H, cfg, s, tid, true, 0))
  {
    assert TaskOk(H, cfg, s, tid, s.tasks[tid]);
    OnlyMoved(H, cfg, s, tid, AfterIteration(cfg, s.abort, s.tasks[tid].done));
  }

  lemma OpeningKeeps(H: Hash, cfg: Config, s: Sys, tid: nat, ok: bool)
    requires Inv(H, cfg, s) && tid in s.tasks && s.tasks[tid].Opening?
    ensures Inv(H, cfg, DoTask(H, cfg, s, tid, ok, 0))
  {
    assert TaskOk(H, cfg, s, tid, s.tasks[tid]);
    if ok {
      TaskMoved(H, cfg, s, Put(s.(identityLive := true), tid, IdentityReady), tid, IdentityReady);
    } else {
      OnlyMoved(H, cfg, s, tid, Calling(FinalErase));
    }
  }

  lemma PublishingKeeps(H: Hash, cfg: Config, s: Sys, tid: nat)
    requires Inv(H, cfg, s) && tid in s.tasks && s.tasks[tid].Publishing?
    ensures Inv(H, cfg, DoTask(H, cfg, s, tid, true, 0))
  {
    assert TaskOk(H, cfg, s, tid, s.tasks[tid]);
    var s' := DoTask(H, cfg, s, tid, true, 0);
    SnapshotKept(H, cfg, s, s', s.tasks[tid].snapshot);
    TaskMoved(H, cfg, s, s', tid, s'.tasks[tid]);
  }

  lemma IdentityReadyKeeps(H: Hash, cfg: Config, s: Sys, tid: nat, ok: bool)
    requires Inv(H, cfg, s) && tid in s.tasks && s.tasks[tid].IdentityReady?
    ensures Inv(H, cfg, DoTask(H, cfg, s, tid, ok, 0))
  {
    assert TaskOk(H, cfg, s, tid, s.tasks[tid]);
    OnlyMoved(H, cfg, s, tid, Calling(if ok then KeyRelease else FinalErase));
  }

  lemma SnapshottingKeeps(H: Hash, cfg: Config, s: Sys, tid: nat)
    requires Inv(H, cfg, s) && tid in s.tasks && s.tasks[tid].Snapshotting?
    ensures Inv(H, cfg, DoTask(H, cfg, s, tid, true, 0))
  {
    assert TaskOk(H, cfg, s, tid, s.tasks[tid]);
    if s.lock.None? { OnlyMoved(H, cfg, s, tid, Proving(s.ledger)); }
  }

  lemma ProvingKeeps(H: Hash, cfg: Config, s: Sys, tid: nat, ok: bool)
    requires Inv(H, cfg, s) && tid in s.tasks && s.tasks[tid].Proving?
    ensures Inv(H, cfg, DoTask(H, cfg, s, tid, ok, 0))
  {
    assert TaskOk(H, cfg, s, tid, s.tasks[tid]);
    OnlyMoved(H, cfg, s, tid, if ok then Publishing(s.tasks[tid].snapshot) else Calling(FinalErase));
  }

  lemma WatchSleepKeeps(H: Hash, cfg: Config, s: Sys, tid: nat)
    requires Inv(H, cfg, s) && tid in s.tasks && s.tasks[tid].WatchSleep?
    ensures Inv(H, cfg, DoTask(H, cfg, s, tid, true, 0))
  {
    OnlyMoved(H, cfg, s, tid, WatchCheck);
  }

  lemma WatchCheckKeeps(H: Hash, cfg: Config, s: Sys, tid: nat)
    requires Inv(H, cfg, s) && tid in s.tasks && s.tasks[tid].WatchCheck?
    ensures Inv(H, cfg, DoTask(H, cfg, s, tid, true, 0))
  {
    if s.lock.None? {
      var phase := s.ledger.state.phase;
      OnlyMoved(H, cfg, s, tid, if phase == Erased then Done else if phase == Armed then WatchSleep else WatchClock);
    }
  }

  lemma WatchClockKeeps(H: Hash, cfg: Config, s: Sys, tid: nat)
    requires Inv(H, cfg, s) && tid in s.tasks && s.tasks[tid].WatchClock?
    ensures Inv(H, cfg, DoTask(H, cfg, s, tid, true, 0))
  {
    var due := s.startTime.Some? && Elapsed(s) >= cfg.params.deadline;
    OnlyMoved(H, cfg, s, tid, if due then WatchStore else WatchSleep);
  }

  lemma WatchStoreKeeps(H: Hash, cfg: Config, s: Sys, tid: nat)
    requires Inv(H, cfg, s) && tid in s.tasks && s.tasks[tid].WatchStore?
    ensures Inv(H, cfg, DoTask(H, cfg, s, tid, true, 0))
  {
    assert TaskOk(H, cfg, s, tid, s.tasks[tid]);
    var s' := DoTask(H, cfg, s, tid, true, 0);
    TaskMoved(H, cfg, s, s', tid, s'.tasks[tid]);
  }

  /** The spawn moves two tasks, and the others keep their assertions. */
  lemma SpawnTasks(H: Hash, cfg: Config, s: Sys, tid: nat, spawned: nat, t: nat)
    requires Inv(H, cfg, s) && tid in s.tasks && s.tasks[tid].SpawnMission? && spawned !in s.tasks
    requires t in Spawned(s, tid, spawned).tasks && s.missions == []
    ensures TaskOk(H, cfg, Spawned(s, tid, spawned), t, Spawned(s, tid, spawned).tasks[t])
  {
    if t in s.tasks && t != tid { OtherTaskKept(H, cfg, s, Spawned(s, tid, spawned), tid, t); }
  }

  lemma SpawnShared(H: Hash, cfg: Config, s: Sys, tid: nat, spawned: nat)
    requires SharedOk(H, cfg, s) && tid in s.tasks && s.tasks[tid].SpawnMission? && spawned !in s.tasks
    requires s.missions == [] && s.ledger.state.phase != Armed
    ensures SharedOk(H, cfg, Spawned(s, tid, spawned))
  {
    if s.attestation.Some? { SnapshotKept(H, cfg, s, Spawned(s, tid, spawned), s.attestation.value); }
  }

  /** The handler ends and the mission begins. */
  lemma SpawnKeeps(H: Hash, cfg: Config, s: Sys, tid: nat, spawned: nat)
    requires Inv(H, cfg, s) && tid in s.tasks && s.tasks[tid].SpawnMission?
    ensures Inv(H, cfg, DoTask(H, cfg, s, tid, true, spawned))
  {
    assert TaskOk(H, cfg, s, tid, s.tasks[tid]);
    if spawned !in s.tasks {
      var s' := Spawned(s, tid, spawned);
      SpawnShared(H, cfg, s, tid, spawned);
      forall t | t in s'.tasks ensures TaskOk(H, cfg, s', t, s'.tasks[t]) {
        SpawnTasks(H, cfg, s, tid, spawned, t);
      }
    }
  }

  lemma TickKeeps(H: Hash, cfg: Config, s: Sys, now: u64)
    requires Inv(H, cfg, s) && s.now <= now
    ensures Inv(H, cfg, s.(now := now))
  {
    var s' := s.(now := now);
    ElapsedGrows(s, s');
    if s.attestation.Some? { SnapshotKept(H, cfg, s, s', s.attestation.value); }
    forall t | t in s'.tasks ensures TaskOk(H, cfg, s', t, s'.tasks[t]) {
      OtherTaskKept(H, cfg, s, s', t + 1, t);
    }
  }

  lemma ArriveShared(H: Hash, cfg: Config, s: Sys, tid: nat, c: Caller)
    requires SharedOk(H, cfg, s) && tid !in s.tasks
    ensures SharedOk(H, cfg, Put(s, tid, Calling(c)))
  {
    if s.attestation.Some? { SnapshotKept(H, cfg, s, Put(s, tid, Calling(c)), s.attestation.value); }
  }

  lemma ArriveKeeps(H: Hash, cfg: Config, s: Sys, tid: nat, c: Caller)
    requires Inv(H, cfg, s) && tid !in s.tasks && Arrives(c)
    ensures Inv(H, cfg, Put(s, tid, Calling(c)))
  {
    var s' := Put(s, tid, Calling(c));
    ArriveShared(H, cfg, s, tid, c);
    forall t | t in s'.tasks ensures TaskOk(H, cfg, s', t, s'.tasks[t]) {
      if t != tid { OtherTaskKept(H, cfg, s, s', tid, t); }
    }
  }

  lemma TaskKeeps(H: Hash, cfg: Config, s: Sys, tid: nat, ok: bool, spawned: nat)
    requires Inv(H, cfg, s) && tid in s.tasks
    ensures Inv(H, cfg, DoTask(H, cfg, s, tid, ok, spawned))
  {
    match s.tasks[tid]
    case Calling(_) => CallingKeeps(H, cfg, s, tid);
    case Clocked(_, _) => ClockedKeeps(H, cfg, s, tid);
    case Critical(_, _) => CriticalKeeps(H, cfg, s, tid);
    case Unlocking(_, _) => UnlockingKeeps(H, cfg, s, tid);
    case Returned(_, _) => ReturnedKeeps(H, cfg, s, tid);
    case StampStart(_) => StampKeeps(H, cfg, s, tid);
    case SpawnMission => SpawnKeeps(H, cfg, s, tid, spawned);
    case Wiping(_) => WipingKeeps(H, cfg, s, tid);
    case Loading => LoadingKeeps(H, cfg, s, tid, ok);
    case Delay(_) => DelayKeeps(H, cfg, s, tid);
    case Opening => OpeningKeeps(H, cfg, s, tid, ok);
    case IdentityReady => IdentityReadyKeeps(H, cfg, s, tid, ok);
    case Snapshotting => SnapshottingKeeps(H, cfg, s, tid);
    case Proving(_) => ProvingKeeps(H, cfg, s, tid, ok);
    case Publishing(_) => PublishingKeeps(H, cfg, s, tid);
    case MissionDone =>
    case WatchSleep => WatchSleepKeeps(H, cfg, s, tid);
    case WatchCheck => WatchCheckKeeps(H, cfg, s, tid);
    case WatchClock => WatchClockKeeps(H, cfg, s, tid);
    case WatchStore => WatchStoreKeeps(H, cfg, s, tid);
    case Done =>
  }

  lemma InitialInv(H: Hash, cfg: Config)
    ensures Inv(H, cfg, Initial(H, cfg))
  {
    RunReachable(H, cfg.params, []);
  }

  /** Every interleaving keeps the invariant. */
  lemma {:induction false} ExecInv(H: Hash, cfg: Config, moves: seq<Move>)
    ensures Inv(H, cfg, Exec(H, cfg, Initial(H, cfg), moves))
  {
    if moves == [] {
      InitialInv(H, cfg);
    } else {
      ExecInv(H, cfg, moves[..|moves| - 1]);
      MoveKeeps(H, cfg, Exec(H, cfg, Initial(H, cfg), moves[..|moves| - 1]), moves[|moves| - 1]);
    }
  }

  lemma MoveKeeps(H: Hash, cfg: Config, s: Sys, m: Move)
    requires Inv(H, cfg, s)
    ensures Inv(H, cfg, Do(H, cfg, s, m))
  {
    match m
    case Tick(now) => if s.now <= now { TickKeeps(H, cfg, s, now); }
    case Arrive(tid, c) => if tid !in s.tasks && Arrives(c) { ArriveKeeps(H, cfg, s, tid, c); }
    case TaskStep(tid, ok, spawned) => if tid in s.tasks { TaskKeeps(H, cfg, s, tid, ok, spawned); }
  }
}
