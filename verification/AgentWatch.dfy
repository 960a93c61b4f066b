/**
 * That the time limit is kept: the watchdog never goes away before the ledger is erased, and
 * once the time is up it can erase by its own steps alone; and that a mission can get to its
 * attestation (`crates/chronos-agent/src/state.rs`, `main.rs`).
 */
module AgentWatch {
  import opened Words
  import opened Containment
  import opened Ledger
  import opened Agent
  import opened AgentRuns
  import opened AgentErasure

  // ── One step moves one task ──────────────────────────────────────────────

  predicate InMission(pc: Pc) {
    pc.StampStart? || pc.Loading? || pc.Delay? || pc.Opening?
  }

  /** The step moved no task but its own, unless it spawned a new one. */
  predicate OthersStay(s: Sys, s': Sys, tid: nat) {
    forall t :: t in s.tasks && t != tid ==> t in s'.tasks && s'.tasks[t] == s.tasks[t]
  }

  lemma AdmitOthersStay(H: Hash, cfg: Config, s: Sys, tid: nat)
    requires tid in s.tasks && (InAdmit(s.tasks[tid]) || s.tasks[tid].Clocked?)
    ensures OthersStay(s, DoTask(H, cfg, s, tid, true, 0), tid)
  {
  }

  lemma WatchOthersStay(H: Hash, cfg: Config, s: Sys, tid: nat)
    requires tid in s.tasks && InWatch(s.tasks[tid])
    ensures OthersStay(s, DoTask(H, cfg, s, tid, true, 0), tid)
  {
  }

  lemma ClosingOthersStay(H: Hash, cfg: Config, s: Sys, tid: nat, ok: bool)
    requires tid in s.tasks && InClosing(s.tasks[tid])
    ensures OthersStay(s, DoTask(H, cfg, s, tid, ok, 0), tid)
  {
  }

  lemma MissionOthersStay(H: Hash, cfg: Config, s: Sys, tid: nat, ok: bool)
    requires tid in s.tasks && InMission(s.tasks[tid])
    ensures OthersStay(s, DoTask(H, cfg, s, tid, ok, 0), tid)
  {
  }

  lemma SpawnOthersStay(H: Hash, cfg: Config, s: Sys, tid: nat, spawned: nat)
    requires tid in s.tasks && s.tasks[tid].SpawnMission?
    ensures OthersStay(s, DoTask(H, cfg, s, tid, true, spawned), tid)
  {
  }

  lemma TaskOthersStay(H: Hash, cfg: Config, s: Sys, tid: nat, ok: bool, spawned: nat)
    requires tid in s.tasks
    ensures OthersStay(s, DoTask(H, cfg, s, tid, ok, spawned), tid)
  {
    var pc := s.tasks[tid];
    if pc.SpawnMission? {
      SpawnOthersStay(H, cfg, s, tid, spawned);
    } else if InMission(pc) {
      MissionOthersStay(H, cfg, s, tid, ok);
    } else if InClosing(pc) {
      ClosingOthersStay(H, cfg, s, tid, ok);
    } else if InWatch(pc) {
      WatchOthersStay(H, cfg, s, tid);
    } else {
      AdmitOthersStay(H, cfg, s, tid);
    }
  }

  // ── The watchdog stays ───────────────────────────────────────────────────

  /** In its own erase call. */
  predicate InOwnErase(pc: Pc) {
    (pc.Calling? || pc.Clocked? || pc.Critical? || pc.Unlocking? || pc.Returned? || pc.Wiping?)
    && pc.caller.WatchdogErase?
  }

  /** In its loop or in its own erase call, and over only when the ledger is erased. */
  predicate OnWatch(s: Sys) {
    WATCHDOG in s.tasks
    && var pc := s.tasks[WATCHDOG];
       InWatch(pc) || InOwnErase(pc) || (pc == Done && s.ledger.state.phase == Erased)
  }

  lemma OwnLoopStep(H: Hash, cfg: Config, s: Sys)
    requires WATCHDOG in s.tasks && InWatch(s.tasks[WATCHDOG])
    ensures OnWatch(DoTask(H, cfg, s, WATCHDOG, true, 0))
  {
  }

  lemma OwnEraseStep(H: Hash, cfg: Config, s: Sys)
    requires Inv(H, cfg, s) && WATCHDOG in s.tasks && InOwnErase(s.tasks[WATCHDOG])
    ensures OnWatch(DoTask(H, cfg, s, WATCHDOG, true, 0))
  {
    assert TaskOk(H, cfg, s, WATCHDOG, s.tasks[WATCHDOG]);
  }

  lemma WatchKept(H: Hash, cfg: Config, s: Sys, m: Move)
    requires Inv(H, cfg, s) && OnWatch(s)
    ensures OnWatch(Do(H, cfg, s, m))
  {
    MoveAscends(H, cfg, s, m);
    if m.TaskStep? && m.tid in s.tasks {
      if m.tid != WATCHDOG {
        TaskOthersStay(H, cfg, s, m.tid, m.ok, m.spawned);
      } else if InWatch(s.tasks[WATCHDOG]) {
        OwnLoopStep(H, cfg, s);
      } else if InOwnErase(s.tasks[WATCHDOG]) {
        OwnEraseStep(H, cfg, s);
      }
    }
  }

  /** In every interleaving the watchdog is on watch: it ends only after the ledger is erased. */
  lemma {:induction false} WatchdogStays(H: Hash, cfg: Config, moves: seq<Move>)
    ensures OnWatch(After(H, cfg, moves))
  {
    if moves != [] {
      var front := moves[..|moves| - 1];
      WatchdogStays(H, cfg, front);
      ExecInv(H, cfg, front);
      WatchKept(H, cfg, After(H, cfg, front), moves[|moves| - 1]);
    }
  }

  // ── A mission is stamped ─────────────────────────────────────────────────

  /** A start about to be spawned, and a mission once spawned, has its instant on record. */
  ghost predicate Stamped(s: Sys) {
    (s.missions != [] ==> s.startTime.Some?)
    && forall t :: t in s.tasks && s.tasks[t].SpawnMission? ==> s.startTime.Some?
  }

  lemma StampStep(H: Hash, cfg: Config, s: Sys, tid: nat, ok: bool, spawned: nat)
    requires tid in s.tasks && s.tasks[tid].StampStart?
    ensures DoTask(H, cfg, s, tid, ok, spawned).startTime.Some?
  {
  }

  /** No stamp is touched, no mission added, and its own task does not come to a spawn. */
  predicate StampLeft(s: Sys, s': Sys, tid: nat) {
    s'.startTime == s.startTime && s'.missions == s.missions && s'.tasks.Keys == s.tasks.Keys
    && tid in s'.tasks && !s'.tasks[tid].SpawnMission?
  }

  lemma AdmitLeavesStamp(H: Hash, cfg: Config, s: Sys, tid: nat)
    requires tid in s.tasks && (InAdmit(s.tasks[tid]) || s.tasks[tid].Clocked?)
    ensures StampLeft(s, DoTask(H, cfg, s, tid, true, 0), tid)
  {
  }

  lemma WatchLeavesStamp(H: Hash, cfg: Config, s: Sys, tid: nat)
    requires tid in s.tasks && InWatch(s.tasks[tid])
    ensures StampLeft(s, DoTask(H, cfg, s, tid, true, 0), tid)
  {
  }

  lemma ClosingLeavesStamp(H: Hash, cfg: Config, s: Sys, tid: nat, ok: bool)
    requires tid in s.tasks && InClosing(s.tasks[tid])
    ensures StampLeft(s, DoTask(H, cfg, s, tid, ok, 0), tid)
  {
  }

  lemma MissionLeavesStamp(H: Hash, cfg: Config, s: Sys, tid: nat, ok: bool)
    requires tid in s.tasks && InMission(s.tasks[tid]) && !s.tasks[tid].StampStart?
    ensures StampLeft(s, DoTask(H, cfg, s, tid, ok, 0), tid)
  {
  }

  lemma PlainLeavesStamp(H: Hash, cfg: Config, s: Sys, tid: nat, ok: bool)
    requires tid in s.tasks && !s.tasks[tid].StampStart? && !s.tasks[tid].SpawnMission?
    ensures StampLeft(s, DoTask(H, cfg, s, tid, ok, 0), tid)
  {
    var pc := s.tasks[tid];
    if InMission(pc) {
      MissionLeavesStamp(H, cfg, s, tid, ok);
    } else if InClosing(pc) {
      ClosingLeavesStamp(H, cfg, s, tid, ok);
    } else if InWatch(pc) {
      WatchLeavesStamp(H, cfg, s, tid);
    } else {
      AdmitLeavesStamp(H, cfg, s, tid);
    }
  }

  lemma SpawnKeepsStamp(H: Hash, cfg: Config, s: Sys, tid: nat, spawned: nat)
    requires Stamped(s) && tid in s.tasks && s.tasks[tid].SpawnMission?
    ensures Stamped(DoTask(H, cfg, s, tid, true, spawned))
  {
  }

  lemma PlainKeepsStamp(s: Sys, s': Sys, tid: nat)
    requires Stamped(s) && StampLeft(s, s', tid) && OthersStay(s, s', tid)
    ensures Stamped(s')
  {
    forall t | t in s'.tasks && s'.tasks[t].SpawnMission? ensures s'.startTime.Some? {
      assert t in s.tasks && s.tasks[t] == s'.tasks[t];
    }
  }

  lemma StampedKept(H: Hash, cfg: Config, s: Sys, m: Move)
    requires Stamped(s)
    ensures Stamped(Do(H, cfg, s, m))
  {
    if m.TaskStep? && m.tid in s.tasks {
      if s.tasks[m.tid].StampStart? {
        StampStep(H, cfg, s, m.tid, m.ok, m.spawned);
      } else if s.tasks[m.tid].SpawnMission? {
        SpawnKeepsStamp(H, cfg, s, m.tid, m.spawned);
      } else {
        PlainLeavesStamp(H, cfg, s, m.tid, m.ok);
        TaskOthersStay(H, cfg, s, m.tid, m.ok, m.spawned);
        PlainKeepsStamp(s, DoTask(H, cfg, s, m.tid, m.ok, m.spawned), m.tid);
      }
    }
  }

  /** In every interleaving a mission that exists has its start time. */
  lemma {:induction false} MissionStamped(H: Hash, cfg: Config, moves: seq<Move>)
    ensures Stamped(After(H, cfg, moves))
  {
    if moves != [] {
      var front := moves[..|moves| - 1];
      MissionStamped(H, cfg, front);
      StampedKept(H, cfg, After(H, cfg, front), moves[|moves| - 1]);
    }
  }

  // ── Once the time is up ──────────────────────────────────────────────────

  /** All steps of one task. */
  predicate OnlyBy(moves: seq<Move>, tid: nat) {
    forall i :: 0 <= i < |moves| ==> moves[i].TaskStep? && moves[i].tid == tid
  }

  predicate Over(s: Sys) {
    s.ledger.state.phase == Erased && s.abort && s.lock == None
  }

  /** Steps of the watchdog alone, no clock and no other task moving, get to the erased ledger. */
  ghost predicate WatchdogCanErase(H: Hash, cfg: Config, s: Sys) {
    exists moves :: OnlyBy(moves, WATCHDOG) && Over(Exec(H, cfg, s, moves))
  }

  lemma CanEraseBefore(H: Hash, cfg: Config, s: Sys)
    requires WATCHDOG in s.tasks && WatchdogCanErase(H, cfg, DoTask(H, cfg, s, WATCHDOG, true, 0))
    ensures WatchdogCanErase(H, cfg, s)
  {
    var m := TaskStep(WATCHDOG, true, 0);
    var rest :| OnlyBy(rest, WATCHDOG) && Over(Exec(H, cfg, Do(H, cfg, s, m), rest));
    ExecCons(H, cfg, s, m, rest);
    assert OnlyBy([m] + rest, WATCHDOG);
  }

  /** The time is up and nothing is erased; the lock is free or the watchdog's own. */
  predicate Due(cfg: Config, s: Sys) {
    WATCHDOG in s.tasks && s.startTime.Some? && Elapsed(s) >= cfg.params.deadline
    && s.ledger.state.phase != Armed && s.ledger.state.phase != Erased && s.lock == None
  }

  /** Where the watchdog is, on its way to the erasure. */
  function WatchStage(pc: Pc): nat {
    match pc
    case WatchSleep => 6
    case WatchCheck => 5
    case WatchClock => 4
    case WatchStore => 3
    case Calling(_) => 2
    case _ => 1
  }

  /** Up to the arbitration every step of the watchdog brings it nearer, and nothing else changes. */
  lemma DueStep(H: Hash, cfg: Config, s: Sys)
    requires Due(cfg, s)
    requires InWatch(s.tasks[WATCHDOG]) || s.tasks[WATCHDOG] == Calling(WatchdogErase)
    ensures var s' := DoTask(H, cfg, s, WATCHDOG, true, 0);
            Due(cfg, s') && WatchStage(s'.tasks[WATCHDOG]) < WatchStage(s.tasks[WATCHDOG])
            && s'.ledger == s.ledger
            && (InWatch(s'.tasks[WATCHDOG]) || s'.tasks[WATCHDOG] == Calling(WatchdogErase)
                || (s'.tasks[WATCHDOG].Clocked? && s'.tasks[WATCHDOG].caller.WatchdogErase?))
  {
  }

  /** The watchdog's critical section, with the erased ledger in it, raises the flag and lets go. */
  lemma EraseLeaves(H: Hash, cfg: Config, s: Sys, d: Decision)
    requires WATCHDOG in s.tasks && s.tasks[WATCHDOG] == Critical(WatchdogErase, d)
    requires s.ledger.state.phase == Erased
    ensures WatchdogCanErase(H, cfg, s)
  {
    var s1 := DoTask(H, cfg, s, WATCHDOG, true, 0);
    assert s1 == Put(s.(abort := true), WATCHDOG, Unlocking(WatchdogErase, d));
    var s2 := DoTask(H, cfg, s1, WATCHDOG, true, 0);
    assert Over(s2);
    assert Exec(H, cfg, s2, []) == s2 && OnlyBy([], WATCHDOG);
    CanEraseBefore(H, cfg, s1);
    CanEraseBefore(H, cfg, s);
  }

  lemma EraseEnters(H: Hash, cfg: Config, s: Sys)
    requires LedgerOk(H, cfg, s.ledger) && Due(cfg, s)
    requires s.tasks[WATCHDOG].Clocked? && s.tasks[WATCHDOG].caller.WatchdogErase?
    ensures WatchdogCanErase(H, cfg, s)
  {
    var e := s.tasks[WATCHDOG].elapsed;
    var (l, d) := Arbitrate(H, s.ledger, e, Erase);
    StepAscends(H, cfg, s.ledger, e, Erase);
    var s' := Put(s.(ledger := l, lock := Some(WATCHDOG)), WATCHDOG, Critical(WatchdogErase, d));
    assert DoTask(H, cfg, s, WATCHDOG, true, 0) == s';
    EraseLeaves(H, cfg, s', d);
    CanEraseBefore(H, cfg, s);
  }

  lemma {:induction false} DueErases(H: Hash, cfg: Config, s: Sys)
    requires LedgerOk(H, cfg, s.ledger) && Due(cfg, s)
    requires InWatch(s.tasks[WATCHDOG]) || s.tasks[WATCHDOG] == Calling(WatchdogErase)
             || (s.tasks[WATCHDOG].Clocked? && s.tasks[WATCHDOG].caller.WatchdogErase?)
    ensures WatchdogCanErase(H, cfg, s)
    decreases WatchStage(s.tasks[WATCHDOG])
  {
    if s.tasks[WATCHDOG].Clocked? {
      EraseEnters(H, cfg, s);
    } else {
      DueStep(H, cfg, s);
      DueErases(H, cfg, DoTask(H, cfg, s, WATCHDOG, true, 0));
      CanEraseBefore(H, cfg, s);
    }
  }

  /**
   * The mission's time limit. In every interleaving in which a mission was started, the ledger
   * lock is free and the mission's time is up, the ledger is erased with the flag up, or steps
   * of the watchdog alone make it so.
   */
  lemma TimeLimitKept(H: Hash, cfg: Config, moves: seq<Move>)
    requires var s := After(H, cfg, moves);
             s.missions != [] && s.lock == None && Elapsed(s) >= cfg.params.deadline
    ensures var s := After(H, cfg, moves); Over(s) || WatchdogCanErase(H, cfg, s)
  {
    var s := After(H, cfg, moves);
    ExecInv(H, cfg, moves);
    WatchdogStays(H, cfg, moves);
    MissionStamped(H, cfg, moves);
    if s.ledger.state.phase != Erased {
      assert TaskOk(H, cfg, s, WATCHDOG, s.tasks[WATCHDOG]);
      DueErases(H, cfg, s);
    }
  }

  // ── A mission can attest ─────────────────────────────────────────────────

  /** The mission at this place in this phase, alone with the watchdog and holding no lock. */
  predicate MissionAt(s: Sys, phase: Phase, pc: Pc) {
    s.lock == None && s.ledger.state.phase == phase
    && s.tasks == map[WATCHDOG := WatchSleep, 1 := Done, 2 := pc]
  }

  lemma MissionStep(H: Hash, cfg: Config, s: Sys, phase: Phase, pc: Pc, s': Sys, next: Pc)
    requires Reaches(H, cfg, s) && MissionAt(s, phase, pc)
    requires s' == Do(H, cfg, s, TaskStep(2, true, 0)) && s'.lock == None && s'.ledger == s.ledger
    requires s'.tasks == s.tasks[2 := next]
    ensures Reaches(H, cfg, s') && MissionAt(s', phase, next)
  {
    ReachesNext(H, cfg, s, TaskStep(2, true, 0));
  }

  lemma KeyReleaseLocks(H: Hash, cfg: Config, l: LedgerValue, elapsed: u64)
    requires LedgerOk(H, cfg, l) && l.state.phase == Active
    ensures var (l', d) := Arbitrate(H, l, elapsed, KeyReleased); d == Admit && l'.state.phase == Locked
  {
    StepPrecedes(H, WithElapsed(l.state, elapsed), KeyReleased);
  }

  lemma EraseErases(H: Hash, cfg: Config, l: LedgerValue, elapsed: u64)
    requires LedgerOk(H, cfg, l)
    ensures var (l', d) := Arbitrate(H, l, elapsed, Erase); d == Admit && l'.state.phase == Erased
  {
    StepAscends(H, cfg, l, elapsed, Erase);
  }

  /** A call of the mission's that is admitted, undisturbed. */
  lemma MissionCall(H: Hash, cfg: Config, s: Sys, phase: Phase, c: Caller, next: Phase) returns (s': Sys)
    requires Reaches(H, cfg, s) && MissionAt(s, phase, Calling(c))
    requires var (l, d) := Arbitrate(H, s.ledger, Elapsed(s), c.Submits()); d == Admit && l.state.phase == next
    ensures Reaches(H, cfg, s') && MissionAt(s', next, Returned(c, Admit))
  {
    AdmitRuns(H, cfg, s, 2, c);
    s' := Admitted(H, s, 2, c);
    assert s.tasks[2 := Returned(c, Admit)] == map[WATCHDOG := WatchSleep, 1 := Done, 2 := Returned(c, Admit)];
  }

  /** Some run gets the mission to this place in this phase. */
  ghost predicate Gets(H: Hash, cfg: Config, phase: Phase, pc: Pc) {
    exists s :: Reaches(H, cfg, s) && MissionAt(s, phase, pc)
  }

  lemma GetsKeyCall(H: Hash, cfg: Config)
    ensures Gets(H, cfg, Active, Calling(KeyRelease))
  {
    MissionOpens(H, cfg);
    var s :| Reaches(H, cfg, s) && Underway(s, Opening);
    var s1 := Put(s.(identityLive := true), 2, IdentityReady);
    MissionStep(H, cfg, s, Active, Opening, s1, IdentityReady);
    MissionStep(H, cfg, s1, Active, IdentityReady, Put(s1, 2, Calling(KeyRelease)), Calling(KeyRelease));
  }

  lemma GetsKey(H: Hash, cfg: Config)
    ensures Gets(H, cfg, Locked, Returned(KeyRelease, Admit))
  {
    GetsKeyCall(H, cfg);
    var s :| Reaches(H, cfg, s) && MissionAt(s, Active, Calling(KeyRelease));
    ReachesInv(H, cfg, s);
    KeyReleaseLocks(H, cfg, s.ledger, Elapsed(s));
    var _ := MissionCall(H, cfg, s, Active, KeyRelease, Locked);
  }

  lemma GetsEraseCall(H: Hash, cfg: Config)
    ensures Gets(H, cfg, Locked, Calling(StepErase))
  {
    GetsKey(H, cfg);
    var s :| Reaches(H, cfg, s) && MissionAt(s, Locked, Returned(KeyRelease, Admit));
    MissionStep(H, cfg, s, Locked, Returned(KeyRelease, Admit), Put(s, 2, Calling(StepErase)), Calling(StepErase));
  }

  lemma GetsErased(H: Hash, cfg: Config)
    ensures Gets(H, cfg, Erased, Returned(StepErase, Admit))
  {
    GetsEraseCall(H, cfg);
    var s :| Reaches(H, cfg, s) && MissionAt(s, Locked, Calling(StepErase));
    ReachesInv(H, cfg, s);
    EraseErases(H, cfg, s.ledger, Elapsed(s));
    var _ := MissionCall(H, cfg, s, Locked, StepErase, Erased);
  }

  lemma GetsSnapshot(H: Hash, cfg: Config)
    ensures Gets(H, cfg, Erased, Snapshotting)
  {
    GetsErased(H, cfg);
    var s :| Reaches(H, cfg, s) && MissionAt(s, Erased, Returned(StepErase, Admit));
    var s1 := Put(s, 2, Wiping(StepErase));
    MissionStep(H, cfg, s, Erased, Returned(StepErase, Admit), s1, Wiping(StepErase));
    MissionStep(H, cfg, s1, Erased, Wiping(StepErase), Put(s1.(identityLive := false), 2, Snapshotting), Snapshotting);
  }

  lemma GetsProof(H: Hash, cfg: Config)
    ensures exists s, x :: Reaches(H, cfg, s) && MissionAt(s, Erased, Publishing(x))
  {
    GetsSnapshot(H, cfg);
    var s :| Reaches(H, cfg, s) && MissionAt(s, Erased, Snapshotting);
    var s1 := Put(s, 2, Proving(s.ledger));
    MissionStep(H, cfg, s, Erased, Snapshotting, s1, Proving(s.ledger));
    MissionStep(H, cfg, s1, Erased, Proving(s.ledger), Put(s1, 2, Publishing(s.ledger)), Publishing(s.ledger));
  }

  /** Under every configuration some run publishes an attestation, so the guarantees about it say something. */
  lemma AttestationReached(H: Hash, cfg: Config)
    ensures exists s :: Reaches(H, cfg, s) && s.attestation.Some?
  {
    GetsProof(H, cfg);
    var s, x :| Reaches(H, cfg, s) && MissionAt(s, Erased, Publishing(x));
    ReachesNext(H, cfg, s, TaskStep(2, true, 0));
    assert Do(H, cfg, s, TaskStep(2, true, 0)).attestation == Some(x);
  }
}
