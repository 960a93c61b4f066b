/**
 * That a mission and an erasing call are seen through: neither stops half-way in any
 * interleaving, and with the ledger's lock free each can finish by its own steps alone
 * (`crates/chronos-agent/src/main.rs`, `state.rs`).
 */
module AgentMission {
  import opened Words
  import opened Containment
  import opened Ledger
  import opened Agent
  import opened AgentRuns
  import opened AgentErasure
  import opened AgentWatch

  // ── The mission goes on ──────────────────────────────────────────────────

  predicate InCall(pc: Pc) {
    pc.Calling? || pc.Clocked? || pc.Critical? || pc.Unlocking? || pc.Returned? || pc.Wiping?
  }

  /** In a call of the mission's own. */
  predicate InMissionCall(pc: Pc) {
    InCall(pc) && (pc.caller.StepErase? || pc.caller.FinalErase? || (pc.caller.KeyRelease? && !pc.Wiping?))
  }

  /** Between two calls, or at its end. */
  predicate BetweenCalls(pc: Pc) {
    pc.Loading? || pc.Delay? || pc.Opening? || pc.IdentityReady? || pc.Snapshotting? || pc.Proving?
    || pc.Publishing? || pc.MissionDone?
  }

  predicate AtMission(pc: Pc) {
    InMissionCall(pc) || BetweenCalls(pc)
  }

  /** The mission's task, if there is one, is at some place of the mission. */
  predicate OnMission(s: Sys) {
    s.missions != [] ==> s.missions[0] in s.tasks && AtMission(s.tasks[s.missions[0]])
  }

  lemma CallGoesOn(H: Hash, cfg: Config, s: Sys, tid: nat)
    requires tid in s.tasks && InMissionCall(s.tasks[tid])
    ensures AtMission(DoTask(H, cfg, s, tid, true, 0).tasks[tid])
  {
  }

  lemma PlaceGoesOn(H: Hash, cfg: Config, s: Sys, tid: nat, ok: bool)
    requires tid in s.tasks && BetweenCalls(s.tasks[tid])
    ensures AtMission(DoTask(H, cfg, s, tid, ok, 0).tasks[tid])
  {
  }

  lemma GoesOn(H: Hash, cfg: Config, s: Sys, tid: nat, ok: bool, spawned: nat)
    requires tid in s.tasks && AtMission(s.tasks[tid])
    ensures DoTask(H, cfg, s, tid, ok, spawned).missions == s.missions
    ensures AtMission(DoTask(H, cfg, s, tid, ok, spawned).tasks[tid])
  {
    PlainLeavesStamp(H, cfg, s, tid, ok);
    if BetweenCalls(s.tasks[tid]) { PlaceGoesOn(H, cfg, s, tid, ok); } else { CallGoesOn(H, cfg, s, tid); }
  }

  lemma SpawnStarts(H: Hash, cfg: Config, s: Sys, tid: nat, spawned: nat)
    requires OnMission(s) && s.missions == [] && tid in s.tasks && s.tasks[tid].SpawnMission?
    ensures OnMission(DoTask(H, cfg, s, tid, true, spawned))
  {
  }

  lemma OtherGoesOn(H: Hash, cfg: Config, s: Sys, tid: nat, ok: bool, spawned: nat)
    requires OnMission(s) && tid in s.tasks && !s.tasks[tid].SpawnMission?
    requires s.missions != [] ==> tid != s.missions[0]
    ensures OnMission(DoTask(H, cfg, s, tid, ok, spawned))
  {
    TaskOthersStay(H, cfg, s, tid, ok, spawned);
    if !s.tasks[tid].StampStart? { PlainLeavesStamp(H, cfg, s, tid, ok); }
  }

  lemma MissionKept(H: Hash, cfg: Config, s: Sys, m: Move)
    requires Inv(H, cfg, s) && OnMission(s)
    ensures OnMission(Do(H, cfg, s, m))
  {
    if m.TaskStep? && m.tid in s.tasks {
      if s.tasks[m.tid].SpawnMission? {
        assert TaskOk(H, cfg, s, m.tid, s.tasks[m.tid]);
        SpawnStarts(H, cfg, s, m.tid, m.spawned);
      } else if s.missions != [] && m.tid == s.missions[0] {
        GoesOn(H, cfg, s, m.tid, m.ok, m.spawned);
      } else {
        OtherGoesOn(H, cfg, s, m.tid, m.ok, m.spawned);
      }
    }
  }

  /** In every interleaving a mission that was started is at some place of the mission and nowhere else. */
  lemma {:induction false} MissionStays(H: Hash, cfg: Config, moves: seq<Move>)
    ensures OnMission(After(H, cfg, moves))
  {
    if moves != [] {
      var front := moves[..|moves| - 1];
      MissionStays(H, cfg, front);
      ExecInv(H, cfg, front);
      MissionKept(H, cfg, After(H, cfg, front), moves[|moves| - 1]);
    }
  }

  // ── The mission can finish ───────────────────────────────────────────────

  predicate FreeFor(s: Sys, tid: nat) {
    s.lock == None || s.lock == Some(tid)
  }

  /** Erased, wiped and over. */
  predicate MissionOver(s: Sys, tid: nat) {
    tid in s.tasks && s.tasks[tid] == MissionDone && s.ledger.state.phase == Erased && !s.identityLive
  }

  ghost predicate MissionCanEnd(H: Hash, cfg: Config, s: Sys, tid: nat) {
    exists moves :: OnlyBy(moves, tid) && MissionOver(Exec(H, cfg, s, moves), tid)
  }

  lemma CanEndBefore(H: Hash, cfg: Config, s: Sys, tid: nat)
    requires tid in s.tasks && MissionCanEnd(H, cfg, DoTask(H, cfg, s, tid, false, 0), tid)
    ensures MissionCanEnd(H, cfg, s, tid)
  {
    var m := TaskStep(tid, false, 0);
    var rest :| OnlyBy(rest, tid) && MissionOver(Exec(H, cfg, Do(H, cfg, s, m), rest), tid);
    ExecCons(H, cfg, s, m, rest);
    assert OnlyBy([m] + rest, tid);
  }

  /** Steps left in a call before its return is dealt with. */
  function CallStage(pc: Pc): nat
    requires InCall(pc)
  {
    match pc
    case Calling(_) => 6
    case Clocked(_, _) => 5
    case Critical(_, _) => 4
    case Unlocking(_, _) => 3
    case Returned(_, _) => 2
    case _ => 1
  }

  /** Steps left when everything that can fail does. */
  function MissionStage(cfg: Config, pc: Pc): nat
    requires AtMission(pc)
  {
    if InCall(pc) then CallStage(pc) + (if pc.caller.FinalErase? then 0 else if pc.caller.StepErase? then 8 else 13)
    else
      match pc
      case MissionDone => 0
      case Delay(done) => 23 + (if done < 2 * cfg.squarings then 2 * cfg.squarings - done else 0)
      case Opening => 22
      case IdentityReady => 22
      case Loading => 22
      case Snapshotting => 8
      case _ => 7
  }

  /** Inside a call: the same caller, one step further. */
  lemma InsideNearer(H: Hash, cfg: Config, s: Sys, tid: nat)
    requires tid in s.tasks && InCall(s.tasks[tid]) && !s.tasks[tid].Returned? && !s.tasks[tid].Wiping?
    requires FreeFor(s, tid) && (s.tasks[tid].Clocked? ==> s.lock == None)
    ensures var pc, s' := s.tasks[tid], DoTask(H, cfg, s, tid, true, 0);
            FreeFor(s', tid) && InCall(s'.tasks[tid]) && !s'.tasks[tid].Wiping? && s'.tasks[tid].caller == pc.caller
            && CallStage(s'.tasks[tid]) < CallStage(pc)
  {
  }

  lemma CallNearer(H: Hash, cfg: Config, s: Sys, tid: nat)
    requires tid in s.tasks && InMissionCall(s.tasks[tid]) && FreeFor(s, tid) && (s.tasks[tid].Clocked? ==> s.lock == None)
    ensures var s' := DoTask(H, cfg, s, tid, false, 0);
            FreeFor(s', tid) && AtMission(s'.tasks[tid])
            && MissionStage(cfg, s'.tasks[tid]) < MissionStage(cfg, s.tasks[tid])
  {
    if s.tasks[tid].Returned? || s.tasks[tid].Wiping? {
      ReturnNearer(H, cfg, s, tid);
    } else {
      InsideNearer(H, cfg, s, tid);
      assert DoTask(H, cfg, s, tid, false, 0) == DoTask(H, cfg, s, tid, true, 0);
    }
  }

  lemma ReturnNearer(H: Hash, cfg: Config, s: Sys, tid: nat)
    requires tid in s.tasks && InMissionCall(s.tasks[tid]) && FreeFor(s, tid)
    requires s.tasks[tid].Returned? || s.tasks[tid].Wiping?
    ensures var s' := DoTask(H, cfg, s, tid, false, 0);
            FreeFor(s', tid) && AtMission(s'.tasks[tid])
            && MissionStage(cfg, s'.tasks[tid]) < MissionStage(cfg, s.tasks[tid])
  {
  }

  lemma PlaceNearer(H: Hash, cfg: Config, s: Sys, tid: nat)
    requires tid in s.tasks && BetweenCalls(s.tasks[tid]) && s.lock == None && s.tasks[tid] != MissionDone
    ensures var s' := DoTask(H, cfg, s, tid, false, 0);
            FreeFor(s', tid) && AtMission(s'.tasks[tid])
            && MissionStage(cfg, s'.tasks[tid]) < MissionStage(cfg, s.tasks[tid])
  {
  }

  lemma MissionNearer(H: Hash, cfg: Config, s: Sys, tid: nat)
    requires Inv(H, cfg, s) && s.missions == [tid] && tid in s.tasks && AtMission(s.tasks[tid]) && FreeFor(s, tid)
    requires s.tasks[tid] != MissionDone
    ensures var s' := DoTask(H, cfg, s, tid, false, 0);
            FreeFor(s', tid) && s'.missions == [tid] && tid in s'.tasks && AtMission(s'.tasks[tid])
            && MissionStage(cfg, s'.tasks[tid]) < MissionStage(cfg, s.tasks[tid])
  {
    if BetweenCalls(s.tasks[tid]) { PlaceNearer(H, cfg, s, tid); } else { CallNearer(H, cfg, s, tid); }
    GoesOn(H, cfg, s, tid, false, 0);
  }

  lemma {:induction false} MissionFinishes(H: Hash, cfg: Config, s: Sys, tid: nat)
    requires Inv(H, cfg, s) && s.missions == [tid] && tid in s.tasks && AtMission(s.tasks[tid]) && FreeFor(s, tid)
    ensures MissionCanEnd(H, cfg, s, tid)
    decreases MissionStage(cfg, s.tasks[tid])
  {
    if s.tasks[tid] == MissionDone {
      assert TaskOk(H, cfg, s, tid, s.tasks[tid]);
      assert MissionOver(Exec(H, cfg, s, []), tid) && OnlyBy([], tid);
    } else {
      MissionNearer(H, cfg, s, tid);
      MoveKeeps(H, cfg, s, TaskStep(tid, false, 0));
      MissionFinishes(H, cfg, DoTask(H, cfg, s, tid, false, 0), tid);
      CanEndBefore(H, cfg, s, tid);
    }
  }

  /**
   * A mission is always seen through: in every interleaving, with the lock free, steps of a
   * started mission alone take it to its end, and there the ledger is erased and the identity wiped.
   */
  lemma MissionEnds(H: Hash, cfg: Config, moves: seq<Move>)
    requires After(H, cfg, moves).missions != [] && After(H, cfg, moves).lock == None
    ensures var s := After(H, cfg, moves); MissionCanEnd(H, cfg, s, s.missions[0])
  {
    ExecInv(H, cfg, moves);
    MissionStays(H, cfg, moves);
    var s := After(H, cfg, moves);
    assert s.missions == [s.missions[0]];
    MissionFinishes(H, cfg, s, s.missions[0]);
  }

  // ── An erasing call erases ───────────────────────────────────────────────

  /** In a forced erasure of this caller's. */
  predicate InForced(pc: Pc, c: Caller) {
    c.Forces() && InCall(pc) && pc.caller == c
  }

  /** Erased, flag up, lock free, identity wiped, and the caller where it goes on from. */
  predicate ForceDone(s: Sys, tid: nat, c: Caller) {
    Over(s) && !s.identityLive && tid in s.tasks
    && s.tasks[tid] == if c.StepErase? then Snapshotting else if c.FinalErase? then MissionDone else Done
  }

  ghost predicate CanForce(H: Hash, cfg: Config, s: Sys, tid: nat, c: Caller) {
    exists moves :: OnlyBy(moves, tid) && ForceDone(Exec(H, cfg, s, moves), tid, c)
  }

  lemma CanForceBefore(H: Hash, cfg: Config, s: Sys, tid: nat, c: Caller)
    requires tid in s.tasks && CanForce(H, cfg, DoTask(H, cfg, s, tid, true, 0), tid, c)
    ensures CanForce(H, cfg, s, tid, c)
  {
    var m := TaskStep(tid, true, 0);
    var rest :| OnlyBy(rest, tid) && ForceDone(Exec(H, cfg, Do(H, cfg, s, m), rest), tid, c);
    ExecCons(H, cfg, s, m, rest);
    assert OnlyBy([m] + rest, tid);
  }

  lemma ForcedNearer(H: Hash, cfg: Config, s: Sys, tid: nat, c: Caller)
    requires tid in s.tasks && InForced(s.tasks[tid], c) && FreeFor(s, tid) && !s.tasks[tid].Wiping?
    requires s.tasks[tid].Clocked? ==> s.lock == None
    ensures var s' := DoTask(H, cfg, s, tid, true, 0);
            FreeFor(s', tid) && InForced(s'.tasks[tid], c) && CallStage(s'.tasks[tid]) < CallStage(s.tasks[tid])
  {
    if !s.tasks[tid].Returned? { InsideNearer(H, cfg, s, tid); }
  }

  lemma WipeDone(H: Hash, cfg: Config, s: Sys, tid: nat, c: Caller)
    requires tid in s.tasks && s.tasks[tid] == Wiping(c) && Over(s)
    ensures ForceDone(DoTask(H, cfg, s, tid, true, 0), tid, c)
  {
  }

  lemma {:induction false} ForcedFinishes(H: Hash, cfg: Config, s: Sys, tid: nat, c: Caller)
    requires Inv(H, cfg, s) && tid in s.tasks && InForced(s.tasks[tid], c) && FreeFor(s, tid)
    ensures CanForce(H, cfg, s, tid, c)
    decreases CallStage(s.tasks[tid])
  {
    var s' := DoTask(H, cfg, s, tid, true, 0);
    if s.tasks[tid].Wiping? {
      assert TaskOk(H, cfg, s, tid, s.tasks[tid]);
      WipeDone(H, cfg, s, tid, c);
      assert Exec(H, cfg, s', []) == s' && OnlyBy([], tid);
    } else {
      ForcedNearer(H, cfg, s, tid, c);
      MoveKeeps(H, cfg, s, TaskStep(tid, true, 0));
      ForcedFinishes(H, cfg, s', tid, c);
    }
    CanForceBefore(H, cfg, s, tid, c);
  }

  /**
   * A forced erasure, at shutdown, by the watchdog or by the mission, is not lost: in every
   * interleaving, from wherever in the call its task is with the lock free, its steps alone
   * erase the ledger, raise the flag and wipe the identity.
   */
  lemma ForcedErases(H: Hash, cfg: Config, moves: seq<Move>, tid: nat, c: Caller)
    requires var s := After(H, cfg, moves); tid in s.tasks && InForced(s.tasks[tid], c) && s.lock == None
    ensures CanForce(H, cfg, After(H, cfg, moves), tid, c)
  {
    ExecInv(H, cfg, moves);
    ForcedFinishes(H, cfg, After(H, cfg, moves), tid, c);
  }

  // ── The time on record ───────────────────────────────────────────────────

  /** An undisturbed call leaves the real elapsed time on record. */
  lemma CallRecordsTime(H: Hash, cfg: Config, s: Sys, tid: nat, c: Caller)
    requires Reaches(H, cfg, s) && tid in s.tasks && s.tasks[tid] == Calling(c) && s.lock.None?
    ensures Reaches(H, cfg, Admitted(H, s, tid, c)) && Admitted(H, s, tid, c).ledger.state.elapsed == Elapsed(s)
  {
    AdmitRuns(H, cfg, s, tid, c);
    ReachesInv(H, cfg, s);
    StepAscends(H, cfg, s.ledger, Elapsed(s), c.Submits());
  }
}
