/**
 * What erasure does to a mission under way: exactly which missions can still open the key and
 * set the identity up after the ledger is erased (`crates/chronos-agent/src/state.rs`,
 * `main.rs`, `crates/chronos-vdf/src/wesolowski.rs`).
 */
module AgentErasure {
  import opened Words
  import opened Containment
  import opened Ledger
  import opened Agent
  import opened AgentRuns
  import Wesolowski

  // ── The last poll ────────────────────────────────────────────────────────

  /** Iteration `k` lies behind the last one at which the flag is read. */
  predicate BehindPolls(k: nat, t: nat) {
    t == 0 || k > t + (t - 1) / Wesolowski.ABORT_POLL_INTERVAL * Wesolowski.ABORT_POLL_INTERVAL
  }

  /** That is the last poll: none comes after it, and there is one at it. */
  lemma LastPoll(k: nat, t: nat)
    ensures BehindPolls(k, t) <==> forall j: nat :: j >= k ==> !Wesolowski.IsPoll(j, t)
  {
    if t > 0 {
      var last := (t - 1) / Wesolowski.ABORT_POLL_INTERVAL * Wesolowski.ABORT_POLL_INTERVAL;
      assert last <= t - 1 < last + Wesolowski.ABORT_POLL_INTERVAL;
      assert Wesolowski.IsPoll(t + last, t);
      if k > t + last {
        forall j: nat | j >= k ensures !Wesolowski.IsPoll(j, t) {
          if Wesolowski.IsPoll(j, t) { MultipleWithin(j - t, last); }
        }
      }
    }
  }

  lemma MultipleWithin(i: nat, last: nat)
    requires i % Wesolowski.ABORT_POLL_INTERVAL == 0 && last % Wesolowski.ABORT_POLL_INTERVAL == 0
    requires i < last + Wesolowski.ABORT_POLL_INTERVAL
    ensures i <= last
  {
  }

  /** The delay iteration a mission has ahead of it, from its admission to its opening of the key. */
  function NextIteration(cfg: Config, pc: Pc): Option<nat> {
    if Starting(pc) || pc.Loading? then Some(0)
    else if pc.Delay? then Some(pc.done)
    else if pc.Opening? then Some(2 * cfg.squarings)
    else None
  }

  /** A mission on its way to the key that will not read the flag again. */
  predicate PastLastPoll(cfg: Config, pc: Pc) {
    NextIteration(cfg, pc).Some? && BehindPolls(NextIteration(cfg, pc).value, cfg.squarings)
  }

  ghost predicate SomePast(cfg: Config, s: Sys) {
    exists t :: t in s.tasks && PastLastPoll(cfg, s.tasks[t])
  }

  // ── Nothing past the polls stays that way ────────────────────────────────

  /** Erased, flag up, identity wiped, and no mission past its last poll. */
  ghost predicate Stopped(cfg: Config, s: Sys) {
    s.ledger.state.phase == Erased && s.abort && !s.identityLive && !SomePast(cfg, s)
  }

  /** Only this task moved, and not past the last poll. */
  predicate StaysBehind(cfg: Config, s: Sys, s': Sys, tid: nat) {
    tid in s'.tasks && s'.tasks == s.tasks[tid := s'.tasks[tid]] && !PastLastPoll(cfg, s'.tasks[tid])
  }

  /** With the flag up, an iteration either is behind the polls already or leads nowhere past them. */
  lemma IterationStops(cfg: Config, done: nat)
    requires !PastLastPoll(cfg, Delay(done))
    ensures !PastLastPoll(cfg, AfterIteration(cfg, true, done))
  {
    LastPoll(done, cfg.squarings);
    LastPoll(done + 1, cfg.squarings);
    LastPoll(2 * cfg.squarings, cfg.squarings);
  }

  lemma DelayStep(H: Hash, cfg: Config, s: Sys, tid: nat)
    requires tid in s.tasks && s.abort && s.tasks[tid].Delay? && !PastLastPoll(cfg, s.tasks[tid])
    ensures StaysBehind(cfg, s, DoTask(H, cfg, s, tid, true, 0), tid)
  {
    IterationStops(cfg, s.tasks[tid].done);
  }

  /** Only this task moved, and it is not on its way to the key. */
  predicate StaysOff(cfg: Config, s: Sys, s': Sys, tid: nat) {
    tid in s'.tasks && s'.tasks == s.tasks[tid := s'.tasks[tid]] && NextIteration(cfg, s'.tasks[tid]).None?
  }

  predicate InAdmit(pc: Pc) {
    pc.Calling? || pc.Critical? || pc.Unlocking? || pc.Returned? || pc.Wiping?
  }

  lemma AdmitOffTheWay(H: Hash, cfg: Config, s: Sys, tid: nat)
    requires tid in s.tasks && NextIteration(cfg, s.tasks[tid]).None? && InAdmit(s.tasks[tid])
    ensures StaysOff(cfg, s, DoTask(H, cfg, s, tid, true, 0), tid)
  {
    var s' := DoTask(H, cfg, s, tid, true, 0);
    assert s'.tasks == s.tasks[tid := s'.tasks[tid]];
  }

  predicate InWatch(pc: Pc) {
    pc.WatchSleep? || pc.WatchCheck? || pc.WatchClock? || pc.WatchStore?
  }

  lemma WatchOffTheWay(H: Hash, cfg: Config, s: Sys, tid: nat)
    requires tid in s.tasks && InWatch(s.tasks[tid])
    ensures StaysOff(cfg, s, DoTask(H, cfg, s, tid, true, 0), tid)
  {
    var s' := DoTask(H, cfg, s, tid, true, 0);
    assert s'.tasks == s.tasks[tid := s'.tasks[tid]];
  }

  /** Past the opening, or over. */
  predicate InClosing(pc: Pc) {
    pc.IdentityReady? || pc.Snapshotting? || pc.Proving? || pc.Publishing? || pc.MissionDone? || pc.Done?
  }

  lemma ClosingOffTheWay(H: Hash, cfg: Config, s: Sys, tid: nat, ok: bool)
    requires tid in s.tasks && InClosing(s.tasks[tid])
    ensures StaysOff(cfg, s, DoTask(H, cfg, s, tid, ok, 0), tid)
  {
    var s' := DoTask(H, cfg, s, tid, ok, 0);
    assert s'.tasks == s.tasks[tid := s'.tasks[tid]];
  }

  /** A task that is not on its way to the key does not get on it. */
  lemma OffTheWay(H: Hash, cfg: Config, s: Sys, tid: nat, ok: bool)
    requires tid in s.tasks && NextIteration(cfg, s.tasks[tid]).None? && !s.tasks[tid].Clocked?
    ensures StaysOff(cfg, s, DoTask(H, cfg, s, tid, ok, 0), tid)
  {
    if InAdmit(s.tasks[tid]) {
      AdmitOffTheWay(H, cfg, s, tid);
    } else if InWatch(s.tasks[tid]) {
      WatchOffTheWay(H, cfg, s, tid);
    } else {
      ClosingOffTheWay(H, cfg, s, tid, ok);
    }
  }

  /** Up to the first poll, nothing brings a mission with squarings to do past the last one. */
  lemma BeforeDelay(H: Hash, cfg: Config, s: Sys, tid: nat, ok: bool)
    requires tid in s.tasks && (Starting(s.tasks[tid]) || s.tasks[tid].Loading?) && cfg.squarings > 0
    requires !s.tasks[tid].SpawnMission?
    ensures StaysBehind(cfg, s, DoTask(H, cfg, s, tid, ok, 0), tid)
  {
    var s' := DoTask(H, cfg, s, tid, ok, 0);
    assert s'.tasks == s.tasks[tid := s'.tasks[tid]];
  }

  lemma PlainStep(H: Hash, cfg: Config, s: Sys, tid: nat, ok: bool)
    requires tid in s.tasks && s.abort && !PastLastPoll(cfg, s.tasks[tid])
    requires !s.tasks[tid].Clocked? && !s.tasks[tid].SpawnMission?
    ensures StaysBehind(cfg, s, DoTask(H, cfg, s, tid, ok, 0), tid)
  {
    if NextIteration(cfg, s.tasks[tid]).None? {
      OffTheWay(H, cfg, s, tid, ok);
    } else if s.tasks[tid].Delay? {
      DelayStep(H, cfg, s, tid);
    } else {
      LastPoll(2 * cfg.squarings, cfg.squarings);
      BeforeDelay(H, cfg, s, tid, ok);
    }
  }

  /** Once the ledger is erased no arbitration starts a mission. */
  lemma ArbitrationStep(H: Hash, cfg: Config, s: Sys, tid: nat)
    requires LedgerOk(H, cfg, s.ledger) && s.ledger.state.phase == Erased
    requires tid in s.tasks && s.tasks[tid].Clocked?
    ensures StaysBehind(cfg, s, DoTask(H, cfg, s, tid, true, 0), tid)
  {
    var c, e := s.tasks[tid].caller, s.tasks[tid].elapsed;
    ArbitrationRecorded(H, cfg, s.ledger, e, c.Submits());
    var d := Arbitrate(H, s.ledger, e, c.Submits()).1;
    assert s.lock.None? ==> DoTask(H, cfg, s, tid, true, 0).tasks == s.tasks[tid := Critical(c, d)];
  }

  lemma SpawnStep(H: Hash, cfg: Config, s: Sys, tid: nat, spawned: nat)
    requires tid in s.tasks && s.tasks[tid].SpawnMission? && !SomePast(cfg, s)
    ensures !SomePast(cfg, DoTask(H, cfg, s, tid, true, spawned))
  {
    assert !PastLastPoll(cfg, s.tasks[tid]);
  }

  lemma OneBehind(cfg: Config, s: Sys, s': Sys, tid: nat)
    requires StaysBehind(cfg, s, s', tid) && !SomePast(cfg, s)
    ensures !SomePast(cfg, s')
  {
    forall t | t in s'.tasks ensures !PastLastPoll(cfg, s'.tasks[t]) {
      if t != tid { assert s'.tasks[t] == s.tasks[t]; }
    }
  }

  lemma TaskStops(H: Hash, cfg: Config, s: Sys, tid: nat, ok: bool, spawned: nat)
    requires LedgerOk(H, cfg, s.ledger) && s.ledger.state.phase == Erased && s.abort && !SomePast(cfg, s)
    requires tid in s.tasks
    ensures !SomePast(cfg, DoTask(H, cfg, s, tid, ok, spawned))
  {
    assert !PastLastPoll(cfg, s.tasks[tid]);
    if s.tasks[tid].SpawnMission? {
      SpawnStep(H, cfg, s, tid, spawned);
    } else {
      if s.tasks[tid].Clocked? { ArbitrationStep(H, cfg, s, tid); } else { PlainStep(H, cfg, s, tid, ok); }
      OneBehind(cfg, s, DoTask(H, cfg, s, tid, ok, 0), tid);
    }
  }

  lemma ArrivalStops(cfg: Config, s: Sys, tid: nat, c: Caller)
    requires !SomePast(cfg, s)
    ensures !SomePast(cfg, Put(s, tid, Calling(c)))
  {
    OneBehind(cfg, s, Put(s, tid, Calling(c)), tid);
  }

  lemma TasksStop(H: Hash, cfg: Config, s: Sys, m: Move)
    requires LedgerOk(H, cfg, s.ledger) && s.ledger.state.phase == Erased && s.abort && !SomePast(cfg, s)
    ensures !SomePast(cfg, Do(H, cfg, s, m))
  {
    match m
    case Tick(_) =>
    case Arrive(tid, c) => ArrivalStops(cfg, s, tid, c);
    case TaskStep(tid, ok, spawned) => if tid in s.tasks { TaskStops(H, cfg, s, tid, ok, spawned); }
  }

  /** The flag is never lowered, and the identity comes up only from the opening of the key. */
  lemma FlagAndIdentity(H: Hash, cfg: Config, s: Sys, m: Move)
    ensures s.abort ==> Do(H, cfg, s, m).abort
    ensures Do(H, cfg, s, m).identityLive && !s.identityLive ==>
              m.TaskStep? && m.tid in s.tasks && s.tasks[m.tid].Opening?
  {
  }

  lemma StoppedKept(H: Hash, cfg: Config, s: Sys, m: Move)
    requires Inv(H, cfg, s) && Stopped(cfg, s)
    ensures Stopped(cfg, Do(H, cfg, s, m))
  {
    TasksStop(H, cfg, s, m);
    FlagAndIdentity(H, cfg, s, m);
    MoveAscends(H, cfg, s, m);
    if m.TaskStep? && m.tid in s.tasks && s.tasks[m.tid].Opening? {
      LastPoll(2 * cfg.squarings, cfg.squarings);
      assert PastLastPoll(cfg, s.tasks[m.tid]);
    }
  }

  lemma {:induction false} StaysStopped(H: Hash, cfg: Config, s: Sys, moves: seq<Move>)
    requires Inv(H, cfg, s) && Stopped(cfg, s)
    ensures Inv(H, cfg, Exec(H, cfg, s, moves)) && Stopped(cfg, Exec(H, cfg, s, moves))
  {
    if moves != [] {
      var front := moves[..|moves| - 1];
      StaysStopped(H, cfg, s, front);
      StoppedKept(H, cfg, Exec(H, cfg, s, front), moves[|moves| - 1]);
      MoveKeeps(H, cfg, Exec(H, cfg, s, front), moves[|moves| - 1]);
    }
  }

  // ── A mission past the polls gets through ────────────────────────────────

  /** Some continuation sets the identity up. */
  ghost predicate CanReturn(H: Hash, cfg: Config, s: Sys) {
    exists moves :: Exec(H, cfg, s, moves).identityLive
  }

  lemma {:induction false} ExecCons(H: Hash, cfg: Config, s: Sys, m: Move, rest: seq<Move>)
    ensures Exec(H, cfg, s, [m] + rest) == Exec(H, cfg, Do(H, cfg, s, m), rest)
  {
    var all := [m] + rest;
    if rest == [] {
      assert all[..0] == [] && all[0] == m;
    } else {
      var k := |rest| - 1;
      ExecCons(H, cfg, s, m, rest[..k]);
      assert all[..|all| - 1] == [m] + rest[..k];
    }
  }

  lemma CanReturnBefore(H: Hash, cfg: Config, s: Sys, m: Move)
    requires CanReturn(H, cfg, Do(H, cfg, s, m))
    ensures CanReturn(H, cfg, s)
  {
    var rest :| Exec(H, cfg, Do(H, cfg, s, m), rest).identityLive;
    ExecCons(H, cfg, s, m, rest);
  }

  /** The steps left to the opening. */
  function StepsLeft(cfg: Config, pc: Pc): nat {
    match pc
    case Opening => 0
    case Delay(done) => 1 + (if done < 2 * cfg.squarings then 2 * cfg.squarings - done else 0)
    case Loading => 2 + 2 * cfg.squarings
    case SpawnMission => 3 + 2 * cfg.squarings
    case StampStart(_) => 4 + 2 * cfg.squarings
    case Returned(_, _) => 5 + 2 * cfg.squarings
    case Unlocking(_, _) => 6 + 2 * cfg.squarings
    case _ => 7 + 2 * cfg.squarings
  }

  lemma {:induction false} FreshId(ids: set<nat>) returns (n: nat)
    ensures forall i :: i in ids ==> i < n
  {
    if ids == {} {
      n := 0;
    } else {
      var i :| i in ids;
      var m := FreshId(ids - {i});
      n := Max(m, i + 1);
      forall j | j in ids ensures j < n {
        assert j == i || j in ids - {i};
      }
    }
  }

  lemma NextPast(H: Hash, cfg: Config, s: Sys, tid: nat)
    requires tid in s.tasks && PastLastPoll(cfg, s.tasks[tid])
    requires !s.tasks[tid].SpawnMission? && !s.tasks[tid].Opening?
    ensures var s' := DoTask(H, cfg, s, tid, true, 0);
            tid in s'.tasks && PastLastPoll(cfg, s'.tasks[tid])
            && StepsLeft(cfg, s'.tasks[tid]) < StepsLeft(cfg, s.tasks[tid])
  {
    if s.tasks[tid].Delay? {
      LastPoll(s.tasks[tid].done, cfg.squarings);
      LastPoll(s.tasks[tid].done + 1, cfg.squarings);
      LastPoll(2 * cfg.squarings, cfg.squarings);
    }
  }

  lemma {:induction false} PastReturns(H: Hash, cfg: Config, s: Sys, tid: nat)
    requires tid in s.tasks && PastLastPoll(cfg, s.tasks[tid])
    ensures CanReturn(H, cfg, s)
    decreases StepsLeft(cfg, s.tasks[tid])
  {
    if s.tasks[tid].Opening? {
      var s' := Do(H, cfg, s, TaskStep(tid, true, 0));
      assert Exec(H, cfg, s', []).identityLive;
      CanReturnBefore(H, cfg, s, TaskStep(tid, true, 0));
    } else if s.tasks[tid].SpawnMission? {
      var spawned := FreshId(s.tasks.Keys);
      assert spawned !in s.tasks;
      PastReturns(H, cfg, Spawned(s, tid, spawned), spawned);
      CanReturnBefore(H, cfg, s, TaskStep(tid, true, spawned));
    } else {
      NextPast(H, cfg, s, tid);
      PastReturns(H, cfg, DoTask(H, cfg, s, tid, true, 0), tid);
      CanReturnBefore(H, cfg, s, TaskStep(tid, true, 0));
    }
  }

  // ── Exactly when ─────────────────────────────────────────────────────────

  /**
   * What the flag is for, and all it does. Once the ledger is erased, the lock is free and the
   * identity is wiped, some continuation sets an identity up again exactly when a mission is
   * past its last poll; for a mission of no squarings, which never polls, when it is anywhere
   * from its admission to the opening of the key.
   */
  lemma IdentityReturnsExactly(H: Hash, cfg: Config, moves: seq<Move>)
    requires var s := After(H, cfg, moves); s.lock == None && s.ledger.state.phase == Erased && !s.identityLive
    ensures CanReturn(H, cfg, After(H, cfg, moves)) <==> SomePast(cfg, After(H, cfg, moves))
  {
    var s := After(H, cfg, moves);
    ErasedRaisesAbort(H, cfg, moves);
    ExecInv(H, cfg, moves);
    if CanReturn(H, cfg, s) && !SomePast(cfg, s) {
      var more :| Exec(H, cfg, s, more).identityLive;
      StaysStopped(H, cfg, s, more);
    }
    if SomePast(cfg, s) {
      var t :| t in s.tasks && PastLastPoll(cfg, s.tasks[t]);
      PastReturns(H, cfg, s, t);
    }
  }

  /** In that state a mission still inside its delay function never opens the key. */
  lemma DelayNeverOpens(H: Hash, cfg: Config, moves: seq<Move>, more: seq<Move>)
    requires var s := After(H, cfg, moves);
             s.lock == None && s.ledger.state.phase == Erased && !s.identityLive && !SomePast(cfg, s)
    ensures var s' := Exec(H, cfg, After(H, cfg, moves), more);
            forall t :: t in s'.tasks ==> !s'.tasks[t].Opening?
  {
    ErasedRaisesAbort(H, cfg, moves);
    ExecInv(H, cfg, moves);
    StaysStopped(H, cfg, After(H, cfg, moves), more);
    LastPoll(2 * cfg.squarings, cfg.squarings);
    var s' := Exec(H, cfg, After(H, cfg, moves), more);
    forall t | t in s'.tasks ensures !s'.tasks[t].Opening? {
      assert !PastLastPoll(cfg, s'.tasks[t]);
    }
  }

  // ── The input on which the wipe does not last ────────────────────────────

  /** Erased, every wipe but the mission's done with, and yet an identity is live. */
  predicate IdentityRevived(s: Sys) {
    s.lock == None && s.ledger.state.phase == Erased && s.identityLive
    && forall t :: t in s.tasks ==> s.tasks[t] == Done || s.tasks[t] == WatchSleep || s.tasks[t] == IdentityReady
  }

  /** A mission at this place, alone with the watchdog, on an unlocked ledger in the active phase. */
  predicate Underway(s: Sys, pc: Pc) {
    s.lock == None && s.ledger.state.phase == Active && !s.abort && !s.identityLive
    && s.tasks == map[WATCHDOG := WatchSleep, 1 := Done, 2 := pc]
  }

  lemma StartAdmits(H: Hash, p: Params)
    ensures var (l, d) := Arbitrate(H, NewLedger(H, p.Start()), 0, MissionInit);
            d == Admit && l.state.phase == Active
  {
    assert Contains(ALL, MISSION_INIT);
    RevokeShrinks(ALL, MISSION_INIT);
  }

  /** A fresh handler that finds the lock free. */
  lemma ArriveAndCall(H: Hash, cfg: Config, s: Sys, tid: nat, c: Caller)
    requires Reaches(H, cfg, s) && tid !in s.tasks && Arrives(c) && s.lock.None?
    ensures Reaches(H, cfg, Admitted(H, Put(s, tid, Calling(c)), tid, c))
  {
    ReachesNext(H, cfg, s, Arrive(tid, c));
    AdmitRuns(H, cfg, Put(s, tid, Calling(c)), tid, c);
  }

  /** The init is admitted and about to return to its handler. */
  predicate JustAdmitted(s: Sys) {
    s.lock == None && s.ledger.state.phase == Active && !s.abort && !s.identityLive
    && s.tasks == map[WATCHDOG := WatchSleep, 1 := Returned(InitHandler, Admit)]
  }

  lemma InitAdmitted(H: Hash, cfg: Config)
    ensures exists s :: Reaches(H, cfg, s) && JustAdmitted(s)
  {
    var s := Initial(H, cfg);
    assert After(H, cfg, []) == s;
    ArriveAndCall(H, cfg, s, 1, InitHandler);
    StartAdmits(H, cfg.params);
    assert JustAdmitted(Admitted(H, Put(s, 1, Calling(InitHandler)), 1, InitHandler));
  }

  lemma MissionStarts(H: Hash, cfg: Config)
    ensures exists s :: Reaches(H, cfg, s) && Underway(s, Loading)
  {
    InitAdmitted(H, cfg);
    var s :| Reaches(H, cfg, s) && JustAdmitted(s);
    ReachesNext(H, cfg, s, TaskStep(1, true, 2));
    var s1 := Put(s, 1, StampStart(s.now));
    assert Do(H, cfg, s, TaskStep(1, true, 2)) == s1;
    ReachesNext(H, cfg, s1, TaskStep(1, true, 2));
    var s2 := Put(s1.(startTime := Some(s.now)), 1, SpawnMission);
    ReachesNext(H, cfg, s2, TaskStep(1, true, 2));
    assert Underway(Spawned(s2, 1, 2), Loading);
  }

  /** With the flag down the delay function runs to its end. */
  lemma {:induction false} DelayRuns(H: Hash, cfg: Config, s: Sys, done: nat)
    requires Reaches(H, cfg, s) && Underway(s, Delay(done)) && done <= 2 * cfg.squarings
    ensures exists s' :: Reaches(H, cfg, s') && Underway(s', Opening)
    decreases 2 * cfg.squarings - done
  {
    var next := AfterIteration(cfg, false, done);
    var s' := Put(s, 2, next);
    ReachesNext(H, cfg, s, TaskStep(2, true, 0));
    assert Do(H, cfg, s, TaskStep(2, true, 0)) == s';
    assert Underway(s', next);
    if done < 2 * cfg.squarings { DelayRuns(H, cfg, s', done + 1); }
  }

  lemma MissionOpens(H: Hash, cfg: Config)
    ensures exists s :: Reaches(H, cfg, s) && Underway(s, Opening)
  {
    MissionStarts(H, cfg);
    var s :| Reaches(H, cfg, s) && Underway(s, Loading);
    ReachesNext(H, cfg, s, TaskStep(2, true, 0));
    var s' := Put(s, 2, Delay(0));
    assert Do(H, cfg, s, TaskStep(2, true, 0)) == s';
    assert Underway(s', Delay(0));
    DelayRuns(H, cfg, s', 0);
  }

  lemma ErasureLands(H: Hash, cfg: Config, s: Sys)
    requires Reaches(H, cfg, s)
    ensures var (l, d) := Arbitrate(H, s.ledger, Elapsed(s), Erase); d == Admit && l.state.phase == Erased
  {
    ReachesInv(H, cfg, s);
    StepAscends(H, cfg, s.ledger, Elapsed(s), Erase);
  }

  /** A shutdown, at this place, next to a mission about to open the key. */
  predicate ShuttingDown(s: Sys, pc: Pc) {
    s.lock == None && s.ledger.state.phase == Erased && !s.identityLive
    && s.tasks == map[WATCHDOG := WatchSleep, 1 := Done, 2 := Opening, 3 := pc]
  }

  lemma ShutdownAdmitted(H: Hash, cfg: Config)
    ensures exists s :: Reaches(H, cfg, s) && ShuttingDown(s, Returned(ShutdownErase, Admit))
  {
    MissionOpens(H, cfg);
    var s :| Reaches(H, cfg, s) && Underway(s, Opening);
    var s1 := Put(s, 3, Calling(ShutdownErase));
    ArriveAndCall(H, cfg, s, 3, ShutdownErase);
    ErasureLands(H, cfg, s);
    assert s1.tasks[3 := Returned(ShutdownErase, Admit)]
           == map[WATCHDOG := WatchSleep, 1 := Done, 2 := Opening, 3 := Returned(ShutdownErase, Admit)];
    assert ShuttingDown(Admitted(H, s1, 3, ShutdownErase), Returned(ShutdownErase, Admit));
  }

  lemma ShutdownErases(H: Hash, cfg: Config)
    ensures exists s :: Reaches(H, cfg, s) && ShuttingDown(s, Done)
  {
    ShutdownAdmitted(H, cfg);
    var s :| Reaches(H, cfg, s) && ShuttingDown(s, Returned(ShutdownErase, Admit));
    ReachesNext(H, cfg, s, TaskStep(3, true, 0));
    var s1 := Put(s, 3, Wiping(ShutdownErase));
    assert Do(H, cfg, s, TaskStep(3, true, 0)) == s1;
    ReachesNext(H, cfg, s1, TaskStep(3, true, 0));
    assert ShuttingDown(Put(s1.(identityLive := false), 3, Done), Done);
  }

  /**
   * Erasure does not keep the identity wiped: under every configuration a run gets to where a
   * shutdown has erased and wiped while the mission holds its delay output, and from there the
   * mission sets the identity up again.
   */
  lemma ErasureThenIdentity(H: Hash, cfg: Config)
    ensures exists s :: Reaches(H, cfg, s) && ShuttingDown(s, Done) && CanReturn(H, cfg, s)
    ensures exists s :: Reaches(H, cfg, s) && IdentityRevived(s)
  {
    ShutdownErases(H, cfg);
    var s :| Reaches(H, cfg, s) && ShuttingDown(s, Done);
    LastPoll(2 * cfg.squarings, cfg.squarings);
    PastReturns(H, cfg, s, 2);
    ReachesNext(H, cfg, s, TaskStep(2, true, 0));
    var s' := Put(s.(identityLive := true), 2, IdentityReady);
    assert Do(H, cfg, s, TaskStep(2, true, 0)) == s';
    assert IdentityRevived(s');
  }
}
