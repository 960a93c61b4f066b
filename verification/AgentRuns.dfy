/**
 * What every interleaving of the agent's tasks guarantees: the flag, the one mission, the
 * ledger's order, attestations and the watchdog (`crates/chronos-agent/src/state.rs`, `main.rs`).
 */
module AgentRuns {
  import opened Words
  import opened Containment
  import opened Ledger
  import opened Agent
  import Circuit

  /** The system after some interleaving from start-up. */
  function After(H: Hash, cfg: Config, moves: seq<Move>): Sys {
    Exec(H, cfg, Initial(H, cfg), moves)
  }

  /** Whoever can take the ledger lock and sees Erased finds the abort flag up. */
  lemma ErasedRaisesAbort(H: Hash, cfg: Config, moves: seq<Move>)
    ensures var s := After(H, cfg, moves); s.lock == None && s.ledger.state.phase == Erased ==> s.abort
  {
    ExecInv(H, cfg, moves);
  }

  /** Where only the mission task can be. */
  predicate MissionPlace(pc: Pc) {
    pc.Loading? || pc.Delay? || pc.Opening? || pc.IdentityReady? || pc.Snapshotting? || pc.Proving? || pc.Publishing? || pc.MissionDone?
    || (pc.Calling? && (pc.caller.KeyRelease? || pc.caller.StepErase? || pc.caller.FinalErase?))
  }

  /** However many inits race, one mission at most starts, and only it does mission work. */
  lemma OneMission(H: Hash, cfg: Config, moves: seq<Move>)
    ensures var s := After(H, cfg, moves);
            |s.missions| <= 1
            && (forall t :: t in s.tasks && MissionPlace(s.tasks[t]) ==> s.missions == [t])
            && (forall t, u :: t in s.tasks && u in s.tasks && Starting(s.tasks[t]) && Starting(s.tasks[u]) ==> t == u)
            && (forall t :: t in s.tasks && Starting(s.tasks[t]) ==> s.missions == [])
  {
    ExecInv(H, cfg, moves);
    var s := After(H, cfg, moves);
    forall t | t in s.tasks
      ensures MissionPlace(s.tasks[t]) ==> s.missions == [t]
      ensures Starting(s.tasks[t]) ==> s.missions == []
    {
      assert TaskOk(H, cfg, s, t, s.tasks[t]);
    }
  }

  predicate Submitting(s: Sys, m: Move) {
    m.TaskStep? && m.tid in s.tasks && s.tasks[m.tid].Clocked? && s.lock.None?
  }

  /** Only `admit`, holding the lock, touches the ledger. */
  lemma LedgerMoves(H: Hash, cfg: Config, s: Sys, m: Move)
    ensures Do(H, cfg, s, m).ledger ==
            if Submitting(s, m)
            then Arbitrate(H, s.ledger, s.tasks[m.tid].elapsed, s.tasks[m.tid].caller.Submits()).0
            else s.ledger
  {
  }

  lemma MoveAscends(H: Hash, cfg: Config, s: Sys, m: Move)
    requires Inv(H, cfg, s)
    ensures var s' := Do(H, cfg, s, m);
            Precedes(s.ledger.state, s'.ledger.state) && s.ledger.records <= s'.ledger.records
  {
    PrecedesReflexive(s.ledger.state);
    LedgerMoves(H, cfg, s, m);
    if Submitting(s, m) {
      var c, e := s.tasks[m.tid].caller, s.tasks[m.tid].elapsed;
      StepAscends(H, cfg, s.ledger, e, c.Submits());
      ArbitrationRecorded(H, cfg, s.ledger, e, c.Submits());
    }
  }

  lemma ExecSnoc(H: Hash, cfg: Config, moves: seq<Move>, k: nat)
    requires k < |moves|
    ensures After(H, cfg, moves[..k + 1]) == Do(H, cfg, After(H, cfg, moves[..k]), moves[k])
  {
    assert moves[..k + 1][..k] == moves[..k];
  }

  /**
   * The ledger only moves forward in the containment order, whatever stale clock readings the
   * tasks carry, and never records a time later than the real one.
   */
  lemma {:induction false} LedgerAscends(H: Hash, cfg: Config, moves: seq<Move>, k: nat)
    requires k <= |moves|
    ensures var s, s' := After(H, cfg, moves[..k]), After(H, cfg, moves);
            Precedes(s.ledger.state, s'.ledger.state) && s.ledger.records <= s'.ledger.records
            && s.ledger.state.elapsed <= s'.ledger.state.elapsed <= Elapsed(s')
    decreases |moves| - k
  {
    ExecInv(H, cfg, moves);
    assert moves[..|moves|] == moves;
    if k == |moves| {
      PrecedesReflexive(After(H, cfg, moves).ledger.state);
    } else {
      LedgerAscends(H, cfg, moves, k + 1);
      ExecInv(H, cfg, moves[..k]);
      ExecSnoc(H, cfg, moves, k);
      MoveAscends(H, cfg, After(H, cfg, moves[..k]), moves[k]);
      PrecedesTransitive(After(H, cfg, moves[..k]).ledger.state, After(H, cfg, moves[..k + 1]).ledger.state,
                         After(H, cfg, moves).ledger.state);
    }
  }

  /**
   * A published attestation was made over a ledger the circuit accepts: terminal, with an
   * admitted key release on record, its digest chaining a prefix of the records there now.
   */
  lemma AttestationSound(H: Hash, cfg: Config, moves: seq<Move>)
    ensures var s := After(H, cfg, moves);
            s.attestation.Some? ==>
              var x := s.attestation.value;
              Circuit.FromLedger(x).IsTerminal() && KeyOnRecord(x.records) && x.records <= s.ledger.records
              && x.digest == ChainDigest(H, cfg.params.Start(), x.records)
  {
    ExecInv(H, cfg, moves);
    var s := After(H, cfg, moves);
    if s.attestation.Some? { Circuit.ReachableTerminal(cfg.params, s.attestation.value); }
  }

  lemma ErasedWithoutKeyKept(H: Hash, cfg: Config, s: Sys, m: Move)
    requires Inv(H, cfg, s) && s.ledger.state.phase == Erased && !KeyOnRecord(s.ledger.records)
    ensures var s' := Do(H, cfg, s, m); s'.ledger.state.phase == Erased && !KeyOnRecord(s'.ledger.records)
  {
    LedgerMoves(H, cfg, s, m);
    if Submitting(s, m) {
      var c, e := s.tasks[m.tid].caller, s.tasks[m.tid].elapsed;
      StepAscends(H, cfg, s.ledger, e, c.Submits());
      ArbitrationRecorded(H, cfg, s.ledger, e, c.Submits());
    }
  }

  /** Once erased before the key was released, no continuation ever publishes an attestation. */
  lemma {:induction false} NoLateAttestation(H: Hash, cfg: Config, moves: seq<Move>, k: nat)
    requires k <= |moves|
    requires var s := After(H, cfg, moves[..k]); s.ledger.state.phase == Erased && !KeyOnRecord(s.ledger.records)
    ensures After(H, cfg, moves).attestation == None
    decreases |moves| - k
  {
    ExecInv(H, cfg, moves[..k]);
    if k == |moves| {
      assert moves[..k] == moves;
      var s := After(H, cfg, moves);
      if s.attestation.Some? { KeyOnRecordGrows(s.attestation.value.records, s.ledger.records); }
    } else {
      ExecSnoc(H, cfg, moves, k);
      ErasedWithoutKeyKept(H, cfg, After(H, cfg, moves[..k]), moves[k]);
      NoLateAttestation(H, cfg, moves, k + 1);
    }
  }

  /**
   * A finished mission, however it failed, leaves the ledger erased and no identity behind; a
   * live identity means its mission still has its own erasure to go through.
   */
  lemma FinishedMissionWiped(H: Hash, cfg: Config, moves: seq<Move>)
    ensures var s := After(H, cfg, moves);
            (forall t :: t in s.tasks && s.tasks[t] == MissionDone ==> s.ledger.state.phase == Erased && !s.identityLive)
            && (s.identityLive ==>
                  s.missions != [] && s.missions[0] in s.tasks && s.tasks[s.missions[0]] != MissionDone)
  {
    ExecInv(H, cfg, moves);
    var s := After(H, cfg, moves);
    forall t | t in s.tasks && s.tasks[t] == MissionDone ensures s.ledger.state.phase == Erased && !s.identityLive {
      assert TaskOk(H, cfg, s, t, s.tasks[t]);
    }
  }

  /** The state is one an interleaving reaches. */
  ghost predicate Reaches(H: Hash, cfg: Config, s: Sys) {
    exists moves :: After(H, cfg, moves) == s
  }

  lemma ReachesNext(H: Hash, cfg: Config, s: Sys, m: Move)
    requires Reaches(H, cfg, s)
    ensures Reaches(H, cfg, Do(H, cfg, s, m))
  {
    var moves :| After(H, cfg, moves) == s;
    assert (moves + [m])[..|moves|] == moves;
    assert After(H, cfg, moves + [m]) == Do(H, cfg, s, m);
  }

  lemma ReachesInv(H: Hash, cfg: Config, s: Sys)
    requires Reaches(H, cfg, s)
    ensures Inv(H, cfg, s)
  {
    var moves :| After(H, cfg, moves) == s;
    ExecInv(H, cfg, moves);
  }

  /** `admit` undisturbed: the event is arbitrated once, at the time read, and the flag follows. */
  function Admitted(H: Hash, s: Sys, tid: nat, c: Caller): Sys {
    var (l, d) := Arbitrate(H, s.ledger, Elapsed(s), c.Submits());
    s.(ledger := l, abort := s.abort || l.state.phase == Erased, tasks := s.tasks[tid := Returned(c, d)])
  }

  lemma AdmitEnters(H: Hash, cfg: Config, s: Sys, tid: nat, c: Caller)
    requires Reaches(H, cfg, s) && tid in s.tasks && s.tasks[tid] == Calling(c) && s.lock.None?
    ensures Reaches(H, cfg, Arbitrated(H, s, tid, c, Elapsed(s)))
  {
    var step := TaskStep(tid, true, 0);
    ReachesNext(H, cfg, s, step);
    var s' := Put(s, tid, Clocked(c, Elapsed(s)));
    assert Do(H, cfg, s, step) == s';
    ReachesNext(H, cfg, s', step);
    assert s'.tasks[tid := Critical(c, Arbitrate(H, s.ledger, Elapsed(s), c.Submits()).1)]
           == s.tasks[tid := Critical(c, Arbitrate(H, s.ledger, Elapsed(s), c.Submits()).1)];
  }

  lemma AdmitLeaves(H: Hash, cfg: Config, s: Sys, tid: nat, c: Caller, d: Decision)
    requires Reaches(H, cfg, s) && tid in s.tasks && s.tasks[tid] == Critical(c, d)
    ensures Reaches(H, cfg, s.(lock := None, abort := s.abort || s.ledger.state.phase == Erased,
                               tasks := s.tasks[tid := Returned(c, d)]))
  {
    var step := TaskStep(tid, true, 0);
    ReachesNext(H, cfg, s, step);
    var s' := Put(s.(abort := s.abort || s.ledger.state.phase == Erased), tid, Unlocking(c, d));
    assert Do(H, cfg, s, step) == s';
    ReachesNext(H, cfg, s', step);
    assert s'.tasks[tid := Returned(c, d)] == s.tasks[tid := Returned(c, d)];
  }

  /** An uncontended call runs its four steps as one. */
  lemma AdmitRuns(H: Hash, cfg: Config, s: Sys, tid: nat, c: Caller)
    requires Reaches(H, cfg, s) && tid in s.tasks && s.tasks[tid] == Calling(c) && s.lock.None?
    ensures Reaches(H, cfg, Admitted(H, s, tid, c))
  {
    AdmitEnters(H, cfg, s, tid, c);
    var s' := Arbitrated(H, s, tid, c, Elapsed(s));
    var d := Arbitrate(H, s.ledger, Elapsed(s), c.Submits()).1;
    AdmitLeaves(H, cfg, s', tid, c, d);
    assert s'.tasks[tid := Returned(c, d)] == s.tasks[tid := Returned(c, d)];
  }

  /** The watchdog erases only once the time is up, and with the abort flag raised first. */
  lemma WatchdogPunctual(H: Hash, cfg: Config, moves: seq<Move>)
    ensures var s := After(H, cfg, moves);
            forall t :: t in s.tasks && s.tasks[t].Calling? && s.tasks[t].caller.WatchdogErase? ==>
                          s.abort && s.startTime.Some? && Elapsed(s) >= cfg.params.deadline
  {
    ExecInv(H, cfg, moves);
    var s := After(H, cfg, moves);
    forall t | t in s.tasks && s.tasks[t].Calling? && s.tasks[t].caller.WatchdogErase?
      ensures s.abort && s.startTime.Some? && Elapsed(s) >= cfg.params.deadline
    {
      assert TaskOk(H, cfg, s, t, s.tasks[t]);
    }
  }
}
