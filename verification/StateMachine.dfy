/**
 * The agent's state machine as one caller at a time sees it: the object whose methods wrap the
 * ledger, the start stamp, the abort flag and the identity
 * (`crates/chronos-agent/src/state.rs`). `Agent` interleaves the same steps.
 */
module StateMachine {
  import opened Words
  import opened Containment
  import opened Ledger
  import opened Agent

  class Lifecycle {
    const cfg: Config
    const ledger: ContainmentLedger
    var startTime: Option<u64>
    var abort: bool
    var identityLive: bool

    ghost predicate Valid()
      reads this, ledger
    {
      ledger.Valid() && LedgerOk(ledger.H, cfg, ledger.Value()) && (ledger.state.phase == Erased ==> abort)
    }

    constructor (H: Hash, cfg: Config, capacity: nat)
      ensures Valid() && fresh(ledger) && this.cfg == cfg && ledger.H == H
      ensures ledger.Value() == NewLedger(H, cfg.params.Start())
      ensures startTime == None && !abort && !identityLive
    {
      this.cfg := cfg;
      ledger := new ContainmentLedger(H, cfg.params.Start(), capacity);
      startTime, abort, identityLive := None, false, false;
      new;
      RunReachable(H, cfg.params, []);
    }

    /** The clock is read, pushed into the ledger, and the event arbitrated. */
    method Admit(event: Event, now: u64) returns (decision: Decision)
      requires Valid()
      modifies this`abort, ledger
      ensures Valid()
      ensures (ledger.Value(), decision)
              == Arbitrate(ledger.H, old(ledger.Value()), SecondsSince(startTime, now), event)
      ensures abort == (old(abort) || ledger.state.phase == Erased)
    {
      var elapsed := SecondsSince(startTime, now);
      StepAscends(ledger.H, cfg, ledger.Value(), elapsed, event);
      ArbitrationRecorded(ledger.H, cfg, ledger.Value(), elapsed, event);
      ledger.SetElapsed(elapsed);
      decision := ledger.Submit(event);
      if ledger.state.phase == Erased { abort := true; }
    }

    /** Succeeds once: from Armed with the capability unspent, which it spends. */
    method ArmToActive(now: u64, stamp: u64) returns (ok: bool)
      requires Valid()
      modifies this`abort, this`startTime, ledger
      ensures Valid() && abort == old(abort)
      ensures ok <==> old(ledger.state.phase) == Armed && Contains(old(ledger.state.granted), MISSION_INIT)
      ensures ok ==> ledger.state.phase == Active && !Contains(ledger.state.granted, MISSION_INIT)
                     && startTime == Some(stamp)
      ensures !ok ==> ledger.state.phase == old(ledger.state.phase) && startTime == old(startTime)
    {
      ghost var before := ledger.Value();
      ghost var clocked := WithElapsed(before.state, SecondsSince(startTime, now));
      StepPrecedes(ledger.H, clocked, MissionInit);
      var decision := Admit(MissionInit, now);
      ok := decision.Admit?;
      if ok {
        InitSpendsCapability(ledger.H, clocked);
        startTime := Some(stamp);
      }
    }

    /** Succeeds exactly from Active, and leaves the key release on record. */
    method ActiveToLocked(now: u64) returns (ok: bool)
      requires Valid()
      modifies this`abort, ledger
      ensures Valid() && abort == old(abort)
      ensures ok <==> old(ledger.state.phase) == Active
      ensures ok ==> ledger.state.phase == Locked && KeyOnRecord(ledger.history)
      ensures !ok ==> ledger.state.phase == old(ledger.state.phase)
    {
      ghost var before := ledger.Value();
      ghost var elapsed := SecondsSince(startTime, now);
      StepPrecedes(ledger.H, WithElapsed(before.state, elapsed), KeyReleased);
      ArbitrationRecorded(ledger.H, cfg, before, elapsed, KeyReleased);
      var decision := Admit(KeyReleased, now);
      ok := decision.Admit?;
    }

    /** From any state: erased with every budget gone, the flag up, the identity wiped. */
    method ForceErased(now: u64)
      requires Valid()
      modifies this`abort, this`identityLive, ledger
      ensures Valid() && abort && !identityLive
      ensures ledger.state == EraseState(WithElapsed(old(ledger.state), SecondsSince(startTime, now)))
      ensures ledger.state.granted == ERASURE_ATTEST && ledger.state.opBudget == 0 && ledger.state.disclosureBudget == 0
    {
      ghost var clocked := WithElapsed(ledger.state, SecondsSince(startTime, now));
      EraseAlwaysAdmitted(ledger.H, clocked, Erase);
      var decision := Admit(Erase, now);
      assert decision.Admit?;
      identityLive := false;
    }
  }
}
