/**
 * The append-only ledger around the monitor: records, the SHA-256 chain, the retained tail and
 * whole runs (`crates/chronos-core/src/containment.rs`).
 */
module Ledger {
  import opened Words
  import opened Correction
  import opened Containment

  const CHAIN_DOMAIN: string := "chronos-containment-ledger-v1"

  /** One arbitrated event; the field order is the wire format. */
  datatype Record = Record(
    seqNo: u64, eventCode: u64, phaseBefore: u64, phaseAfter: u64, grantedAfter: u64,
    opBudgetAfter: u64, disclosureAfter: u64, incurredAfter: u64, resolvedAfter: u64,
    peakAfter: u64, consumedAfter: u64, decisionCode: u64)
  {
    function ToWords(): (ws: seq<u64>)
      ensures |ws| == 12
    {
      [seqNo, eventCode, phaseBefore, phaseAfter, grantedAfter, opBudgetAfter, disclosureAfter,
       incurredAfter, resolvedAfter, peakAfter, consumedAfter, decisionCode]
    }
  }

  /** The provisioned parameters, which the genesis digest covers. */
  datatype Params = Params(opBudget: u64, disclosureBudget: u64, deadline: u64, threshold: u64, anchor: Digest)
  {
    function Start(): State {
      New(opBudget, disclosureBudget, deadline, threshold, anchor)
    }
  }

  // ── The digest chain ─────────────────────────────────────────────────────

  function EncodeWords(ws: seq<u64>): (b: bytes)
    ensures |b| == 8 * |ws|
  {
    if ws == [] then [] else Be8(ws[0]) + EncodeWords(ws[1..])
  }

  lemma {:induction false} EncodeWordsInjective(v: seq<u64>, w: seq<u64>)
    requires EncodeWords(v) == EncodeWords(w)
    ensures v == w
  {
    if v != [] {
      var a, b := EncodeWords(v), EncodeWords(w);
      assert a[..8] == Be8(v[0]) && b[..8] == Be8(w[0]);
      assert a[8..] == EncodeWords(v[1..]) && b[8..] == EncodeWords(w[1..]);
      Be8Injective(v[0], w[0]);
      EncodeWordsInjective(v[1..], w[1..]);
      assert v == [v[0]] + v[1..] && w == [w[0]] + w[1..];
    }
  }

  function GenesisMessage(s: State): (m: bytes)
    ensures |m| == 93
  {
    Ascii(CHAIN_DOMAIN) + EncodeWords([s.deadline, s.opBudget, s.disclosureBudget, s.threshold]) + s.anchor
  }

  function RecordMessage(previous: Digest, r: Record): (m: bytes)
    ensures |m| == 128
  {
    previous + EncodeWords(r.ToWords())
  }

  lemma {:induction false} EncodedAt(ws: seq<u64>, i: nat)
    requires i < |ws|
    ensures EncodeWords(ws)[8 * i..8 * i + 8] == Be8(ws[i])
  {
    var b := EncodeWords(ws);
    if i > 0 {
      EncodedAt(ws[1..], i - 1);
      assert b[8..] == EncodeWords(ws[1..]);
      assert b[8..][8 * (i - 1)..8 * i] == b[8 * i..8 * i + 8];
    }
  }

  /** Where the words of an encoding stand in a message that contains it. */
  lemma WordsRead(m: bytes, at: nat, ws: seq<u64>)
    requires at + 8 * |ws| <= |m| && m[at..at + 8 * |ws|] == EncodeWords(ws)
    ensures forall i :: 0 <= i < |ws| ==> WordAt(m, at + 8 * i) == ws[i]
  {
    forall i | 0 <= i < |ws| ensures WordAt(m, at + 8 * i) == ws[i] {
      var b := EncodeWords(ws);
      WordRead(m, at, ws, b, i);
    }
  }

  lemma WordRead(m: bytes, at: nat, ws: seq<u64>, b: bytes, i: nat)
    requires i < |ws| && |b| == 8 * |ws| && at + |b| <= |m| && b == EncodeWords(ws) && m[at..at + |b|] == b
    ensures at + 8 * i + 8 <= |m| && WordAt(m, at + 8 * i) == ws[i]
  {
    EncodedAt(ws, i);
    var k, w := 8 * i, ws[i];
    WordIn(m, at, b, k, w);
  }

  lemma WordIn(m: bytes, at: nat, b: bytes, i: nat, w: u64)
    requires at + |b| <= |m| && i + 8 <= |b| && m[at..at + |b|] == b && b[i..i + 8] == Be8(w)
    ensures WordAt(m, at + i) == w
  {
    SliceOfSlice(m, at, b, i);
    Be8Reads(m, at + i, w);
  }

  lemma SliceOfSlice(m: bytes, at: nat, b: bytes, i: nat)
    requires at + |b| <= |m| && i + 8 <= |b| && m[at..at + |b|] == b
    ensures b[i..i + 8] == m[at + i..at + i + 8]
  {
    var x, y := b[i..i + 8], m[at + i..at + i + 8];
    assert |x| == |y| == 8;
    forall j | 0 <= j < 8 ensures x[j] == y[j] {
      assert x[j] == b[i + j] == m[at..at + |b|][i + j] == m[at + (i + j)];
    }
  }

  lemma GenesisLayout(p: Params)
    ensures var m := GenesisMessage(p.Start());
            var ws := [p.deadline, p.opBudget, p.disclosureBudget, p.threshold];
            m[..29] == Ascii(CHAIN_DOMAIN) && m[61..] == p.anchor
            && forall i :: 0 <= i < 4 ==> WordAt(m, 29 + 8 * i) == ws[i]
  {
    var m, ws := GenesisMessage(p.Start()), [p.deadline, p.opBudget, p.disclosureBudget, p.threshold];
    assert |CHAIN_DOMAIN| == 29;
    assert m[29..61] == EncodeWords(ws);
    WordsRead(m, 29, ws);
  }

  /** The wire format of a record: the previous digest, then twelve words in this order. */
  lemma RecordLayout(previous: Digest, r: Record)
    ensures var m := RecordMessage(previous, r);
            var ws := [r.seqNo, r.eventCode, r.phaseBefore, r.phaseAfter, r.grantedAfter, r.opBudgetAfter,
                       r.disclosureAfter, r.incurredAfter, r.resolvedAfter, r.peakAfter, r.consumedAfter,
                       r.decisionCode];
            m[..32] == previous && forall i :: 0 <= i < 12 ==> WordAt(m, 32 + 8 * i) == ws[i]
  {
    var m := RecordMessage(previous, r);
    assert m[32..128] == EncodeWords(r.ToWords());
    WordsRead(m, 32, r.ToWords());
  }

  lemma GenesisInjective(p: Params, q: Params)
    requires GenesisMessage(p.Start()) == GenesisMessage(q.Start())
    ensures p == q
  {
    var m, n := GenesisMessage(p.Start()), GenesisMessage(q.Start());
    var v := [p.deadline, p.opBudget, p.disclosureBudget, p.threshold];
    var w := [q.deadline, q.opBudget, q.disclosureBudget, q.threshold];
    assert m[29..61] == EncodeWords(v) && n[29..61] == EncodeWords(w);
    assert m[61..] == p.anchor && n[61..] == q.anchor;
    EncodeWordsInjective(v, w);
    assert v[0] == w[0] && v[1] == w[1] && v[2] == w[2] && v[3] == w[3];
  }

  lemma RecordMessageInjective(d: Digest, r: Record, e: Digest, s: Record)
    requires RecordMessage(d, r) == RecordMessage(e, s)
    ensures d == e && r == s
  {
    var m, n := RecordMessage(d, r), RecordMessage(e, s);
    assert m[..32] == d && n[..32] == e;
    assert m[32..] == EncodeWords(r.ToWords()) && n[32..] == EncodeWords(s.ToWords());
    EncodeWordsInjective(r.ToWords(), s.ToWords());
    WordsDetermineRecord(r, s);
  }

  lemma WordsDetermineRecord(r: Record, s: Record)
    requires r.ToWords() == s.ToWords()
    ensures r == s
  {
    var v, w := r.ToWords(), s.ToWords();
    assert v[0] == w[0] && v[1] == w[1] && v[2] == w[2] && v[3] == w[3] && v[4] == w[4] && v[5] == w[5];
    assert v[6] == w[6] && v[7] == w[7] && v[8] == w[8] && v[9] == w[9] && v[10] == w[10] && v[11] == w[11];
  }

  /** The chain digest over a record sequence. */
  function ChainDigest(H: Hash, start: State, records: seq<Record>): Digest {
    if records == [] then H(GenesisMessage(start))
    else
      var k := |records| - 1;
      H(RecordMessage(ChainDigest(H, start, records[..k]), records[k]))
  }

  /** Every message hashed on the way to that digest, in order. */
  function ChainMessages(H: Hash, start: State, records: seq<Record>): (ms: seq<bytes>)
    ensures |ms| == |records| + 1
    ensures ChainDigest(H, start, records) == H(ms[|records|])
  {
    if records == [] then [GenesisMessage(start)]
    else
      var k := |records| - 1;
      ChainMessages(H, start, records[..k]) + [RecordMessage(ChainDigest(H, start, records[..k]), records[k])]
  }

  lemma LastMessage(H: Hash, start: State, records: seq<Record>)
    requires records != []
    ensures var k, ms := |records| - 1, ChainMessages(H, start, records);
            ms[..k + 1] == ChainMessages(H, start, records[..k])
            && ms[k + 1] == RecordMessage(ChainDigest(H, start, records[..k]), records[k])
  {
  }

  /** A genesis message and a record message differ in length. */
  lemma LastLength(H: Hash, start: State, records: seq<Record>)
    ensures |ChainMessages(H, start, records)[|records|]| == if records == [] then 93 else 128
  {
    if records != [] { LastMessage(H, start, records); }
  }

  lemma LastHashed(H: Hash, start: State, records: seq<Record>)
    ensures var ms := ChainMessages(H, start, records);
            ms[|records|] in ms && H(ms[|records|]) == ChainDigest(H, start, records)
  {
  }

  /** Equal last messages: the same last record after equal digests. */
  lemma LastAgree(H: Hash, p: Params, a: seq<Record>, q: Params, b: seq<Record>)
    requires a != [] && b != []
    requires ChainMessages(H, p.Start(), a)[|a|] == ChainMessages(H, q.Start(), b)[|b|]
    ensures var i, j := |a| - 1, |b| - 1;
            a[i] == b[j] && ChainDigest(H, p.Start(), a[..i]) == ChainDigest(H, q.Start(), b[..j])
  {
    var i, j := |a| - 1, |b| - 1;
    LastMessage(H, p.Start(), a);
    LastMessage(H, q.Start(), b);
    RecordMessageInjective(ChainDigest(H, p.Start(), a[..i]), a[i], ChainDigest(H, q.Start(), b[..j]), b[j]);
  }

  /**
   * The digest binds the whole run: equal digests mean the same provisioned parameters and the
   * same records, or two different messages of these two chains hash alike.
   */
  lemma {:induction false} DigestBinds(H: Hash, p: Params, a: seq<Record>, q: Params, b: seq<Record>)
    requires ChainDigest(H, p.Start(), a) == ChainDigest(H, q.Start(), b)
    ensures (p == q && a == b)
         || Collides(H, ChainMessages(H, p.Start(), a), ChainMessages(H, q.Start(), b))
    decreases |a|
  {
    var ms, ns := ChainMessages(H, p.Start(), a), ChainMessages(H, q.Start(), b);
    var m, n := ms[|a|], ns[|b|];
    LastHashed(H, p.Start(), a);
    LastHashed(H, q.Start(), b);
    LastLength(H, p.Start(), a);
    LastLength(H, q.Start(), b);
    if m != n {
      assert Collides(H, ms, ns);
    } else if a == [] && b == [] {
      GenesisInjective(p, q);
    } else {
      var front, rear := a[..|a| - 1], b[..|b| - 1];
      LastAgree(H, p, a, q, b);
      DigestBinds(H, p, front, q, rear);
      if p == q && front == rear {
        assert a == front + [a[|a| - 1]] && b == rear + [b[|b| - 1]];
      } else {
        LastMessage(H, p.Start(), a);
        LastMessage(H, q.Start(), b);
        CollidesMore(H, ChainMessages(H, p.Start(), front), ChainMessages(H, q.Start(), rear), ms, ns);
      }
    }
  }

  lemma CollidesMore(H: Hash, a: seq<bytes>, b: seq<bytes>, a': seq<bytes>, b': seq<bytes>)
    requires a <= a' && b <= b' && Collides(H, a, b)
    ensures Collides(H, a', b')
  {
    var m, n :| m in a && n in b && m != n && H(m) == H(n);
    assert m in a' && n in b';
  }

  // ── The ledger as a value ────────────────────────────────────────────────

  datatype LedgerValue = LedgerValue(
    state: State, records: seq<Record>, nextSeq: u64, digest: Digest, admitted: u64, denied: u64)

  function NewLedger(H: Hash, initial: State): LedgerValue {
    LedgerValue(initial, [], 0, H(GenesisMessage(initial)), 0, 0)
  }

  /** The guarded commit of `admit`: a successor that breaks the order is refused. */
  function Commit(s: State, next: State): State {
    if Precedes(s, next) then next else s
  }

  function MakeRecord(seqNo: u64, before: State, event: Event, decision: Decision, committed: State): Record {
    Record(seqNo, event.Code(), before.phase.Rank(), committed.phase.Rank(), committed.granted as int,
           committed.opBudget, committed.disclosureBudget, committed.incurred, committed.resolved,
           committed.peak, committed.consumed, decision.Code())
  }

  /** Record one verdict and move to the committed state. */
  function Append(H: Hash, l: LedgerValue, event: Event, decision: Decision, committed: State): LedgerValue {
    var record := MakeRecord(l.nextSeq, l.state, event, decision, committed);
    LedgerValue(committed, l.records + [record], WrapInc(l.nextSeq), H(RecordMessage(l.digest, record)),
                if decision == Admit then WrapInc(l.admitted) else l.admitted,
                if decision == Admit then l.denied else WrapInc(l.denied))
  }

  function AdmitEvent(H: Hash, l: LedgerValue, event: Event): (LedgerValue, Decision) {
    var (decision, next) := Step(H, l.state, event);
    (Append(H, l, event, decision, Commit(l.state, next)), decision)
  }

  /** A state in which the next grant is due and the consumption count is used up. */
  function CountUsedUp(H: Hash, g: Grant): State {
    New(1, 0, 0, 0, Link(H, g)).(phase := Active, granted := Revoke(ALL, MISSION_INIT), consumed := U64_MAX)
  }

  /** There the ledger records the grant as admitted and keeps the old state: the order is what gives way. */
  lemma SaturatedCountRefused(H: Hash, g: Grant, l: LedgerValue)
    requires Link(H, g) != CHAIN_END && g.nextAnchor != Link(H, g) && l.state == CountUsedUp(H, g)
    ensures var (l', d) := AdmitEvent(H, l, HumanCorrection(g));
            !Precedes(l.state, Step(H, l.state, HumanCorrection(g)).1)
            && d == Admit && l'.state == l.state
            && l'.records == l.records + [MakeRecord(l.nextSeq, l.state, HumanCorrection(g), Admit, l.state)]
  {
    assert Contains(Revoke(ALL, MISSION_INIT), HUMAN_INTERACTION);
    StepPrecedes(H, l.state, HumanCorrection(g));
  }

  // ── The ledger as the program holds it ───────────────────────────────────

  class ContainmentLedger {
    const H: Hash
    const tailCapacity: nat
    var state: State
    var nextSeq: u64
    var chainDigest: Digest
    var tail: seq<Record>
    var admitted: u64
    var denied: u64
    /** Every record appended so far; the program keeps only the tail. */
    ghost var history: seq<Record>

    ghost predicate Valid()
      reads this
    {
      tailCapacity >= 1 && tail == Tail(history, tailCapacity)
    }

    ghost function Value(): LedgerValue
      reads this
    {
      LedgerValue(state, history, nextSeq, chainDigest, admitted, denied)
    }

    constructor (H: Hash, initial: State, capacity: nat)
      ensures Valid() && Value() == NewLedger(H, initial)
      ensures this.H == H && tailCapacity == Max(capacity, 1)
    {
      this.H := H;
      state := initial;
      nextSeq := 0;
      chainDigest := H(GenesisMessage(initial));
      tail := [];
      tailCapacity := if capacity >= 1 then capacity else 1;
      admitted := 0;
      denied := 0;
      history := [];
    }

    method SetElapsed(elapsed: u64)
      requires Valid()
      modifies this
      ensures Valid() && Value() == old(Value()).(state := WithElapsed(old(state), elapsed))
    {
      state := WithElapsed(state, elapsed);
    }

    /** The record evicted, if any, is the oldest retained one. */
    method Submit(event: Event) returns (decision: Decision)
      requires Valid()
      modifies this
      ensures Valid() && (Value(), decision) == AdmitEvent(H, old(Value()), event)
    {
      var (d, next) := Step(H, state, event);
      var committed := Commit(state, next);
      var record := MakeRecord(nextSeq, state, event, d, committed);
      TailPush(history, record, tailCapacity);
      ghost var after := Append(H, Value(), event, d, committed);
      chainDigest := H(RecordMessage(chainDigest, record));
      if |tail| == tailCapacity { tail := tail[1..]; }
      tail := tail + [record];
      if d == Admit { admitted := WrapInc(admitted); } else { denied := WrapInc(denied); }
      nextSeq := WrapInc(nextSeq);
      state := committed;
      history := history + [record];
      decision := d;
      assert Value() == after;
    }
  }

  // ── Runs ─────────────────────────────────────────────────────────────────

  datatype Op = Clock(elapsed: u64) | Submit(event: Event)

  datatype Entry = Entry(event: Event, decision: Decision)

  function Apply(H: Hash, l: LedgerValue, op: Op): LedgerValue {
    match op
    case Clock(elapsed) => l.(state := WithElapsed(l.state, elapsed))
    case Submit(event) => AdmitEvent(H, l, event).0
  }

  /** The ledger after a run from a freshly provisioned state. */
  function Run(H: Hash, p: Params, ops: seq<Op>): LedgerValue {
    if ops == [] then NewLedger(H, p.Start())
    else Apply(H, Run(H, p, ops[..|ops| - 1]), ops[|ops| - 1])
  }

  /** The events of a run with their verdicts. */
  function Log(H: Hash, p: Params, ops: seq<Op>): seq<Entry> {
    if ops == [] then []
    else
      var before, op := ops[..|ops| - 1], ops[|ops| - 1];
      match op
      case Clock(_) => Log(H, p, before)
      case Submit(event) =>
        Log(H, p, before) + [Entry(event, AdmitEvent(H, Run(H, p, before), event).1)]
  }

  predicate ErasedIn(ops: seq<Op>) {
    exists i :: 0 <= i < |ops| && ops[i].Submit? && ops[i].event.Erases()
  }

  lemma ErasedInSnoc(ops: seq<Op>)
    requires ops != []
    ensures ErasedIn(ops) <==> ErasedIn(ops[..|ops| - 1])
                               || (ops[|ops| - 1].Submit? && ops[|ops| - 1].event.Erases())
  {
    var before, op := ops[..|ops| - 1], ops[|ops| - 1];
    if ErasedIn(before) {
      var i :| 0 <= i < |before| && before[i].Submit? && before[i].event.Erases();
      assert ops[i] == before[i];
    }
    if ErasedIn(ops) {
      var i :| 0 <= i < |ops| && ops[i].Submit? && ops[i].event.Erases();
      if i < |before| { assert before[i] == ops[i]; }
    }
  }

  /** What every reachable state satisfies. */
  predicate Reachable(p: Params, s: State) {
    && PeakDominates(s) && WithinThreshold(s)
    && s.deadline == p.deadline && s.threshold == p.threshold
    && IsSubsetOf(s.granted, ALL) && Contains(s.granted, ERASURE_ATTEST)
    && (s.phase == Erased ==> s.granted == ERASURE_ATTEST && s.opBudget == 0 && s.disclosureBudget == 0)
  }

  lemma RevokeMasks(c: Capabilities)
    requires IsSubsetOf(c, ALL) && Contains(c, ERASURE_ATTEST)
    ensures Revoke(c, ERASE_MASK) == ERASURE_ATTEST
    ensures IsSubsetOf(Revoke(c, MISSION_INIT), ALL) && Contains(Revoke(c, MISSION_INIT), ERASURE_ATTEST)
  {
  }

  lemma StepReachable(H: Hash, p: Params, s: State, event: Event)
    requires Reachable(p, s)
    ensures var next := Step(H, s, event).1;
            Reachable(p, next) && Reachable(p, Commit(s, next))
            && (Commit(s, next).phase == Erased <==> s.phase == Erased || event.Erases())
  {
    StepPrecedes(H, s, event);
    RevokeMasks(s.granted);
    assert !CountSaturated(H, s, event) || !event.Erases();
  }

  /** The invariant of every run, and: the phase is Erased exactly when erasure was submitted. */
  lemma {:induction false} RunReachable(H: Hash, p: Params, ops: seq<Op>)
    ensures Reachable(p, Run(H, p, ops).state)
    ensures Run(H, p, ops).state.phase == Erased <==> ErasedIn(ops)
  {
    if ops == [] {
      assert IsSubsetOf(ALL, ALL) && Contains(ALL, ERASURE_ATTEST);
    } else {
      var before, op := ops[..|ops| - 1], ops[|ops| - 1];
      RunReachable(H, p, before);
      ErasedInSnoc(ops);
      if op.Submit? { StepReachable(H, p, Run(H, p, before).state, op.event); }
    }
  }

  /** Uncertainty over a whole run: the mark, the threshold and the accumulators. */
  lemma UncertaintyBounded(H: Hash, p: Params, ops: seq<Op>)
    ensures var s := Run(H, p, ops).state;
            s.Net() <= s.peak <= p.threshold && s.incurred <= s.resolved + p.threshold
  {
    RunReachable(H, p, ops);
  }

  lemma ClockPrecedes(s: State, elapsed: u64)
    requires PeakDominates(s)
    ensures Precedes(s, WithElapsed(s, elapsed))
  {
    SubsetReflexive(s.granted);
  }

  /** Every earlier state of a run legally precedes every later one. */
  lemma {:induction false} RunAscends(H: Hash, p: Params, ops: seq<Op>, k: nat)
    requires k <= |ops|
    ensures Precedes(Run(H, p, ops[..k]).state, Run(H, p, ops).state)
  {
    if k == |ops| {
      assert ops[..k] == ops;
      RunReachable(H, p, ops);
      PrecedesReflexive(Run(H, p, ops).state);
    } else {
      var before, op := ops[..|ops| - 1], ops[|ops| - 1];
      RunAscends(H, p, before, k);
      assert before[..k] == ops[..k];
      RunReachable(H, p, before);
      var s := Run(H, p, before).state;
      if op.Clock? {
        ClockPrecedes(s, op.elapsed);
      } else {
        PrecedesReflexive(s);
      }
      PrecedesTransitive(Run(H, p, ops[..k]).state, s, Run(H, p, ops).state);
    }
  }

  lemma ConsumedStep(H: Hash, s: State, event: Event)
    ensures Commit(s, Step(H, s, event).1).consumed <= s.consumed + 1
  {
  }

  /** The consumption count never exceeds the number of operations. */
  lemma {:induction false} ConsumedBound(H: Hash, p: Params, ops: seq<Op>)
    ensures Run(H, p, ops).state.consumed <= |ops|
  {
    if ops != [] {
      var before, op := ops[..|ops| - 1], ops[|ops| - 1];
      ConsumedBound(H, p, before);
      if op.Submit? { ConsumedStep(H, Run(H, p, before).state, op.event); }
    }
  }

  /** In a run of fewer than `2^64 - 1` operations the refuse-to-commit fallback is never taken. */
  lemma FallbackUnreachable(H: Hash, p: Params, ops: seq<Op>, event: Event)
    requires |ops| < U64_MAX
    ensures var s := Run(H, p, ops).state; Precedes(s, Step(H, s, event).1)
  {
    RunReachable(H, p, ops);
    ConsumedBound(H, p, ops);
    StepPrecedes(H, Run(H, p, ops).state, event);
  }

  /** Whatever its length, a run can always be ended: erasure commits the erased state. */
  lemma EraseAlwaysCommits(H: Hash, p: Params, ops: seq<Op>, event: Event)
    requires event.Erases()
    ensures var l := Run(H, p, ops);
            AdmitEvent(H, l, event).0.state == EraseState(l.state) && AdmitEvent(H, l, event).1 == Admit
  {
    RunReachable(H, p, ops);
    EraseAlwaysAdmitted(H, Run(H, p, ops).state, event);
  }

  // ── Counting over runs ───────────────────────────────────────────────────

  function Inferences(log: seq<Entry>): nat {
    if log == [] then 0
    else Inferences(log[..|log| - 1])
         + (if log[|log| - 1].event.Infer? && log[|log| - 1].decision == Admit then 1 else 0)
  }

  function BitsReleased(log: seq<Entry>): nat {
    if log == [] then 0
    else BitsReleased(log[..|log| - 1])
         + (if log[|log| - 1].event.Infer? && log[|log| - 1].decision == Admit
            then log[|log| - 1].event.disclosureBits else 0)
  }

  /** Scores of admitted inferences, summed without saturation. */
  function ScoreSum(log: seq<Entry>): nat {
    if log == [] then 0
    else ScoreSum(log[..|log| - 1])
         + (if log[|log| - 1].event.Infer? && log[|log| - 1].decision == Admit
            then log[|log| - 1].event.uncertaintyScore else 0)
  }

  /** Grants of admitted corrections, in order. */
  function GrantsUsed(log: seq<Entry>): seq<Grant> {
    if log == [] then []
    else GrantsUsed(log[..|log| - 1])
         + (if log[|log| - 1].event.HumanCorrection? && log[|log| - 1].decision == Admit
            then [log[|log| - 1].event.grant] else [])
  }

  function Admissions(log: seq<Entry>): nat {
    if log == [] then 0
    else Admissions(log[..|log| - 1]) + (if log[|log| - 1].decision == Admit then 1 else 0)
  }

  /** The log of a run that ends with a submission. */
  lemma LogSnoc(H: Hash, p: Params, ops: seq<Op>)
    requires ops != [] && ops[|ops| - 1].Submit?
    ensures var before, event := ops[..|ops| - 1], ops[|ops| - 1].event;
            var log := Log(H, p, ops);
            log != [] && log[..|log| - 1] == Log(H, p, before)
            && log[|log| - 1] == Entry(event, Step(H, Run(H, p, before).state, event).0)
  {
    var before, event := ops[..|ops| - 1], ops[|ops| - 1].event;
    assert Log(H, p, ops) == Log(H, p, before) + [Entry(event, AdmitEvent(H, Run(H, p, before), event).1)];
  }

  /** One arbitration moves from the budgets exactly what the admitted inference takes. */
  lemma StepBudgets(H: Hash, p: Params, s: State, event: Event)
    requires Reachable(p, s) && !event.Erases()
    ensures var (decision, next) := Step(H, s, event);
            var c := Commit(s, next);
            if event.Infer? && decision == Admit
            then c.opBudget + 1 == s.opBudget && c.disclosureBudget + event.disclosureBits == s.disclosureBudget
            else c.opBudget == s.opBudget && c.disclosureBudget == s.disclosureBudget
  {
    StepPrecedes(H, s, event);
  }

  /** What is left and what was used add up to the provision, or the run is erased. */
  predicate Conserved(p: Params, s: State, log: seq<Entry>) {
    && Inferences(log) <= p.opBudget && BitsReleased(log) <= p.disclosureBudget
    && if s.phase == Erased then s.opBudget == 0 && s.disclosureBudget == 0
       else s.opBudget + Inferences(log) == p.opBudget && s.disclosureBudget + BitsReleased(log) == p.disclosureBudget
  }

  lemma ConservedStep(H: Hash, p: Params, s: State, log: seq<Entry>, event: Event)
    requires Reachable(p, s) && Conserved(p, s, log)
    ensures var (decision, next) := Step(H, s, event);
            Conserved(p, Commit(s, next), log + [Entry(event, decision)])
  {
    var (decision, next) := Step(H, s, event);
    var log' := log + [Entry(event, decision)];
    assert log'[..|log|] == log && log'[|log|] == Entry(event, decision);
    StepReachable(H, p, s, event);
    if event.Erases() { EraseAlwaysAdmitted(H, s, event); } else { StepBudgets(H, p, s, event); }
    if s.phase == Erased { ErasedAbsorbs(H, s, event); }
  }

  /**
   * Budget conservation: until erasure what is left and what was used add up to what was
   * provisioned; afterwards nothing is left and no more than the provision was ever used.
   */
  lemma {:induction false} BudgetsConserved(H: Hash, p: Params, ops: seq<Op>)
    ensures var s, log := Run(H, p, ops).state, Log(H, p, ops);
            Inferences(log) <= p.opBudget && BitsReleased(log) <= p.disclosureBudget
            && (!ErasedIn(ops) ==> s.opBudget + Inferences(log) == p.opBudget
                                   && s.disclosureBudget + BitsReleased(log) == p.disclosureBudget)
            && (ErasedIn(ops) ==> s.opBudget == 0 && s.disclosureBudget == 0)
  {
    RunConserved(H, p, ops);
    RunReachable(H, p, ops);
  }

  lemma {:induction false} RunConserved(H: Hash, p: Params, ops: seq<Op>)
    ensures Conserved(p, Run(H, p, ops).state, Log(H, p, ops))
  {
    if ops != [] {
      var before, op := ops[..|ops| - 1], ops[|ops| - 1];
      RunConserved(H, p, before);
      if op.Submit? {
        RunReachable(H, p, before);
        ConservedStep(H, p, Run(H, p, before).state, Log(H, p, before), op.event);
      }
    }
  }

  /** A count as the `u64` counter shows it. */
  function Counter(n: nat): u64 {
    n % 0x1_0000_0000_0000_0000
  }

  lemma CounterInc(n: nat)
    ensures WrapInc(Counter(n)) == Counter(n + 1)
  {
  }

  /** A record carries its position and the codes of its event and verdict. */
  predicate RecordMatches(r: Record, i: nat, e: Entry) {
    r.seqNo == Counter(i) && r.eventCode == e.event.Code() && r.decisionCode == e.decision.Code()
  }

  /** The next number and the two counts, as counters show them. */
  predicate Counted(l: LedgerValue, length: nat, admissions: nat) {
    admissions <= length && l.nextSeq == Counter(length) && l.admitted == Counter(admissions)
    && l.denied == Counter(length - admissions)
  }

  /** The records are the log's, one for one. */
  ghost predicate Recorded(records: seq<Record>, log: seq<Entry>) {
    |records| == |log| && forall i :: 0 <= i < |log| ==> RecordMatches(records[i], i, log[i])
  }

  /** The ledger's books: digest, length, sequence numbers, counters and codes. */
  ghost predicate Bookkept(H: Hash, p: Params, l: LedgerValue, log: seq<Entry>) {
    && l.digest == ChainDigest(H, p.Start(), l.records)
    && Counted(l, |log|, Admissions(log))
    && Recorded(l.records, log)
  }

  lemma RecordedSnoc(records: seq<Record>, log: seq<Entry>, r: Record, e: Entry)
    requires Recorded(records, log) && RecordMatches(r, |log|, e)
    ensures Recorded(records + [r], log + [e])
  {
  }

  lemma CountedNext(l: LedgerValue, l': LedgerValue, length: nat, admissions: nat, admit: bool)
    requires Counted(l, length, admissions) && l'.nextSeq == WrapInc(l.nextSeq)
    requires l'.admitted == if admit then WrapInc(l.admitted) else l.admitted
    requires l'.denied == if admit then l.denied else WrapInc(l.denied)
    ensures Counted(l', length + 1, admissions + if admit then 1 else 0)
  {
    CounterInc(length);
    CounterInc(admissions);
    CounterInc(length - admissions);
  }

  lemma DigestSnoc(H: Hash, start: State, records: seq<Record>, r: Record)
    ensures ChainDigest(H, start, records + [r]) == H(RecordMessage(ChainDigest(H, start, records), r))
  {
    assert (records + [r])[..|records|] == records;
  }

  lemma AdmissionsSnoc(log: seq<Entry>, e: Entry)
    ensures Admissions(log + [e]) == Admissions(log) + (if e.decision == Admit then 1 else 0)
  {
    assert (log + [e])[..|log|] == log;
  }

  /** One more record and entry, whatever else the record says. */
  lemma BooksWith(H: Hash, p: Params, l: LedgerValue, log: seq<Entry>, e: Entry, r: Record, l': LedgerValue)
    requires Bookkept(H, p, l, log) && RecordMatches(r, |log|, e)
    requires l'.records == l.records + [r] && l'.digest == H(RecordMessage(l.digest, r))
    requires l'.nextSeq == WrapInc(l.nextSeq)
    requires l'.admitted == if e.decision == Admit then WrapInc(l.admitted) else l.admitted
    requires l'.denied == if e.decision == Admit then l.denied else WrapInc(l.denied)
    ensures Bookkept(H, p, l', log + [e])
  {
    DigestSnoc(H, p.Start(), l.records, r);
    AdmissionsSnoc(log, e);
    CountedNext(l, l', |log|, Admissions(log), e.decision == Admit);
    RecordedSnoc(l.records, log, r, e);
  }

  lemma AppendKeepsBooks(H: Hash, p: Params, l: LedgerValue, log: seq<Entry>, e: Entry, committed: State)
    requires Bookkept(H, p, l, log)
    ensures Bookkept(H, p, Append(H, l, e.event, e.decision, committed), log + [e])
  {
    var record := MakeRecord(l.nextSeq, l.state, e.event, e.decision, committed);
    BooksWith(H, p, l, log, e, record, Append(H, l, e.event, e.decision, committed));
  }

  /** Every run keeps its books: each submission is recorded once, as admitted or as denied. */
  lemma {:induction false} RunKeepsBooks(H: Hash, p: Params, ops: seq<Op>)
    ensures Bookkept(H, p, Run(H, p, ops), Log(H, p, ops))
  {
    if ops != [] {
      var before, op := ops[..|ops| - 1], ops[|ops| - 1];
      RunKeepsBooks(H, p, before);
      if op.Submit? {
        var l, log := Run(H, p, before), Log(H, p, before);
        var (decision, next) := Step(H, l.state, op.event);
        AppendKeepsBooks(H, p, l, log, Entry(op.event, decision), Commit(l.state, next));
      }
    }
  }

  /** Two runs with equal chain digests saw the same parameters, events and verdicts, by code. */
  lemma EqualDigestsSameRun(H: Hash, p: Params, a: seq<Op>, q: Params, b: seq<Op>)
    requires Run(H, p, a).digest == Run(H, q, b).digest
    ensures (p == q && Run(H, p, a).records == Run(H, q, b).records && |Log(H, p, a)| == |Log(H, q, b)|)
         || Collides(H, ChainMessages(H, p.Start(), Run(H, p, a).records),
                        ChainMessages(H, q.Start(), Run(H, q, b).records))
  {
    RunKeepsBooks(H, p, a);
    RunKeepsBooks(H, q, b);
    DigestBinds(H, p, Run(H, p, a).records, q, Run(H, q, b).records);
  }

  /** What a record says about the states around it, field by field. */
  predicate Shows(r: Record, before: State, after: State) {
    && r.phaseBefore == before.phase.Rank() && r.phaseAfter == after.phase.Rank()
    && r.grantedAfter == after.granted as int
    && r.opBudgetAfter == after.opBudget && r.disclosureAfter == after.disclosureBudget
    && r.incurredAfter == after.incurred && r.resolvedAfter == after.resolved
    && r.peakAfter == after.peak && r.consumedAfter == after.consumed
  }

  /** One arbitration appends one record, which shows the states before and after it. */
  lemma AdmitShows(H: Hash, l: LedgerValue, event: Event)
    ensures var l' := AdmitEvent(H, l, event).0;
            |l'.records| == |l.records| + 1 && l'.records[..|l.records|] == l.records
            && Shows(l'.records[|l.records|], l.state, l'.state)
  {
  }

  lemma RecordCount(H: Hash, p: Params, ops: seq<Op>)
    ensures |Run(H, p, ops).records| == |Log(H, p, ops)|
  {
    RunKeepsBooks(H, p, ops);
  }

  /** The submission at position `k` of a run, the record it appended, and the states around it. */
  predicate ShownAt(H: Hash, p: Params, ops: seq<Op>, k: nat, records: seq<Record>)
    requires k < |ops|
  {
    var i := |Log(H, p, ops[..k])|;
    i < |records| && Shows(records[i], Run(H, p, ops[..k]).state, Run(H, p, ops[..k + 1]).state)
  }

  /**
   * Every submission of every run, wherever in it, is shown by its own record: the phase before
   * it, and the phase, capabilities, budgets, accumulators, peak and count the run had after it.
   */
  lemma {:induction false} RecordsShowStates(H: Hash, p: Params, ops: seq<Op>, k: nat)
    requires k < |ops| && ops[k].Submit?
    ensures ShownAt(H, p, ops, k, Run(H, p, ops).records)
  {
    var last := |ops| - 1;
    var before := ops[..last];
    RecordCount(H, p, before);
    if k == last {
      assert ops[..k + 1] == ops;
      AdmitShows(H, Run(H, p, before), ops[k].event);
    } else {
      RecordsShowStates(H, p, before, k);
      assert before[..k] == ops[..k] && before[..k + 1] == ops[..k + 1];
      RecordsKept(H, p, ops);
    }
  }

  lemma RecordsKept(H: Hash, p: Params, ops: seq<Op>)
    requires ops != []
    ensures Run(H, p, ops[..|ops| - 1]).records <= Run(H, p, ops).records
  {
    var before, op := ops[..|ops| - 1], ops[|ops| - 1];
    if op.Submit? { AdmitShows(H, Run(H, p, before), op.event); }
  }

  lemma RunNext(H: Hash, p: Params, ops: seq<Op>, i: nat)
    requires i < |ops|
    ensures Run(H, p, ops[..i + 1]) == Apply(H, Run(H, p, ops[..i]), ops[i])
  {
    assert ops[..i + 1][..i] == ops[..i];
  }

  method Perform(ledger: ContainmentLedger, op: Op)
    requires ledger.Valid()
    modifies ledger
    ensures ledger.Valid() && ledger.Value() == Apply(ledger.H, old(ledger.Value()), op)
  {
    match op {
      case Clock(elapsed) => ledger.SetElapsed(elapsed);
      case Submit(event) => var _ := ledger.Submit(event);
    }
  }

  /**
   * The object driven through a whole run: it ends as the specified ledger, and what it retains
   * is the last records of the run, with consecutive numbers.
   */
  method Replayed(H: Hash, p: Params, capacity: nat, ops: seq<Op>)
    returns (tail: seq<Record>, state: State, digest: Digest, counters: (u64, u64))
    ensures tail == Tail(Run(H, p, ops).records, Max(capacity, 1))
    ensures ConsecutiveTo(tail, |Log(H, p, ops)|, Max(capacity, 1))
    ensures forall k :: 0 <= k < |ops| && ops[k].Submit? ==> RetainedShows(H, p, ops, k, tail)
    ensures state == Run(H, p, ops).state && digest == Run(H, p, ops).digest
    ensures counters == (Run(H, p, ops).admitted, Run(H, p, ops).denied)
  {
    var ledger := new ContainmentLedger(H, p.Start(), capacity);
    assert ops[..0] == [];
    for i := 0 to |ops|
      invariant ledger.Valid() && ledger.H == H && ledger.tailCapacity == Max(capacity, 1)
      invariant ledger.Value() == Run(H, p, ops[..i])
    {
      RunNext(H, p, ops, i);
      Perform(ledger, ops[i]);
    }
    assert ops[..|ops|] == ops;
    tail, state, digest := ledger.tail, ledger.state, ledger.chainDigest;
    counters := (ledger.admitted, ledger.denied);
    RunKeepsBooks(H, p, ops);
    TailNumbers(Run(H, p, ops).records, Log(H, p, ops), Max(capacity, 1));
    forall k | 0 <= k < |ops| && ops[k].Submit? ensures RetainedShows(H, p, ops, k, tail) {
      RecordCount(H, p, ops);
      RecordsShowStates(H, p, ops, k);
      TailShows(Run(H, p, ops).records, Max(capacity, 1), |Log(H, p, ops[..k])|,
                Run(H, p, ops[..k]).state, Run(H, p, ops[..k + 1]).state);
    }
  }

  /** Unless it was evicted, the submission's record is in the tail and shows the run's states. */
  predicate RetainedShows(H: Hash, p: Params, ops: seq<Op>, k: nat, tail: seq<Record>)
    requires k < |ops|
  {
    ShownIn(tail, |Log(H, p, ops)|, |Log(H, p, ops[..k])|, Run(H, p, ops[..k]).state, Run(H, p, ops[..k + 1]).state)
  }

  predicate ShownIn(tail: seq<Record>, length: nat, i: nat, before: State, after: State) {
    var evicted := length - |tail|;
    i >= evicted ==> i - evicted < |tail| && Shows(tail[i - evicted], before, after)
  }

  lemma TailShows(records: seq<Record>, capacity: nat, i: nat, before: State, after: State)
    requires i < |records| && Shows(records[i], before, after)
    ensures ShownIn(Tail(records, capacity), |records|, i, before, after)
  {
  }

  /** The records numbered up to `length`, as many of them as there are and fit. */
  predicate ConsecutiveTo(tail: seq<Record>, length: nat, capacity: nat) {
    |tail| == Min(length, capacity)
    && forall i :: 0 <= i < |tail| ==> tail[i].seqNo == Counter(length - |tail| + i)
  }

  lemma TailNumbers(records: seq<Record>, log: seq<Entry>, capacity: nat)
    requires Recorded(records, log)
    ensures ConsecutiveTo(Tail(records, capacity), |log|, capacity)
  {
    var t := Tail(records, capacity);
    forall i | 0 <= i < |t| ensures t[i].seqNo == Counter(|log| - |t| + i) {
      assert t[i] == records[|log| - |t| + i];
    }
  }
}
