/**
 * The erasure circuit as a relation over field elements, next to the native check that guards
 * proving (`crates/chronos-snark/src/circuit.rs`). Each Poseidon gadget stands for its native
 * function, and a comparison gadget for its specification.
 */
module Circuit {
  import opened Words
  import opened NumberTheory
  import opened Poseidon
  import opened Aead
  import opened Modulus
  import opened Sealing
  import opened Wesolowski
  import Containment
  import opened Ledger

  const SALT_BYTES: nat := 32
  const SK_BYTES: nat := 32
  const CT_BODY_ELEMS: nat := 2
  const WIPE_PATTERN: u8 := 0xFF
  const SUMMARY_ELEMS: nat := 14

  // ── Containment summary ──────────────────────────────────────────────────

  datatype Summary = Summary(
    finalPhase: u64, finalGranted: u64, opBudgetRemaining: u64, disclosureRemaining: u64,
    admitted: u64, denied: u64, ledgerLen: u64, chainHeadLo: Fr, chainHeadHi: Fr,
    incurred: u64, resolved: u64, peak: u64, threshold: u64, consumed: u64)
  {
    function ToElements(): (e: seq<Fr>)
      ensures |e| == SUMMARY_ELEMS
    {
      [finalPhase, finalGranted, opBudgetRemaining, disclosureRemaining, admitted, denied, ledgerLen,
       chainHeadLo, chainHeadHi, incurred, resolved, peak, threshold, consumed]
    }

    predicate SatisfiesA6() {
      incurred <= SatAdd(resolved, threshold)
    }

    predicate SatisfiesA6PerStep() {
      peak <= threshold
    }

    predicate SatisfiesTerminalState() {
      finalPhase == 3 && finalGranted == Containment.ERASURE_ATTEST as int
      && opBudgetRemaining == 0 && disclosureRemaining == 0
    }

    predicate IsTerminal() {
      SatisfiesTerminalState() && SatisfiesA6() && SatisfiesA6PerStep()
    }
  }

  function FromLedger(l: LedgerValue): Summary {
    var s, head := l.state, Split32(l.digest);
    Summary(s.phase.Rank(), s.granted as int, s.opBudget, s.disclosureBudget, l.admitted, l.denied,
            l.nextSeq, head[0], head[1], s.incurred, s.resolved, s.peak, s.threshold, s.consumed)
  }

  function Commitment(S: Sponge, c: Summary): Fr {
    HashField(S, ContainmentLedger, c.ToElements())
  }

  /** A summary, element by element, from the state, the counts and the digest. */
  predicate Tells(e: seq<Fr>, s: Containment.State, digest: Digest, length: nat, admissions: nat)
    requires |e| == SUMMARY_ELEMS
  {
    && e[0] == s.phase.Rank() && e[1] == s.granted as int && e[2] == s.opBudget && e[3] == s.disclosureBudget
    && admissions <= length && e[4] == Counter(admissions) && e[5] == Counter(length - admissions)
    && e[6] == Counter(length) && e[7] * Pow(256, 16) + e[8] == FromBytesBe(digest)
    && e[9] == s.incurred && e[10] == s.resolved && e[11] == s.peak && e[12] == s.threshold && e[13] == s.consumed
  }

  lemma LedgerTells(l: LedgerValue, length: nat, admissions: nat)
    requires Counted(l, length, admissions)
    ensures Tells(FromLedger(l).ToElements(), l.state, l.digest, length, admissions)
  {
    Split32Value(l.digest);
  }

  /** The summary of a run, from its last state, its log and the digest of its records. */
  lemma SummaryTells(H: Hash, p: Params, ops: seq<Op>)
    ensures var l, log := Run(H, p, ops), Log(H, p, ops);
            Tells(FromLedger(l).ToElements(), l.state, ChainDigest(H, p.Start(), l.records), |log|, Admissions(log))
  {
    RunKeepsBooks(H, p, ops);
    LedgerTells(Run(H, p, ops), |Log(H, p, ops)|, Admissions(Log(H, p, ops)));
  }

  /**
   * The one published commitment binds the whole history: two runs with equal commitments had the
   * same parameters and the same records, or one of the two hashes is broken on explicit inputs.
   */
  lemma CommitmentBindsRun(H: Hash, S: Sponge, p: Params, a: seq<Op>, q: Params, b: seq<Op>)
    requires Commitment(S, FromLedger(Run(H, p, a))) == Commitment(S, FromLedger(Run(H, q, b)))
    ensures (p == q && Run(H, p, a).records == Run(H, q, b).records && |Log(H, p, a)| == |Log(H, q, b)|)
         || Collides(H, ChainMessages(H, p.Start(), Run(H, p, a).records),
                        ChainMessages(H, q.Start(), Run(H, q, b).records))
         || SqueezeAlike(S, Absorbed(ContainmentLedger, FromLedger(Run(H, p, a)).ToElements()),
                            Absorbed(ContainmentLedger, FromLedger(Run(H, q, b)).ToElements()), 0)
  {
    var l, m := Run(H, p, a), Run(H, q, b);
    var e, f := FromLedger(l).ToElements(), FromLedger(m).ToElements();
    if Absorbed(ContainmentLedger, e) == Absorbed(ContainmentLedger, f) {
      AbsorbedInjective(ContainmentLedger, e, ContainmentLedger, f);
      SameHead(l, m);
      EqualDigestsSameRun(H, p, a, q, b);
    }
  }

  lemma SameHead(l: LedgerValue, m: LedgerValue)
    requires FromLedger(l).ToElements() == FromLedger(m).ToElements()
    ensures l.digest == m.digest
  {
    var e, f := FromLedger(l).ToElements(), FromLedger(m).ToElements();
    assert e[7] == f[7] && e[8] == f[8];
    Split32Injective(l.digest, m.digest);
  }

  lemma ReachableTerminal(p: Params, l: LedgerValue)
    requires Reachable(p, l.state)
    ensures FromLedger(l).IsTerminal() <==> l.state.phase.Erased?
  {
  }

  /** A run's summary is provable exactly when erasure or watchdog expiry was submitted. */
  lemma ProvableIffErased(H: Hash, p: Params, ops: seq<Op>)
    ensures FromLedger(Run(H, p, ops)).IsTerminal() <==> ErasedIn(ops)
  {
    RunReachable(H, p, ops);
    ReachableTerminal(p, Run(H, p, ops));
  }

  /** Once provable, provable after every further operation. */
  lemma ProvableForGood(H: Hash, p: Params, ops: seq<Op>, more: seq<Op>)
    requires FromLedger(Run(H, p, ops)).IsTerminal()
    ensures FromLedger(Run(H, p, ops + more)).IsTerminal()
  {
    ProvableIffErased(H, p, ops);
    ProvableIffErased(H, p, ops + more);
    var i :| 0 <= i < |ops| && ops[i].Submit? && ops[i].event.Erases();
    assert (ops + more)[i] == ops[i];
  }

  // ── Witness and native check ─────────────────────────────────────────────

  datatype PublicInputs = PublicInputs(
    yCommit: Fr, ctCommit: Fr, skCommit: Fr, missionCommit: Fr, containmentCommit: Fr)

  datatype Witness = Witness(
    y: bytes, salt: bytes, ct: Ciphertext, sk: Digest, mPost: bytes, mission: Digest, containment: Summary)

  datatype ShapeError =
    | BadY | BadSalt | BadBody | BadBuffer | NotWiped | NotTerminal | A6Violated | A6StepViolated
    | DoesNotAuthenticate | WrongKey

  function CheckShape(S: Sponge, w: Witness): Result<(), ShapeError> {
    if |w.y| != Y_BYTES then Err(BadY)
    else if |w.salt| != SALT_BYTES then Err(BadSalt)
    else if |w.ct.body| != CT_BODY_ELEMS then Err(BadBody)
    else if |w.mPost| != SK_BYTES then Err(BadBuffer)
    else if exists i :: 0 <= i < |w.mPost| && w.mPost[i] != WIPE_PATTERN then Err(NotWiped)
    else if !w.containment.SatisfiesTerminalState() then Err(NotTerminal)
    else if !w.containment.SatisfiesA6() then Err(A6Violated)
    else if !w.containment.SatisfiesA6PerStep() then Err(A6StepViolated)
    else
      var recovered := Decrypt(S, DeriveKey(S, w.y, w.salt), w.ct);
      if recovered.Err? then Err(DoesNotAuthenticate)
      else if recovered.value != Split32(w.sk) then Err(WrongKey)
      else Ok(())
  }

  function Derive(S: Sponge, w: Witness): PublicInputs
    requires |w.y| <= U64_MAX
  {
    PublicInputs(
      HashBytes(S, VdfOutput, w.y),
      HashField(S, CiphertextDomain, ToElements(w.ct)),
      HashField(S, SecretKey, Split32(w.sk)),
      HashBytes(S, MissionId, w.mission),
      Commitment(S, w.containment))
  }

  // ── The constraint system ────────────────────────────────────────────────

  /** The private variables. */
  datatype Assignment = Assignment(
    yLimbs: seq<Fr>, saltLimbs: seq<Fr>, nonce: Fr, ctBody: seq<Fr>, tag: Fr, skElems: seq<Fr>,
    missionLimbs: seq<Fr>, summary: seq<Fr>, mPost: seq<Fr>)

  /** `alloc_witness_elems`: exactly `n` variables, absent values read as zero. */
  function Alloc(values: seq<Fr>, n: nat): (v: seq<Fr>)
    ensures |v| == n
    ensures |values| == n ==> v == values
  {
    var pick: nat -> Fr := (i: nat) => if i < |values| then values[i] else 0;
    seq<Fr>(n, pick)
  }

  function ByteVars(b: bytes): (v: seq<Fr>)
    ensures |v| == SK_BYTES
  {
    var pick: nat -> Fr := (i: nat) => if i < |b| then b[i] else WIPE_PATTERN;
    seq<Fr>(SK_BYTES, pick)
  }

  function Allocate(w: Witness): Assignment {
    Assignment(
      Alloc(PackBytes(w.y), Y_BYTES / 16), Alloc(PackBytes(w.salt), SALT_BYTES / 16), w.ct.nonce,
      Alloc(w.ct.body, CT_BODY_ELEMS), w.ct.tag, Alloc(Split32(w.sk), 2),
      Alloc(PackBytes(w.mission), 2), Alloc(w.containment.ToElements(), SUMMARY_ELEMS), ByteVars(w.mPost))
  }

  /** `enforce_cmp(Less, true)`: both sides in the lower half of the field, and ordered. */
  predicate EnforceLessOrEqual(a: Fr, b: Fr) {
    a <= (R - 1) / 2 && b <= (R - 1) / 2 && a <= b
  }

  predicate WellSized(a: Assignment) {
    |a.yLimbs| == 16 && |a.saltLimbs| == 2 && |a.ctBody| == 2 && |a.skElems| == 2 && |a.missionLimbs| == 2
    && |a.summary| == SUMMARY_ELEMS && |a.mPost| == SK_BYTES
  }

  function GadgetKey(S: Sponge, a: Assignment): Key {
    HashMany(S, KeyDerivation, [Y_BYTES] + a.yLimbs + [SALT_BYTES] + a.saltLimbs, 2)
  }

  function Recovered(S: Sponge, a: Assignment): seq<Fr> {
    var key := GadgetKey(S, a);
    SubAll(a.ctBody, HashMany(S, AeadKeystream, [key[0], key[1], a.nonce], |a.ctBody|))
  }

  predicate KeyReleaseConstraints(S: Sponge, pi: PublicInputs, a: Assignment)
    requires WellSized(a)
  {
    var key := GadgetKey(S, a);
    && HashField(S, VdfOutput, [Y_BYTES] + a.yLimbs) == pi.yCommit
    && HashField(S, CiphertextDomain, [a.nonce] + a.ctBody + [a.tag]) == pi.ctCommit
    && HashField(S, AeadTag, [key[0], key[1], a.nonce] + a.ctBody) == a.tag
    && Recovered(S, a)[0] == a.skElems[0] && Recovered(S, a)[1] == a.skElems[1]
    && HashField(S, SecretKey, a.skElems) == pi.skCommit
    && HashField(S, MissionId, [32] + a.missionLimbs) == pi.missionCommit
  }

  predicate ContainmentConstraints(S: Sponge, pi: PublicInputs, a: Assignment)
    requires WellSized(a)
  {
    && HashField(S, ContainmentLedger, a.summary) == pi.containmentCommit
    && a.summary[0] == 3
    && a.summary[1] == Containment.ERASURE_ATTEST as int
    && a.summary[2] == 0
    && a.summary[3] == 0
    && EnforceLessOrEqual(a.summary[9], FieldAdd(a.summary[10], a.summary[12]))
    && EnforceLessOrEqual(a.summary[11], a.summary[12])
    && forall i :: 0 <= i < SK_BYTES ==> a.mPost[i] == WIPE_PATTERN
  }

  /** `generate_constraints`, as what it enforces. */
  predicate Satisfied(S: Sponge, pi: PublicInputs, a: Assignment) {
    WellSized(a) && KeyReleaseConstraints(S, pi, a) && ContainmentConstraints(S, pi, a)
  }

  predicate CorrectlySized(w: Witness) {
    |w.y| == Y_BYTES && |w.salt| == SALT_BYTES && |w.ct.body| == CT_BODY_ELEMS && |w.mPost| == SK_BYTES
  }

  /** The field comparisons agree with the saturating native predicates on `u64` values. */
  lemma ComparisonsAgree(c: Summary)
    ensures EnforceLessOrEqual(c.incurred, FieldAdd(c.resolved, c.threshold)) <==> c.SatisfiesA6()
    ensures EnforceLessOrEqual(c.peak, c.threshold) <==> c.SatisfiesA6PerStep()
  {
  }

  /** A correctly sized witness is allocated value for value. */
  lemma AllocatedValues(w: Witness)
    requires CorrectlySized(w)
    ensures var a := Allocate(w);
            WellSized(a) && a.yLimbs == PackBytes(w.y) && a.saltLimbs == PackBytes(w.salt)
            && a.ctBody == w.ct.body && a.skElems == Split32(w.sk) && a.missionLimbs == PackBytes(w.mission)
            && a.summary == w.containment.ToElements() && a.nonce == w.ct.nonce && a.tag == w.ct.tag
            && forall i :: 0 <= i < SK_BYTES ==> a.mPost[i] == w.mPost[i]
  {
  }

  lemma KeyReleaseAgrees(S: Sponge, w: Witness)
    requires CorrectlySized(w)
    ensures WellSized(Allocate(w))
    ensures KeyReleaseConstraints(S, Derive(S, w), Allocate(w))
       <==> Decrypt(S, DeriveKey(S, w.y, w.salt), w.ct) == Ok(Split32(w.sk))
  {
    AllocatedValues(w);
    var a := Allocate(w);
    assert [Y_BYTES] + a.yLimbs == BytesInput(w.y);
    assert [SALT_BYTES] + a.saltLimbs == BytesInput(w.salt);
    assert [Y_BYTES] + a.yLimbs + [SALT_BYTES] + a.saltLimbs == KeyInput(w.y, w.salt);
    assert GadgetKey(S, a) == DeriveKey(S, w.y, w.salt);
    assert [32] + a.missionLimbs == BytesInput(w.mission);
    assert ToElements(w.ct) == [a.nonce] + a.ctBody + [a.tag];
    var plain := Recovered(S, a);
    assert plain == SubAll(w.ct.body, Keystream(S, GadgetKey(S, a), w.ct.nonce, 2));
    assert plain == a.skElems <==> plain[0] == a.skElems[0] && plain[1] == a.skElems[1];
  }

  lemma ContainmentAgrees(S: Sponge, w: Witness)
    requires CorrectlySized(w)
    ensures WellSized(Allocate(w))
    ensures ContainmentConstraints(S, Derive(S, w), Allocate(w))
       <==> w.containment.IsTerminal() && forall i :: 0 <= i < |w.mPost| ==> w.mPost[i] == WIPE_PATTERN
  {
    AllocatedValues(w);
    ComparisonsAgree(w.containment);
  }

  /**
   * The circuit refines the native check: for every correctly sized witness the constraints
   * with the derived public inputs hold exactly when `check_shape` succeeds.
   */
  lemma CircuitMatchesCheck(S: Sponge, w: Witness)
    requires CorrectlySized(w)
    ensures Satisfied(S, Derive(S, w), Allocate(w)) <==> CheckShape(S, w).Ok?
  {
    KeyReleaseAgrees(S, w);
    ContainmentAgrees(S, w);
  }

  // ── Every assignment, not only the honest one ────────────────────────────

  /** What the circuit absorbs for the five commitments, from the variables it was given. */
  function AbsorbedFrom(a: Assignment): (xs: seq<seq<Fr>>)
    ensures |xs| == 5
  {
    [Absorbed(VdfOutput, [Y_BYTES] + a.yLimbs),
     Absorbed(CiphertextDomain, [a.nonce] + a.ctBody + [a.tag]),
     Absorbed(SecretKey, a.skElems),
     Absorbed(MissionId, [32] + a.missionLimbs),
     Absorbed(ContainmentLedger, a.summary)]
  }

  /** What the commitments were made from. */
  function AbsorbedFor(w: Witness): (xs: seq<seq<Fr>>)
    requires |w.y| <= U64_MAX
    ensures |xs| == 5
  {
    [Absorbed(VdfOutput, BytesInput(w.y)),
     Absorbed(CiphertextDomain, ToElements(w.ct)),
     Absorbed(SecretKey, Split32(w.sk)),
     Absorbed(MissionId, BytesInput(w.mission)),
     Absorbed(ContainmentLedger, w.containment.ToElements())]
  }

  /** One of the five commitments has two different openings, given explicitly. */
  predicate SpongeBroken(S: Sponge, w: Witness, a: Assignment)
    requires |w.y| <= U64_MAX
  {
    exists i :: 0 <= i < 5 && SqueezeAlike(S, AbsorbedFrom(a)[i], AbsorbedFor(w)[i], 0)
  }

  /** Every committed variable has the witness's value. */
  predicate Holds(a: Assignment, w: Witness) {
    a.yLimbs == PackBytes(w.y) && a.nonce == w.ct.nonce && a.ctBody == w.ct.body && a.tag == w.ct.tag
    && a.skElems == Split32(w.sk) && a.missionLimbs == PackBytes(w.mission) && a.summary == w.containment.ToElements()
  }

  lemma CommitmentsSqueeze(S: Sponge, w: Witness, a: Assignment)
    requires |w.y| <= U64_MAX && Satisfied(S, Derive(S, w), a)
    ensures forall i :: 0 <= i < 5 ==> S(AbsorbedFrom(a)[i], 0) == S(AbsorbedFor(w)[i], 0)
  {
  }

  lemma LengthAndLimbs(n: Fr, limbs: seq<Fr>, b: bytes)
    requires |b| <= U64_MAX && [n] + limbs == BytesInput(b)
    ensures n == |b| && limbs == PackBytes(b)
  {
    assert ([n] + limbs)[0] == BytesInput(b)[0];
    assert ([n] + limbs)[1..] == limbs && BytesInput(b)[1..] == PackBytes(b);
  }

  lemma CiphertextParts(nonce: Fr, body: seq<Fr>, tag: Fr, ct: Ciphertext)
    requires [nonce] + body + [tag] == ToElements(ct)
    ensures nonce == ct.nonce && body == ct.body && tag == ct.tag
  {
    assert ToElements(Ciphertext(nonce, body, tag)) == [nonce] + body + [tag];
    ElementsInjective(Ciphertext(nonce, body, tag), ct);
  }

  /** Absorbing the same for all five commitments means holding the same values. */
  lemma AbsorbedDetermines(w: Witness, a: Assignment)
    requires |w.y| <= U64_MAX && forall i :: 0 <= i < 5 ==> AbsorbedFrom(a)[i] == AbsorbedFor(w)[i]
    ensures Holds(a, w) && |w.y| == Y_BYTES
  {
    var xs, ys := AbsorbedFrom(a), AbsorbedFor(w);
    assert xs[0] == ys[0] && xs[1] == ys[1] && xs[2] == ys[2] && xs[3] == ys[3] && xs[4] == ys[4];
    AbsorbedInjective(VdfOutput, [Y_BYTES] + a.yLimbs, VdfOutput, BytesInput(w.y));
    LengthAndLimbs(Y_BYTES, a.yLimbs, w.y);
    AbsorbedInjective(CiphertextDomain, [a.nonce] + a.ctBody + [a.tag], CiphertextDomain, ToElements(w.ct));
    CiphertextParts(a.nonce, a.ctBody, a.tag, w.ct);
    AbsorbedInjective(SecretKey, a.skElems, SecretKey, Split32(w.sk));
    AbsorbedInjective(MissionId, [32] + a.missionLimbs, MissionId, BytesInput(w.mission));
    LengthAndLimbs(32, a.missionLimbs, w.mission);
    AbsorbedInjective(ContainmentLedger, a.summary, ContainmentLedger, w.containment.ToElements());
  }

  /** A satisfied circuit over these summary values is over a terminal one. */
  lemma SummaryTerminal(S: Sponge, pi: PublicInputs, a: Assignment, c: Summary)
    requires Satisfied(S, pi, a) && a.summary == c.ToElements()
    ensures c.IsTerminal()
  {
    ComparisonsAgree(c);
  }

  /** The committed ciphertext opens to the committed key under a key derived from the committed output. */
  predicate OpensUnder(S: Sponge, w: Witness, saltLimbs: seq<Fr>)
    requires |w.y| <= U64_MAX
  {
    var key := HashMany(S, KeyDerivation, [Y_BYTES] + PackBytes(w.y) + [SALT_BYTES] + saltLimbs, 2);
    Decrypt(S, key, w.ct) == Ok(Split32(w.sk))
  }

  lemma HeldKeyOpens(S: Sponge, w: Witness, a: Assignment)
    requires |w.y| <= U64_MAX && Satisfied(S, Derive(S, w), a) && Holds(a, w)
    ensures OpensUnder(S, w, a.saltLimbs)
  {
    var key := GadgetKey(S, a);
    var plain := Recovered(S, a);
    assert plain == SubAll(w.ct.body, Keystream(S, key, w.ct.nonce, |w.ct.body|));
    assert plain == a.skElems;
  }

  /**
   * What a satisfied circuit says about whoever satisfied it: for every assignment, however
   * chosen, that satisfies the circuit under the commitments to a witness, the variables are
   * that witness's delay output, ciphertext, key, mission and summary, the ciphertext opens to
   * that key under a key derived from that output, and the summary is terminal; or two
   * different absorbed sequences squeeze alike.
   */
  lemma AnyAssignmentHolds(S: Sponge, w: Witness, a: Assignment)
    requires |w.y| <= U64_MAX && Satisfied(S, Derive(S, w), a)
    ensures (Holds(a, w) && |w.y| == Y_BYTES && OpensUnder(S, w, a.saltLimbs) && w.containment.IsTerminal())
         || SpongeBroken(S, w, a)
  {
    CommitmentsSqueeze(S, w, a);
    if !SpongeBroken(S, w, a) {
      forall i | 0 <= i < 5 ensures AbsorbedFrom(a)[i] == AbsorbedFor(w)[i] {
        assert !SqueezeAlike(S, AbsorbedFrom(a)[i], AbsorbedFor(w)[i], 0);
      }
      AbsorbedDetermines(w, a);
      HeldKeyOpens(S, w, a);
      SummaryTerminal(S, Derive(S, w), a, w.containment);
    }
  }

  // ── From provisioning to attestation ─────────────────────────────────────

  /** The agent's witness: what it opened, the wipe pattern and the ledger's summary. */
  function MissionWitness(salt: bytes, o: Opened, mission: Digest, l: LedgerValue): Witness {
    Witness(o.yBytes, salt, o.ct, o.sk, seq(SK_BYTES, _ => WIPE_PATTERN), mission, FromLedger(l))
  }

  /** `to_public_inputs`: the published commitments and the run's own. */
  function MissionInputs(a: Artifact, containmentCommit: Fr): Option<PublicInputs> {
    var c := Commitments(a);
    if c.None? then None
    else Some(PublicInputs(c.value[0], c.value[1], c.value[2], c.value[3], containmentCommit))
  }

  /** A witness whose ciphertext opens to its key, taken from a terminal ledger, passes. */
  lemma WitnessPasses(S: Sponge, y: bytes, salt: bytes, ct: Ciphertext, sk: Digest, mission: Digest, l: LedgerValue)
    requires |y| == Y_BYTES && |salt| == SALT_BYTES && |ct.body| == CT_BODY_ELEMS && FromLedger(l).IsTerminal()
    requires Decrypt(S, DeriveKey(S, y, salt), ct) == Ok(Split32(sk))
    ensures var w := MissionWitness(salt, Opened(y, ct, sk), mission, l);
            CheckShape(S, w).Ok? && Satisfied(S, Derive(S, w), Allocate(w))
  {
    CircuitMatchesCheck(S, MissionWitness(salt, Opened(y, ct, sk), mission, l));
  }

  /** The published commitments are the ones the circuit derives from the witness. */
  lemma InputsDerived(H: Hash, S: Sponge, n: nat, t: u64, v: nat, salt: bytes, sk: Digest, nonce: Fr,
                      terms: Terms, l: LedgerValue)
    requires |salt| == SALT_BYTES && |ToBytesBe(v)| <= Y_BYTES
    ensures var o := Intended(S, v, salt, sk, nonce);
            var r := Sealed(H, S, n, t, v, salt, sk, nonce, terms);
            r.Ok? && |o.ct.body| == CT_BODY_ELEMS && r.value.missionId == terms.missionId
            && Decrypt(S, DeriveKey(S, o.yBytes, salt), o.ct) == Ok(Split32(sk))
            && MissionInputs(r.value, Commitment(S, FromLedger(l)))
               == Some(Derive(S, MissionWitness(salt, o, H(terms.missionId), l)))
  {
    SealedShape(H, S, n, t, v, salt, sk, nonce, terms);
  }

  /** The attestation step succeeds: inputs assemble, the check passes, the circuit is satisfied. */
  predicate ProvesRun(H: Hash, S: Sponge, a: Artifact, o: Opened, l: LedgerValue) {
    var w := MissionWitness(a.salt, o, H(a.missionId), l);
    var pi := MissionInputs(a, Commitment(S, FromLedger(l)));
    CheckShape(S, w).Ok? && pi.Some? && Satisfied(S, pi.value, Allocate(w))
  }

  /** The opening a sealed artifact is meant to have proves any terminal ledger. */
  lemma IntendedProves(H: Hash, S: Sponge, n: nat, t: u64, v: nat, salt: bytes, sk: Digest, nonce: Fr,
                       terms: Terms, l: LedgerValue)
    requires |salt| == SALT_BYTES && |ToBytesBe(v)| <= Y_BYTES && FromLedger(l).IsTerminal()
    ensures var r := Sealed(H, S, n, t, v, salt, sk, nonce, terms);
            r.Ok? && r.value.salt == salt && ProvesRun(H, S, r.value, Intended(S, v, salt, sk, nonce), l)
  {
    InputsDerived(H, S, n, t, v, salt, sk, nonce, terms, l);
    var o := Intended(S, v, salt, sk, nonce);
    WitnessPasses(S, o.yBytes, salt, o.ct, sk, H(terms.missionId), l);
  }

  /**
   * End to end. For all distinct odd primes, every number of squarings, 32-byte salt, key,
   * nonce and terms: if their product is a valid modulus, sealing through the shortcut
   * succeeds, the agent's monitor starts from the operator's terms, and in every run of it in
   * which erasure was submitted the witness built from the one opening there is satisfies the
   * circuit under the published commitments; if it is not valid, nothing is ever opened.
   */
  lemma HonestMissionProves(H: Hash, S: Sponge, p: nat, q: nat, t: u64, salt: bytes, sk: Digest, nonce: Fr,
                            terms: Terms, ops: seq<Op>)
    requires Prime(p) && Prime(q) && p != q && p > 2 && q > 2 && |salt| == SALT_BYTES && ErasedIn(ops)
    ensures p * q > 4
    ensures var r := Provisioned(H, S, Generated(p, q), t, salt, sk, nonce, terms);
            var o := Intended(S, Evaluation(H, 2, t, p * q).value.y, salt, sk, nonce);
            Agrees(H, S, p * q, r, o)
            && (ValidModulus(p * q) ==> MonitorParams(r.value).Some?
                                        && ProvesRun(H, S, r.value, o, Run(H, MonitorParams(r.value).value, ops)))
  {
    ProvisionerAgentAgree(H, S, p, q, t, salt, sk, nonce, terms);
    if ValidModulus(p * q) {
      GeneratedIsSealed(H, S, p, q, t, salt, sk, nonce, terms);
      OutputFits(H, t, p * q);
      ProvisionedMonitor(H, S, Generated(p, q), t, salt, sk, nonce, terms);
      var r := Provisioned(H, S, Generated(p, q), t, salt, sk, nonce, terms);
      var params := MonitorParams(r.value).value;
      ProvableIffErased(H, params, ops);
      IntendedProves(H, S, p * q, t, Evaluation(H, 2, t, p * q).value.y, salt, sk, nonce, terms, Run(H, params, ops));
    }
  }

  /**
   * Under the commitments of a sealed artifact and of any ledger at all, whoever satisfies the
   * circuit holds the operator's key, and the ledger is erased with its bounds kept, or the
   * sponge is broken on explicit sequences.
   */
  lemma ProofMeansKeyAndErasure(H: Hash, S: Sponge, n: nat, t: u64, v: nat, salt: bytes, sk: Digest, nonce: Fr,
                                terms: Terms, l: LedgerValue, a: Assignment)
    requires |salt| == SALT_BYTES && |ToBytesBe(v)| <= Y_BYTES
    requires var r := Sealed(H, S, n, t, v, salt, sk, nonce, terms);
             r.Ok? && MissionInputs(r.value, Commitment(S, FromLedger(l))).Some?
             && Satisfied(S, MissionInputs(r.value, Commitment(S, FromLedger(l))).value, a)
    ensures (a.skElems == Split32(sk) && FromLedger(l).IsTerminal())
         || SpongeBroken(S, MissionWitness(salt, Intended(S, v, salt, sk, nonce), H(terms.missionId), l), a)
  {
    InputsDerived(H, S, n, t, v, salt, sk, nonce, terms, l);
    AnyAssignmentHolds(S, MissionWitness(salt, Intended(S, v, salt, sk, nonce), H(terms.missionId), l), a);
  }
}
