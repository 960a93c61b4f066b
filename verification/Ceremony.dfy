/**
 * Phase 1 of the powers-of-tau ceremony: `crates/chronos-snark/src/ceremony.rs`. A group element
 * is represented by its discrete logarithm, so scalar multiplication and pairing are
 * multiplication in the scalar field; the two hashes are parameters.
 */
module Ceremony {
  import opened Words
  import opened NumberTheory
  import opened Poseidon

  /** The accumulator: powers in both groups and the number of contributions so far. */
  datatype Phase1 = Phase1(g1: seq<Fr>, g2: seq<Fr>, index: u32)

  datatype Proof = Proof(commit: Fr, response: Fr)

  datatype Contribution = Contribution(contributor: string, parent: Digest, parameters: Phase1, proof: Proof)

  datatype CeremonyError =
    | TooFewPowers | MismatchedSizes | WrongParent | ProofFailed | PairingFailed
    | AlreadyInitialized | NotInitialized | IndexPanic

  type ChallengeHash = Phase1 -> Digest

  type ProofChallenge = (Fr, Phase1) -> Fr

  function FieldMul(a: Fr, b: Fr): (c: Fr) {
    ProductInField(a, b);
    (a * b) % R
  }

  lemma ProductInField(a: int, b: int)
    ensures 0 <= (a * b) % R < R
  {
  }

  function FieldPow(b: Fr, e: nat): (c: Fr) {
    ProductInField(Pow(b, e), 1);
    Pow(b, e) % R
  }

  /** `Phase1Parameters::init`: the accumulator for the exponent 1. */
  function Init(n: nat): Phase1 {
    Phase1(Ones(n), Ones(n), 0)
  }

  function Ones(n: nat): (o: seq<Fr>)
    ensures |o| == n && forall i :: 0 <= i < n ==> o[i] == 1
  {
    var one: nat -> Fr := _ => 1;
    seq<Fr>(n, one)
  }

  /** Element `i` multiplied by `tau^i`. */
  function Scaled(powers: seq<Fr>, tau: Fr): (s: seq<Fr>)
    ensures |s| == |powers|
    ensures forall i :: 0 <= i < |powers| ==> s[i] == FieldMul(powers[i], FieldPow(tau, i))
  {
    var at: nat -> Fr := (i: nat) => if i < |powers| then FieldMul(powers[i], FieldPow(tau, i)) else 0;
    seq<Fr>(|powers|, at)
  }

  lemma PowModStep(tau: Fr, i: nat)
    ensures FieldPow(tau, i + 1) == FieldMul(FieldPow(tau, i), tau)
  {
    assert Pow(tau, i + 1) == tau * Pow(tau, i);
    ModMulLeft(Pow(tau, i), tau, R);
    assert tau * Pow(tau, i) == Pow(tau, i) * tau;
  }

  /** The loop of `contribute`, with its running power of the secret. */
  method ScalePowers(powers: seq<Fr>, tau: Fr) returns (out: seq<Fr>)
    ensures out == Scaled(powers, tau)
  {
    out := [];
    var tauAcc: Fr := 1;
    for i := 0 to |powers|
      invariant tauAcc == FieldPow(tau, i)
      invariant |out| == i && forall j :: 0 <= j < i ==> out[j] == Scaled(powers, tau)[j]
    {
      out := out + [FieldMul(powers[i], tauAcc)];
      PowModStep(tau, i);
      tauAcc := FieldMul(tauAcc, tau);
    }
  }

  /** `contribution_index + 1` on a `u32`. */
  function NextIndex(i: u32): u32 {
    if i == 0xFFFF_FFFF then 0 else i + 1
  }

  /** A contribution that proves knowledge of `tau` over whatever parameters it carries. */
  function Carrying(hash: ChallengeHash, pc: ProofChallenge, challenge: Phase1, p: Phase1, who: string, tau: Fr, r: Fr)
    : Contribution
    requires |challenge.g1| >= 2
  {
    var commit := FieldMul(challenge.g1[1], r);
    Contribution(who, hash(challenge), p, Proof(commit, FieldAdd(r, FieldMul(pc(commit, p), tau))))
  }

  /** The honest contribution for the secret `tau` and proof randomness `r`. */
  function Honest(hash: ChallengeHash, pc: ProofChallenge, challenge: Phase1, who: string, tau: Fr, r: Fr)
    : Contribution
    requires |challenge.g1| >= 2
  {
    var p := Phase1(Scaled(challenge.g1, tau), Scaled(challenge.g2, tau), NextIndex(challenge.index));
    Carrying(hash, pc, challenge, p, who, tau, r)
  }

  /** `contribute`, the two random scalars given as arguments. */
  method Contribute(hash: ChallengeHash, pc: ProofChallenge, challenge: Phase1, who: string, tau: Fr, r: Fr)
    returns (c: Result<Contribution, CeremonyError>)
    ensures |challenge.g1| < 2 || |challenge.g2| < 2 ==> c == Err(TooFewPowers)
    ensures |challenge.g1| >= 2 && |challenge.g2| >= 2 && |challenge.g1| != |challenge.g2| ==>
              c == Err(MismatchedSizes)
    ensures |challenge.g1| >= 2 && |challenge.g1| == |challenge.g2| ==>
              c == Ok(Honest(hash, pc, challenge, who, tau, r))
  {
    if |challenge.g1| < 2 || |challenge.g2| < 2 { return Err(TooFewPowers); }
    if |challenge.g1| != |challenge.g2| { return Err(MismatchedSizes); }
    var newG1 := ScalePowers(challenge.g1, tau);
    var newG2 := ScalePowers(challenge.g2, tau);
    var p := Phase1(newG1, newG2, NextIndex(challenge.index));
    var commit := FieldMul(challenge.g1[1], r);
    var response := FieldAdd(r, FieldMul(pc(commit, p), tau));
    return Ok(Contribution(who, hash(challenge), p, Proof(commit, response)));
  }

  /**
   * `verify`: parent hash, proof of knowledge at power 1, one pairing equation at power 1. Both
   * accumulators are indexed without a check; `IndexPanic` is where the process ends.
   */
  function Verify(hash: ChallengeHash, pc: ProofChallenge, previous: Phase1, c: Contribution)
    : Result<(), CeremonyError>
  {
    if c.parent != hash(previous) then Err(WrongParent)
    else if |previous.g1| < 2 || |c.parameters.g1| < 2 then Err(IndexPanic)
    else
      var ch := pc(c.proof.commit, c.parameters);
      if FieldMul(previous.g1[1], c.proof.response)
         != FieldAdd(c.proof.commit, FieldMul(c.parameters.g1[1], ch)) then Err(ProofFailed)
      else if |c.parameters.g2| < 2 then Err(TooFewPowers)
      else if |previous.g2| < 1 then Err(IndexPanic)
      else if FieldMul(previous.g1[0], c.parameters.g2[1]) != FieldMul(c.parameters.g1[1], previous.g2[0])
      then Err(PairingFailed)
      else Ok(())
  }

  // ── Honest contributions ─────────────────────────────────────────────────

  /** Both groups hold the powers of one exponent. */
  ghost predicate PowersOf(p: Phase1, s: nat) {
    |p.g1| == |p.g2| && forall i :: 0 <= i < |p.g1| ==> p.g1[i] == p.g2[i] == Pow(s, i) % R
  }

  lemma InitPowers(n: nat)
    ensures PowersOf(Init(n), 1)
  {
    forall i | 0 <= i < n ensures Pow(1, i) % R == 1 {
      PowOne(i);
    }
  }

  /** Scaling the powers of `s` by `tau` gives the powers of `s tau`. */
  lemma ScaledPowers(powers: seq<Fr>, s: nat, tau: Fr, i: nat)
    requires i < |powers| && powers[i] == Pow(s, i) % R
    ensures s * tau >= 0 && Scaled(powers, tau)[i] == Pow(s * tau, i) % R
  {
    PowDistributes(s, tau, i);
    ModMul(Pow(s, i), Pow(tau, i), R);
  }

  lemma FieldAddMod(a: Fr, b: Fr)
    ensures FieldAdd(a, b) == (a + b) % R
  {
    if a + b < R { ModUnique(a + b, R, 0, a + b); } else { ModUnique(a + b, R, 1, a + b - R); }
  }

  lemma SchnorrLeft(g: int, r: int, ch: int, tau: int, m: int)
    requires m > 0
    ensures (g * ((r + (ch * tau) % m) % m)) % m == ((r + ch * tau) * g) % m
  {
    var x := ch * tau;
    assert r + x == (r + x % m) + (x / m) * m;
    ModShift(r + x % m, x / m, m);
    ModMulLeft(r + x, g, m);
    assert g * ((r + x) % m) == ((r + x) % m) * g;
  }

  lemma SchnorrRight(g: int, r: int, ch: int, tau: int, m: int)
    requires m > 0
    ensures ((g * r) % m + (((g * tau) % m) * ch) % m) % m == (g * r + g * tau * ch) % m
  {
    ModMulLeft(g * tau, ch, m);
    ModAdd(g * r, g * tau * ch, m);
  }

  /** The Schnorr equation modulo `m`. */
  lemma SchnorrMod(g: int, r: int, ch: int, tau: int, m: int)
    requires m > 0
    ensures (g * ((r + (ch * tau) % m) % m)) % m == ((g * r) % m + (((g * tau) % m) * ch) % m) % m
  {
    SchnorrLeft(g, r, ch, tau, m);
    SchnorrRight(g, r, ch, tau, m);
    SchnorrProduct(g, r, ch, tau);
  }

  lemma SchnorrNamed(g: int, r: int, ch: int, tau: int, m: int,
                     x: int, s: int, y: int, z: int, w: int)
    requires m > 0 && x == (ch * tau) % m && s == (r + x) % m
    requires y == (g * r) % m && z == (g * tau) % m && w == (z * ch) % m
    ensures (g * s) % m == (y + w) % m
  {
    SchnorrMod(g, r, ch, tau, m);
  }

  /** The same over the field. */
  lemma SchnorrHolds(g: Fr, r: Fr, ch: Fr, tau: Fr)
    ensures FieldMul(g, FieldAdd(r, FieldMul(ch, tau)))
         == FieldAdd(FieldMul(g, r), FieldMul(FieldMul(g, tau), ch))
  {
    var x, y, z := FieldMul(ch, tau), FieldMul(g, r), FieldMul(g, tau);
    var s, w := FieldAdd(r, x), FieldMul(z, ch);
    FieldAddMod(r, x);
    FieldAddMod(y, w);
    SchnorrNamed(g, r, ch, tau, R, x, s, y, z, w);
  }

  lemma SmallMod(r: Fr)
    ensures r % R == r
  {
    ModUnique(r, R, 0, r);
  }

  lemma SchnorrProduct(g: int, r: int, ch: int, tau: int)
    ensures (r + ch * tau) * g == g * r + g * tau * ch
  {
    assert (ch * tau) * g == g * tau * ch by {
      assert (ch * tau) * g == ch * (tau * g);
      assert tau * g == g * tau;
      assert ch * (g * tau) == (g * tau) * ch;
    }
  }

  lemma FieldMulCommutes(a: Fr, b: Fr)
    ensures FieldMul(a, b) == FieldMul(b, a)
  {
    assert a * b == b * a;
  }

  /** Acceptance constrains nothing but power 1: any parameters with the right ones are accepted. */
  lemma OnlyPowerOneChecked(hash: ChallengeHash, pc: ProofChallenge, challenge: Phase1, p: Phase1, who: string,
                            tau: Fr, r: Fr)
    requires |challenge.g1| >= 2 && |challenge.g2| >= 1 && challenge.g1[0] == challenge.g2[0]
    requires |p.g1| >= 2 && |p.g2| >= 2
    requires p.g1[1] == FieldMul(challenge.g1[1], tau) && p.g2[1] == p.g1[1]
    ensures Verify(hash, pc, challenge, Carrying(hash, pc, challenge, p, who, tau, r)) == Ok(())
  {
    var c := Carrying(hash, pc, challenge, p, who, tau, r);
    SchnorrHolds(challenge.g1[1], r, pc(c.proof.commit, p), tau);
    FieldMulCommutes(challenge.g1[0], p.g1[1]);
  }

  /** An honest contribution to an honest accumulator is accepted and multiplies the exponent. */
  lemma HonestAccepted(hash: ChallengeHash, pc: ProofChallenge, challenge: Phase1, who: string,
                       s: nat, tau: Fr, r: Fr)
    requires |challenge.g1| >= 2 && PowersOf(challenge, s)
    ensures var c := Honest(hash, pc, challenge, who, tau, r);
            |c.parameters.g1| >= 2 && Verify(hash, pc, challenge, c) == Ok(())
            && s * tau >= 0 && PowersOf(c.parameters, s * tau)
            && |c.parameters.g1| == |challenge.g1| && c.parameters.index == NextIndex(challenge.index)
  {
    var c := Honest(hash, pc, challenge, who, tau, r);
    var p := c.parameters;
    forall i | 0 <= i < |p.g1| ensures s * tau >= 0 && p.g1[i] == p.g2[i] == Pow(s * tau, i) % R {
      ScaledPowers(challenge.g1, s, tau, i);
      ScaledPowers(challenge.g2, s, tau, i);
    }
    assert Pow(tau, 1) == tau * Pow(tau, 0) == tau;
    SmallMod(tau);
    assert p.g1[1] == FieldMul(challenge.g1[1], tau);
    assert challenge.g1[0] == challenge.g2[0] && p.g1[1] == p.g2[1];
    OnlyPowerOneChecked(hash, pc, challenge, p, who, tau, r);
  }

  // ── What acceptance does not check ───────────────────────────────────────

  /** The pairings the comment on `verify` promises: each power in the first group follows its neighbour. */
  predicate DocumentedPairings(p: Phase1)
    requires |p.g2| >= 2
  {
    forall i :: 0 <= i < |p.g1| - 1 ==> PairingAt(p, i)
  }

  predicate PairingAt(p: Phase1, i: nat)
    requires |p.g2| >= 2 && i + 1 < |p.g1|
  {
    FieldMul(p.g1[i], p.g2[1]) == FieldMul(p.g1[i + 1], p.g2[0])
  }

  /**
   * What acceptance over an honest accumulator of the powers of `x` means, in logarithms: the
   * right parent, a response that answers the challenge for the new power 1, and one element
   * at power 1 in both groups; and nothing else.
   */
  lemma AcceptedExactly(hash: ChallengeHash, pc: ProofChallenge, challenge: Phase1, x: nat, c: Contribution)
    requires |challenge.g1| >= 2 && PowersOf(challenge, x) && |c.parameters.g1| >= 2 && |c.parameters.g2| >= 2
    ensures var h := c.parameters.g1[1];
            var ch := pc(c.proof.commit, c.parameters);
            Verify(hash, pc, challenge, c) == Ok(())
            <==> c.parent == hash(challenge) && c.parameters.g2[1] == h
                 && (x * c.proof.response) % R == (c.proof.commit + h * ch) % R
  {
    var h := c.parameters.g1[1];
    var ch := pc(c.proof.commit, c.parameters);
    assert Pow(x, 0) == 1 && Pow(x, 1) == x * Pow(x, 0) == x;
    ModUnique(1, R, 0, 1);
    assert challenge.g1[1] == x % R && challenge.g1[0] == 1 == challenge.g2[0];
    UnitMul(h);
    UnitMul(c.parameters.g2[1]);
    AnswerExactly(x, challenge.g1[1], c.proof.response, c.proof.commit, h, ch);
  }

  /** The proof's equation over the field is the one over the integers, up to multiples of the order. */
  lemma AnswerExactly(x: int, g: Fr, z: Fr, commit: Fr, h: Fr, ch: Fr)
    requires g == x % R
    ensures FieldMul(g, z) == FieldAdd(commit, FieldMul(h, ch)) <==> (x * z) % R == (commit + h * ch) % R
  {
    var w := FieldMul(h, ch);
    FieldAddMod(commit, w);
    AnswerNamed(x, g, z, commit, h, ch, R, FieldMul(g, z), w, FieldAdd(commit, w));
  }

  lemma AnswerNamed(x: int, g: int, z: int, commit: int, h: int, ch: int, m: int, left: int, w: int, right: int)
    requires m > 0 && g == x % m && left == (g * z) % m && w == (h * ch) % m && right == (commit + w) % m
    ensures left == (x * z) % m && right == (commit + h * ch) % m
  {
    ModMulLeft(x, z, m);
    ReducedSummand(commit, h * ch, m);
  }

  lemma ReducedSummand(a: int, b: int, m: int)
    requires m > 0
    ensures (a + b % m) % m == (a + b) % m
  {
    assert a + b == (a + b % m) + (b / m) * m;
    ModShift(a + b % m, b / m, m);
  }

  /** A contribution made over another accumulator, by its hash, is refused whatever it carries. */
  lemma WrongParentRefused(hash: ChallengeHash, pc: ProofChallenge, challenge: Phase1, c: Contribution)
    requires c.parent != hash(challenge)
    ensures Verify(hash, pc, challenge, c) == Err(WrongParent)
  {
  }

  /** Two accepted answers to different challenges give the secret away, so who answers knows it. */
  lemma AnswersGiveSecret(x: int, commit: int, h: int, z: int, ch: int, z': int, ch': int)
    requires (x * z) % R == (commit + h * ch) % R && (x * z') % R == (commit + h * ch') % R
    ensures (x * (z - z')) % R == (h * (ch - ch')) % R
  {
    Differences(x, z, z');
    Differences(h, ch, ch');
    ModDifference(x * z, x * z', commit + h * ch, commit + h * ch', R);
  }

  lemma Differences(a: int, b: int, c: int)
    ensures a * (b - c) == a * b - a * c
  {
  }

  lemma ModDifference(a: int, b: int, c: int, d: int, m: int)
    requires m > 0 && a % m == c % m && b % m == d % m
    ensures (a - b) % m == (c - d) % m
  {
    ModEqualDiff(a, c, m);
    ModEqualDiff(b, d, m);
    ModEqualDiff(a - b, c - d, m);
    ModAdd(a - c, d - b, m);
    NegatedMultiple(b - d, m);
    ModUnique(0, m, 0, 0);
    assert (a - b) - (c - d) == (a - c) + (d - b);
  }

  lemma NegatedMultiple(a: int, m: int)
    requires m > 0 && a % m == 0
    ensures (-a) % m == 0
  {
    assert -a == (-(a / m)) * m;
    ModUnique(-a, m, -(a / m), 0);
  }

  lemma UnitMul(a: Fr)
    ensures FieldMul(1, a) == a && FieldMul(a, 1) == a
  {
    SmallMod(a);
  }

  /** Three powers, of which the last is not the square of the second, accepted from the start. */
  lemma WrongPowerAccepted(hash: ChallengeHash, pc: ProofChallenge)
    ensures var p := Phase1([1, 2, 5], [1, 2, 4], 1);
            Verify(hash, pc, Init(3), Carrying(hash, pc, Init(3), p, "", 2, 0)) == Ok(())
            && PairingAt(p, 0) && !PairingAt(p, 1)
  {
    UnitMul(2);
    UnitMul(5);
    OnlyPowerOneChecked(hash, pc, Init(3), Phase1([1, 2, 5], [1, 2, 4], 1), "", 2, 0);
  }

  /** An accumulator with the generators at power 0 in both groups. */
  predicate Based(p: Phase1) {
    |p.g1| >= 2 && |p.g2| >= 2 && p.g1[0] == 1 && p.g2[0] == 1
  }

  /** Acceptance over such an accumulator does force the two groups to agree at power 1. */
  lemma AcceptedAgree(hash: ChallengeHash, pc: ProofChallenge, challenge: Phase1, c: Contribution)
    requires Based(challenge) && Verify(hash, pc, challenge, c) == Ok(())
    ensures |c.parameters.g1| >= 2 && |c.parameters.g2| >= 2 && c.parameters.g2[1] == c.parameters.g1[1]
  {
    UnitMul(c.parameters.g2[1]);
    UnitMul(c.parameters.g1[1]);
  }

  /** The first elements of the first group are the powers of element 1. */
  ghost predicate PowersUpTo(p: Phase1, n: nat)
    requires 2 <= |p.g1| && n < |p.g1|
  {
    forall i :: 0 <= i <= n ==> p.g1[i] == FieldPow(p.g1[1], i)
  }

  ghost predicate PairingsUpTo(p: Phase1, n: nat)
    requires |p.g2| >= 2 && n < |p.g1|
  {
    forall i :: 0 <= i < n ==> PairingAt(p, i)
  }

  /** For an accepted contribution the documented pairings say that the first group holds powers. */
  lemma {:induction false} PairingsMeanPowers(p: Phase1, n: nat)
    requires Based(p) && p.g2[1] == p.g1[1] && n < |p.g1|
    ensures PairingsUpTo(p, n) <==> PowersUpTo(p, n)
  {
    var x := p.g1[1];
    SmallMod(1);
    assert FieldPow(x, 0) == 1;
    if n > 0 {
      PairingsMeanPowers(p, n - 1);
      PowModStep(x, n - 1);
      UnitMul(p.g1[n]);
      assert PairingsUpTo(p, n) <==> PairingsUpTo(p, n - 1) && PairingAt(p, n - 1);
      assert PowersUpTo(p, n) <==> PowersUpTo(p, n - 1) && p.g1[n] == FieldPow(x, n);
      assert PowersUpTo(p, n - 1) ==> p.g1[n - 1] == FieldPow(x, n - 1);
    }
  }

  /** So an accepted contribution meets the documented pairings exactly when it carries powers. */
  lemma AcceptedPairingsExact(hash: ChallengeHash, pc: ProofChallenge, challenge: Phase1, c: Contribution)
    requires Based(challenge) && Based(c.parameters) && Verify(hash, pc, challenge, c) == Ok(())
    ensures DocumentedPairings(c.parameters) <==> PowersUpTo(c.parameters, |c.parameters.g1| - 1)
  {
    AcceptedAgree(hash, pc, challenge, c);
    PairingsMeanPowers(c.parameters, |c.parameters.g1| - 1);
    assert DocumentedPairings(c.parameters) <==> PairingsUpTo(c.parameters, |c.parameters.g1| - 1);
  }

  /** The same parameters but for the last power of the first group. */
  function WithLast(challenge: Phase1, last: Fr): Phase1
    requires |challenge.g1| >= 3
  {
    challenge.(g1 := challenge.g1[..|challenge.g1| - 1] + [last])
  }

  lemma SomeWrongPower(hash: ChallengeHash, pc: ProofChallenge, challenge: Phase1) returns (c: Contribution)
    requires Based(challenge) && challenge.g2[1] == challenge.g1[1] && |challenge.g1| >= 3
    ensures SameShape(challenge, c.parameters) && Verify(hash, pc, challenge, c) == Ok(())
    ensures !DocumentedPairings(c.parameters)
  {
    var n := |challenge.g1|;
    var right := FieldMul(challenge.g1[n - 2], challenge.g2[1]);
    var p := WithLast(challenge, if right == 0 then 1 else 0);
    UnitMul(challenge.g1[1]);
    UnitMul(p.g1[n - 1]);
    OnlyPowerOneChecked(hash, pc, challenge, p, "", 1, 0);
    c := Carrying(hash, pc, challenge, p, "", 1, 0);
    assert !PairingAt(p, n - 2);
  }

  /** The contribution keeps the number of powers and the generators. */
  predicate SameShape(challenge: Phase1, p: Phase1) {
    Based(p) && |p.g1| == |challenge.g1| && |p.g2| == |challenge.g2|
  }

  /** Every accepted contribution of the accumulator's shape satisfies the documented pairings. */
  ghost predicate PairingsEnforced(hash: ChallengeHash, pc: ProofChallenge, challenge: Phase1)
    requires Based(challenge)
  {
    forall c: Contribution ::
      SameShape(challenge, c.parameters) && Verify(hash, pc, challenge, c) == Ok(())
      ==> DocumentedPairings(c.parameters)
  }

  /** Exactly when `verify` checks what its comment says: when there is no power beyond 1. */
  lemma PairingsEnforcedExactly(hash: ChallengeHash, pc: ProofChallenge, challenge: Phase1)
    requires Based(challenge) && challenge.g2[1] == challenge.g1[1]
    ensures PairingsEnforced(hash, pc, challenge) <==> |challenge.g1| == 2
  {
    if |challenge.g1| == 2 {
      forall c: Contribution | SameShape(challenge, c.parameters) && Verify(hash, pc, challenge, c) == Ok(())
        ensures DocumentedPairings(c.parameters)
      {
        AcceptedAgree(hash, pc, challenge, c);
        UnitMul(c.parameters.g1[1]);
        assert PairingAt(c.parameters, 0);
      }
    } else {
      var c := SomeWrongPower(hash, pc, challenge);
    }
  }

  /** Nor are the generators checked: with element 0 replaced even two powers can fail the pairing. */
  lemma BaseNotChecked(hash: ChallengeHash, pc: ProofChallenge)
    ensures var p := Phase1([0, 2], [1, 2], 1);
            Verify(hash, pc, Init(2), Carrying(hash, pc, Init(2), p, "", 2, 0)) == Ok(()) && !PairingAt(p, 0)
  {
    UnitMul(2);
    OnlyPowerOneChecked(hash, pc, Init(2), Phase1([0, 2], [1, 2], 1), "", 2, 0);
    SmallMod(0);
    assert FieldMul(0, 2) == 0;
  }

  // ── The coordinator ──────────────────────────────────────────────────────

  class CeremonyCoordinator {
    const numPowers: nat
    var phase1: Option<Phase1>
    /** The transcript: the hash of the first challenge and the contributors in order. */
    var initHash: Option<Digest>
    var contributors: seq<string>

    constructor (numPowers: nat)
      ensures this.numPowers == numPowers && phase1 == None && initHash == None && contributors == []
    {
      this.numPowers := numPowers;
      phase1 := None;
      initHash := None;
      contributors := [];
    }

    method InitializePhase1(hash: ChallengeHash) returns (r: Result<(), CeremonyError>)
      modifies this
      ensures old(phase1).Some? ==> r == Err(AlreadyInitialized) && phase1 == old(phase1) && initHash == old(initHash)
      ensures old(phase1).None? ==>
                r == Ok(()) && phase1 == Some(Init(numPowers)) && initHash == Some(hash(Init(numPowers)))
      ensures contributors == old(contributors)
    {
      if phase1.Some? { return Err(AlreadyInitialized); }
      initHash := Some(hash(Init(numPowers)));
      phase1 := Some(Init(numPowers));
      return Ok(());
    }

    /** Verify, then record the contributor and adopt the parameters; a refusal changes nothing. */
    method VerifyAndApplyPhase1(hash: ChallengeHash, pc: ProofChallenge, c: Contribution)
      returns (r: Result<(), CeremonyError>)
      modifies this
      ensures old(phase1).None? ==> r == Err(NotInitialized)
      ensures old(phase1).Some? ==> r == Verify(hash, pc, old(phase1).value, c)
      ensures r.Ok? ==> phase1 == Some(c.parameters) && contributors == old(contributors) + [c.contributor]
      ensures r.Err? ==> phase1 == old(phase1) && contributors == old(contributors)
      ensures initHash == old(initHash)
    {
      if phase1.None? { return Err(NotInitialized); }
      r := Verify(hash, pc, phase1.value, c);
      if r.Ok? {
        contributors := contributors + [c.contributor];
        phase1 := Some(c.parameters);
      }
    }
  }

  /** One participant: a name, a secret and the proof randomness. */
  datatype Participant = Participant(name: string, tau: Fr, r: Fr)

  /** The product of the secrets. */
  function SecretProduct(ps: seq<Participant>): nat {
    if ps == [] then 1
    else
      ProductNonNegative(SecretProduct(ps[..|ps| - 1]), ps[|ps| - 1].tau);
      SecretProduct(ps[..|ps| - 1]) * ps[|ps| - 1].tau
  }

  lemma ProductNonNegative(a: nat, b: nat)
    ensures a * b >= 0
  {
  }

  function Names(ps: seq<Participant>): (n: seq<string>)
    ensures |n| == |ps|
  {
    if ps == [] then [] else Names(ps[..|ps| - 1]) + [ps[|ps| - 1].name]
  }

  lemma ParticipantStep(ps: seq<Participant>, i: nat)
    requires i < |ps|
    ensures SecretProduct(ps[..i + 1]) == SecretProduct(ps[..i]) * ps[i].tau
    ensures Names(ps[..i + 1]) == Names(ps[..i]) + [ps[i].name]
  {
    assert ps[..i + 1][..i] == ps[..i];
  }

  lemma IndexStep(i: nat)
    ensures NextIndex(i % 0x1_0000_0000) == (i + 1) % 0x1_0000_0000
  {
  }

  /**
   * A ceremony of honest participants, in any number: every contribution is accepted, and at
   * the end power `i` of both groups is the product of all secrets to the `i`, with the index
   * and the transcript counting the contributions.
   */
  method HonestCeremony(hash: ChallengeHash, pc: ProofChallenge, numPowers: nat, ps: seq<Participant>)
    returns (final: Phase1, transcript: seq<string>)
    requires numPowers >= 2
    ensures |final.g1| == numPowers && PowersOf(final, SecretProduct(ps))
    ensures final.index == |ps| % 0x1_0000_0000 && transcript == Names(ps)
  {
    var coordinator := new CeremonyCoordinator(numPowers);
    var _ := coordinator.InitializePhase1(hash);
    InitPowers(numPowers);
    for i := 0 to |ps|
      invariant coordinator.phase1.Some? && |coordinator.phase1.value.g1| == numPowers
      invariant PowersOf(coordinator.phase1.value, SecretProduct(ps[..i]))
      invariant coordinator.phase1.value.index == i % 0x1_0000_0000
      invariant coordinator.contributors == Names(ps[..i])
    {
      var challenge := coordinator.phase1.value;
      HonestAccepted(hash, pc, challenge, ps[i].name, SecretProduct(ps[..i]), ps[i].tau, ps[i].r);
      ParticipantStep(ps, i);
      IndexStep(i);
      var c := Contribute(hash, pc, challenge, ps[i].name, ps[i].tau, ps[i].r);
      var accepted := coordinator.VerifyAndApplyPhase1(hash, pc, c.value);
      assert accepted == Ok(());
    }
    assert ps[..|ps|] == ps;
    final := coordinator.phase1.value;
    transcript := coordinator.contributors;
  }
}
