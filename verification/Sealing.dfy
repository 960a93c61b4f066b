/**
 * Sealing and opening a mission: the provisioner's sequence
 * (`crates/chronos-provision/src/main.rs`) and the first half of the agent's mission
 * (`crates/chronos-agent/src/main.rs`), over the same artifact.
 */
module Sealing {
  import opened Words
  import opened NumberTheory
  import opened Modulus
  import opened Wesolowski
  import opened Provision
  import opened Poseidon
  import opened Aead
  import opened Mission
  import Correction
  import Ledger
  import Humility

  const Y_BYTES: nat := 256
  const ARTIFACT_VERSION: u32 := 1

  /** The published artifact, and the files beside it. */
  datatype Artifact = Artifact(
    version: u32, missionId: bytes, t: u64, tSeconds: u64,
    yCommit: string, ctCommit: string, skCommit: string, missionCommit: string,
    opBudget: u64, disclosureBudget: u64, threshold: u64, correctionAnchor: string,
    certificate: CertificateFile, salt: bytes, sealedKey: bytes)

  /** What the operator asks for, with the tokens and amounts of the correction grants. */
  datatype Terms = Terms(
    missionId: bytes, tSeconds: u64, opBudget: u64, disclosureBudget: u64, threshold: u64,
    grants: seq<Correction.Spec>)

  /** The modulus is read from a file or generated from two factors. */
  datatype ModulusSource = FromFile(n: nat) | Generated(p: nat, q: nat)

  datatype SealError = TooNarrow | VdfFailed | TooWide | EncryptFailed | SelfCheckFailed

  /** `IndexPanic` is no error value: the process ends there. */
  datatype OpenError =
    | BadCiphertext | BadModulus(error: ModulusError) | KeysFailed | VdfRefused | SelfVerificationFailed
    | OutputTooWide | OpenFailed | IndexPanic | NotAKey | LockFailed | BadCommitments | CommitmentMismatch

  // ── The provisioner ──────────────────────────────────────────────────────

  /** Steps 4 to 6 of provisioning: the artifact for a given modulus and delay output. */
  function Sealed(H: Hash, S: Sponge, n: nat, t: u64, y: nat, salt: bytes, sk: Digest, nonce: Fr, terms: Terms)
    : (r: Result<Artifact, SealError>)
    requires |salt| <= U64_MAX
  {
    if |ToBytesBe(y)| > Y_BYTES then Err(TooWide)
    else
      var yFixed := FixedBe(y, Y_BYTES);
      var key := DeriveKey(S, yFixed, salt);
      var sealedKey := Encrypt(S, key, nonce, Split32(sk));
      if sealedKey.Err? then Err(EncryptFailed)
      else
        var ct := sealedKey.value;
        if Decrypt(S, key, ct) != Ok(Split32(sk)) then Err(SelfCheckFailed)
        else Ok(Artifact(
                  ARTIFACT_VERSION, terms.missionId, t, terms.tSeconds,
                  FrToHex(HashBytes(S, VdfOutput, yFixed)),
                  FrToHex(HashField(S, CiphertextDomain, ToElements(ct))),
                  FrToHex(HashField(S, SecretKey, Split32(sk))),
                  FrToHex(HashBytes(S, MissionId, H(terms.missionId))),
                  terms.opBudget, terms.disclosureBudget, terms.threshold,
                  DigestToHex(Correction.Anchor(H, terms.grants)),
                  Contents(ToBytesBe(n)), salt, Serialize(ToElements(ct))))
  }

  /** The whole of provisioning: the file branch asks for a minimum width, the other takes the shortcut. */
  ghost function Provisioned(H: Hash, S: Sponge, source: ModulusSource, t: u64, salt: bytes, sk: Digest,
                             nonce: Fr, terms: Terms): Result<Artifact, SealError>
    requires |salt| <= U64_MAX && (source.Generated? ==> source.p >= 2 && source.q >= 2)
  {
    match source
    case FromFile(n) =>
      if Bits(n) < MODULUS_BITS then Err(TooNarrow)
      else if Evaluation(H, 2, t, n).Err? then Err(VdfFailed)
      else Sealed(H, S, n, t, Evaluation(H, 2, t, n).value.y, salt, sk, nonce, terms)
    case Generated(p, q) =>
      ProductPositive(p, q);
      Sealed(H, S, p * q, t, ShortcutVdf(2, t, p * q, (p - 1) * (q - 1)), salt, sk, nonce, terms)
  }

  lemma ProductPositive(p: nat, q: nat)
    requires p >= 2 && q >= 2
    ensures p * q > 0 && (p - 1) * (q - 1) > 0
  {
  }

  /** The provisioner; the grants go to the operator and not into the artifact. */
  method ProvisionMission(H: Hash, S: Sponge, source: ModulusSource, t: u64, salt: bytes, sk: Digest,
                          nonce: Fr, terms: Terms)
    returns (r: Result<Artifact, SealError>, grants: seq<Correction.Grant>)
    requires |salt| <= U64_MAX && (source.Generated? ==> source.p >= 2 && source.q >= 2)
    ensures r == Provisioned(H, S, source, t, salt, sk, nonce, terms)
    ensures r.Ok? ==> grants == Correction.Issued(H, terms.grants)
  {
    grants := [];
    var n, y;
    match source {
      case FromFile(given) =>
        n := given;
        if Bits(n) < MODULUS_BITS { return Err(TooNarrow), []; }
        var out := Evaluate(H, 2, t, n);
        if out.Err? { return Err(VdfFailed), []; }
        y := out.value.y;
      case Generated(p, q) =>
        ProductPositive(p, q);
        n := p * q;
        y := ShortcutVdf(2, t, n, (p - 1) * (q - 1));
    }
    var yFixed := ToFixedBe(y, Y_BYTES);
    if yFixed.None? { return Err(TooWide), []; }
    var key := DeriveKey(S, yFixed.value, salt);
    var sealedKey := Encrypt(S, key, nonce, Split32(sk));
    if sealedKey.Err? { return Err(EncryptFailed), []; }
    var ct := sealedKey.value;
    if Decrypt(S, key, ct) != Ok(Split32(sk)) { return Err(SelfCheckFailed), []; }
    var anchor;
    anchor, grants := Correction.BuildChain(H, terms.grants);
    var ctBytes := ToBytes(ct);
    r := Ok(Artifact(
              ARTIFACT_VERSION, terms.missionId, t, terms.tSeconds,
              FrToHex(HashBytes(S, VdfOutput, yFixed.value)),
              FrToHex(HashField(S, CiphertextDomain, ToElements(ct))),
              FrToHex(HashField(S, SecretKey, Split32(sk))),
              FrToHex(HashBytes(S, MissionId, H(terms.missionId))),
              terms.opBudget, terms.disclosureBudget, terms.threshold, DigestToHex(anchor),
              Contents(ToBytesBe(n)), salt, ctBytes));
  }

  // ── The agent ────────────────────────────────────────────────────────────

  /** `commitments`: the four field elements of a supported artifact. */
  function Commitments(a: Artifact): Option<seq<Fr>> {
    if a.version != ARTIFACT_VERSION then None
    else
      var y, ct, sk, m :=
        FrFromHex(a.yCommit), FrFromHex(a.ctCommit), FrFromHex(a.skCommit), FrFromHex(a.missionCommit);
      if y.Ok? && ct.Ok? && sk.Ok? && m.Ok? then Some([y.value, ct.value, sk.value, m.value]) else None
  }

  /** The parameters of the monitor the agent starts; it refuses to start on a malformed anchor. */
  function MonitorParams(a: Artifact): Option<Ledger.Params> {
    var anchor := DigestFromHex(a.correctionAnchor);
    if anchor.None? then None
    else Some(Ledger.Params(a.opBudget, a.disclosureBudget, a.tSeconds, a.threshold, anchor.value))
  }

  /** Everything the agent holds once the key is open and checked. */
  datatype Opened = Opened(yBytes: bytes, ct: Ciphertext, sk: Digest)

  /** Steps 5 and 6 of the mission: open the key under the delay output and check its commitment. */
  method OpenKey(S: Sponge, a: Artifact, yFixed: bytes, ct: Ciphertext, lockFails: bool)
    returns (r: Result<Digest, OpenError>)
    requires |a.salt| <= U64_MAX && |yFixed| <= U64_MAX
    ensures forall sk: Digest ::
              KeyOpens(S, a, yFixed, ct, sk) ==> r == (if lockFails then Err(LockFailed) else Ok(sk))
    ensures r.Ok? ==> KeyOpens(S, a, yFixed, ct, r.value) && !lockFails
    ensures r.Err? ==> r.error in {OpenFailed, IndexPanic, NotAKey, LockFailed, BadCommitments, CommitmentMismatch}
    ensures r == Err(LockFailed) ==> lockFails
  {
    var plain := Decrypt(S, DeriveKey(S, yFixed, a.salt), ct);
    if plain.Err? { return Err(OpenFailed); }
    if |plain.value| < 2 { return Err(IndexPanic); }
    var sk := Join32(plain.value[..2]);
    if sk.None? { return Err(NotAKey); }
    if lockFails { return Err(LockFailed); }
    var commitments := Commitments(a);
    if commitments.None? { return Err(BadCommitments); }
    if HashField(S, SecretKey, Split32(sk.value)) != commitments.value[2] { return Err(CommitmentMismatch); }
    return Ok(sk.value);
  }

  /** The ciphertext opens to this key and the artifact commits to it. */
  predicate KeyOpens(S: Sponge, a: Artifact, yFixed: bytes, ct: Ciphertext, sk: Digest)
    requires |a.salt| <= U64_MAX && |yFixed| <= U64_MAX
  {
    var plain := Decrypt(S, DeriveKey(S, yFixed, a.salt), ct);
    && plain.Ok? && |plain.value| >= 2 && plain.value[..2] == Split32(sk)
    && Commitments(a).Some?
    && HashField(S, SecretKey, Split32(sk)) == Commitments(a).value[2]
  }

  /**
   * `run_mission_inner` up to the commitment check. The abort flag is a schedule; loading the
   * files is replaced by the artifact. `keysFail` and `lockFails` say that generating the FHE
   * keys and locking the key in memory fail, of which nothing else is modelled.
   */
  method OpenMission(H: Hash, S: Sponge, a: Artifact, raised: nat -> bool, keysFail: bool, lockFails: bool)
    returns (r: Result<Opened, OpenError>)
    requires |a.salt| <= U64_MAX
    ensures r.Ok? ==> IsOpening(H, S, a, r.value) && !keysFail && !lockFails
    ensures forall o :: IsOpening(H, S, a, o) ==>
              r == Ok(o) || r == Err(VdfRefused) || (keysFail && r == Err(KeysFailed)) || (lockFails && r == Err(LockFailed))
    ensures (forall k :: !raised(k)) ==> r != Err(VdfRefused)
    ensures r != Err(SelfVerificationFailed) && r != Err(OutputTooWide)
    ensures r.Err? && r.error.BadModulus? ==> !Loads(a.certificate)
  {
    var ct := FromBytes(a.sealedKey);
    if ct.Err? { return Err(BadCiphertext); }
    var cert := LoadCertificate(a.certificate);
    if cert.Err? { return Err(BadModulus(cert.error)); }
    if keysFail { return Err(KeysFailed); }
    var n := cert.value;
    ValidIsWide(n);
    var out, iters := EvaluateInterruptible(H, 2, a.t, n, raised);
    if out.Err? { return Err(VdfRefused); }
    var y := out.value.y;
    VerifyAcceptsEvaluate(H, 2, a.t, n);
    var ok := Verify(H, 2, y, out.value.proof, a.t, n);
    if !ok { return Err(SelfVerificationFailed); }
    OutputFits(H, a.t, n);
    var yFixed := ToFixedBe(y, Y_BYTES);
    if yFixed.None? { return Err(OutputTooWide); }
    var sk := OpenKey(S, a, yFixed.value, ct.value, lockFails);
    if sk.Err? { return Err(sk.error); }
    return Ok(Opened(yFixed.value, ct.value, sk.value));
  }

  lemma ValidIsWide(n: nat)
    requires ValidModulus(n)
    ensures n > 4 && |ToBytesBe(n)| == Y_BYTES
  {
    BitsAtMost(n, 3);
    assert Pow(2, 3) == 8;
    WidthInBytes(n, MODULUS_BYTES);
  }

  /** Under a valid modulus every delay output fits the fixed width. */
  lemma OutputFits(H: Hash, t: u64, n: nat)
    requires ValidModulus(n)
    ensures var out := Evaluation(H, 2, t, n); out.Ok? && |ToBytesBe(out.value.y)| <= Y_BYTES
  {
    ValidIsWide(n);
    ToBytesBeMonotone(Evaluation(H, 2, t, n).value.y, n);
  }

  /** What a successful opening has established, with no reference to the order of the steps. */
  ghost predicate IsOpening(H: Hash, S: Sponge, a: Artifact, o: Opened)
    requires |a.salt| <= U64_MAX
  {
    var out := Evaluation(H, 2, a.t, Certified(a.certificate));
    && Loads(a.certificate)
    && o.ct.body != [] && a.sealedKey == Serialize(ToElements(o.ct))
    && out.Ok? && o.yBytes == FixedBe(out.value.y, Y_BYTES)
    && KeyOpens(S, a, o.yBytes, o.ct, o.sk)
  }

  // ── What sealing leaves behind ───────────────────────────────────────────

  /** The artifact's commitments decode to the field elements the provisioner hashed. */
  lemma SealedShape(H: Hash, S: Sponge, n: nat, t: u64, y: nat, salt: bytes, sk: Digest, nonce: Fr, terms: Terms)
    requires |salt| <= U64_MAX && |ToBytesBe(y)| <= Y_BYTES
    ensures var yFixed := FixedBe(y, Y_BYTES);
            var ct := Encrypt(S, DeriveKey(S, yFixed, salt), nonce, Split32(sk));
            var r := Sealed(H, S, n, t, y, salt, sk, nonce, terms);
            ct.Ok? && r.Ok? && ct.value.body != [] && r.value.t == t && r.value.salt == salt
            && r.value.missionId == terms.missionId && r.value.certificate == Contents(ToBytesBe(n))
            && r.value.sealedKey == Serialize(ToElements(ct.value))
            && Decrypt(S, DeriveKey(S, yFixed, salt), ct.value) == Ok(Split32(sk))
            && Commitments(r.value) == Some([
                 HashBytes(S, VdfOutput, yFixed), HashField(S, CiphertextDomain, ToElements(ct.value)),
                 HashField(S, SecretKey, Split32(sk)), HashBytes(S, MissionId, H(terms.missionId))])
  {
    var yFixed := FixedBe(y, Y_BYTES);
    var key := DeriveKey(S, yFixed, salt);
    var ct := Encrypt(S, key, nonce, Split32(sk)).value;
    DecryptInvertsEncrypt(S, key, ct, Split32(sk));
    HexRoundTrip(HashBytes(S, VdfOutput, yFixed));
    HexRoundTrip(HashField(S, CiphertextDomain, ToElements(ct)));
    HexRoundTrip(HashField(S, SecretKey, Split32(sk)));
    HexRoundTrip(HashBytes(S, MissionId, H(terms.missionId)));
  }

  /** An artifact opens to at most one result. */
  lemma OpeningUnique(H: Hash, S: Sponge, a: Artifact, o: Opened, o': Opened)
    requires |a.salt| <= U64_MAX && IsOpening(H, S, a, o) && IsOpening(H, S, a, o')
    ensures o == o'
  {
    SerializeInjective(ToElements(o.ct), ToElements(o'.ct));
    ElementsInjective(o.ct, o'.ct);
    Split32Injective(o.sk, o'.sk);
  }

  /** Only a supported version with four well-formed commitments ever opens. */
  lemma MalformedNeverOpens(H: Hash, S: Sponge, a: Artifact)
    requires |a.salt| <= U64_MAX
    requires a.version != 1 || FrFromHex(a.yCommit).Err? || FrFromHex(a.ctCommit).Err?
             || FrFromHex(a.skCommit).Err? || FrFromHex(a.missionCommit).Err?
    ensures NeverOpens(H, S, a)
  {
  }

  /** An artifact that commits to this key opens to no other, whatever ciphertext it carries. */
  lemma OpenedIsCommitted(H: Hash, S: Sponge, a: Artifact, o: Opened, sk: Digest)
    requires |a.salt| <= U64_MAX && IsOpening(H, S, a, o)
    requires FrFromHex(a.skCommit) == Ok(HashField(S, SecretKey, Split32(sk)))
    ensures o.sk == sk
         || SqueezeAlike(S, Absorbed(SecretKey, Split32(o.sk)), Absorbed(SecretKey, Split32(sk)), 0)
  {
    if Absorbed(SecretKey, Split32(o.sk)) == Absorbed(SecretKey, Split32(sk)) {
      AbsorbedInjective(SecretKey, Split32(o.sk), SecretKey, Split32(sk));
      Split32Injective(o.sk, sk);
    }
  }

  /** Of the four commitments only the key's is compared: the other three may be anything well formed. */
  lemma OtherCommitmentsIgnored(H: Hash, S: Sponge, a: Artifact, y: Fr, ct: Fr, mission: Fr, o: Opened)
    requires |a.salt| <= U64_MAX && IsOpening(H, S, a, o)
    ensures IsOpening(H, S, a.(yCommit := FrToHex(y), ctCommit := FrToHex(ct), missionCommit := FrToHex(mission)), o)
  {
    HexRoundTrip(y);
    HexRoundTrip(ct);
    HexRoundTrip(mission);
  }

  /** The opening of a sealed artifact, if it has one. */
  function Intended(S: Sponge, y: nat, salt: bytes, sk: Digest, nonce: Fr): Opened
    requires |salt| <= U64_MAX
  {
    var yFixed := FixedBe(y, Y_BYTES);
    Opened(yFixed, Encrypt(S, DeriveKey(S, yFixed, salt), nonce, Split32(sk)).value, sk)
  }

  /**
   * Provisioner and agent over one modulus: if it is valid, sealing succeeded and what was
   * sealed opens to this and nothing else; if it is not, what was sealed, if anything, never opens.
   */
  ghost predicate Agrees(H: Hash, S: Sponge, n: nat, r: Result<Artifact, SealError>, o: Opened) {
    if ValidModulus(n)
    then r.Ok? && |r.value.salt| <= U64_MAX && forall o' :: IsOpening(H, S, r.value, o') <==> o' == o
    else r.Ok? ==> |r.value.salt| <= U64_MAX && NeverOpens(H, S, r.value)
  }

  ghost predicate NeverOpens(H: Hash, S: Sponge, a: Artifact)
    requires |a.salt| <= U64_MAX
  {
    forall o :: !IsOpening(H, S, a, o)
  }

  /** A key sealed under the true delay output opens exactly when the modulus is valid. */
  lemma SealedOpensExactly(H: Hash, S: Sponge, n: nat, t: u64, salt: bytes, sk: Digest, nonce: Fr, terms: Terms)
    requires |salt| <= U64_MAX && n > 1
    ensures var y := Evaluation(H, 2, t, n).value.y;
            Agrees(H, S, n, Sealed(H, S, n, t, y, salt, sk, nonce, terms), Intended(S, y, salt, sk, nonce))
  {
    var y := Evaluation(H, 2, t, n).value.y;
    var r := Sealed(H, S, n, t, y, salt, sk, nonce, terms);
    WrittenLoads(n);
    if ValidModulus(n) {
      OutputFits(H, t, n);
      IntendedOpens(H, S, n, t, salt, sk, nonce, terms);
      var o := Intended(S, y, salt, sk, nonce);
      forall o' | IsOpening(H, S, r.value, o') ensures o' == o {
        OpeningUnique(H, S, r.value, o, o');
      }
    }
  }

  /** An artifact with these contents opens to that. */
  lemma Opens(H: Hash, S: Sponge, a: Artifact, n: nat, o: Opened)
    requires |a.salt| <= U64_MAX && Loads(a.certificate) && Certified(a.certificate) == n
    requires Evaluation(H, 2, a.t, n).Ok? && o.yBytes == FixedBe(Evaluation(H, 2, a.t, n).value.y, Y_BYTES)
    requires o.ct.body != [] && a.sealedKey == Serialize(ToElements(o.ct))
    requires Decrypt(S, DeriveKey(S, o.yBytes, a.salt), o.ct) == Ok(Split32(o.sk))
    requires Commitments(a).Some? && HashField(S, SecretKey, Split32(o.sk)) == Commitments(a).value[2]
    ensures IsOpening(H, S, a, o)
  {
    assert Split32(o.sk)[..2] == Split32(o.sk);
  }

  lemma IntendedOpens(H: Hash, S: Sponge, n: nat, t: u64, salt: bytes, sk: Digest, nonce: Fr, terms: Terms)
    requires |salt| <= U64_MAX && ValidModulus(n) && Evaluation(H, 2, t, n).Ok?
    requires |ToBytesBe(Evaluation(H, 2, t, n).value.y)| <= Y_BYTES
    ensures var y := Evaluation(H, 2, t, n).value.y;
            var r := Sealed(H, S, n, t, y, salt, sk, nonce, terms);
            r.Ok? && r.value.salt == salt && IsOpening(H, S, r.value, Intended(S, y, salt, sk, nonce))
  {
    var y := Evaluation(H, 2, t, n).value.y;
    WrittenLoads(n);
    SealedShape(H, S, n, t, y, salt, sk, nonce, terms);
    Opens(H, S, Sealed(H, S, n, t, y, salt, sk, nonce, terms).value, n, Intended(S, y, salt, sk, nonce));
  }

  // ── Provisioner and agent ────────────────────────────────────────────────

  /** With two odd primes the provisioner seals under the true delay output. */
  lemma GeneratedIsSealed(H: Hash, S: Sponge, p: nat, q: nat, t: u64, salt: bytes, sk: Digest,
                          nonce: Fr, terms: Terms)
    requires Prime(p) && Prime(q) && p != q && p > 2 && q > 2 && |salt| <= U64_MAX
    ensures p * q > 4 && Evaluation(H, 2, t, p * q).Ok?
    ensures Provisioned(H, S, Generated(p, q), t, salt, sk, nonce, terms)
         == Sealed(H, S, p * q, t, Evaluation(H, 2, t, p * q).value.y, salt, sk, nonce, terms)
  {
    ShortcutIsEvaluation(H, p, q, t);
  }

  /**
   * Provisioner and agent agree exactly when the modulus is valid. For all distinct odd primes,
   * every number of squarings, salt, nonce, key and terms: if their product is valid, sealing
   * through the phi(N) shortcut succeeds and the artifact opens to that key and no other;
   * if it is not, the agent never opens what was sealed.
   */
  lemma ProvisionerAgentAgree(H: Hash, S: Sponge, p: nat, q: nat, t: u64, salt: bytes, sk: Digest,
                              nonce: Fr, terms: Terms)
    requires Prime(p) && Prime(q) && p != q && p > 2 && q > 2 && |salt| <= U64_MAX
    ensures p * q > 4
    ensures Agrees(H, S, p * q, Provisioned(H, S, Generated(p, q), t, salt, sk, nonce, terms),
                   Intended(S, Evaluation(H, 2, t, p * q).value.y, salt, sk, nonce))
  {
    GeneratedIsSealed(H, S, p, q, t, salt, sk, nonce, terms);
    SealedOpensExactly(H, S, p * q, t, salt, sk, nonce, terms);
  }

  /** For the generator's two primes of 1024 bits that is a matter of the product's size alone. */
  lemma GeneratedValidExactly(p: nat, q: nat)
    requires Prime(p) && Prime(q) && Bits(p) == 1024 && Bits(q) == 1024
    ensures p * q >= 0 && (ValidModulus(p * q) <==> p * q >= Pow(2, MODULUS_BITS - 1))
  {
    ProductWidth(p, q, 1024);
    BitsAtMost(p, 7);
    BitsAtMost(q, 7);
    assert Pow(2, 7) == 128;
    LargeFactorsPass(p, q);
  }

  /** Two factors below seven fifths of `2^1023` make a product of 2047 bits, which the agent refuses. */
  lemma NarrowProductRefused(p: nat, q: nat)
    requires Bits(p) == 1024 && Bits(q) == 1024
    requires 5 * p <= 7 * Pow(2, 1023) && 5 * q <= 7 * Pow(2, 1023)
    ensures p * q >= 0 && !ValidModulus(p * q)
  {
    ProductWidth(p, q, 1024);
    var h := Pow(2, 1023);
    PowPositive(2, 1023);
    PowAdd(2, 1023, 1023);
    assert Pow(2, 2047) == 2 * Pow(2, 2046);
    SevenFifths(p, q, h);
  }

  lemma SevenFifths(p: nat, q: nat, h: nat)
    requires 5 * p <= 7 * h && 5 * q <= 7 * h && h > 0
    ensures p * q < 2 * (h * h)
  {
    assert (5 * p) * (5 * q) <= (7 * h) * (5 * q);
    assert (7 * h) * (5 * q) <= (7 * h) * (7 * h);
    assert (5 * p) * (5 * q) == 25 * (p * q);
    assert (7 * h) * (7 * h) == 49 * (h * h);
  }

  /**
   * A modulus from a file: the provisioner takes any number of at least 2048 bits, the agent
   * opens what was sealed with it exactly when the number is valid.
   */
  lemma FileModulusExactly(H: Hash, S: Sponge, n: nat, t: u64, salt: bytes, sk: Digest, nonce: Fr, terms: Terms)
    requires |salt| <= U64_MAX && Bits(n) >= MODULUS_BITS
    ensures n > 4
    ensures Agrees(H, S, n, Provisioned(H, S, FromFile(n), t, salt, sk, nonce, terms),
                   Intended(S, Evaluation(H, 2, t, n).value.y, salt, sk, nonce))
  {
    BitsAtMost(n, 3);
    assert Pow(2, 3) == 8;
    SealedOpensExactly(H, S, n, t, salt, sk, nonce, terms);
  }

  /** Every number of 256 bytes that the file branch takes, valid or not, is sealed with. */
  lemma WideFileSealed(H: Hash, S: Sponge, n: nat, t: u64, salt: bytes, sk: Digest, nonce: Fr, terms: Terms)
    requires |salt| <= U64_MAX && Bits(n) == MODULUS_BITS
    ensures Provisioned(H, S, FromFile(n), t, salt, sk, nonce, terms).Ok?
  {
    BitsAtMost(n, 3);
    assert Pow(2, 3) == 8;
    WidthInBytes(n, MODULUS_BYTES);
    var y := Evaluation(H, 2, t, n).value.y;
    ToBytesBeMonotone(y, n);
    SealedShape(H, S, n, t, y, salt, sk, nonce, terms);
  }

  /** The file branch, for every number: refused below 2048 bits, and above if the output is too wide. */
  lemma FileSealedExactly(H: Hash, S: Sponge, n: nat, t: u64, salt: bytes, sk: Digest, nonce: Fr, terms: Terms)
    requires |salt| <= U64_MAX
    ensures var r := Provisioned(H, S, FromFile(n), t, salt, sk, nonce, terms);
            var out := Evaluation(H, 2, t, n);
            (r == Err(TooNarrow) <==> Bits(n) < 2048)
            && (Bits(n) >= 2048 ==> out.Ok? && (r.Ok? <==> |ToBytesBe(out.value.y)| <= 256)
                                    && (r.Err? ==> r == Err(TooWide)))
  {
    if Bits(n) >= MODULUS_BITS {
      BitsAtMost(n, 3);
      assert Pow(2, 3) == 8;
      var y := Evaluation(H, 2, t, n).value.y;
      if |ToBytesBe(y)| <= Y_BYTES { SealedShape(H, S, n, t, y, salt, sk, nonce, terms); }
    }
  }

  lemma PowerOfTwoInvalid(k: nat)
    requires k >= 1
    ensures Pow(2, k) > 0 && Bits(Pow(2, k)) == k + 1 && !ValidModulus(Pow(2, k))
  {
    PowPositive(2, k);
    BitsAtMost(Pow(2, k), k);
    BitsAtMost(Pow(2, k), k + 1);
    assert Pow(2, k) == 2 * Pow(2, k - 1);
    assert Divides(2, Pow(2, k));
  }

  /** The even number `2^2047` in a file is sealed with, and what is sealed never opens. */
  lemma EvenModulusSealed(H: Hash, S: Sponge, t: u64, salt: bytes, sk: Digest, nonce: Fr, terms: Terms)
    requires |salt| <= U64_MAX
    ensures Pow(2, MODULUS_BITS - 1) > 0
    ensures var r := Provisioned(H, S, FromFile(Pow(2, MODULUS_BITS - 1)), t, salt, sk, nonce, terms);
            r.Ok? && |r.value.salt| <= U64_MAX && NeverOpens(H, S, r.value)
  {
    PowerOfTwoInvalid(MODULUS_BITS - 1);
    WideFileSealed(H, S, Pow(2, MODULUS_BITS - 1), t, salt, sk, nonce, terms);
    FileModulusExactly(H, S, Pow(2, MODULUS_BITS - 1), t, salt, sk, nonce, terms);
  }

  // ── The monitor the artifact provisions ──────────────────────────────────

  /** The agent's monitor starts from the operator's terms, anchored at the operator's grants. */
  lemma ProvisionedMonitor(H: Hash, S: Sponge, source: ModulusSource, t: u64, salt: bytes, sk: Digest,
                           nonce: Fr, terms: Terms)
    requires |salt| <= U64_MAX && (source.Generated? ==> source.p >= 2 && source.q >= 2)
    ensures var r := Provisioned(H, S, source, t, salt, sk, nonce, terms);
            r.Ok? ==>
              MonitorParams(r.value) == Some(Ledger.Params(
                terms.opBudget, terms.disclosureBudget, terms.tSeconds, terms.threshold,
                Correction.Anchor(H, terms.grants)))
  {
    DigestRoundTrip(Correction.Anchor(H, terms.grants));
  }

  /** So in every run of that monitor the admitted grants are, in order, a prefix of the operator's. */
  lemma OperatorGrantsOnly(H: Hash, S: Sponge, source: ModulusSource, t: u64, salt: bytes, sk: Digest,
                           nonce: Fr, terms: Terms, ops: seq<Ledger.Op>)
    requires |salt| <= U64_MAX && (source.Generated? ==> source.p >= 2 && source.q >= 2)
    requires |terms.grants| <= U64_MAX && Provisioned(H, S, source, t, salt, sk, nonce, terms).Ok?
    ensures var a := Provisioned(H, S, source, t, salt, sk, nonce, terms).value;
            MonitorParams(a).Some? &&
            var used := Ledger.GrantsUsed(Ledger.Log(H, MonitorParams(a).value, ops));
            var issued := Correction.Issued(H, terms.grants);
            used <= issued || Collides(H, Correction.Messages(issued), Correction.Messages(used))
  {
    ProvisionedMonitor(H, S, source, t, salt, sk, nonce, terms);
    var a := Provisioned(H, S, source, t, salt, sk, nonce, terms).value;
    Humility.GrantsFollowChain(H, MonitorParams(a).value, terms.grants, ops);
  }
}
