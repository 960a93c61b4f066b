/** The group modulus and its validation: `crates/chronos-core/src/mpc.rs`. */
module Modulus {
  import opened Words
  import opened NumberTheory

  const MODULUS_BITS: nat := 2048
  const MODULUS_BYTES: nat := 256

  /** RSA-2048, the fallback when there is no certificate file. */
  const RSA_2048: nat := 25195908475657893494027183240048398571429282126204032027777137836043662020707595556264018525880784406918290641249515082189298559149176184502808489120072844992687392807287776735971418347270261896375014971824691165077613379859095700097330459748808428401797429100642458691817195118746121515172654632282216869987549182422433637259085141865462043576798423387184774447920739934236584823824281198163815010674810451660377306056201619676256133844143603833904414952634432190114657544454178424020924616515723350778707749817125772467962926386356373289912154831438167899885040445364023527381951378636564391212010397122822120720357

  const SMALL_PRIME_SIEVE: seq<nat> :=
    [2, 3, 5, 7, 11, 13, 17, 19, 23, 29, 31, 37, 41, 43, 47, 53, 59, 61, 67, 71, 73, 79, 83, 89, 97]

  // ── Width ────────────────────────────────────────────────────────────────

  /** `BigUint::bits`. */
  function Bits(n: nat): nat
    decreases n
  {
    if n == 0 then 0 else Bits(n / 2) + 1
  }

  lemma {:induction false} BitsAtMost(n: nat, k: nat)
    ensures Bits(n) <= k <==> n < Pow(2, k)
  {
    if n == 0 {
      PowPositive(2, k);
    } else if k == 0 {
      assert Pow(2, 0) == 1;
    } else {
      BitsAtMost(n / 2, k - 1);
      assert Pow(2, k) == 2 * Pow(2, k - 1);
    }
  }

  /** A width in whole bytes is the length of the minimal encoding. */
  lemma WidthInBytes(n: nat, k: nat)
    requires k >= 1 && Bits(n) == 8 * k
    ensures |ToBytesBe(n)| == k
  {
    assert Pow(2, 8) == 256;
    BitsAtMost(n, 8 * k);
    PowMul(2, 8, k);
    ToBytesBeLength(n, k);
    if k > 1 {
      BitsAtMost(n, 8 * (k - 1));
      PowMul(2, 8, k - 1);
      ToBytesBeLength(n, k - 1);
    }
  }

  /** Two factors of `k` bits have a product of `2k - 1` or `2k` bits, by its size alone. */
  lemma ProductWidth(p: nat, q: nat, k: nat)
    requires k >= 1 && Bits(p) == k && Bits(q) == k
    ensures p * q >= 0
    ensures Bits(p * q) == if p * q < Pow(2, 2 * k - 1) then 2 * k - 1 else 2 * k
  {
    BitsAtMost(p, k);
    BitsAtMost(q, k);
    BitsAtMost(p, k - 1);
    BitsAtMost(q, k - 1);
    var h := Pow(2, k - 1);
    PowPositive(2, k - 1);
    assert Pow(2, k) == 2 * h;
    ProductBetween(p, q, h);
    PowAdd(2, k - 1, k - 1);
    PowAdd(2, k, k);
    assert (k - 1) + (k - 1) == 2 * k - 2;
    BitsAtMost(p * q, 2 * k);
    BitsAtMost(p * q, 2 * k - 1);
    BitsAtMost(p * q, 2 * k - 2);
  }

  lemma ProductBetween(p: nat, q: nat, h: nat)
    requires 0 < h <= p < 2 * h && h <= q < 2 * h
    ensures h * h <= p * q < (2 * h) * (2 * h)
  {
    assert h * h <= h * q <= p * q;
    assert p * q <= p * (2 * h);
    assert p * (2 * h) < (2 * h) * (2 * h);
  }

  // ── Small factors ────────────────────────────────────────────────────────

  ghost predicate NoSmallDivisor(n: nat) {
    forall d :: 2 <= d <= 100 ==> !Divides(d, n)
  }

  predicate Undivided(e: nat) {
    e % 2 != 0 && e % 3 != 0 && e % 5 != 0 && e % 7 != 0
  }

  lemma UndividedLow(e: nat) returns (i: nat)
    requires 7 < e <= 50 && Undivided(e)
    ensures i < 25 && SieveAt(i) == e
  {
    i := if e == 11 then 4 else if e == 13 then 5 else if e == 17 then 6 else if e == 19 then 7
         else if e == 23 then 8 else if e == 29 then 9 else if e == 31 then 10 else if e == 37 then 11
         else if e == 41 then 12 else if e == 43 then 13 else 14;
  }

  lemma UndividedHigh(e: nat) returns (i: nat)
    requires 50 < e <= 100 && Undivided(e)
    ensures i < 25 && SieveAt(i) == e
  {
    i := if e == 53 then 15 else if e == 59 then 16 else if e == 61 then 17 else if e == 67 then 18
         else if e == 71 then 19 else if e == 73 then 20 else if e == 79 then 21 else if e == 83 then 22
         else if e == 89 then 23 else 24;
  }

  /** Up to 100, what is prime is in the sieve. */
  lemma SievePrime(e: nat) returns (i: nat)
    requires Prime(e) && e <= 100
    ensures i < 25 && SieveAt(i) == e
  {
    assert e > 2 ==> !Divides(2, e);
    if e <= 7 {
      i := if e == 2 then 0 else if e == 3 then 1 else if e == 5 then 2 else 3;
    } else {
      assert !Divides(3, e) && !Divides(5, e) && !Divides(7, e);
      if e <= 50 { i := UndividedLow(e); } else { i := UndividedHigh(e); }
    }
  }

  /** Trial division by the sieve finds a divisor up to 100 whenever there is one. */
  lemma SieveComplete(n: nat)
    ensures NoSmallDivisor(n) <==> forall i :: 0 <= i < 25 ==> !Divides(SieveAt(i), n)
  {
    if !NoSmallDivisor(n) {
      var d :| 2 <= d <= 100 && Divides(d, n);
      var e := PrimeFactor(n, d);
      var i := SievePrime(e);
      assert Divides(SieveAt(i), n);
    }
  }

  function SieveAt(i: nat): (p: nat)
    requires i < 25
    ensures 2 <= p <= 97
  {
    SMALL_PRIME_SIEVE[i]
  }

  /** Two primes above the sieve leave their product without a small divisor. */
  lemma LargeFactorsPass(p: nat, q: nat)
    requires Prime(p) && Prime(q) && p > 100 && q > 100
    ensures p * q >= 0 && NoSmallDivisor(p * q)
  {
    if !NoSmallDivisor(p * q) {
      var d :| 2 <= d <= 100 && Divides(d, p * q);
      var e := PrimeFactor(p * q, d);
      Euclid(e, p, q);
    }
  }

  // ── Validation ───────────────────────────────────────────────────────────

  datatype ModulusError = EmptyFile | WrongWidth | WrongLength | SmallFactor(p: nat)

  /** What the agent accepts: exactly 2048 bits and nothing up to 100 that divides it. */
  ghost predicate ValidModulus(n: nat) {
    Bits(n) == MODULUS_BITS && NoSmallDivisor(n)
  }

  /** `validate_modulus`; its second check, the length in bytes, never fails. */
  method ValidateModulus(n: nat) returns (r: Result<(), ModulusError>)
    ensures r.Ok? <==> ValidModulus(n)
    ensures r == Err(WrongWidth) <==> Bits(n) != MODULUS_BITS
    ensures r.Err? && r.error != WrongWidth ==>
              r.error.SmallFactor? && r.error.p in SMALL_PRIME_SIEVE && Divides(r.error.p, n)
  {
    if Bits(n) != MODULUS_BITS { return Err(WrongWidth); }
    WidthInBytes(n, MODULUS_BYTES);
    if |ToBytesBe(n)| != MODULUS_BYTES { return Err(WrongLength); }
    SieveComplete(n);
    for i := 0 to 25
      invariant forall j :: 0 <= j < i ==> !Divides(SieveAt(j), n)
    {
      if n % SieveAt(i) == 0 { return Err(SmallFactor(SieveAt(i))); }
    }
    return Ok(());
  }

  // ── The certificate file ─────────────────────────────────────────────────

  /** What reading the certificate file gives. */
  datatype CertificateFile = Contents(data: bytes) | Absent | Unreadable

  /** The number the agent takes for the modulus, before validation: every failed read falls back. */
  function Certified(file: CertificateFile): nat {
    match file
    case Contents(data) => FromBytesBe(data)
    case Absent => RSA_2048
    case Unreadable => RSA_2048
  }

  ghost predicate Loads(file: CertificateFile) {
    file != Contents([]) && ValidModulus(Certified(file))
  }

  /** `MpcCertificate::load`. */
  method LoadCertificate(file: CertificateFile) returns (r: Result<nat, ModulusError>)
    ensures r.Ok? <==> Loads(file)
    ensures r.Ok? ==> r.value == Certified(file)
  {
    if file == Contents([]) { return Err(EmptyFile); }
    var n := Certified(file);
    var valid := ValidateModulus(n);
    return if valid.Ok? then Ok(n) else Err(valid.error);
  }

  /** A certificate file as the provisioner writes it loads exactly when the modulus is valid. */
  lemma WrittenLoads(n: nat)
    ensures Certified(Contents(ToBytesBe(n))) == n
    ensures Loads(Contents(ToBytesBe(n))) <==> ValidModulus(n)
  {
    FromToBytesBe(n);
  }

  // ── The fallback ─────────────────────────────────────────────────────────

  lemma Doubled(k: nat, v: int)
    requires Pow(2, k) == v
    ensures Pow(2, 2 * k) == v * v
  {
    PowAdd(2, k, k);
  }

  /** `2^2048`, by eleven squarings. */
  lemma TwoTo2048() returns (v: int)
    ensures v == Pow(2, MODULUS_BITS)
    ensures RSA_2048 < v <= 2 * RSA_2048
  {
    assert Pow(2, 1) == 2;
    Doubled(1, 2);
    Doubled(2, 4);
    Doubled(4, 16);
    Doubled(8, 0x100);
    Doubled(16, 0x1_0000);
    Doubled(32, 0x1_0000_0000);
    Doubled(64, 0x1_0000_0000_0000_0000);
    var a := 0x1_0000_0000_0000_0000 * 0x1_0000_0000_0000_0000;
    Doubled(128, a);
    Doubled(256, a * a);
    Doubled(512, a * a * (a * a));
    Doubled(1024, a * a * (a * a) * (a * a * (a * a)));
    v := Pow(2, 2048);
  }

  lemma FallbackWidth()
    ensures Bits(RSA_2048) == MODULUS_BITS
  {
    var v := TwoTo2048();
    BitsAtMost(RSA_2048, MODULUS_BITS);
    assert Pow(2, MODULUS_BITS) == 2 * Pow(2, MODULUS_BITS - 1);
    BitsAtMost(RSA_2048, MODULUS_BITS - 1);
  }

  lemma FallbackSieved(i: nat)
    requires i < 25
    ensures !Divides(SieveAt(i), RSA_2048)
  {
  }

  /** The built-in modulus passes the validation every modulus goes through. */
  lemma FallbackValid()
    ensures Loads(Absent) && Loads(Unreadable)
  {
    FallbackWidth();
    SieveComplete(RSA_2048);
    forall i | 0 <= i < 25 ensures !Divides(SieveAt(i), RSA_2048) {
      FallbackSieved(i);
    }
  }

  /** The comment on `load`: a file that is there and cannot be read is an error. */
  ghost predicate LoadsAsDocumented(file: CertificateFile) {
    !file.Unreadable? && Loads(file)
  }

  /** Exactly when the code does what the comment says: whenever the file is not unreadable. */
  lemma LoadDocumentedExactly(file: CertificateFile)
    ensures (Loads(file) <==> LoadsAsDocumented(file)) <==> file != Unreadable
  {
    FallbackValid();
  }
}
