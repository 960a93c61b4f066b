/**
 * The provisioner's arithmetic: the phi(N) shortcut, the random-base primality test and the
 * fixed-width encoding (`crates/chronos-provision/src/main.rs`).
 */
module Provision {
  import opened Words
  import opened NumberTheory
  import opened Wesolowski

  // ── The shortcut ─────────────────────────────────────────────────────────

  /** `shortcut_vdf`: two exponentiations, the exponent reduced by `phi`. */
  function ShortcutVdf(g: nat, t: nat, n: nat, phi: nat): (y: nat)
    requires n > 0 && phi > 0
    ensures y < n
  {
    Pow(g, Pow(2, t) % phi) % n
  }

  /** Modulo one prime, reducing a positive exponent by a multiple of `p - 1`. */
  lemma ReduceModPrime(p: int, g: nat, e: nat, c: nat, r: nat)
    requires Prime(p) && c > 0 && e > 0 && (p - 1) * c > 0 && r == e % ((p - 1) * c)
    ensures Pow(g, e) % p == Pow(g, r) % p <==> !Divides(p, g) || r > 0
  {
    var m := (p - 1) * c;
    var k := e / m;
    assert e == m * k + r;
    if Divides(p, g) {
      PrimeDividesPow(p, g, e);
      PrimeDividesPow(p, g, r);
    } else {
      PowReduceExponent(p, g, k, c, r);
    }
  }

  lemma PhiPositive(p: int, q: int)
    requires p >= 2 && q >= 2
    ensures (p - 1) * (q - 1) > 0 && (q - 1) * (p - 1) == (p - 1) * (q - 1)
  {
  }

  /**
   * For a product of two distinct primes and every base, the shortcut gives the time-locked
   * value exactly when the base is a unit or the reduced exponent is not zero.
   */
  lemma ShortcutExact(p: int, q: int, g: nat, t: nat)
    requires Prime(p) && Prime(q) && p != q
    ensures p * q > 0 && (p - 1) * (q - 1) > 0
    ensures var n, phi := p * q, (p - 1) * (q - 1);
            ShortcutVdf(g, t, n, phi) == TimeLock(g, t, n)
            <==> (!Divides(p, g) && !Divides(q, g)) || Pow(2, t) % phi != 0
  {
    PhiPositive(p, q);
    PowPositive(2, t);
    var e, r := Pow(2, t), Pow(2, t) % ((p - 1) * (q - 1));
    ReduceModPrime(p, g, e, q - 1, r);
    ReduceModPrime(q, g, e, p - 1, r);
    CongModProduct(p, q, Pow(g, e), Pow(g, r));
  }

  lemma ProductAboveFour(p: int, q: int)
    requires p > 2 && q > 2
    ensures p * q > 4
  {
    assert p * q >= p * 3;
  }

  lemma ShortcutBaseTwo(p: int, q: int, t: nat)
    requires Prime(p) && Prime(q) && p != q && p > 2 && q > 2
    ensures p * q > 4 && (p - 1) * (q - 1) > 0
    ensures ShortcutVdf(2, t, p * q, (p - 1) * (q - 1)) == TimeLock(2, t, p * q)
  {
    ModUnique(2, p, 0, 2);
    ModUnique(2, q, 0, 2);
    ProductAboveFour(p, q);
    ShortcutExact(p, q, 2, t);
  }

  lemma TimeLockZero(n: nat)
    requires n > 4
    ensures TimeLock(2, 0, n) == 2
  {
    assert Pow(2, 1) == 2 * Pow(2, 0) == 2;
    ModUnique(2, n, 0, 2);
  }

  /** With base 2 and odd primes the shortcut is what the agent's evaluation returns. */
  lemma ShortcutIsEvaluation(H: Hash, p: int, q: int, t: u64)
    requires Prime(p) && Prime(q) && p != q && p > 2 && q > 2
    ensures p * q > 4 && (p - 1) * (q - 1) > 0
    ensures var out := Evaluation(H, 2, t, p * q);
            out.Ok? && out.value.y == ShortcutVdf(2, t, p * q, (p - 1) * (q - 1))
  {
    ShortcutBaseTwo(p, q, t);
    if t == 0 { TimeLockZero(p * q); }
  }

  /** A base that shares a factor can break it: `3^(2^3)` modulo 15. */
  lemma ShortcutCanFail()
    ensures ShortcutVdf(3, 3, 15, 8) == 1 && TimeLock(3, 3, 15) == 6
  {
    assert Pow(2, 3) == 8 && Pow(3, 8) == 6561;
  }

  // ── Primality with random bases ──────────────────────────────────────────

  function SmallPrimeAt(i: nat): (p: nat)
    requires i < 14
    ensures 3 <= p <= 47
  {
    [3, 5, 7, 11, 13, 17, 19, 23, 29, 31, 37, 41, 43, 47][i]
  }

  ghost predicate IsSmallPrime(n: nat) {
    exists i :: 0 <= i < 14 && n == SmallPrimeAt(i)
  }

  ghost predicate HasSmallFactor(n: nat) {
    exists i :: 0 <= i < 14 && Divides(SmallPrimeAt(i), n)
  }

  /** What `is_probable_prime` decides for the bases drawn. */
  ghost predicate ProbablePrime(n: nat, bases: seq<nat>) {
    n >= 2 && (IsSmallPrime(n)
               || (!HasSmallFactor(n)
                   && forall i :: 0 <= i < |bases| ==> Passes(n, bases[i], OddPart(n - 1), TwoPart(n - 1))))
  }

  lemma SmallPrimesArePrime(i: nat)
    requires i < 14
    ensures Prime(SmallPrimeAt(i))
  {
    if i == 0 { assert !Divides(2, 3); }
    if i == 1 { assert !Divides(2, 5) && !Divides(3, 5) && !Divides(4, 5); }
    if i >= 2 { SmallPrime(SmallPrimeAt(i)); }
  }

  /** No draw of bases makes the test reject a prime. */
  lemma PrimeProbable(n: nat, bases: seq<nat>)
    requires Prime(n) && forall i :: 0 <= i < |bases| ==> 2 <= bases[i] < n
    ensures ProbablePrime(n, bases)
  {
    if HasSmallFactor(n) {
      var i :| 0 <= i < 14 && Divides(SmallPrimeAt(i), n);
      DivisorOfPrime(SmallPrimeAt(i), n);
    }
    forall i | 0 <= i < |bases| ensures Passes(n, bases[i], OddPart(n - 1), TwoPart(n - 1)) {
      ModUnique(bases[i], n, 0, bases[i]);
      PrimePasses(n, bases[i]);
    }
  }

  /** What a yes means for an odd number above the small primes, with no squaring left in it. */
  lemma ProbablePrimeExactly(n: nat, bases: seq<nat>)
    requires n > 47 && n % 2 == 1
    ensures ProbablePrime(n, bases)
       <==> !HasSmallFactor(n) && forall i :: 0 <= i < |bases| ==> StrongBase(n, bases[i])
  {
    forall i | 0 <= i < |bases|
      ensures Passes(n, bases[i], OddPart(n - 1), TwoPart(n - 1)) <==> StrongBase(n, bases[i])
    {
      StrongBaseExactly(n, bases[i]);
    }
  }

  method PassesRandomBase(n: nat, a: nat, d: nat, s: nat) returns (ok: bool)
    requires n > 2
    ensures ok <==> Passes(n, a, d, s)
  {
    ok := SquareToMinusOne(n, a, d, s, Pow(a, d) % n);
  }

  method SmallPrimeTrial(n: nat) returns (r: Option<bool>)
    ensures r.None? <==> !HasSmallFactor(n) && !IsSmallPrime(n)
    ensures r.Some? ==> (r.value <==> IsSmallPrime(n))
  {
    for i := 0 to 14
      invariant forall j :: 0 <= j < i ==> !Divides(SmallPrimeAt(j), n) && n != SmallPrimeAt(j)
    {
      var p := SmallPrimeAt(i);
      if n == p { return Some(true); }
      if n % p == 0 {
        assert Divides(SmallPrimeAt(i), n);
        if IsSmallPrime(n) {
          var j :| 0 <= j < 14 && n == SmallPrimeAt(j);
          SmallPrimesArePrime(j);
          DivisorOfPrime(p, n);
        }
        return Some(false);
      }
    }
    return None;
  }

  /**
   * `is_probable_prime`, the random draws given as a sequence. The caller passes odd numbers;
   * for 2 the range the bases are drawn from would be empty.
   */
  method IsProbablePrime(n: nat, bases: seq<nat>) returns (r: bool)
    requires n != 2 && (n > 3 ==> forall i :: 0 <= i < |bases| ==> 2 <= bases[i] < n - 1)
    ensures r <==> ProbablePrime(n, bases)
    ensures Prime(n) ==> r
    ensures n > 47 && n % 2 == 1 ==>
              (r <==> !HasSmallFactor(n) && forall i :: 0 <= i < |bases| ==> StrongBase(n, bases[i]))
  {
    if Prime(n) && n > 3 { PrimeProbable(n, bases); }
    if n > 47 && n % 2 == 1 { ProbablePrimeExactly(n, bases); }
    if n < 2 { return false; }
    var trial := SmallPrimeTrial(n);
    if trial.Some? {
      assert n == 3 ==> n == SmallPrimeAt(0);
      return trial.value;
    }
    assert n != SmallPrimeAt(0);
    var d, s := n - 1, 0;
    while d % 2 == 0
      invariant d > 0 && OddPart(d) == OddPart(n - 1) && s + TwoPart(d) == TwoPart(n - 1)
      decreases d
    {
      d, s := d / 2, s + 1;
    }
    for i := 0 to |bases|
      invariant forall j :: 0 <= j < i ==> Passes(n, bases[j], OddPart(n - 1), TwoPart(n - 1))
    {
      var ok := PassesRandomBase(n, bases[i], d, s);
      if !ok { return false; }
    }
    return true;
  }

  // ── Fixed width ──────────────────────────────────────────────────────────

  /** `to_fixed_be` and the agent's `fixed_width_be`: pad the minimal encoding on the left. */
  method ToFixedBe(v: nat, len: nat) returns (r: Option<bytes>)
    ensures r == if |ToBytesBe(v)| <= len then Some(FixedBe(v, len)) else None
  {
    var be := ToBytesBe(v);
    if |be| > len { return None; }
    var out := new u8[len](_ => 0);
    forall i | 0 <= i < |be| { out[len - |be| + i] := be[i]; }
    PaddedIsFixed(v, len);
    assert out[..] == Zeros(len - |be|) + be;
    return Some(out[..]);
  }

  lemma {:induction false} ToBytesBeMonotone(m: nat, n: nat)
    requires m <= n
    ensures |ToBytesBe(m)| <= |ToBytesBe(n)|
  {
    if m >= 256 {
      ToBytesBeMonotone(m / 256, n / 256);
    }
  }

  /** Two 1024-bit factors give an output that fits the fixed width, whatever the product's bits. */
  lemma FactorsFit(p: nat, q: nat, y: nat, k: nat)
    requires p < Pow(256, k) && q < Pow(256, k) && y < p * q && k > 0
    ensures |ToBytesBe(y)| <= 2 * k
  {
    PowAdd(256, k, k);
    PowPositive(256, k);
    var b := Pow(256, k);
    assert p * q <= b * q;
    assert b * q <= b * b;
    ToBytesBeLength(y, 2 * k);
  }
}
