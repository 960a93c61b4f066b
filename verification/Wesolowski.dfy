/**
 * The Wesolowski VDF of `crates/chronos-vdf/src/wesolowski.rs`: the Miller-Rabin test, the
 * Fiat-Shamir scan, evaluation by repeated squaring, the long-division proof recurrence and
 * verification. SHA-256 is a parameter. The loops are methods; each is proved against a
 * function or predicate that does not mention the loop.
 */
module Wesolowski {
  import opened Words
  import opened NumberTheory

  const MILLER_RABIN_BASES: seq<u64> := [2, 3, 5, 7, 11, 13, 17, 19, 23, 29, 31, 37]
  const FALLBACK_PRIME: u64 := 0xFFFF_FFFF_FFFF_FFC5
  const ABORT_POLL_INTERVAL: u64 := 4096

  // ── Modular exponentiation over u64 ──────────────────────────────────────

  lemma PowHalf(b: int, e: nat)
    ensures Pow(b, e) == Pow(b * b, e / 2) * (if e % 2 == 1 then b else 1)
  {
    PowDistributes(b, b, e / 2);
    PowAdd(b, e / 2, e / 2);
    if e % 2 == 1 {
      assert Pow(b, e) == b * Pow(b, e - 1);
      assert e - 1 == e / 2 + e / 2;
    } else {
      assert e == e / 2 + e / 2;
    }
  }

  /** One round of square-and-multiply keeps `acc * b^e` modulo `m`. */
  lemma SquareMultiplyStep(acc: int, b: int, e: nat, m: int)
    requires m > 0
    ensures var acc' := if e % 2 == 1 then (acc * b) % m else acc;
            (acc' * Pow((b * b) % m, e / 2)) % m == (acc * Pow(b, e)) % m
  {
    PowHalf(b, e);
    var p := Pow(b * b, e / 2);
    PowMod(b * b, e / 2, m);
    if e % 2 == 1 {
      ModUnique((acc * b) % m, m, 0, (acc * b) % m);
      ModMulCong((acc * b) % m, Pow((b * b) % m, e / 2), acc * b, p, m);
      assert (acc * b) * p == acc * (p * b);
    } else {
      ModMulCong(acc, Pow((b * b) % m, e / 2), acc, p, m);
      assert acc * p == acc * (p * 1);
    }
  }

  /** `mul_mod`: the product is formed in `u128`, so nothing is lost before the reduction. */
  function MulMod(a: u64, b: u64, m: u64): (r: u64)
    requires m > 0
    ensures r < m
  {
    (a * b) % m
  }

  method PowModU64(base: u64, exp: u64, m: u64) returns (acc: u64)
    ensures acc == if m <= 1 then 0 else Pow(base, exp) % m
  {
    if m <= 1 { return 0; }
    acc := 1;
    var b: u64, e: u64 := base % m, exp;
    PowMod(base, exp, m);
    while e > 0
      invariant acc < m
      invariant (acc * Pow(b, e)) % m == Pow(base, exp) % m
    {
      SquareMultiplyStep(acc, b, e, m);
      if e % 2 == 1 { acc := MulMod(acc, b, m); }
      b := MulMod(b, b, m);
      e := e / 2;
    }
    ModUnique(acc, m, 0, acc);
  }

  // ── Miller-Rabin ─────────────────────────────────────────────────────────

  /** `m = OddPart(m) * 2^TwoPart(m)` with an odd first factor. */
  function OddPart(m: int): (d: int)
    requires m > 0
    ensures d > 0 && d % 2 == 1
  {
    if m % 2 == 0 then OddPart(m / 2) else m
  }

  function TwoPart(m: int): nat
    requires m > 0
  {
    if m % 2 == 0 then TwoPart(m / 2) + 1 else 0
  }

  lemma {:induction false} OddTimesTwoPower(m: int)
    requires m > 0
    ensures OddPart(m) * Pow(2, TwoPart(m)) == m
  {
    if m % 2 == 0 {
      OddTimesTwoPower(m / 2);
      var d, p := OddPart(m / 2), Pow(2, TwoPart(m / 2));
      assert d * (2 * p) == 2 * (d * p);
    }
  }

  /** `a^(d 2^i)`, the value after `i` squarings of `a^d`. */
  function Squared(a: nat, d: nat, i: nat): int {
    PowPositive(2, i);
    Pow(a, d * Pow(2, i))
  }

  lemma SquaredStep(a: nat, d: nat, i: nat)
    ensures Squared(a, d, i + 1) == Squared(a, d, i) * Squared(a, d, i)
  {
    PowPositive(2, i);
    var e := d * Pow(2, i);
    assert d * Pow(2, i + 1) == e + e by { assert d * (2 * Pow(2, i)) == 2 * (d * Pow(2, i)); }
    PowAdd(a, e, e);
  }

  /** The base `a` is no witness against `n`, where `n - 1 = d 2^s`. */
  ghost predicate Passes(n: int, a: nat, d: nat, s: nat)
    requires n > 0
  {
    Pow(a, d) % n == 1 || exists i :: 0 <= i < Max(s, 1) && Squared(a, d, i) % n == n - 1
  }

  /** A run of squarings that ends in 1 modulo a prime starts at 1 or passes through -1. */
  lemma {:induction false} RootsDescend(n: int, a: nat, d: nat, i: nat)
    requires Prime(n) && Squared(a, d, i) % n == 1
    ensures Pow(a, d) % n == 1 || exists j :: 0 <= j < i && Squared(a, d, j) % n == n - 1
  {
    if i == 0 {
      assert d * Pow(2, 0) == d;
    } else {
      SquaredStep(a, d, i - 1);
      var x := Squared(a, d, i - 1);
      ModMul(x, x, n);
      SqrtOfOne(n, x % n);
      if x % n == 1 { RootsDescend(n, a, d, i - 1); }
    }
  }

  lemma MinusOneSquared(n: int)
    requires n > 2
    ensures ((n - 1) * (n - 1)) % n == 1
  {
    assert (n - 1) * (n - 1) == (n - 2) * n + 1;
    ModUnique((n - 1) * (n - 1), n, n - 2, 1);
  }

  /** Once 1 or -1 is reached, every later square is 1. */
  lemma {:induction false} OneStays(n: int, a: nat, d: nat, i: nat, j: nat)
    requires n > 2 && i < j && (Squared(a, d, i) % n == 1 || Squared(a, d, i) % n == n - 1)
    ensures Squared(a, d, j) % n == 1
  {
    SquaredStep(a, d, j - 1);
    ModMul(Squared(a, d, j - 1), Squared(a, d, j - 1), n);
    if i == j - 1 {
      MinusOneSquared(n);
      ModUnique(1, n, 0, 1);
    } else {
      OneStays(n, a, d, i, j - 1);
      ModUnique(1, n, 0, 1);
    }
  }

  /** Among the squares, 1 comes only from 1 or -1. */
  ghost predicate NoOtherRoot(n: int, a: nat, d: nat, s: nat)
    requires n > 0
  {
    forall i :: 0 <= i < s && Squared(a, d, i + 1) % n == 1 ==>
                  Squared(a, d, i) % n == 1 || Squared(a, d, i) % n == n - 1
  }

  lemma {:induction false} RootsTraced(n: int, a: nat, d: nat, s: nat, i: nat)
    requires n > 2 && NoOtherRoot(n, a, d, s) && i <= s && Squared(a, d, i) % n == 1
    ensures Squared(a, d, 0) % n == 1 || exists j :: 0 <= j < i && Squared(a, d, j) % n == n - 1
  {
    if i > 0 {
      assert Squared(a, d, i - 1 + 1) % n == 1;
      if Squared(a, d, i - 1) % n == 1 { RootsTraced(n, a, d, s, i - 1); }
    }
  }

  /**
   * What surviving a round means: the base meets Fermat's congruence, and no square root of 1
   * other than 1 and -1 shows up on the way.
   */
  lemma PassesExactly(n: int, a: nat, d: nat, s: nat)
    requires n > 2 && s >= 1
    ensures Passes(n, a, d, s) <==> Squared(a, d, s) % n == 1 && NoOtherRoot(n, a, d, s)
  {
    assert d * Pow(2, 0) == d;
    assert Squared(a, d, 0) == Pow(a, d);
    if Passes(n, a, d, s) {
      var j :| 0 <= j < s && (Squared(a, d, j) % n == n - 1 || (j == 0 && Squared(a, d, 0) % n == 1));
      OneStays(n, a, d, j, s);
      forall i | 0 <= i < s && Squared(a, d, i + 1) % n == 1
        ensures Squared(a, d, i) % n == 1 || Squared(a, d, i) % n == n - 1
      {
        if j < i { OneStays(n, a, d, j, i); }
        if i + 1 < j { OneStays(n, a, d, i + 1, j); }
      }
    } else if Squared(a, d, s) % n == 1 && NoOtherRoot(n, a, d, s) {
      RootsTraced(n, a, d, s, s);
    }
  }

  /** No base is a witness against a prime. */
  lemma PrimePasses(n: int, a: nat)
    requires Prime(n) && !Divides(n, a)
    ensures Passes(n, a, OddPart(n - 1), TwoPart(n - 1))
  {
    Fermat(n, a);
    OddTimesTwoPower(n - 1);
    RootsDescend(n, a, OddPart(n - 1), TwoPart(n - 1));
  }

  /** The `i`-th fixed base; the same list serves for trial division. */
  function Base(i: nat): (a: u64)
    requires i < 12
    ensures 2 <= a <= 37
  {
    MILLER_RABIN_BASES[i]
  }

  ghost predicate IsBase(n: int) {
    exists i :: 0 <= i < 12 && n == Base(i)
  }

  ghost predicate HasBaseFactor(n: int) {
    exists i :: 0 <= i < 12 && Divides(Base(i), n)
  }

  ghost predicate PassesAllBases(n: int)
    requires n > 1
  {
    forall i :: 0 <= i < 12 ==> Passes(n, Base(i), OddPart(n - 1), TwoPart(n - 1))
  }

  /** What `is_prime` decides, stated without its loops. */
  ghost predicate MillerRabin(n: u64) {
    n >= 2 && if HasBaseFactor(n) then IsBase(n) else PassesAllBases(n)
  }

  lemma SmallBase(e: nat)
    requires Prime(e) && e <= 40
    ensures IsBase(e)
  {
    assert e > 2 ==> !Divides(2, e);
    assert e > 3 ==> !Divides(3, e);
    assert e > 5 ==> !Divides(5, e);
    var i := if e == 2 then 0 else if e == 3 then 1 else if e == 5 then 2 else if e == 7 then 3
             else if e == 11 then 4 else if e == 13 then 5 else if e == 17 then 6 else if e == 19 then 7
             else if e == 23 then 8 else if e == 29 then 9 else if e == 31 then 10 else 11;
    assert e == Base(i);
  }

  lemma CofactorSmall(n: nat, d: nat) returns (c: nat)
    requires 2 <= n < 1681 && 2 <= d < n && Divides(d, n)
    ensures 2 <= c <= 40 && Divides(c, n)
  {
    var k := n / d;
    assert n == d * k;
    if d <= 40 {
      c := d;
    } else {
      c := k;
      assert k >= 41 ==> d * k >= 41 * k;
      assert k >= 2;
      assert n % k == 0 by { ModUnique(n, k, d, 0); }
    }
  }

  lemma CompositeHasBaseFactor(n: nat)
    requires 2 <= n < 1681 && !Prime(n)
    ensures HasBaseFactor(n)
  {
    var d :| 2 <= d < n && Divides(d, n);
    var c := CofactorSmall(n, d);
    var e := PrimeFactor(n, c);
    SmallBase(e);
    var i :| 0 <= i < 12 && e == Base(i);
    assert Divides(Base(i), n);
  }

  /** Below `41^2` trial division by the bases settles primality, so the answer is exact. */
  lemma SmallExact(n: u64)
    requires n < 1681
    ensures MillerRabin(n) <==> Prime(n)
  {
    if Prime(n) {
      PrimeAccepted(n);
    } else if n >= 2 {
      CompositeHasBaseFactor(n);
      forall i | 0 <= i < 12 ensures n != Base(i) {
        BaseIsPrime(i);
      }
    }
  }

  /** The base meets Fermat's congruence for `n` with no strange root of 1 among its squares. */
  ghost predicate StrongBase(n: int, a: nat)
    requires n > 1
  {
    Pow(a, n - 1) % n == 1 && NoOtherRoot(n, a, OddPart(n - 1), TwoPart(n - 1))
  }

  lemma StrongBaseExactly(n: int, a: nat)
    requires n > 2 && n % 2 == 1
    ensures Passes(n, a, OddPart(n - 1), TwoPart(n - 1)) <==> StrongBase(n, a)
  {
    OddTimesTwoPower(n - 1);
    PassesExactly(n, a, OddPart(n - 1), TwoPart(n - 1));
  }

  /**
   * What a yes means for a number above the bases: none of them divides it, and every one is a
   * strong base for it. Nothing about the squarings is left in this form.
   */
  lemma MillerRabinExactly(n: u64)
    requires n > 37
    ensures MillerRabin(n) <==> forall i :: 0 <= i < 12 ==> !Divides(Base(i), n) && StrongBase(n, Base(i))
  {
    if n % 2 == 0 {
      assert Divides(Base(0), n);
    } else {
      forall i | 0 <= i < 12
        ensures Passes(n, Base(i), OddPart(n - 1), TwoPart(n - 1)) <==> StrongBase(n, Base(i))
      {
        StrongBaseExactly(n, Base(i));
      }
    }
  }

  /** Below 49 trial division by 2, 3 and 5 settles primality. */
  lemma SmallPrime(n: int)
    requires 7 <= n < 49 && n % 2 != 0 && n % 3 != 0 && n % 5 != 0
    ensures Prime(n)
  {
    forall d | 2 <= d < n ensures !Divides(d, n) {
      if Divides(d, n) {
        var k := n / d;
        assert n == d * k;
        if d >= 7 {
          SmallFactor(n, d, k);
        } else {
          SmallFactor(n, k, d);
        }
        assert false;
      }
    }
  }

  lemma SmallFactor(n: int, x: int, y: int)
    requires n == x * y && 2 <= y <= 6
    ensures n % 2 == 0 || n % 3 == 0 || n % 5 == 0
  {
    if y == 2 { assert n == x * 2; } else if y == 3 { assert n == x * 3; }
    else if y == 4 { assert n == 2 * (x * 2); } else if y == 5 { assert n == x * 5; }
    else { assert n == 2 * (x * 3); }
  }

  lemma BaseIsPrime(i: nat)
    requires i < 12
    ensures Prime(Base(i))
  {
    if i == 1 { assert !Divides(2, 3); }
    if i == 2 { assert !Divides(2, 5) && !Divides(3, 5) && !Divides(4, 5); }
    if i >= 3 { SmallPrime(Base(i)); }
  }

  /** Prime divisors of primes are the primes themselves. */
  lemma DivisorOfPrime(d: int, n: int)
    requires Prime(n) && d >= 2 && Divides(d, n)
    ensures d == n
  {
    if d > n { ModUnique(n, d, 0, n); }
  }

  /** The test accepts every prime below `2^64`. */
  lemma PrimeAccepted(n: u64)
    requires Prime(n)
    ensures MillerRabin(n)
  {
    if HasBaseFactor(n) {
      var i :| 0 <= i < 12 && Divides(Base(i), n);
      DivisorOfPrime(Base(i), n);
    } else {
      forall i | 0 <= i < 12 ensures Passes(n, Base(i), OddPart(n - 1), TwoPart(n - 1)) {
        if Divides(n, Base(i)) {
          BaseIsPrime(i);
          DivisorOfPrime(n, Base(i));
          assert false;
        }
        PrimePasses(n, Base(i));
      }
    }
  }

  /**
   * The inner loop of both primality tests, from `a^d` on: square until -1 shows up or the
   * exponent is used up. Over `u64` each product is formed in `u128`, so nothing is lost.
   */
  method SquareToMinusOne(n: nat, a: nat, d: nat, s: nat, start: nat) returns (ok: bool)
    requires n > 2 && start == Pow(a, d) % n
    ensures ok <==> Passes(n, a, d, s)
  {
    var x := start;
    assert d * Pow(2, 0) == d;
    assert x == Squared(a, d, 0) % n;
    if x == 1 || x == n - 1 { return true; }
    var k := 1;
    while k < s
      invariant 1 <= k <= Max(s, 1)
      invariant x == Squared(a, d, k - 1) % n
      invariant forall j :: 0 <= j < k ==> Squared(a, d, j) % n != n - 1
    {
      SquaredStep(a, d, k - 1);
      ModMul(Squared(a, d, k - 1), Squared(a, d, k - 1), n);
      x := (x * x) % n;
      if x == n - 1 { return true; }
      k := k + 1;
    }
    return false;
  }

  method PassesBase(n: u64, a: u64, d: u64, s: nat) returns (ok: bool)
    requires n > 2
    ensures ok <==> Passes(n, a, d, s)
  {
    var x := PowModU64(a, d, n);
    ok := SquareToMinusOne(n, a, d, s, x);
  }

  /** Trial division by the bases: None if no base divides, else whether `n` is a base. */
  method TrialDivision(n: u64) returns (r: Option<bool>)
    ensures r.None? <==> !HasBaseFactor(n)
    ensures n >= 2 && r.Some? ==> (r.value <==> IsBase(n))
  {
    for i := 0 to 12
      invariant forall j :: 0 <= j < i ==> !Divides(Base(j), n)
    {
      var p := Base(i);
      if n % p == 0 {
        assert Divides(Base(i), n);
        if IsBase(n) {
          var j :| 0 <= j < 12 && n == Base(j);
          BaseIsPrime(j);
          DivisorOfPrime(p, n);
        }
        return Some(n == p);
      }
    }
    return None;
  }

  /** `is_prime`: decides `MillerRabin`, hence says yes to every prime. */
  method IsPrime(n: u64) returns (r: bool)
    ensures r <==> MillerRabin(n)
    ensures Prime(n) ==> r
    ensures n < 1681 ==> (r <==> Prime(n))
    ensures n > 37 ==> (r <==> forall i :: 0 <= i < 12 ==> !Divides(Base(i), n) && StrongBase(n, Base(i)))
  {
    if Prime(n) { PrimeAccepted(n); }
    if n > 37 { MillerRabinExactly(n); }
    if n < 1681 { SmallExact(n); }
    if n < 2 { return false; }
    var trial := TrialDivision(n);
    if trial.Some? { return trial.value; }
    assert !Divides(Base(0), n);
    var d: u64, s: nat := n - 1, 0;
    while d % 2 == 0
      invariant d > 0 && OddPart(d) == OddPart(n - 1) && s + TwoPart(d) == TwoPart(n - 1)
      decreases d
    {
      d, s := d / 2, s + 1;
    }
    for i := 0 to 12
      invariant forall j :: 0 <= j < i ==> Passes(n, Base(j), OddPart(n - 1), TwoPart(n - 1))
    {
      var ok := PassesBase(n, Base(i), d, s);
      if !ok { return false; }
    }
    return true;
  }

  // ── The Fiat-Shamir challenge ────────────────────────────────────────────

  /** `u64::from_le_bytes(digest[..8]) | 1`, raised to 3 if that gives 1. */
  function FirstCandidate(d: Digest): (c: u64)
    ensures c % 2 == 1 && c >= 3
  {
    var seed := FromLe8(d[..8]);
    var odd: u64 := if seed % 2 == 1 then seed else seed + 1;
    if odd < 3 then 3 else odd
  }

  /** The prime scan, as a function of the primality test and the first candidate. */
  ghost function Scan(accept: u64 -> bool, c: u64): u64
    decreases U64_MAX - c
  {
    if accept(c) then c
    else if c == U64_MAX then FALLBACK_PRIME
    else Scan(accept, SatAdd(c, 2))
  }

  ghost function Test(): u64 -> bool {
    (c: u64) => MillerRabin(c)
  }

  function ChallengeMessage(g: nat, y: nat, t: u64): bytes {
    ToBytesBe(g) + ToBytesBe(y) + Le8(t)
  }

  /** For one base the message determines output and time. */
  lemma ChallengeMessageInjective(g: nat, y: nat, t: u64, y': nat, t': u64)
    requires ChallengeMessage(g, y, t) == ChallengeMessage(g, y', t')
    ensures y == y' && t == t'
  {
    var m, m' := ChallengeMessage(g, y, t), ChallengeMessage(g, y', t');
    var i := |ToBytesBe(g)|;
    var j := i + |ToBytesBe(y)|;
    assert |ToBytesBe(y)| == |ToBytesBe(y')| by { assert |m| == j + 8 && |m'| == i + |ToBytesBe(y')| + 8; }
    assert m[i..j] == ToBytesBe(y) && m'[i..j] == ToBytesBe(y');
    assert m[j..] == Le8(t) && m'[j..] == Le8(t');
    FromToBytesBe(y);
    FromToBytesBe(y');
    Le8Injective(t, t');
  }

  /** What stands where: base, output and, at the end and little-endian, the time. */
  lemma ChallengeLayout(g: nat, y: nat, t: u64)
    ensures var m, i := ChallengeMessage(g, y, t), |ToBytesBe(g)|;
            |m| == i + |ToBytesBe(y)| + 8
            && FromBytesBe(m[..i]) == g && FromBytesBe(m[i..|m| - 8]) == y && FromLe8(m[|m| - 8..]) == t
  {
    var m, i := ChallengeMessage(g, y, t), |ToBytesBe(g)|;
    assert m[..i] == ToBytesBe(g) && m[i..|m| - 8] == ToBytesBe(y) && m[|m| - 8..] == Le8(t);
    FromToBytesBe(g);
    FromToBytesBe(y);
    FromLe8Le8(t);
  }

  /** Across bases it does not, as nothing separates base and output. */
  lemma BasesNotSeparated(t: u64)
    ensures ChallengeMessage(0x02, 0x0305, t) == ChallengeMessage(0x0203, 0x05, t)
  {
    assert ToBytesBe(0x0305) == ToBytesBe(0x03) + [0x05];
    assert ToBytesBe(0x0203) == ToBytesBe(0x02) + [0x03];
    assert [0x02] + [0x03, 0x05] == [0x02, 0x03] + [0x05];
  }

  /** The scan starts from 63 bits of the digest: the lowest bit is forced, and 1 is raised to 3. */
  lemma CandidateExactly(d: Digest, e: Digest, v: u64, w: u64)
    requires d[..8] == Le8(v) && e[..8] == Le8(w)
    ensures FirstCandidate(d) == FirstCandidate(e) <==> Max(v / 2, 1) == Max(w / 2, 1)
    ensures v >= 2 ==> v <= FirstCandidate(d) <= v + 1
  {
    FromLe8Le8(v);
    FromLe8Le8(w);
  }

  ghost function Challenge(H: Hash, g: nat, y: nat, t: u64): u64 {
    Scan(Test(), FirstCandidate(H(ChallengeMessage(g, y, t))))
  }

  ghost predicate NoPrimeIn(lo: int, hi: int) {
    forall p :: lo <= p < hi ==> !Prime(p)
  }

  /**
   * With a test that accepts every prime, the scan from an odd candidate yields an odd number
   * of at least 3 and never steps over a prime: either it stops at an accepted candidate with
   * no prime before it, or no prime is left below `2^64` and the fixed fallback is used.
   */
  lemma {:induction false} ScanSkipsNoPrime(accept: u64 -> bool, c: u64)
    requires c % 2 == 1 && c >= 3
    requires forall p: u64 :: Prime(p) ==> accept(p)
    ensures var r := Scan(accept, c);
            r % 2 == 1 && r >= 3
            && ((r >= c && accept(r) && NoPrimeIn(c, r))
                || (r == FALLBACK_PRIME && NoPrimeIn(c, U64_MAX + 1)))
    decreases U64_MAX - c
  {
    if !accept(c) && c < U64_MAX {
      EvenNotPrime(c + 1);
      ScanSkipsNoPrime(accept, c + 2);
      assert Scan(accept, c) == Scan(accept, c + 2);
    }
  }

  /** The challenge is an odd number of at least 3, and the prime scan passed over no prime. */
  lemma ChallengeFacts(H: Hash, g: nat, y: nat, t: u64)
    ensures var c := FirstCandidate(H(ChallengeMessage(g, y, t)));
            var ell := Challenge(H, g, y, t);
            ell % 2 == 1 && ell >= 3
            && ((ell >= c && MillerRabin(ell) && NoPrimeIn(c, ell))
                || (ell == FALLBACK_PRIME && NoPrimeIn(c, U64_MAX + 1)))
  {
    forall p: u64 | Prime(p) ensures Test()(p) { PrimeAccepted(p); }
    ScanSkipsNoPrime(Test(), FirstCandidate(H(ChallengeMessage(g, y, t))));
  }

  lemma EvenNotPrime(c: int)
    requires c % 2 == 0 && c > 2
    ensures !Prime(c)
  {
    assert Divides(2, c);
  }

  method FiatShamirPrime(H: Hash, g: nat, y: nat, t: u64) returns (ell: u64)
    ensures ell == Challenge(H, g, y, t)
    ensures ell % 2 == 1 && ell >= 3
  {
    var candidate: u64 := FirstCandidate(H(ChallengeMessage(g, y, t)));
    ChallengeFacts(H, g, y, t);
    while true
      invariant Scan(Test(), candidate) == Challenge(H, g, y, t)
      decreases U64_MAX - candidate
    {
      var prime := IsPrime(candidate);
      if prime { return candidate; }
      var next := SatAdd(candidate, 2);
      if next == candidate { return FALLBACK_PRIME; }
      candidate := next;
    }
  }

  // ── Proof recurrence ─────────────────────────────────────────────────────

  lemma DoubledQuotient(q: int, b: int, ell: int)
    ensures (2 * q + b) * ell == 2 * (q * ell) + b * ell
  {
  }

  /** One step of long division of a power of two by `ell`. */
  lemma LongDivisionStep(p: nat, ell: int)
    requires ell >= 2
    ensures 0 <= p % ell * 2 / ell <= 1
    ensures (2 * p) / ell == 2 * (p / ell) + p % ell * 2 / ell
    ensures (2 * p) % ell == p % ell * 2 % ell
  {
    var q, r := p / ell, p % ell;
    assert p == q * ell + r;
    if r * 2 < ell {
      ModUnique(r * 2, ell, 0, r * 2);
      DoubledQuotient(q, 0, ell);
      ModUnique(2 * p, ell, 2 * q, r * 2);
    } else {
      ModUnique(r * 2, ell, 1, r * 2 - ell);
      DoubledQuotient(q, 1, ell);
      ModUnique(2 * p, ell, 2 * q + 1, r * 2 - ell);
    }
  }

  /** `pi^2 g^b` carries the exponent `q` to `2 q + b`. */
  lemma ProofStep(g: nat, q: nat, b: nat, n: int)
    requires n > 0 && b <= 1
    ensures var sq := (Pow(g, q) % n * (Pow(g, q) % n)) % n;
            Pow(g, 2 * q + b) % n == if b == 1 then (sq * (g % n)) % n else sq
  {
    ModMul(Pow(g, q), Pow(g, q), n);
    PowAdd(g, q, q);
    if b == 1 {
      ModMul(Pow(g, 2 * q), g, n);
      assert Pow(g, 2 * q + 1) == Pow(g, 2 * q) * g;
    }
  }

  /** The honest proof: `g^floor(2^t / ell) mod n`. */
  function ProofValue(g: nat, t: nat, ell: nat, n: nat): (pi: nat)
    requires ell > 0 && n > 0
    ensures pi < n
  {
    PowPositive(2, t);
    Pow(g, Pow(2, t) / ell) % n
  }

  /** The recurrence advances both the proof and the remainder by one power of two. */
  lemma RecurrenceStep(g: nat, i: nat, ell: int, n: int)
    requires ell >= 2 && n > 0
    ensures var r, pi := Pow(2, i) % ell, ProofValue(g, i, ell, n);
            var b, sq := r * 2 / ell, (pi * pi) % n;
            0 <= b <= 1 && Pow(2, i + 1) % ell == r * 2 % ell
            && ProofValue(g, i + 1, ell, n) == if b == 1 then (sq * (g % n)) % n else sq
  {
    PowPositive(2, i);
    LongDivisionStep(Pow(2, i), ell);
    ProofStep(g, Pow(2, i) / ell, Pow(2, i) % ell * 2 / ell, n);
  }

  lemma ProofStart(g: nat, ell: int, n: int)
    requires ell >= 2 && n > 0
    ensures Pow(2, 0) % ell == 1 % ell == 1 && ProofValue(g, 0, ell, n) == 1 % n
  {
    ModUnique(1, ell, 0, 1);
    assert Pow(g, 0) == 1;
  }

  /**
   * `prove`: for a challenge of at least 2 the recurrence yields the quotient power and the
   * remainder. For the challenge 1, which the scan never produces, it yields neither.
   */
  method Prove(g: nat, t: u64, ell: u64, n: nat) returns (pi: nat, r: u64)
    requires ell > 0 && n > 0
    ensures ell >= 2 ==> pi == ProofValue(g, t, ell, n) && r == Pow(2, t) % ell
    ensures ell == 1 ==> pi == 1 % n && r == 0
  {
    var gMod := g % n;
    pi := 1 % n;
    r := 1 % ell;
    if ell >= 2 { ProofStart(g, ell, n); }
    for i := 0 to t
      invariant r < ell && 0 <= pi < n
      invariant ell >= 2 ==> pi == ProofValue(g, i, ell, n) && r == Pow(2, i) % ell
      invariant ell == 1 ==> pi == 1 % n
    {
      var twoR := r * 2;
      var b := twoR / ell;
      if ell >= 2 { RecurrenceStep(g, i, ell, n); } else { OneSquared(n); }
      r := twoR % ell;
      pi := (pi * pi) % n;
      if b == 1 { pi := (pi * gMod) % n; }
    }
  }

  lemma OneSquared(n: int)
    requires n > 0
    ensures ((1 % n) * (1 % n)) % n == 1 % n
  {
    ModMul(1, 1, n);
  }

  // ── Evaluation and verification ──────────────────────────────────────────

  datatype VdfError = DegenerateModulus | Aborted

  datatype VdfResult = VdfResult(y: nat, proof: nat)

  /** `g^(2^t) mod n`. */
  function TimeLock(g: nat, t: nat, n: nat): (y: nat)
    requires n > 0
    ensures y < n
  {
    PowPositive(2, t);
    Pow(g, Pow(2, t)) % n
  }

  /** What `evaluate` returns: the base itself, not reduced, when there is nothing to square. */
  ghost function Evaluation(H: Hash, g: nat, t: u64, n: nat): Result<VdfResult, VdfError> {
    if n <= 1 then Err(DegenerateModulus)
    else if t == 0 then Ok(VdfResult(g, 1))
    else
      var y := TimeLock(g, t, n);
      ChallengeFacts(H, g, y, t);
      Ok(VdfResult(y, ProofValue(g, t, Challenge(H, g, y, t), n)))
  }

  lemma SquaringStep(g: nat, i: nat, n: nat)
    requires n > 0
    ensures TimeLock(g, i + 1, n) == (TimeLock(g, i, n) * TimeLock(g, i, n)) % n
  {
    PowPositive(2, i);
    var e := Pow(2, i);
    PowAdd(g, e, e);
    ModMul(Pow(g, e), Pow(g, e), n);
  }

  method Evaluate(H: Hash, g: nat, t: u64, n: nat) returns (r: Result<VdfResult, VdfError>)
    ensures r == Evaluation(H, g, t, n)
  {
    if n <= 1 { return Err(DegenerateModulus); }
    if t == 0 { return Ok(VdfResult(g, 1)); }
    var y := g % n;
    assert Pow(g, 1) == g * Pow(g, 0) == g;
    for i := 0 to t
      invariant y == TimeLock(g, i, n)
    {
      SquaringStep(g, i, n);
      y := (y * y) % n;
    }
    var ell := FiatShamirPrime(H, g, y, t);
    var pi, _ := Prove(g, t, ell, n);
    return Ok(VdfResult(y, pi));
  }

  /** The equation `verify` checks, with the boundary cases of the code. */
  ghost predicate Accepts(H: Hash, g: nat, y: nat, proof: nat, t: u64, n: nat) {
    n > 1 &&
    if t == 0 then y == g
    else
      var ell := Challenge(H, g, y, t);
      ChallengeFacts(H, g, y, t);
      (Pow(proof, ell) % n * (Pow(g, Pow(2, t) % ell) % n)) % n == y
  }

  method Verify(H: Hash, g: nat, y: nat, proof: nat, t: u64, n: nat) returns (ok: bool)
    ensures ok <==> Accepts(H, g, y, proof, t, n)
  {
    if n <= 1 { return false; }
    if t == 0 { return y == g; }
    var ell := FiatShamirPrime(H, g, y, t);
    var r := PowModU64(2, t, ell);
    var lhs := Pow(proof, ell) % n;
    var rhs := Pow(g, r) % n;
    return (lhs * rhs) % n == y;
  }

  /** `pi^ell g^r` recombines to `g^(2^t)` for every divisor `ell`. */
  lemma ProofRecombines(g: nat, e: nat, ell: int, n: int)
    requires ell > 0 && n > 0
    ensures (Pow(Pow(g, e / ell) % n, ell) % n * (Pow(g, e % ell) % n)) % n == Pow(g, e) % n
  {
    var q, r := e / ell, e % ell;
    PowMod(Pow(g, q), ell, n);
    PowMul(g, q, ell);
    PowAdd(g, q * ell, r);
    ModMul(Pow(g, q * ell), Pow(g, r), n);
    assert e == q * ell + r;
  }

  /** Completeness: whatever `evaluate` returns, `verify` accepts. */
  lemma VerifyAcceptsEvaluate(H: Hash, g: nat, t: u64, n: nat)
    requires n > 1
    ensures var out := Evaluation(H, g, t, n);
            out.Ok? && Accepts(H, g, out.value.y, out.value.proof, t, n)
  {
    if t > 0 {
      var y := TimeLock(g, t, n);
      ChallengeFacts(H, g, y, t);
      PowPositive(2, t);
      ProofRecombines(g, Pow(2, t), Challenge(H, g, y, t), n);
    }
  }

  /** With the proof formed as prescribed, exactly one output is accepted: the time-locked one. */
  lemma AcceptsExactly(H: Hash, g: nat, y: nat, t: u64, n: nat)
    requires n > 1
    ensures t == 0 ==> forall proof :: Accepts(H, g, y, proof, t, n) <==> y == g
    ensures t > 0 ==> Challenge(H, g, y, t) > 0
    ensures t > 0 ==> (Accepts(H, g, y, ProofValue(g, t, Challenge(H, g, y, t), n), t, n) <==> y == TimeLock(g, t, n))
  {
    if t > 0 {
      ChallengeFacts(H, g, y, t);
      PowPositive(2, t);
      ProofRecombines(g, Pow(2, t), Challenge(H, g, y, t), n);
    }
  }

  /** An output that is not reduced modulo the modulus is refused whatever the proof. */
  lemma UnreducedRefused(H: Hash, g: nat, y: nat, proof: nat, t: u64, n: nat)
    requires n > 1 && t > 0 && y >= n
    ensures !Accepts(H, g, y, proof, t, n)
  {
    ChallengeFacts(H, g, y, t);
  }

  // ── Cooperative cancellation ─────────────────────────────────────────────

  /** The iteration counts at which the abort flag is read, over both loops. */
  predicate IsPoll(k: nat, t: nat) {
    (k < t && k % ABORT_POLL_INTERVAL == 0)
    || (t <= k < 2 * t && (k - t) % ABORT_POLL_INTERVAL == 0)
  }

  /**
   * A schedule gives the flag at every moment. Iteration `k` has two: at moment `2 k` it may
   * poll, at moment `2 k + 1` it does its work, so the flag can go up between the two.
   */
  function PollMoment(k: nat): nat {
    2 * k
  }

  /** From moment `since` on the flag is up and stays up. */
  ghost predicate RaisedFrom(raised: nat -> bool, since: nat) {
    forall k :: k >= since ==> raised(k)
  }

  /** No poll before iteration `k` sees the flag. */
  ghost predicate NotSeenBefore(k: nat, t: nat, raised: nat -> bool) {
    forall j: nat :: j < k && IsPoll(j, t) ==> !raised(PollMoment(j))
  }

  ghost predicate FirstSeen(k: nat, t: nat, raised: nat -> bool) {
    IsPoll(k, t) && raised(PollMoment(k)) && NotSeenBefore(k, t, raised)
  }

  lemma PollAtMultiple(i: nat, t: nat)
    requires i < t && i % ABORT_POLL_INTERVAL == 0
    ensures IsPoll(i, t) && IsPoll(t + i, t)
  {
  }

  /** How many of the first `iters` iterations do their work at moment `since` or later. */
  function WorkSince(since: nat, iters: nat): (n: nat)
    ensures n <= iters && (n > 0 ==> 2 * (iters - n) + 1 >= since)
    ensures n < iters ==> 2 * (iters - n - 1) + 1 < since
  {
    if iters > since / 2 then iters - since / 2 else 0
  }

  /**
   * Polls are at most 4096 iterations apart, also across the seam between the two loops: of the
   * work still done once the flag is up for good there are at most 4096 iterations, and one
   * fewer if it went up before a poll rather than after.
   */
  lemma PollLatency(k: nat, t: nat, raised: nat -> bool, since: nat)
    requires k <= 2 * t && NotSeenBefore(k, t, raised) && RaisedFrom(raised, since)
    ensures WorkSince(since, k) <= (if since % 2 == 0 then 4095 else 4096)
  {
    if k > 0 {
      var done := if k <= t then k - 1 else k - 1 - t;
      var back := done % ABORT_POLL_INTERVAL;
      PollAtMultiple(done - back, t);
      assert !raised(PollMoment(k - 1 - back));
    }
  }

  /** The 4096 are reached: by a flag that goes up just after the first poll. */
  lemma LatencyReached(t: nat)
    requires t > ABORT_POLL_INTERVAL
    ensures var raised: nat -> bool := m => m >= 1;
            RaisedFrom(raised, 1) && FirstSeen(ABORT_POLL_INTERVAL, t, raised)
            && WorkSince(1, ABORT_POLL_INTERVAL) == 4096
  {
    var raised: nat -> bool := m => m >= 1;
    forall j: nat | j < ABORT_POLL_INTERVAL && IsPoll(j, t) ensures !raised(PollMoment(j)) {
      assert j == 0;
    }
  }

  /** The first loop: `T` squarings, or None if a poll sees the flag. */
  method SquareInterruptibly(g: nat, t: u64, n: nat, raised: nat -> bool)
    returns (y: Option<nat>, iters: nat)
    requires n > 1
    ensures y.Some? ==> y.value == TimeLock(g, t, n) && iters == t && NotSeenBefore(t, t, raised)
    ensures y.None? ==> iters <= t && FirstSeen(iters, t, raised)
  {
    var v := g % n;
    assert Pow(g, 1) == g * Pow(g, 0) == g;
    for i := 0 to t
      invariant v == TimeLock(g, i, n)
      invariant NotSeenBefore(i, t, raised)
    {
      if i % ABORT_POLL_INTERVAL == 0 {
        PollAtMultiple(i, t);
        if raised(PollMoment(i)) { return None, i; }
      }
      SquaringStep(g, i, n);
      v := (v * v) % n;
    }
    return Some(v), t;
  }

  /** The second loop: the proof recurrence, or None if a poll sees the flag. */
  method ProveInterruptibly(g: nat, t: u64, ell: u64, n: nat, raised: nat -> bool)
    returns (proof: Option<nat>, iters: nat)
    requires n > 1 && ell >= 2 && NotSeenBefore(t, t, raised)
    ensures proof.Some? ==> proof.value == ProofValue(g, t, ell, n) && iters == 2 * t
    ensures proof.Some? ==> NotSeenBefore(2 * t, t, raised)
    ensures proof.None? ==> t <= iters <= 2 * t && FirstSeen(iters, t, raised)
  {
    var gMod := g % n;
    var pi := 1 % n;
    var r: u64 := 1 % ell;
    ProofStart(g, ell, n);
    for i := 0 to t
      invariant r < ell && r == Pow(2, i) % ell
      invariant pi == ProofValue(g, i, ell, n)
      invariant NotSeenBefore(t + i, t, raised)
    {
      if i % ABORT_POLL_INTERVAL == 0 {
        PollAtMultiple(i, t);
        if raised(PollMoment(t + i)) { return None, t + i; }
      }
      RecurrenceStep(g, i, ell, n);
      var twoR := r * 2;
      var b := twoR / ell;
      r := twoR % ell;
      pi := (pi * pi) % n;
      if b == 1 { pi := (pi * gMod) % n; }
    }
    return Some(pi), 2 * t;
  }

  /**
   * `evaluate_interruptible`, under any schedule of the flag. `iters` counts iterations over
   * both loops. An Ok is the plain evaluation; the run is cancelled exactly at the first poll
   * that sees the flag; and once the flag is up for good at most 4096 iterations do their work.
   */
  method EvaluateInterruptible(H: Hash, g: nat, t: u64, n: nat, raised: nat -> bool)
    returns (r: Result<VdfResult, VdfError>, iters: nat)
    ensures n <= 1 || t == 0 ==> r == Evaluation(H, g, t, n) && iters == 0
    ensures r.Ok? ==> r == Evaluation(H, g, t, n)
    ensures n > 1 && r.Ok? ==> NotSeenBefore(2 * t, t, raised) && iters == 2 * t
    ensures n > 1 && r.Err? ==> r.error == Aborted && FirstSeen(iters, t, raised)
    ensures forall since: nat :: RaisedFrom(raised, since) ==>
              WorkSince(since, iters) <= (if since % 2 == 0 then 4095 else 4096)
  {
    if n <= 1 { return Err(DegenerateModulus), 0; }
    if t == 0 { return Ok(VdfResult(g, 1)), 0; }
    var y;
    y, iters := SquareInterruptibly(g, t, n, raised);
    if y.None? {
      r := Err(Aborted);
    } else {
      var ell := FiatShamirPrime(H, g, y.value, t);
      var proof;
      proof, iters := ProveInterruptibly(g, t, ell, n, raised);
      r := if proof.None? then Err(Aborted) else Ok(VdfResult(y.value, proof.value));
    }
    forall since: nat | RaisedFrom(raised, since)
      ensures WorkSince(since, iters) <= (if since % 2 == 0 then 4095 else 4096)
    {
      PollLatency(iters, t, raised, since);
    }
  }
}
