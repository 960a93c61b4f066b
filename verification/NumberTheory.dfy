/**
 * The number theory under the time lock: arithmetic modulo m, Euclid's lemma, Fermat's
 * little theorem (through the binomial theorem), square roots of one modulo a prime, and
 * Euler's theorem for a product of two primes.
 */
module NumberTheory {
  import opened Words

  // ── Arithmetic modulo m ──────────────────────────────────────────────────

  lemma ModUnique(x: int, m: int, q: int, r: int)
    requires 0 <= r < m
    requires x == q * m + r
    ensures x / m == q && x % m == r
  {
    var d := x / m - q;
    assert x == (x / m) * m + x % m;
    assert d * m == r - x % m;
    MulBounds(d, m);
  }

  lemma MulBounds(d: int, m: int)
    requires m > 0
    ensures d >= 1 ==> d * m >= m
    ensures d <= -1 ==> d * m <= -m
  {
    assert (d - 1) * m == d * m - m;
    assert (d + 1) * m == d * m + m;
  }

  lemma ModShift(a: int, k: int, m: int)
    requires m > 0
    ensures (a + k * m) % m == a % m
  {
    assert a + k * m == (a / m + k) * m + a % m;
    ModUnique(a + k * m, m, a / m + k, a % m);
  }

  lemma ModMulLeft(a: int, b: int, m: int)
    requires m > 0
    ensures ((a % m) * b) % m == (a * b) % m
  {
    var q := a / m;
    assert a * b == (a % m) * b + (q * b) * m by {
      assert a == q * m + a % m;
      assert (q * m) * b == (q * b) * m;
    }
    ModShift((a % m) * b, q * b, m);
  }

  lemma ModMul(a: int, b: int, m: int)
    requires m > 0
    ensures ((a % m) * (b % m)) % m == (a * b) % m
  {
    ModMulLeft(a, b % m, m);
    ModMulLeft(b, a, m);
    assert (b % m) * a == a * (b % m) && b * a == a * b;
  }

  lemma ModAdd(a: int, b: int, m: int)
    requires m > 0
    ensures (a % m + b % m) % m == (a + b) % m
  {
    assert a + b == (a % m + b % m) + (a / m + b / m) * m by {
      assert a == (a / m) * m + a % m;
      assert b == (b / m) * m + b % m;
    }
    ModShift(a % m + b % m, a / m + b / m, m);
  }

  lemma ModEqualDiff(a: int, b: int, m: int)
    requires m > 0
    ensures a % m == b % m <==> (a - b) % m == 0
  {
    if a % m == b % m {
      assert a - b == (a / m - b / m) * m;
      ModUnique(a - b, m, a / m - b / m, 0);
    }
    if (a - b) % m == 0 {
      var k := (a - b) / m;
      assert a == b + k * m;
      ModShift(b, k, m);
    }
  }

  /** Congruent factors give congruent products. */
  lemma ModMulCong(a: int, b: int, c: int, d: int, m: int)
    requires m > 0 && a % m == c % m && b % m == d % m
    ensures (a * b) % m == (c * d) % m
  {
    ModMul(a, b, m);
    ModMul(c, d, m);
  }

  lemma {:induction false} PowCong(a: int, b: int, e: nat, m: int)
    requires m > 0 && a % m == b % m
    ensures Pow(a, e) % m == Pow(b, e) % m
  {
    if e > 0 {
      PowCong(a, b, e - 1, m);
      ModMulCong(a, Pow(a, e - 1), b, Pow(b, e - 1), m);
    }
  }

  lemma PowMod(a: int, e: nat, m: int)
    requires m > 0
    ensures Pow(a % m, e) % m == Pow(a, e) % m
  {
    ModUnique(a % m, m, 0, a % m);
    PowCong(a % m, a, e, m);
  }

  lemma {:induction false} PowOne(e: nat)
    ensures Pow(1, e) == 1
  {
    if e > 0 { PowOne(e - 1); }
  }

  // ── Divisibility and primes ──────────────────────────────────────────────

  predicate Divides(d: int, n: int)
    requires d > 0
  {
    n % d == 0
  }

  ghost predicate Prime(p: int) {
    p >= 2 && forall d :: 2 <= d < p ==> !Divides(d, p)
  }

  lemma DivDiv(n: nat, a: nat, b: nat)
    requires a > 0 && b > 0
    ensures a * b > 0 && n / a / b == n / (a * b)
  {
    var q, r, x, y := n / a / b, n / a % b, n / a, n % a;
    Digits(n, a, b, x, y, q, r);
    MulBounds(b, a);
    ModUnique(n, a * b, q, r * a + y);
  }

  lemma Digits(n: nat, a: nat, b: nat, x: nat, y: nat, q: nat, r: nat)
    requires n == x * a + y && x == q * b + r && y < a && r < b
    ensures n == q * (a * b) + (r * a + y) && 0 <= r * a + y < a * b
  {
    assert (q * b + r) * a == q * (a * b) + r * a;
    assert (b - 1) * a == a * b - a;
    assert r * a <= (b - 1) * a;
  }

  lemma DividesMultiple(d: int, n: int, k: int)
    requires d > 0 && Divides(d, n)
    ensures Divides(d, n * k) && Divides(d, k * n)
  {
    var q := n / d;
    assert n * k == (q * k) * d by { assert n == q * d; assert (q * d) * k == (q * k) * d; }
    ModUnique(n * k, d, q * k, 0);
    assert k * n == n * k;
  }

  lemma DividesSum(d: int, a: int, b: int)
    requires d > 0 && Divides(d, a)
    ensures Divides(d, a + b) <==> Divides(d, b)
  {
    assert b + (a / d) * d == a + b;
    ModShift(b, a / d, d);
  }

  /** Every divisor has a prime divisor below it. */
  lemma {:induction false} PrimeFactor(n: nat, d: nat) returns (e: nat)
    requires d >= 2 && Divides(d, n)
    ensures Prime(e) && e <= d && Divides(e, n)
  {
    if Prime(d) {
      e := d;
    } else {
      var c :| 2 <= c < d && Divides(c, d);
      var k := n / d;
      assert n == d * k;
      DividesMultiple(c, d, k);
      e := PrimeFactor(n, c);
    }
  }

  /** Euclid's lemma, by repeated division of the prime by its cofactor. */
  lemma {:induction false} EuclidReduced(p: int, a: int, b: int)
    requires Prime(p) && 0 < a < p && Divides(p, a * b)
    ensures Divides(p, b)
    decreases a
  {
    if a > 1 {
      assert !Divides(a, p);
      var q, r := p / a, p % a;
      DividesMultiple(p, a * b, q);
      DividesMultiple(p, p, b);
      assert p * b == (a * b) * q + r * b by {
        assert p == a * q + r;
        assert (a * q + r) * b == (a * q) * b + r * b;
        assert (a * q) * b == (a * b) * q;
      }
      DividesSum(p, (a * b) * q, r * b);
      assert Divides(p, p) by { ModUnique(p, p, 1, 0); }
      EuclidReduced(p, r, b);
    }
  }

  /** A prime that divides a product divides a factor. */
  lemma Euclid(p: int, a: int, b: int)
    requires Prime(p)
    ensures Divides(p, a * b) <==> Divides(p, a) || Divides(p, b)
  {
    if Divides(p, a) { DividesMultiple(p, a, b); }
    if Divides(p, b) { DividesMultiple(p, b, a); }
    if Divides(p, a * b) && !Divides(p, a) {
      ModMulLeft(a, b, p);
      EuclidReduced(p, a % p, b);
    }
  }

  lemma {:induction false} PrimeDividesPow(p: int, a: int, e: nat)
    requires Prime(p)
    ensures Divides(p, Pow(a, e)) <==> e > 0 && Divides(p, a)
  {
    if e == 0 {
      ModUnique(1, p, 0, 1);
    } else {
      PrimeDividesPow(p, a, e - 1);
      Euclid(p, a, Pow(a, e - 1));
    }
  }

  /** A factor that is a unit modulo a prime cancels. */
  lemma CancelModPrime(p: int, a: int, x: int, y: int)
    requires Prime(p) && !Divides(p, a) && (a * x) % p == (a * y) % p
    ensures x % p == y % p
  {
    ModEqualDiff(a * x, a * y, p);
    assert a * x - a * y == a * (x - y);
    Euclid(p, a, x - y);
    ModEqualDiff(x, y, p);
  }

  /** The only square roots of one modulo a prime are 1 and -1. */
  lemma SqrtOfOne(p: int, x: int)
    requires Prime(p) && 0 <= x < p && (x * x) % p == 1
    ensures x == 1 || x == p - 1
  {
    assert (x - 1) * (x + 1) == x * x - 1;
    ModEqualDiff(x * x, 1, p);
    ModUnique(1, p, 0, 1);
    Euclid(p, x - 1, x + 1);
    if Divides(p, x - 1) {
      if x == 0 { ModUnique(-1, p, -1, p - 1); } else { ModUnique(x - 1, p, 0, x - 1); }
    } else {
      if x < p - 1 { ModUnique(x + 1, p, 0, x + 1); }
    }
  }

  // ── Fermat's little theorem ──────────────────────────────────────────────

  /** Binomial coefficients by Pascal's rule. */
  function Binom(n: nat, k: nat): nat {
    if k == 0 then 1 else if n == 0 then 0 else Binom(n - 1, k - 1) + Binom(n - 1, k)
  }

  lemma {:induction false} BinomAbove(n: nat, k: nat)
    requires k > n
    ensures Binom(n, k) == 0
  {
    if n > 0 {
      BinomAbove(n - 1, k - 1);
      BinomAbove(n - 1, k);
    }
  }

  /** Absorption: `k C(n, k) = n C(n-1, k-1)`. */
  lemma {:induction false} BinomAbsorb(n: nat, k: nat)
    requires n > 0 && k > 0
    ensures k * Binom(n, k) == n * Binom(n - 1, k - 1)
  {
    var m := n - 1;
    if m == 0 {
      if k > 1 { BinomAbove(1, k); BinomAbove(0, k - 1); }
    } else if k == 1 {
      BinomAbsorb(m, 1);
      assert Binom(m, 0) == 1 && Binom(m - 1, 0) == 1;
    } else {
      BinomAbsorb(m, k);
      BinomAbsorb(m, k - 1);
      AbsorbStep(m, k, Binom(m, k), Binom(m, k - 1), Binom(m - 1, k - 2), Binom(m - 1, k - 1));
    }
  }

  lemma AbsorbStep(m: int, k: int, x: int, y: int, z: int, w: int)
    requires y == z + w && k * x == m * w && (k - 1) * y == m * z
    ensures k * (y + x) == (m + 1) * y
  {
    assert k * (y + x) == (k - 1) * y + y + k * x;
    assert m * z + m * w == m * (z + w);
  }

  /** A prime divides every inner coefficient of its own row. */
  lemma PrimeDividesBinom(p: int, k: nat)
    requires Prime(p) && 0 < k < p
    ensures Divides(p, Binom(p, k))
  {
    BinomAbsorb(p, k);
    ModUnique(p, p, 1, 0);
    DividesMultiple(p, p, Binom(p - 1, k - 1));
    Euclid(p, k, Binom(p, k));
    ModUnique(k, p, 0, k);
  }

  /** The first `m` terms of the expansion of `(a + 1)^n`. */
  function BinomSum(n: nat, a: int, m: nat): int
    decreases m
  {
    if m == 0 then 0 else BinomSum(n, a, m - 1) + Binom(n, m - 1) * Pow(a, m - 1)
  }

  lemma {:induction false} BinomSumStep(n: nat, a: int, m: nat)
    ensures BinomSum(n + 1, a, m + 1) == BinomSum(n, a, m + 1) + a * BinomSum(n, a, m)
  {
    if m > 0 {
      BinomSumStep(n, a, m - 1);
      SumStep(a, Binom(n, m), Binom(n, m - 1), Pow(a, m - 1), BinomSum(n, a, m - 1));
      assert BinomSum(n + 1, a, m + 1)
          == BinomSum(n + 1, a, m) + (Binom(n, m - 1) + Binom(n, m)) * (a * Pow(a, m - 1));
    } else {
      assert BinomSum(n + 1, a, 1) == BinomSum(n + 1, a, 0) + Binom(n + 1, 0) * Pow(a, 0);
      assert BinomSum(n, a, 1) == BinomSum(n, a, 0) + Binom(n, 0) * Pow(a, 0);
    }
  }

  lemma SumStep(a: int, c: int, d: int, t: int, s: int)
    ensures (d + c) * (a * t) + a * s == c * (a * t) + a * (s + d * t)
  {
    assert (d + c) * (a * t) == c * (a * t) + d * (a * t);
    assert d * (a * t) == a * (d * t);
    assert a * (s + d * t) == a * s + a * (d * t);
  }

  lemma {:induction false} BinomialTheorem(n: nat, a: int)
    ensures BinomSum(n, a, n + 1) == Pow(a + 1, n)
  {
    if n == 0 {
      assert BinomSum(0, a, 1) == BinomSum(0, a, 0) + Binom(0, 0) * Pow(a, 0);
    } else {
      BinomialTheorem(n - 1, a);
      BinomSumStep(n - 1, a, n);
      BinomAbove(n - 1, n);
      assert BinomSum(n - 1, a, n + 1) == BinomSum(n - 1, a, n) + 0 * Pow(a, n);
      var s := BinomSum(n - 1, a, n);
      assert s + a * s == (a + 1) * s;
    }
  }

  lemma {:induction false} BinomSumModPrime(p: int, a: int, m: nat)
    requires Prime(p) && 1 <= m <= p
    ensures BinomSum(p, a, m) % p == 1
  {
    if m == 1 {
      assert BinomSum(p, a, 1) == BinomSum(p, a, 0) + Binom(p, 0) * Pow(a, 0);
      ModUnique(1, p, 0, 1);
    } else {
      BinomSumModPrime(p, a, m - 1);
      PrimeDividesBinom(p, m - 1);
      DividesMultiple(p, Binom(p, m - 1), Pow(a, m - 1));
      var s, t := BinomSum(p, a, m - 1), Binom(p, m - 1) * Pow(a, m - 1);
      assert s + t == s + (t / p) * p;
      ModShift(s, t / p, p);
    }
  }

  /** Fermat: `a^p = a` modulo every prime `p`, for every natural `a`. */
  lemma {:induction false} FermatPow(p: int, a: nat)
    requires Prime(p)
    ensures Pow(a, p) % p == a % p
  {
    if a == 0 {
      assert Pow(0, p) == 0 * Pow(0, p - 1);
    } else {
      var b := a - 1;
      FermatPow(p, b);
      BinomialTheorem(p, b);
      BinomSumModPrime(p, b, p);
      BinomTop(p);
      assert Pow(a, p) == BinomSum(p, b, p) + Pow(b, p);
      ModAdd(BinomSum(p, b, p), Pow(b, p), p);
      ModAdd(1, b, p);
      ModUnique(1, p, 0, 1);
    }
  }

  lemma {:induction false} BinomTop(n: nat)
    ensures Binom(n, n) == 1
  {
    if n > 0 {
      BinomTop(n - 1);
      BinomAbove(n - 1, n);
    }
  }

  /** Fermat's little theorem, in the form that gives inverses. */
  lemma Fermat(p: int, a: nat)
    requires Prime(p) && !Divides(p, a)
    ensures Pow(a, p - 1) % p == 1
  {
    FermatPow(p, a);
    assert Pow(a, p) == a * Pow(a, p - 1);
    assert a * 1 == a;
    CancelModPrime(p, a, Pow(a, p - 1), 1);
    ModUnique(1, p, 0, 1);
  }

  // ── Two primes ───────────────────────────────────────────────────────────

  lemma DividesProduct(p: int, q: int, d: int)
    requires Prime(p) && Prime(q) && p != q
    ensures p * q > 0
    ensures Divides(p * q, d) <==> Divides(p, d) && Divides(q, d)
  {
    if Divides(p * q, d) { FactorsDivide(p, q, d); }
    if Divides(p, d) && Divides(q, d) {
      var k := d / p;
      assert d == p * k;
      Euclid(q, p, k);
      DistinctPrimes(p, q);
      ProductDivides(p, q, d, k / q);
    }
  }

  lemma FactorsDivide(p: int, q: int, d: int)
    requires p > 0 && q > 0 && p * q > 0 && Divides(p * q, d)
    ensures Divides(p, d) && Divides(q, d)
  {
    var k := d / (p * q);
    assert d == (p * q) * k;
    assert (p * q) * k == (q * k) * p;
    assert (p * q) * k == (p * k) * q;
    ModUnique(d, p, q * k, 0);
    ModUnique(d, q, p * k, 0);
  }

  lemma ProductDivides(p: int, q: int, d: int, m: int)
    requires p > 0 && q > 0 && d == p * (m * q)
    ensures p * q > 0 && Divides(p * q, d)
  {
    assert p * (m * q) == m * (p * q);
    ModUnique(d, p * q, m, 0);
  }

  /** Chinese remaindering for a product of two distinct primes. */
  lemma CongModProduct(p: int, q: int, x: int, y: int)
    requires Prime(p) && Prime(q) && p != q
    ensures p * q > 0
    ensures x % (p * q) == y % (p * q) <==> x % p == y % p && x % q == y % q
  {
    DividesProduct(p, q, x - y);
    ModEqualDiff(x, y, p);
    ModEqualDiff(x, y, q);
    ModEqualDiff(x, y, p * q);
  }

  lemma DistinctPrimes(p: int, q: int)
    requires Prime(p) && Prime(q) && p != q
    ensures !Divides(q, p)
  {
    if p < q { ModUnique(p, q, 0, p); } else { assert 2 <= q < p; }
  }

  /** `a^e` depends on `e` only through its remainder by `p - 1`, for a unit `a`. */
  lemma PowReduceExponent(p: int, a: nat, k: nat, c: nat, r: nat)
    requires Prime(p) && !Divides(p, a)
    ensures (p - 1) * c * k + r >= 0
    ensures Pow(a, (p - 1) * c * k + r) % p == Pow(a, r) % p
  {
    var e := (p - 1) * (c * k);
    assert (p - 1) * c * k == e;
    PowMul(a, p - 1, c * k);
    Fermat(p, a);
    ModUnique(1, p, 0, 1);
    PowCong(Pow(a, p - 1), 1, c * k, p);
    PowOne(c * k);
    PowAdd(a, e, r);
    ModMulCong(Pow(a, e), Pow(a, r), 1, Pow(a, r), p);
  }
}
