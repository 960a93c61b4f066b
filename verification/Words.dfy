/** Machine words, saturating and wrapping arithmetic, and big-endian byte strings. */
module Words {

  datatype Option<+T> = None | Some(value: T)

  datatype Result<+T, +E> = Ok(value: T) | Err(error: E)

  type u8 = x: int | 0 <= x < 0x100
  type u32 = x: int | 0 <= x < 0x1_0000_0000
  type u64 = x: int | 0 <= x < 0x1_0000_0000_0000_0000
  type i64 = x: int | -0x8000_0000_0000_0000 <= x < 0x8000_0000_0000_0000

  type bytes = seq<u8>

  const U64_MAX: u64 := 0xFFFF_FFFF_FFFF_FFFF
  const I64_MAX: i64 := 0x7FFF_FFFF_FFFF_FFFF

  /** `u64::saturating_add`. */
  function SatAdd(a: u64, b: u64): u64 {
    if a + b > U64_MAX then U64_MAX else a + b
  }

  /** `u64::saturating_sub`. */
  function SatSub(a: u64, b: u64): u64 {
    if a >= b then a - b else 0
  }

  /** `+= 1` on a `u64` counter; the release profile wraps. */
  function WrapInc(a: u64): u64 {
    if a == U64_MAX then 0 else a + 1
  }

  function Max(a: int, b: int): int {
    if a >= b then a else b
  }

  function Min(a: int, b: int): int {
    if a <= b then a else b
  }

  function Abs(a: int): nat {
    if a >= 0 then a else -a
  }

  function Pow(b: int, e: nat): int
    decreases e
  {
    if e == 0 then 1 else b * Pow(b, e - 1)
  }

  lemma {:induction false} PowPositive(b: int, e: nat)
    requires b >= 1
    ensures Pow(b, e) >= 1
  {
    if e > 0 { PowPositive(b, e - 1); }
  }

  lemma {:induction false} PowAdd(b: int, m: nat, n: nat)
    ensures Pow(b, m + n) == Pow(b, m) * Pow(b, n)
  {
    if m > 0 {
      PowAdd(b, m - 1, n);
      assert b * (Pow(b, m - 1) * Pow(b, n)) == (b * Pow(b, m - 1)) * Pow(b, n);
    }
  }

  lemma {:induction false} PowMul(b: int, m: nat, n: nat)
    ensures m * n >= 0
    ensures Pow(b, m * n) == Pow(Pow(b, m), n)
  {
    if n > 0 {
      PowMul(b, m, n - 1);
      assert m * n == m + m * (n - 1);
      PowAdd(b, m, m * (n - 1));
    }
  }

  lemma {:induction false} PowDistributes(a: int, b: int, e: nat)
    ensures Pow(a * b, e) == Pow(a, e) * Pow(b, e)
  {
    if e > 0 {
      PowDistributes(a, b, e - 1);
      MulSwap(a, b, Pow(a, e - 1), Pow(b, e - 1));
    }
  }

  lemma MulSwap(a: int, b: int, x: int, y: int)
    ensures (a * b) * (x * y) == (a * x) * (b * y)
  {
    assert (a * b) * (x * y) == a * (b * (x * y));
    assert b * (x * y) == x * (b * y);
    assert a * (x * (b * y)) == (a * x) * (b * y);
  }

  lemma {:induction false} PowMonotone(b: int, m: nat, n: nat)
    requires b >= 1 && m <= n
    ensures Pow(b, m) <= Pow(b, n)
  {
    PowAdd(b, m, n - m);
    PowPositive(b, m);
    PowPositive(b, n - m);
    var x, y := Pow(b, m), Pow(b, n - m);
    assert x * y >= x;
  }

  // ── Queues of bounded length ─────────────────────────────────────────────

  /** The last `capacity` elements. */
  function Tail<T>(s: seq<T>, capacity: nat): seq<T> {
    if |s| <= capacity then s else s[|s| - capacity..]
  }

  /** Pushing and, when the queue was full, evicting the oldest keeps the last elements. */
  lemma TailPush<T>(s: seq<T>, x: T, capacity: nat)
    requires capacity >= 1
    ensures var t := Tail(s, capacity);
            Tail(s + [x], capacity) == (if |t| == capacity then t[1..] else t) + [x]
  {
  }

  // ── Big-endian byte strings ──────────────────────────────────────────────

  /** The number a byte string denotes, most significant byte first. */
  function FromBytesBe(b: bytes): (n: nat)
  {
    if b == [] then 0 else FromBytesBe(b[..|b| - 1]) * 256 + b[|b| - 1]
  }

  /** `n` on exactly `len` bytes, high-order bytes dropped if they do not fit. */
  function FixedBe(n: nat, len: nat): (b: bytes)
    ensures |b| == len
    decreases len, n
  {
    if len == 0 then [] else FixedBe(n / 256, len - 1) + [n % 256]
  }

  /** `BigUint::to_bytes_be`: no leading zero byte, except that zero is one byte. */
  function ToBytesBe(n: nat): (b: bytes)
    ensures |b| >= 1
  {
    if n < 256 then [n] else ToBytesBe(n / 256) + [n % 256]
  }

  lemma {:induction false} FromFixedBe(n: nat, len: nat)
    requires n < Pow(256, len)
    ensures FromBytesBe(FixedBe(n, len)) == n
  {
    if len > 0 {
      FromFixedBe(n / 256, len - 1);
      var b := FixedBe(n, len);
      assert b[..len - 1] == FixedBe(n / 256, len - 1);
    }
  }

  lemma {:induction false} FixedFromBe(b: bytes)
    ensures FromBytesBe(b) < Pow(256, |b|)
    ensures FixedBe(FromBytesBe(b), |b|) == b
  {
    if b != [] {
      var front := b[..|b| - 1];
      FixedFromBe(front);
      var hi := FromBytesBe(front);
      assert (hi * 256 + b[|b| - 1]) / 256 == hi;
      assert b == front + [b[|b| - 1]];
    }
  }

  lemma FixedBeInjective(m: nat, n: nat, len: nat)
    requires m < Pow(256, len) && n < Pow(256, len)
    requires FixedBe(m, len) == FixedBe(n, len)
    ensures m == n
  {
    FromFixedBe(m, len);
    FromFixedBe(n, len);
  }

  lemma FromBytesBeInjective(a: bytes, b: bytes)
    requires |a| == |b| && FromBytesBe(a) == FromBytesBe(b)
    ensures a == b
  {
    FixedFromBe(a);
    FixedFromBe(b);
  }

  lemma {:induction false} FromToBytesBe(n: nat)
    ensures FromBytesBe(ToBytesBe(n)) == n
    decreases n
  {
    var b := ToBytesBe(n);
    if n < 256 {
      assert b[..0] == [];
    } else {
      FromToBytesBe(n / 256);
      assert b[..|b| - 1] == ToBytesBe(n / 256);
    }
  }

  /** The minimal encoding fits in `len` bytes exactly when the number does. */
  lemma {:induction false} ToBytesBeLength(n: nat, len: nat)
    requires len >= 1
    ensures |ToBytesBe(n)| <= len <==> n < Pow(256, len)
  {
    assert Pow(256, 1) == 256;
    if n < 256 {
      PowMonotone(256, 1, len);
    } else if len > 1 {
      ToBytesBeLength(n / 256, len - 1);
    } else {
      assert |ToBytesBe(n)| >= 2;
    }
  }

  /** Left-padding the minimal encoding with zero bytes is the fixed-width encoding. */
  lemma {:induction false} PaddedIsFixed(n: nat, len: nat)
    requires |ToBytesBe(n)| <= len
    ensures Zeros(len - |ToBytesBe(n)|) + ToBytesBe(n) == FixedBe(n, len)
  {
    if n < 256 {
      FixedZero(len - 1);
      assert n / 256 == 0;
    } else {
      PaddedIsFixed(n / 256, len - 1);
      var pad := Zeros(len - |ToBytesBe(n)|);
      assert pad + ToBytesBe(n) == (pad + ToBytesBe(n / 256)) + [n % 256];
    }
  }

  function Zeros(n: nat): (z: bytes)
    ensures |z| == n && forall i :: 0 <= i < n ==> z[i] == 0
  {
    seq(n, _ => 0)
  }

  lemma {:induction false} FixedZero(len: nat)
    ensures FixedBe(0, len) == Zeros(len)
  {
    if len > 0 { FixedZero(len - 1); }
  }

  // ── Digests ──────────────────────────────────────────────────────────────

  /** A 32-byte digest. */
  type Digest = d: seq<u8> | |d| == 32 witness Zeros(32)

  /** A hash function on byte strings; nothing is assumed about it. */
  type Hash = bytes -> Digest

  /** `u64::to_be_bytes`. */
  function Be8(w: u64): (b: bytes)
    ensures |b| == 8
  {
    FixedBe(w, 8)
  }

  /** The word written big-endian at this place. */
  function WordAt(m: bytes, at: nat): nat
    requires at + 8 <= |m|
  {
    FromBytesBe(m[at..at + 8])
  }

  lemma Be8Reads(m: bytes, at: nat, w: u64)
    requires at + 8 <= |m| && m[at..at + 8] == Be8(w)
    ensures WordAt(m, at) == w
  {
    Pow256To8();
    FromFixedBe(w, 8);
  }

  /** `u64::to_le_bytes`. */
  function Le8(w: u64): (b: bytes)
    ensures |b| == 8
  {
    var be := Be8(w);
    seq(8, i requires 0 <= i < 8 => be[7 - i])
  }

  /** `u64::from_le_bytes`. */
  function FromLe8(b: bytes): (w: u64)
    requires |b| == 8
  {
    var be: bytes := seq(8, i requires 0 <= i < 8 => b[7 - i]);
    EightBytesBound(be);
    FromBytesBe(be)
  }

  lemma EightBytesBound(b: bytes)
    requires |b| == 8
    ensures FromBytesBe(b) <= U64_MAX
  {
    FixedFromBe(b);
    Pow256To8();
  }

  lemma Be8Injective(v: u64, w: u64)
    requires Be8(v) == Be8(w)
    ensures v == w
  {
    Pow256To8();
    FixedBeInjective(v, w, 8);
  }

  /** Reading undoes writing. */
  lemma FromLe8Le8(w: u64)
    ensures FromLe8(Le8(w)) == w
  {
    var b := Le8(w);
    var be: bytes := seq(8, i requires 0 <= i < 8 => b[7 - i]);
    assert be == Be8(w);
    Pow256To8();
    FromFixedBe(w, 8);
  }

  lemma Le8Injective(v: u64, w: u64)
    requires Le8(v) == Le8(w)
    ensures v == w
  {
    FromLe8Le8(v);
    FromLe8Le8(w);
  }

  lemma Pow256To8()
    ensures Pow(256, 8) == 0x1_0000_0000_0000_0000
  {
    assert Pow(256, 2) == 0x1_0000;
    PowMul(256, 2, 2);
    assert Pow(256, 4) == Pow(Pow(256, 2), 2) == 0x1_0000_0000;
    PowMul(256, 4, 2);
    assert Pow(256, 8) == Pow(Pow(256, 4), 2);
  }

  /** Two of the listed messages, one in each list, are different and hash alike. */
  ghost predicate Collides(H: Hash, left: seq<bytes>, right: seq<bytes>) {
    exists m, n :: m in left && n in right && m != n && H(m) == H(n)
  }
}
