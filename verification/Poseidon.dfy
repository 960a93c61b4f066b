/**
 * The BN254 scalar field and the byte encodings of `crates/chronos-snark/src/poseidon.rs`.
 * The permutation is not modelled: a sponge is any function from the absorbed elements and an
 * index to a squeezed element, and the results here are about what is absorbed.
 */
module Poseidon {
  import opened Words
  import opened NumberTheory

  /** Order of the BN254 scalar field. */
  const R: nat := 21888242871839275222246405745257275088548364400416034343698204186575808495617

  type Fr = x: int | 0 <= x < R

  function FieldAdd(a: Fr, b: Fr): Fr {
    if a + b < R then a + b else a + b - R
  }

  function FieldSub(a: Fr, b: Fr): Fr {
    if a >= b then a - b else a - b + R
  }

  /** Squeezed element number `i` after absorbing the sequence. */
  type Sponge = (seq<Fr>, nat) -> Fr

  datatype Domain =
    | VdfOutput | CiphertextDomain | SecretKey | WipedBuffer | MissionId
    | KeyDerivation | AeadKeystream | AeadTag | IdentityRoot | ContainmentLedger
  {
    function ToField(): (t: Fr)
      ensures 1 <= t <= 10
    {
      match this
      case VdfOutput => 1
      case CiphertextDomain => 2
      case SecretKey => 3
      case WipedBuffer => 4
      case MissionId => 5
      case KeyDerivation => 6
      case AeadKeystream => 7
      case AeadTag => 8
      case IdentityRoot => 9
      case ContainmentLedger => 10
    }
  }

  function Absorbed(d: Domain, inputs: seq<Fr>): seq<Fr> {
    [d.ToField()] + inputs
  }

  function HashField(S: Sponge, d: Domain, inputs: seq<Fr>): Fr {
    S(Absorbed(d, inputs), 0)
  }

  function HashMany(S: Sponge, d: Domain, inputs: seq<Fr>, n: nat): (out: seq<Fr>)
    ensures |out| == n
  {
    var squeeze: nat -> Fr := i => S(Absorbed(d, inputs), i);
    seq<Fr>(n, squeeze)
  }

  /** Two different absorbed sequences squeeze to one element. */
  predicate SqueezeAlike(S: Sponge, x: seq<Fr>, y: seq<Fr>, i: nat) {
    x != y && S(x, i) == S(y, i)
  }

  /** What is absorbed determines the domain and the inputs. */
  lemma AbsorbedInjective(d: Domain, x: seq<Fr>, e: Domain, y: seq<Fr>)
    requires Absorbed(d, x) == Absorbed(e, y)
    ensures d == e && x == y
  {
    var p, q := Absorbed(d, x), Absorbed(e, y);
    assert p[0] == q[0];
    assert x == p[1..] && y == q[1..];
  }

  lemma Pow256Facts()
    ensures Pow(256, 16) == 0x1_0000_0000_0000_0000_0000_0000_0000_0000 < R < Pow(256, 32)
  {
    Pow256To8();
    PowMul(256, 8, 2);
    assert Pow(256, 16) == Pow(Pow(256, 8), 2);
    assert Pow(Pow(256, 8), 2) == Pow(256, 8) * (Pow(256, 8) * 1);
    PowMul(256, 16, 2);
    assert Pow(Pow(256, 16), 2) == Pow(256, 16) * (Pow(256, 16) * 1);
  }

  /** A field element survives the trip through 32 big-endian bytes. */
  lemma WordRoundTrip(f: Fr)
    ensures FromBytesBe(FixedBe(f, 32)) == f
  {
    Pow256Facts();
    FromFixedBe(f, 32);
  }

  // ── Byte packing ─────────────────────────────────────────────────────────

  /** One limb: at most 16 bytes, zero-padded on the right. */
  function Limb(chunk: bytes): (f: Fr)
    requires |chunk| <= 16
    ensures f < Pow(256, 16)
  {
    var buf := chunk + Zeros(16 - |chunk|);
    FixedFromBe(buf);
    Pow256Facts();
    FromBytesBe(buf)
  }

  function PackBytes(b: bytes): (limbs: seq<Fr>)
    ensures |limbs| == LimbCount(|b|)
  {
    if b == [] then []
    else if |b| <= 16 then [Limb(b)]
    else [Limb(b[..16])] + PackBytes(b[16..])
  }

  function LimbCount(len: nat): nat {
    (len + 15) / 16
  }

  lemma LimbInjective(a: bytes, b: bytes)
    requires |a| == |b| <= 16 && Limb(a) == Limb(b)
    ensures a == b
  {
    FromBytesBeInjective(a + Zeros(16 - |a|), b + Zeros(16 - |b|));
    assert a == (a + Zeros(16 - |a|))[..|a|];
    assert b == (b + Zeros(16 - |b|))[..|b|];
  }

  /** Among strings of one length the limbs determine the bytes. */
  lemma {:induction false} PackInjective(a: bytes, b: bytes)
    requires |a| == |b| && PackBytes(a) == PackBytes(b)
    ensures a == b
  {
    if a != [] {
      if |a| <= 16 {
        assert PackBytes(a)[0] == PackBytes(b)[0];
        LimbInjective(a, b);
      } else {
        assert PackBytes(a)[0] == PackBytes(b)[0];
        assert PackBytes(a)[1..] == PackBytes(a[16..]) && PackBytes(b)[1..] == PackBytes(b[16..]);
        LimbInjective(a[..16], b[..16]);
        PackInjective(a[16..], b[16..]);
        assert a == a[..16] + a[16..] && b == b[..16] + b[16..];
      }
    }
  }

  /** The 16 bytes from this place on, zeros standing for bytes past the end. */
  function Window(b: bytes, at: nat): (w: bytes)
    requires at < |b|
    ensures |w| == 16
  {
    var rest := b[at..];
    if |rest| >= 16 then rest[..16] else rest + Zeros(16 - |rest|)
  }

  lemma WindowShift(b: bytes, at: nat)
    requires |b| > 16 && at < |b| - 16
    ensures Window(b[16..], at) == Window(b, at + 16)
  {
    assert b[16..][at..] == b[at + 16..];
  }

  lemma RestAt(b: bytes, i: nat)
    requires |b| > 16 && 0 < i < LimbCount(|b|)
    ensures i - 1 < LimbCount(|b[16..]|) && PackBytes(b)[i] == PackBytes(b[16..])[i - 1]
  {
  }

  /** Limb `i` is the number written by the 16 bytes from `16 i` on. */
  lemma {:induction false} PackAt(b: bytes, i: nat)
    requires i < LimbCount(|b|)
    ensures PackBytes(b)[i] == FromBytesBe(Window(b, 16 * i))
  {
    if i == 0 {
      FirstLimb(b);
    } else {
      var k, rest := i - 1, b[16..];
      RestAt(b, i);
      PackAt(rest, k);
      var at := 16 * k;
      WindowShift(b, at);
    }
  }

  lemma FirstLimb(b: bytes)
    requires b != []
    ensures PackBytes(b)[0] == FromBytesBe(Window(b, 0))
  {
    assert b[0..] == b;
    if |b| > 16 {
      assert b[..16] + Zeros(0) == b[..16];
    } else {
      assert b + Zeros(16 - |b|) == Window(b, 0);
    }
  }

  /** Packing alone is not injective: a trailing zero byte is invisible in the limbs. */
  lemma PackIgnoresTrailingZero(v: u8)
    ensures PackBytes([v]) == PackBytes([v, 0])
  {
    assert [v] + Zeros(15) == [v, 0] + Zeros(14);
  }

  /** `Fr::from(len as u64)`; a byte string is shorter than `2^64`. */
  function LengthElement(b: bytes): Fr
    requires |b| <= U64_MAX
  {
    |b|
  }

  function BytesInput(b: bytes): seq<Fr>
    requires |b| <= U64_MAX
  {
    [LengthElement(b)] + PackBytes(b)
  }

  function HashBytes(S: Sponge, d: Domain, b: bytes): Fr
    requires |b| <= U64_MAX
  {
    HashField(S, d, BytesInput(b))
  }

  /** What `hash_bytes` absorbs determines the domain and the byte string. */
  lemma HashBytesInputInjective(d: Domain, a: bytes, e: Domain, b: bytes)
    requires |a| <= U64_MAX && |b| <= U64_MAX
    requires Absorbed(d, BytesInput(a)) == Absorbed(e, BytesInput(b))
    ensures d == e && a == b
  {
    var x, y := Absorbed(d, BytesInput(a)), Absorbed(e, BytesInput(b));
    assert x[0] == y[0] && x[1] == y[1];
    assert x[2..] == PackBytes(a) && y[2..] == PackBytes(b);
    PackInjective(a, b);
  }

  function KeyInput(y: bytes, salt: bytes): seq<Fr>
    requires |y| <= U64_MAX && |salt| <= U64_MAX
  {
    BytesInput(y) + BytesInput(salt)
  }

  /** What `derive_key` absorbs determines the VDF output and the salt. */
  lemma KeyInputInjective(y: bytes, salt: bytes, y': bytes, salt': bytes)
    requires |y| <= U64_MAX && |salt| <= U64_MAX && |y'| <= U64_MAX && |salt'| <= U64_MAX
    requires Absorbed(KeyDerivation, KeyInput(y, salt)) == Absorbed(KeyDerivation, KeyInput(y', salt'))
    ensures y == y' && salt == salt'
  {
    var p, q := KeyInput(y, salt), KeyInput(y', salt');
    assert p == Absorbed(KeyDerivation, p)[1..] && q == Absorbed(KeyDerivation, q)[1..];
    assert p[0] == |y| && q[0] == |y'|;
    var k := 1 + LimbCount(|y|);
    assert p[..k] == BytesInput(y) && q[..k] == BytesInput(y');
    assert p[k..] == BytesInput(salt) && q[k..] == BytesInput(salt');
    assert BytesInput(y)[1..] == PackBytes(y) && BytesInput(y')[1..] == PackBytes(y');
    assert BytesInput(salt)[0] == |salt| && BytesInput(salt')[0] == |salt'|;
    assert BytesInput(salt)[1..] == PackBytes(salt) && BytesInput(salt')[1..] == PackBytes(salt');
    PackInjective(y, y');
    PackInjective(salt, salt');
  }

  // ── Fixed 32-byte values ─────────────────────────────────────────────────

  function Split32(b: Digest): (pair: seq<Fr>)
    ensures |pair| == 2
  {
    [Limb(b[..16]), Limb(b[16..])]
  }

  /** The two halves are the digits of the 32-byte number to the base `2^128`, the high one first. */
  lemma Split32Value(b: Digest)
    ensures Split32(b)[0] * Pow(256, 16) + Split32(b)[1] == FromBytesBe(b)
  {
    FromSplit(b, 16);
    LimbOfSixteen(b[..16]);
    LimbOfSixteen(b[16..]);
  }

  lemma LimbOfSixteen(b: bytes)
    requires |b| == 16
    ensures Limb(b) == FromBytesBe(b) && FixedBe(Limb(b), 16) == b
  {
    assert b + Zeros(0) == b;
    FixedFromBe(b);
  }

  lemma QuotientZero(n: nat, hi: nat, m: int, lo: nat)
    requires n == hi * m + lo && lo < m
    ensures n < m <==> hi == 0
  {
    MulBounds(hi, m);
  }

  lemma ZeroPrefix(b: bytes)
    ensures b == Zeros(|b|) <==> FromBytesBe(b) == 0
  {
    FixedFromBe(b);
    FromZeros(|b|);
    FixedZero(|b|);
  }

  /** The high digits of a number are all zero exactly when the number is small. */
  lemma HighDigitsZero(n: nat, len: nat, k: nat)
    requires n < Pow(256, len + k)
    ensures FixedBe(n, len + k)[..len] == Zeros(len) <==> n < Pow(256, k)
  {
    var b := FixedBe(n, len + k);
    FromFixedBe(n, len + k);
    FromSplit(b, len);
    FixedFromBe(b[len..]);
    ZeroPrefix(b[..len]);
    QuotientZero(n, FromBytesBe(b[..len]), Pow(256, k), FromBytesBe(b[len..]));
  }

  lemma {:induction false} FromZeros(len: nat)
    ensures FromBytesBe(Zeros(len)) == 0
  {
    if len > 0 {
      assert Zeros(len)[..len - 1] == Zeros(len - 1);
      FromZeros(len - 1);
    }
  }

  lemma {:induction false} FromSplit(b: bytes, k: nat)
    requires k <= |b|
    ensures FromBytesBe(b) == FromBytesBe(b[..k]) * Pow(256, |b| - k) + FromBytesBe(b[k..])
  {
    if k == |b| {
      assert b[..k] == b && b[k..] == [];
    } else {
      var front := b[..|b| - 1];
      FromSplit(front, k);
      assert front[..k] == b[..k] && front[k..] == b[k..][..|b| - k - 1];
      var h, p := FromBytesBe(b[..k]), Pow(256, |b| - 1 - k);
      assert h * (256 * p) == (h * p) * 256;
    }
  }

  lemma {:induction false} LowDigits(n: nat, len: nat, k: nat)
    ensures FixedBe(n, len + k)[len..] == FixedBe(n, k)
  {
    if k > 0 {
      LowDigits(n / 256, len, k - 1);
      var hi := FixedBe(n / 256, len + k - 1);
      assert FixedBe(n, len + k) == hi + [n % 256];
      assert (hi + [n % 256])[len..] == hi[len..] + [n % 256];
    }
  }

  /** The low 16 bytes of an element, or None if a higher byte is set. */
  method LowHalf(elem: Fr) returns (r: Option<bytes>)
    ensures r == if elem < Pow(256, 16) then Some(FixedBe(elem, 16)) else None
  {
    Pow256Facts();
    var be := FixedBe(elem, 32);
    HighDigitsZero(elem, 16, 16);
    LowDigits(elem, 16, 16);
    if exists j :: 0 <= j < 16 && be[j] != 0 {
      assert be[..16] != Zeros(16);
      return None;
    }
    assert be[..16] == Zeros(16);
    return Some(be[16..]);
  }

  lemma SplitOfJoined(pair: seq<Fr>, b: Digest)
    requires |pair| == 2 && pair[0] < Pow(256, 16) && pair[1] < Pow(256, 16)
    requires b == FixedBe(pair[0], 16) + FixedBe(pair[1], 16)
    ensures Split32(b) == pair
  {
    assert b[..16] == FixedBe(pair[0], 16) && b[16..] == FixedBe(pair[1], 16);
    FromFixedBe(pair[0], 16);
    FromFixedBe(pair[1], 16);
    LimbOfSixteen(b[..16]);
    LimbOfSixteen(b[16..]);
  }

  /**
   * `join32`, filling a 32-byte buffer: it returns `b` exactly when `pair` is the split of `b`,
   * so it fails exactly when `pair` is the split of nothing.
   */
  method Join32(pair: seq<Fr>) returns (r: Option<Digest>)
    requires |pair| == 2
    ensures forall b: Digest :: Split32(b) == pair <==> r == Some(b)
  {
    var out := new u8[32](_ => 0);
    for i := 0 to 2
      invariant i >= 1 ==> pair[0] < Pow(256, 16) && out[..16] == FixedBe(pair[0], 16)
      invariant i >= 2 ==> pair[1] < Pow(256, 16) && out[16..32] == FixedBe(pair[1], 16)
    {
      var body := LowHalf(pair[i]);
      if body.None? { return None; }
      ghost var first := out[..16];
      forall j | 0 <= j < 16 { out[16 * i + j] := body.value[j]; }
      assert out[16 * i..16 * i + 16] == body.value;
      assert i == 1 ==> out[..16] == first;
    }
    var joined: Digest := out[..];
    assert joined == out[..16] + out[16..32];
    SplitOfJoined(pair, joined);
    forall b: Digest | Split32(b) == pair ensures b == joined { Split32Injective(b, joined); }
    return Some(joined);
  }

  lemma Split32Injective(a: Digest, b: Digest)
    requires Split32(a) == Split32(b)
    ensures a == b
  {
    assert Split32(a)[0] == Split32(b)[0] && Split32(a)[1] == Split32(b)[1];
    LimbInjective(a[..16], b[..16]);
    LimbInjective(a[16..], b[16..]);
    assert a == a[..16] + a[16..] && b == b[..16] + b[16..];
  }
}
