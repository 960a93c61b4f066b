/** Chronos-AEAD and its wire format: `crates/chronos-snark/src/aead.rs`. */
module Aead {
  import opened Words
  import opened Poseidon

  datatype Ciphertext = Ciphertext(nonce: Fr, body: seq<Fr>, tag: Fr)

  datatype AeadError = EmptyBody | AuthenticationFailed | NotWholeWords | TooFewWords | NotCanonical(word: nat)

  /** `KEY_ELEMS` is 2. */
  type Key = k: seq<Fr> | |k| == 2 witness [0, 0]

  function Keystream(S: Sponge, key: Key, nonce: Fr, n: nat): (ks: seq<Fr>)
    ensures |ks| == n
  {
    HashMany(S, AeadKeystream, [key[0], key[1], nonce], n)
  }

  function Tag(S: Sponge, key: Key, nonce: Fr, body: seq<Fr>): Fr {
    HashField(S, AeadTag, [key[0], key[1], nonce] + body)
  }

  function AddAll(a: seq<Fr>, b: seq<Fr>): (c: seq<Fr>)
    requires |a| == |b|
    ensures |c| == |a|
  {
    var f: nat -> Fr := (i: nat) => if i < |a| then FieldAdd(a[i], b[i]) else 0;
    seq<Fr>(|a|, f)
  }

  function SubAll(a: seq<Fr>, b: seq<Fr>): (c: seq<Fr>)
    requires |a| == |b|
    ensures |c| == |a|
  {
    var f: nat -> Fr := (i: nat) => if i < |a| then FieldSub(a[i], b[i]) else 0;
    seq<Fr>(|a|, f)
  }

  function Encrypt(S: Sponge, key: Key, nonce: Fr, plaintext: seq<Fr>): Result<Ciphertext, AeadError> {
    if plaintext == [] then Err(EmptyBody)
    else
      var body := AddAll(plaintext, Keystream(S, key, nonce, |plaintext|));
      Ok(Ciphertext(nonce, body, Tag(S, key, nonce, body)))
  }

  /** The tag is checked before any plaintext is formed. */
  function Decrypt(S: Sponge, key: Key, ct: Ciphertext): Result<seq<Fr>, AeadError> {
    if ct.body == [] then Err(EmptyBody)
    else if Tag(S, key, ct.nonce, ct.body) != ct.tag then Err(AuthenticationFailed)
    else Ok(SubAll(ct.body, Keystream(S, key, ct.nonce, |ct.body|)))
  }

  /**
   * Decryption and encryption are each other's inverse: a ciphertext opens to a plaintext
   * exactly when sealing that plaintext under its nonce gives back that ciphertext.
   */
  lemma DecryptInvertsEncrypt(S: Sponge, key: Key, ct: Ciphertext, plaintext: seq<Fr>)
    ensures Decrypt(S, key, ct) == Ok(plaintext) <==> Encrypt(S, key, ct.nonce, plaintext) == Ok(ct)
  {
    if |plaintext| == |ct.body| {
      var ks := Keystream(S, key, ct.nonce, |ct.body|);
      if SubAll(ct.body, ks) == plaintext {
        forall i | 0 <= i < |ks| ensures AddAll(plaintext, ks)[i] == ct.body[i] {
          assert plaintext[i] == FieldSub(ct.body[i], ks[i]);
        }
        assert AddAll(plaintext, ks) == ct.body;
      }
      if AddAll(plaintext, ks) == ct.body {
        forall i | 0 <= i < |ks| ensures SubAll(ct.body, ks)[i] == plaintext[i] {
          assert ct.body[i] == FieldAdd(plaintext[i], ks[i]);
        }
        assert SubAll(ct.body, ks) == plaintext;
      }
    }
  }

  function TagInput(key: Key, ct: Ciphertext): seq<Fr> {
    Absorbed(AeadTag, [key[0], key[1], ct.nonce] + ct.body)
  }

  /** The tag binds key, nonce and body: two ciphertexts that authenticate with one tag are the same. */
  lemma TagBinds(S: Sponge, key: Key, a: Ciphertext, key': Key, b: Ciphertext)
    requires Decrypt(S, key, a).Ok? && Decrypt(S, key', b).Ok? && a.tag == b.tag
    ensures (key == key' && a == b) || SqueezeAlike(S, TagInput(key, a), TagInput(key', b), 0)
  {
    if TagInput(key, a) == TagInput(key', b) {
      var x, y := [key[0], key[1], a.nonce] + a.body, [key'[0], key'[1], b.nonce] + b.body;
      AbsorbedInjective(AeadTag, x, AeadTag, y);
      assert x[0] == y[0] && x[1] == y[1] && x[2] == y[2];
      assert x[3..] == a.body && y[3..] == b.body;
      assert key == key';
    }
  }

  /** A nonce used twice under one key gives away the difference of the two plaintexts. */
  lemma NonceReuse(S: Sponge, key: Key, nonce: Fr, p: seq<Fr>, q: seq<Fr>, i: nat)
    requires i < |p| && i < |q|
    ensures var a, b := Encrypt(S, key, nonce, p), Encrypt(S, key, nonce, q);
            a.Ok? && b.Ok? && |a.value.body| == |p| && |b.value.body| == |q|
            && FieldSub(a.value.body[i], b.value.body[i]) == FieldSub(p[i], q[i])
  {
    var ks := Keystream(S, key, nonce, |p|);
    assert ks[i] == Keystream(S, key, nonce, |q|)[i];
  }

  function DeriveKey(S: Sponge, y: bytes, salt: bytes): Key
    requires |y| <= U64_MAX && |salt| <= U64_MAX
  {
    HashMany(S, KeyDerivation, KeyInput(y, salt), 2)
  }

  // ── Wire format ──────────────────────────────────────────────────────────

  function ToElements(ct: Ciphertext): seq<Fr> {
    [ct.nonce] + ct.body + [ct.tag]
  }

  /** 32 big-endian bytes per element. */
  function Serialize(elems: seq<Fr>): (b: bytes)
    ensures |b| == 32 * |elems|
  {
    if elems == [] then [] else Serialize(elems[..|elems| - 1]) + FixedBe(elems[|elems| - 1], 32)
  }

  lemma SerializePush(elems: seq<Fr>, e: Fr)
    ensures Serialize(elems + [e]) == Serialize(elems) + FixedBe(e, 32)
  {
    var all := elems + [e];
    assert all[..|all| - 1] == elems;
  }

  lemma SerializeOneMore(elems: seq<Fr>, i: nat)
    requires i < |elems|
    ensures Serialize(elems[..i + 1]) == Serialize(elems[..i]) + FixedBe(elems[i], 32)
  {
    assert elems[..i + 1] == elems[..i] + [elems[i]];
    SerializePush(elems[..i], elems[i]);
  }

  lemma {:induction false} SerializeInjective(a: seq<Fr>, b: seq<Fr>)
    requires Serialize(a) == Serialize(b)
    ensures a == b
  {
    if a != [] {
      var k := |a| - 1;
      var x, y := Serialize(a[..k]), Serialize(b[..k]);
      assert Serialize(a)[..32 * k] == x && Serialize(b)[..32 * k] == y;
      assert Serialize(a)[32 * k..] == FixedBe(a[k], 32) && Serialize(b)[32 * k..] == FixedBe(b[k], 32);
      SerializeInjective(a[..k], b[..k]);
      Pow256Facts();
      FixedBeInjective(a[k], b[k], 32);
      assert a == a[..k] + [a[k]] && b == b[..k] + [b[k]];
    }
  }

  method ToBytes(ct: Ciphertext) returns (out: bytes)
    ensures out == Serialize(ToElements(ct))
  {
    var elems := ToElements(ct);
    out := [];
    for i := 0 to |elems|
      invariant out == Serialize(elems[..i])
    {
      var word := FixedBe(elems[i], 32);
      SerializeOneMore(elems, i);
      out := out + word;
    }
    assert elems[..|elems|] == elems;
  }

  lemma WordHasOneElement(word: bytes, f: Fr, e: Fr)
    requires |word| == 32 && f == FromBytesBe(word) % R && FixedBe(e, 32) == word
    ensures e == f
  {
    WordRoundTrip(e);
  }

  /** The loop of `from_bytes`: the words as elements, unless one is not in canonical form. */
  method ReadElements(b: bytes) returns (r: Result<seq<Fr>, AeadError>)
    requires |b| % 32 == 0
    ensures r.Ok? ==> Serialize(r.value) == b
    ensures r.Err? ==> r.error.NotCanonical? && forall d: Ciphertext :: b != Serialize(ToElements(d))
  {
    var n := |b| / 32;
    var elems: seq<Fr> := [];
    for i := 0 to n
      invariant |elems| == i && Serialize(elems) == b[..32 * i]
    {
      var word := b[32 * i..32 * i + 32];
      var elem: Fr := FromBytesBe(word) % R;
      if FixedBe(elem, 32) != word {
        NoCiphertextHas(b, i, elem);
        return Err(NotCanonical(i));
      }
      SerializePush(elems, elem);
      assert b[..32 * (i + 1)] == b[..32 * i] + word;
      elems := elems + [elem];
    }
    assert b[..32 * n] == b;
    return Ok(elems);
  }

  /**
   * `from_bytes`: it accepts exactly the serialisations of ciphertexts with a non-empty body,
   * and returns the ciphertext that was serialised.
   */
  method FromBytes(b: bytes) returns (r: Result<Ciphertext, AeadError>)
    ensures r.Ok? ==> |r.value.body| >= 1 && b == Serialize(ToElements(r.value))
    ensures forall ct: Ciphertext :: ct.body != [] && b == Serialize(ToElements(ct)) ==> r == Ok(ct)
    ensures r == Err(NotWholeWords) <==> |b| % 32 != 0
    ensures r == Err(TooFewWords) <==> |b| % 32 == 0 && |b| < 96
  {
    if |b| % 32 != 0 { return Err(NotWholeWords); }
    if |b| / 32 < 3 { return Err(TooFewWords); }
    var read := ReadElements(b);
    if read.Err? { return Err(read.error); }
    var elems := read.value;
    var tag := elems[|elems| - 1];
    var nonce := elems[0];
    var ct := Ciphertext(nonce, elems[1..|elems| - 1], tag);
    assert ToElements(ct) == elems;
    OnlyCiphertextIs(b, ct);
    return Ok(ct);
  }

  lemma ElementsInjective(c: Ciphertext, d: Ciphertext)
    requires ToElements(c) == ToElements(d)
    ensures c == d
  {
    var e, f := ToElements(c), ToElements(d);
    assert e[0] == c.nonce && f[0] == d.nonce;
    assert e[|e| - 1] == c.tag && f[|f| - 1] == d.tag;
    assert e[1..|e| - 1] == c.body && f[1..|f| - 1] == d.body;
  }

  lemma OnlyCiphertextIs(b: bytes, ct: Ciphertext)
    requires b == Serialize(ToElements(ct))
    ensures forall d: Ciphertext :: b == Serialize(ToElements(d)) ==> d == ct
  {
    forall d: Ciphertext | b == Serialize(ToElements(d)) ensures d == ct {
      SerializeInjective(ToElements(d), ToElements(ct));
      ElementsInjective(d, ct);
    }
  }

  lemma NoCiphertextHas(b: bytes, i: nat, f: Fr)
    requires 32 * i + 32 <= |b| && f == FromBytesBe(b[32 * i..32 * i + 32]) % R
    requires FixedBe(f, 32) != b[32 * i..32 * i + 32]
    ensures forall d: Ciphertext :: b != Serialize(ToElements(d))
  {
    forall d: Ciphertext ensures b != Serialize(ToElements(d)) {
      if b == Serialize(ToElements(d)) { NotASerialization(ToElements(d), i, f); }
    }
  }

  /** A word that reduction changes is no word of a serialisation. */
  lemma NotASerialization(elems: seq<Fr>, i: nat, f: Fr)
    requires i < |elems| && f == FromBytesBe(Serialize(elems)[32 * i..32 * i + 32]) % R
    ensures FixedBe(f, 32) == Serialize(elems)[32 * i..32 * i + 32]
  {
    WordOf(elems, i);
    WordHasOneElement(Serialize(elems)[32 * i..32 * i + 32], f, elems[i]);
  }

  /** The `i`-th 32-byte word of a serialisation. */
  lemma {:induction false} WordOf(elems: seq<Fr>, i: nat)
    requires i < |elems|
    ensures Serialize(elems)[32 * i..32 * i + 32] == FixedBe(elems[i], 32)
  {
    var k := |elems| - 1;
    var front := Serialize(elems[..k]);
    if i < k {
      WordOf(elems[..k], i);
      assert Serialize(elems)[32 * i..32 * i + 32] == front[32 * i..32 * i + 32];
    } else {
      var last := FixedBe(elems[k], 32);
      assert Serialize(elems) == front + last && |front| == 32 * k;
      assert (front + last)[32 * k..32 * k + 32] == last;
    }
  }
}
