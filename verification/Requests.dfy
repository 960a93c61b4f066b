/** The string a request MAC covers: `crates/chronos-agent/src/crypto.rs`. */
module Requests {
  import opened Words

  /** A length prefix and the field. A field is shorter than `2^64` bytes. */
  function Field(f: bytes): (b: bytes)
    requires |f| <= U64_MAX
    ensures |b| == 8 + |f|
  {
    Be8(|f|) + f
  }

  /** The canonical string of a request, the body entering through its digest. */
  function Canonical(H: Hash, verb: bytes, path: bytes, nonceHex: bytes, body: bytes): bytes
    requires |verb| <= U64_MAX && |path| <= U64_MAX && |nonceHex| <= U64_MAX
  {
    Field(verb) + Field(path) + Field(nonceHex) + Field(H(body))
  }

  /** `canonical_request`: the fields are appended one by one to a growing vector. */
  method CanonicalRequest(H: Hash, verb: bytes, path: bytes, nonceHex: bytes, body: bytes) returns (out: bytes)
    requires |verb| <= U64_MAX && |path| <= U64_MAX && |nonceHex| <= U64_MAX
    ensures out == Canonical(H, verb, path, nonceHex, body)
  {
    var bodyDigest := H(body);
    var fields := [verb, path, nonceHex];
    out := [];
    for i := 0 to 3
      invariant i == 0 ==> out == []
      invariant i == 1 ==> out == Field(verb)
      invariant i == 2 ==> out == Field(verb) + Field(path)
      invariant i == 3 ==> out == Field(verb) + Field(path) + Field(nonceHex)
    {
      assert out + Be8(|fields[i]|) + fields[i] == out + Field(fields[i]);
      out := out + Be8(|fields[i]|);
      out := out + fields[i];
    }
    assert out + Be8(|bodyDigest|) + bodyDigest == out + Field(bodyDigest);
    out := out + Be8(|bodyDigest|);
    out := out + bodyDigest;
  }

  /** A length-prefixed field can be split off unambiguously, whatever follows it. */
  lemma FieldSplits(f: bytes, rest: bytes, g: bytes, rest': bytes)
    requires |f| <= U64_MAX && |g| <= U64_MAX && Field(f) + rest == Field(g) + rest'
    ensures f == g && rest == rest'
  {
    var m, n := Field(f) + rest, Field(g) + rest';
    assert m[..8] == Be8(|f|) && n[..8] == Be8(|g|);
    Be8Injective(|f|, |g|);
    assert m[8..8 + |f|] == f && n[8..8 + |g|] == g;
    assert m[8 + |f|..] == rest && n[8 + |g|..] == rest';
  }

  function FourFields(a: bytes, b: bytes, c: bytes, d: bytes): bytes
    requires |a| <= U64_MAX && |b| <= U64_MAX && |c| <= U64_MAX && |d| <= U64_MAX
  {
    Field(a) + (Field(b) + (Field(c) + (Field(d) + [])))
  }

  lemma FourFieldsInjective(a: bytes, b: bytes, c: bytes, d: bytes, a': bytes, b': bytes, c': bytes, d': bytes)
    requires |a| <= U64_MAX && |b| <= U64_MAX && |c| <= U64_MAX && |d| <= U64_MAX
    requires |a'| <= U64_MAX && |b'| <= U64_MAX && |c'| <= U64_MAX && |d'| <= U64_MAX
    requires FourFields(a, b, c, d) == FourFields(a', b', c', d')
    ensures a == a' && b == b' && c == c' && d == d'
  {
    var r, r' := Field(d) + [], Field(d') + [];
    FieldSplits(a, Field(b) + (Field(c) + r), a', Field(b') + (Field(c') + r'));
    FieldSplits(b, Field(c) + r, b', Field(c') + r');
    FieldSplits(c, r, c', r');
    FieldSplits(d, [], d', []);
  }

  lemma CanonicalFields(H: Hash, verb: bytes, path: bytes, nonceHex: bytes, body: bytes)
    requires |verb| <= U64_MAX && |path| <= U64_MAX && |nonceHex| <= U64_MAX
    ensures Canonical(H, verb, path, nonceHex, body) == FourFields(verb, path, nonceHex, H(body))
  {
  }

  /**
   * The canonical string determines method, path, nonce and body digest; two requests with one
   * canonical string differ at most in bodies that hash alike.
   */
  lemma CanonicalInjective(H: Hash, verb: bytes, path: bytes, nonceHex: bytes, body: bytes,
                           verb': bytes, path': bytes, nonceHex': bytes, body': bytes)
    requires |verb| <= U64_MAX && |path| <= U64_MAX && |nonceHex| <= U64_MAX
    requires |verb'| <= U64_MAX && |path'| <= U64_MAX && |nonceHex'| <= U64_MAX
    requires Canonical(H, verb, path, nonceHex, body) == Canonical(H, verb', path', nonceHex', body')
    ensures verb == verb' && path == path' && nonceHex == nonceHex' && H(body) == H(body')
    ensures body == body' || Collides(H, [body], [body'])
  {
    CanonicalFields(H, verb, path, nonceHex, body);
    CanonicalFields(H, verb', path', nonceHex', body');
    FourFieldsInjective(verb, path, nonceHex, H(body), verb', path', nonceHex', H(body'));
    if body != body' {
      assert body in [body] && body' in [body'];
    }
  }

  /** Reading one field off the front: its length, then that many bytes. */
  function ReadField(b: bytes): Option<(bytes, bytes)> {
    if |b| < 8 then None
    else
      var n := FromBytesBe(b[..8]);
      if |b| < 8 + n then None else Some((b[8..8 + n], b[8 + n..]))
  }

  lemma ReadsBack(f: bytes, rest: bytes)
    requires |f| <= U64_MAX
    ensures ReadField(Field(f) + rest) == Some((f, rest))
  {
    var b := Field(f) + rest;
    assert b[..8] == Be8(|f|) && b[8..8 + |f|] == f && b[8 + |f|..] == rest;
    Pow256To8();
    FromFixedBe(|f|, 8);
  }

  /** A reader that knows no more than the length prefixes gets method, path, nonce and digest, in that order. */
  lemma CanonicalReads(H: Hash, verb: bytes, path: bytes, nonceHex: bytes, body: bytes)
    requires |verb| <= U64_MAX && |path| <= U64_MAX && |nonceHex| <= U64_MAX
    ensures var first := ReadField(Canonical(H, verb, path, nonceHex, body));
            first.Some? && first.value.0 == verb &&
            var second := ReadField(first.value.1);
            second.Some? && second.value.0 == path &&
            var third := ReadField(second.value.1);
            third.Some? && third.value.0 == nonceHex && ReadField(third.value.1) == Some((H(body), []))
  {
    var last := Field(H(body)) + [];
    assert Canonical(H, verb, path, nonceHex, body) == Field(verb) + (Field(path) + (Field(nonceHex) + last));
    ReadsBack(verb, Field(path) + (Field(nonceHex) + last));
    ReadsBack(path, Field(nonceHex) + last);
    ReadsBack(nonceHex, last);
    ReadsBack(H(body), []);
  }

  /** Joining the fields with a separator instead would be ambiguous. */
  lemma DelimitedIsAmbiguous()
    ensures var a: bytes, nl: bytes := [0x61], [0x0A];
            a + nl + (nl + a) == (a + nl) + nl + a && a != a + nl
  {
  }
}
