/**
 * Field elements and digests as text in the mission artifact:
 * `crates/chronos-snark/src/mission.rs`. A character stands for one byte of the text.
 */
module Mission {
  import opened Words
  import opened NumberTheory
  import opened Poseidon

  /** `SlicePanic` is no error value: the process ends there. */
  datatype HexError = WrongLength | InvalidHex | NonCanonical | SlicePanic

  const DIGITS: string := "0123456789abcdef"

  function HexByte(b: u8): (s: string)
    ensures |s| == 2
  {
    [DIGITS[b / 16], DIGITS[b % 16]]
  }

  function HexString(b: bytes): (s: string)
    ensures |s| == 2 * |b|
  {
    if b == [] then "" else HexByte(b[0]) + HexString(b[1..])
  }

  /** `fr_to_hex`: `0x` and 64 lower-case digits. */
  function FrToHex(f: Fr): string {
    "0x" + HexString(FixedBe(f, 32))
  }

  function DigitValue(c: char): (v: Option<nat>)
    ensures v.Some? ==> v.value < 16
  {
    if '0' <= c <= '9' then Some(c as int - '0' as int)
    else if 'a' <= c <= 'f' then Some(c as int - 'a' as int + 10)
    else if 'A' <= c <= 'F' then Some(c as int - 'A' as int + 10)
    else None
  }

  function LowerChar(c: char): char {
    if 'A' <= c <= 'Z' then (c as int + 32) as char else c
  }

  function Lower(s: string): (t: string)
    ensures |t| == |s|
  {
    seq(|s|, i requires 0 <= i < |s| => LowerChar(s[i]))
  }

  function HexPair(hi: char, lo: char): Option<u8> {
    var h, l := DigitValue(hi), DigitValue(lo);
    if h.Some? && l.Some? then Some(16 * h.value + l.value) else None
  }

  /** `u8::from_str_radix(_, 16)` on two characters; a leading plus sign is allowed. */
  function ParseByte(hi: char, lo: char): Option<u8> {
    var l := DigitValue(lo);
    if hi == '+' then (if l.Some? then Some(l.value) else None)
    else HexPair(hi, lo)
  }

  /** A byte inside a multi-byte character; a string slice must not begin or end at one. */
  predicate Continues(c: char) {
    0x80 <= c as int < 0xC0
  }

  /** The pairs are cut out and parsed one by one, up to the first that fails. */
  function ParseBytes(s: string): (b: Result<bytes, HexError>)
    requires |s| % 2 == 0
    ensures b.Ok? ==> |b.value| == |s| / 2
  {
    if s == "" then Ok([])
    else if Continues(s[0]) || (|s| > 2 && Continues(s[2])) then Err(SlicePanic)
    else
      var h := ParseByte(s[0], s[1]);
      if h.None? then Err(InvalidHex)
      else
        var t := ParseBytes(s[2..]);
        if t.Err? then t else Ok([h.value] + t.value)
  }

  function StripPrefix(s: string): string {
    if |s| >= 2 && s[..2] == "0x" then s[2..] else s
  }

  function FrFromHex(s: string): Result<Fr, HexError> {
    var stripped := StripPrefix(s);
    if |stripped| != 64 then Err(WrongLength)
    else
      var b := ParseBytes(stripped);
      if b.Err? then Err(b.error)
      else
        var f: Fr := FromBytesBe(b.value) % R;
        if FrToHex(f) != "0x" + Lower(stripped) then Err(NonCanonical) else Ok(f)
  }

  lemma ParseHexByte(b: u8, hi: char, lo: char)
    requires [LowerChar(hi), LowerChar(lo)] == HexByte(b)
    ensures ParseByte(hi, lo) == Some(b)
  {
    var h, l := DIGITS[b / 16], DIGITS[b % 16];
    assert [LowerChar(hi), LowerChar(lo)][0] == h && [LowerChar(hi), LowerChar(lo)][1] == l;
    LowerDigit(hi, b / 16);
    LowerDigit(lo, b % 16);
  }

  lemma {:induction false} HexAt(b: bytes, i: nat)
    requires i < |b|
    ensures HexString(b)[2 * i] == DIGITS[b[i] / 16] && HexString(b)[2 * i + 1] == DIGITS[b[i] % 16]
  {
    if i > 0 {
      HexAt(b[1..], i - 1);
      assert HexString(b)[2..] == HexString(b[1..]);
    }
  }

  /** Byte `i` from the right is digit `i` to the base 256. */
  lemma {:induction false} FixedBeAt(n: nat, len: nat, i: nat)
    requires i < len
    ensures Pow(256, i) > 0 && FixedBe(n, len)[len - 1 - i] == n / Pow(256, i) % 256
  {
    PowPositive(256, i);
    if i > 0 {
      FixedBeAt(n / 256, len - 1, i - 1);
      PowPositive(256, i - 1);
      DivDiv(n, 256, Pow(256, i - 1));
    }
  }

  /** A printed element is its number to the base 16: character `k` from the right is digit `k`. */
  lemma HexDigitAt(f: Fr, k: nat)
    requires k < 64
    ensures |FrToHex(f)| == 66 && Pow(16, k) > 0 && FrToHex(f)[65 - k] == DIGITS[f / Pow(16, k) % 16]
  {
    PowPositive(16, k);
    if k % 2 == 0 {
      PrintedAt(f, k / 2, Pow(16, k));
    } else {
      PowPositive(16, k - 1);
      PrintedAt(f, k / 2, Pow(16, k - 1));
      DivDiv(f, Pow(16, k - 1), 16);
      assert Pow(16, k) == Pow(16, k - 1) * 16;
    }
  }

  lemma PrintedAt(f: Fr, i: nat, p: nat)
    requires i < 32 && p == Pow(16, 2 * i)
    ensures p > 0 && |FrToHex(f)| == 66
    ensures FrToHex(f)[65 - 2 * i] == DIGITS[f / p % 16] && FrToHex(f)[64 - 2 * i] == DIGITS[f / p / 16 % 16]
  {
    PowMul(16, 2, i);
    assert Pow(16, 2) == 256;
    var b := FixedBe(f, 32);
    FixedBeAt(f, 32, i);
    NibbleOf(f / p);
    HexAt(b, 31 - i);
    var s := HexString(b);
    assert FrToHex(f)[2..] == s;
    assert FrToHex(f)[65 - 2 * i] == s[2 * (31 - i) + 1] && FrToHex(f)[64 - 2 * i] == s[2 * (31 - i)];
  }

  lemma NibbleOf(d: nat)
    ensures d % 256 % 16 == d % 16 && d % 256 / 16 == d / 16 % 16
  {
  }

  lemma LowerDigit(c: char, v: nat)
    requires v < 16 && LowerChar(c) == DIGITS[v]
    ensures DigitValue(c) == Some(v) && c != '+'
  {
  }

  lemma LowerSplit(s: string)
    requires |s| >= 2
    ensures Lower(s)[..2] == [LowerChar(s[0]), LowerChar(s[1])] && Lower(s)[2..] == Lower(s[2..])
  {
  }

  lemma HexStringSplit(b: bytes)
    requires b != []
    ensures HexString(b)[..2] == HexByte(b[0]) && HexString(b)[2..] == HexString(b[1..])
  {
  }

  /** Parsing undoes printing, whatever the letter case. */
  lemma {:induction false} ParseHexString(b: bytes, s: string)
    requires Lower(s) == HexString(b)
    ensures |s| == 2 * |b| && ParseBytes(s) == Ok(b)
  {
    assert |s| == |Lower(s)|;
    if b != [] {
      LowerSplit(s);
      HexStringSplit(b);
      ParseHexByte(b[0], s[0], s[1]);
      ParseHexString(b[1..], s[2..]);
      assert b == [b[0]] + b[1..];
    }
  }

  lemma ParsedValue(t: string, f: Fr)
    requires Lower(t) == HexString(FixedBe(f, 32))
    ensures |t| == 64 && ParseBytes(t) == Ok(FixedBe(f, 32))
    ensures FromBytesBe(FixedBe(f, 32)) % R == f
  {
    ParseHexString(FixedBe(f, 32), t);
    WordRoundTrip(f);
  }

  lemma SamePrefix(a: string, b: string)
    requires "0x" + a == "0x" + b
    ensures a == b
  {
    assert ("0x" + a)[2..] == a && ("0x" + b)[2..] == b;
  }

  /**
   * The parser accepts exactly the printed forms, up to letter case and the optional prefix:
   * a non-canonical value or a sign that the digit parser would let through is refused.
   */
  lemma FrFromHexExact(s: string, f: Fr)
    ensures FrFromHex(s) == Ok(f) <==> "0x" + Lower(StripPrefix(s)) == FrToHex(f)
  {
    var t := StripPrefix(s);
    if "0x" + Lower(t) == FrToHex(f) {
      SamePrefix(Lower(t), HexString(FixedBe(f, 32)));
      ParsedValue(t, f);
    }
  }

  lemma {:induction false} HexIsLower(b: bytes)
    ensures Lower(HexString(b)) == HexString(b)
  {
    if b != [] {
      HexIsLower(b[1..]);
      var s := HexString(b);
      assert s[2..] == HexString(b[1..]);
      forall i | 0 <= i < |s| ensures LowerChar(s[i]) == s[i] {
        if i >= 2 {
          assert s[i] == s[2..][i - 2] == Lower(s[2..])[i - 2];
        }
      }
    }
  }

  /** Printing and parsing a field element is the identity. */
  lemma HexRoundTrip(f: Fr)
    ensures FrFromHex(FrToHex(f)) == Ok(f)
  {
    HexIsLower(FixedBe(f, 32));
    assert StripPrefix(FrToHex(f)) == HexString(FixedBe(f, 32));
    FrFromHexExact(FrToHex(f), f);
  }

  /** The pairs before this one are bytes, and one of its two ends lies inside a character. */
  predicate CutAt(s: string, i: nat)
    requires |s| % 2 == 0 && 2 * i < |s|
  {
    && (forall j :: 0 <= j < i ==> ParseByte(s[2 * j], s[2 * j + 1]).Some?)
    && (Continues(s[2 * i]) || (2 * i + 2 < |s| && Continues(s[2 * i + 2])))
  }

  lemma {:induction false} ParsePanicsExactly(s: string)
    requires |s| % 2 == 0
    ensures ParseBytes(s) == Err(SlicePanic) <==> exists i: nat :: 2 * i < |s| && CutAt(s, i)
  {
    if s != "" {
      if Continues(s[0]) || (|s| > 2 && Continues(s[2])) {
        assert CutAt(s, 0);
      } else {
        var rest := s[2..];
        ParsePanicsExactly(rest);
        if ParseByte(s[0], s[1]).Some? {
          forall i: nat | 2 * i < |rest| ensures CutAt(rest, i) <==> CutAt(s, i + 1) {
            CutLater(s, i);
          }
          if exists i: nat :: 2 * i < |s| && CutAt(s, i) {
            var i: nat :| 2 * i < |s| && CutAt(s, i);
            assert i > 0 && CutAt(rest, i - 1);
          }
        } else {
          forall i: nat | 2 * i < |s| ensures !CutAt(s, i) {
            if i > 0 { assert ParseByte(s[2 * 0], s[2 * 0 + 1]).None?; }
          }
        }
      }
    }
  }

  lemma CutLater(s: string, i: nat)
    requires |s| % 2 == 0 && 2 * i + 2 < |s| && ParseByte(s[0], s[1]).Some?
    ensures CutAt(s[2..], i) <==> CutAt(s, i + 1)
  {
    var rest := s[2..];
    assert forall j :: 0 <= j < |rest| ==> rest[j] == s[j + 2];
    if CutAt(rest, i) {
      forall j | 0 <= j < i + 1 ensures ParseByte(s[2 * j], s[2 * j + 1]).Some? {
        if j > 0 { assert ParseByte(rest[2 * (j - 1)], rest[2 * (j - 1) + 1]).Some?; }
      }
    }
    if CutAt(s, i + 1) {
      forall j | 0 <= j < i ensures ParseByte(rest[2 * j], rest[2 * j + 1]).Some? {
        assert ParseByte(s[2 * (j + 1)], s[2 * (j + 1) + 1]).Some?;
      }
    }
  }

  /**
   * When the parser ends the process instead of refusing: exactly when the text has 64 bytes
   * and, behind pairs that are bytes, a pair begins or ends inside a multi-byte character.
   */
  lemma FrFromHexPanicsExactly(s: string)
    ensures FrFromHex(s) == Err(SlicePanic)
       <==> var t := StripPrefix(s); |t| == 64 && exists i: nat :: 2 * i < |t| && CutAt(t, i)
  {
    if |StripPrefix(s)| == 64 {
      ParsePanicsExactly(StripPrefix(s));
      ParseErrors(StripPrefix(s));
    }
  }

  /** 64 bytes whose second and third are one character of two bytes. */
  lemma CutCharacterPanics(rest: string)
    requires |rest| == 61
    ensures FrFromHex("0" + [0xC3 as char, 0xA9 as char] + rest) == Err(SlicePanic)
  {
    var s := "0" + [0xC3 as char, 0xA9 as char] + rest;
    assert s[1] == 0xC3 as char && s[2] == 0xA9 as char;
    assert StripPrefix(s) == s;
    assert CutAt(s, 0);
    FrFromHexPanicsExactly(s);
  }

  lemma {:induction false} ParseErrors(s: string)
    requires |s| % 2 == 0
    ensures ParseBytes(s).Err? ==> ParseBytes(s).error in {InvalidHex, SlicePanic}
  {
    if s != "" { ParseErrors(s[2..]); }
  }

  // ── Digests ──────────────────────────────────────────────────────────────

  /** `hex::decode`: whole pairs of digits of either case, no sign. */
  function HexDecode(s: string): (b: Option<bytes>)
  {
    if s == "" then Some([])
    else if |s| == 1 then None
    else
      var h, t := HexPair(s[0], s[1]), HexDecode(s[2..]);
      if h.Some? && t.Some? then Some([h.value] + t.value) else None
  }

  function DigestToHex(d: Digest): string {
    "0x" + HexString(d)
  }

  /** `correction_anchor_bytes`: refused unless it is 32 bytes of digits. */
  function DigestFromHex(s: string): Option<Digest> {
    var b := HexDecode(StripPrefix(s));
    if b.Some? && |b.value| == 32 then Some(b.value) else None
  }

  lemma HexPairByte(b: u8)
    ensures HexPair(HexByte(b)[0], HexByte(b)[1]) == Some(b)
  {
    DigitRoundTrip(b / 16);
    DigitRoundTrip(b % 16);
  }

  lemma DigitRoundTrip(v: nat)
    requires v < 16
    ensures DigitValue(DIGITS[v]) == Some(v)
  {
  }

  lemma {:induction false} HexDecodeString(b: bytes)
    ensures HexDecode(HexString(b)) == Some(b)
  {
    if b != [] {
      HexStringSplit(b);
      HexPairByte(b[0]);
      HexDecodeString(b[1..]);
      assert HexString(b)[0] == HexByte(b[0])[0] && HexString(b)[1] == HexByte(b[0])[1];
      assert b == [b[0]] + b[1..];
    }
  }

  /** The anchor survives the artifact. */
  lemma DigestRoundTrip(d: Digest)
    ensures DigestFromHex(DigestToHex(d)) == Some(d)
  {
    assert StripPrefix(DigestToHex(d)) == HexString(d);
    HexDecodeString(d);
  }
}
