/** Operator correction grants on a reverse hash chain: `crates/chronos-core/src/correction.rs`. */
module Correction {
  import opened Words

  const DOMAIN_TEXT: string := "chronos-correction-chain-v1"

  const CHAIN_END: Digest := Zeros(32)

  function Ascii(s: string): (b: bytes)
    ensures |b| == |s|
  {
    seq(|s|, i requires 0 <= i < |s| => s[i] as int % 256)
  }

  datatype Grant = Grant(token: Digest, amount: u64, nextAnchor: Digest)

  function LinkMessage(g: Grant): (m: bytes)
    ensures |m| == |DOMAIN_TEXT| + 72
  {
    Ascii(DOMAIN_TEXT) + g.token + Be8(g.amount) + g.nextAnchor
  }

  function Link(H: Hash, g: Grant): Digest {
    H(LinkMessage(g))
  }

  predicate Authorises(H: Hash, g: Grant, anchor: Digest) {
    anchor != CHAIN_END && Link(H, g) == anchor
  }

  /** The message determines token, amount and successor. */
  lemma LinkMessageInjective(g: Grant, h: Grant)
    requires LinkMessage(g) == LinkMessage(h)
    ensures g == h
  {
    var d := |DOMAIN_TEXT|;
    var m, n := LinkMessage(g), LinkMessage(h);
    assert m[d..d + 32] == g.token && n[d..d + 32] == h.token;
    assert m[d + 32..d + 40] == Be8(g.amount) && n[d + 32..d + 40] == Be8(h.amount);
    assert m[d + 40..] == g.nextAnchor && n[d + 40..] == h.nextAnchor;
    Be8Injective(g.amount, h.amount);
  }

  /** Where each part of the message stands. */
  lemma LinkLayout(g: Grant)
    ensures var m := LinkMessage(g);
            m[..27] == Ascii(DOMAIN_TEXT) && m[27..59] == g.token && WordAt(m, 59) == g.amount
            && m[67..] == g.nextAnchor
  {
    var m := LinkMessage(g);
    assert |DOMAIN_TEXT| == 27;
    assert m[59..67] == Be8(g.amount);
    Be8Reads(m, 59, g.amount);
  }

  // ── Building the chain ───────────────────────────────────────────────────

  datatype Spec = Spec(token: Digest, amount: u64)

  /** The grants for a list of specifications, in the order they are to be revealed. */
  function Issued(H: Hash, specs: seq<Spec>): (gs: seq<Grant>)
    ensures |gs| == |specs|
  {
    if specs == [] then []
    else [Grant(specs[0].token, specs[0].amount, Anchor(H, specs[1..]))] + Issued(H, specs[1..])
  }

  /** The anchor to publish. */
  function Anchor(H: Hash, specs: seq<Spec>): Digest
  {
    if specs == [] then CHAIN_END
    else Link(H, Grant(specs[0].token, specs[0].amount, Anchor(H, specs[1..])))
  }

  function Reversed<T>(s: seq<T>): (r: seq<T>)
    ensures |r| == |s|
  {
    if s == [] then [] else Reversed(s[1..]) + [s[0]]
  }

  lemma {:induction false} ReversedAppend<T>(s: seq<T>, x: T)
    ensures Reversed(s + [x]) == [x] + Reversed(s)
  {
    if s != [] {
      assert (s + [x])[1..] == s[1..] + [x];
      ReversedAppend(s[1..], x);
    }
  }

  /** `build_chain`: back to front, then reversed. */
  method BuildChain(H: Hash, specs: seq<Spec>) returns (anchor: Digest, grants: seq<Grant>)
    ensures anchor == Anchor(H, specs) && grants == Issued(H, specs)
  {
    grants := [];
    anchor := CHAIN_END;
    for i := |specs| downto 0
      invariant anchor == Anchor(H, specs[i..]) && Reversed(grants) == Issued(H, specs[i..])
    {
      var grant := Grant(specs[i].token, specs[i].amount, anchor);
      assert specs[i..][1..] == specs[i + 1..];
      ReversedAppend(grants, grant);
      anchor := Link(H, grant);
      grants := grants + [grant];
    }
    assert specs[0..] == specs;
    grants := Reversed(grants);
  }

  // ── Spending ─────────────────────────────────────────────────────────────

  /** Each grant authorises against the anchor its predecessor left. */
  ghost predicate SpendsFrom(H: Hash, anchor: Digest, gs: seq<Grant>)
    decreases gs
  {
    gs == [] || (Authorises(H, gs[0], anchor) && SpendsFrom(H, gs[0].nextAnchor, gs[1..]))
  }

  function AnchorAfter(anchor: Digest, gs: seq<Grant>): Digest {
    if gs == [] then anchor else gs[|gs| - 1].nextAnchor
  }

  lemma {:induction false} SpendsSnoc(H: Hash, anchor: Digest, gs: seq<Grant>, g: Grant)
    ensures SpendsFrom(H, anchor, gs + [g])
       <==> SpendsFrom(H, anchor, gs) && Authorises(H, g, AnchorAfter(anchor, gs))
    decreases gs
  {
    if gs != [] {
      assert (gs + [g])[1..] == gs[1..] + [g] && (gs + [g])[0] == gs[0];
      SpendsSnoc(H, gs[0].nextAnchor, gs[1..], g);
      assert AnchorAfter(anchor, gs) == AnchorAfter(gs[0].nextAnchor, gs[1..]);
    } else {
      assert (gs + [g])[1..] == [];
    }
  }

  function Messages(gs: seq<Grant>): (ms: seq<bytes>)
    ensures |ms| == |gs|
  {
    if gs == [] then [] else [LinkMessage(gs[0])] + Messages(gs[1..])
  }

  lemma {:induction false} MessageOf(gs: seq<Grant>, i: nat)
    requires i < |gs|
    ensures Messages(gs)[i] == LinkMessage(gs[i]) && LinkMessage(gs[i]) in Messages(gs)
  {
    if i > 0 { MessageOf(gs[1..], i - 1); }
  }

  /** What is spent from a published anchor is a prefix of what was issued, or a collision is at hand. */
  lemma {:induction false} SpentIsPrefix(H: Hash, specs: seq<Spec>, gs: seq<Grant>)
    requires SpendsFrom(H, Anchor(H, specs), gs)
    ensures gs <= Issued(H, specs) || Collides(H, Messages(Issued(H, specs)), Messages(gs))
  {
    if gs != [] {
      var issued := Issued(H, specs);
      if LinkMessage(gs[0]) == LinkMessage(issued[0]) {
        LinkMessageInjective(gs[0], issued[0]);
        assert issued[1..] == Issued(H, specs[1..]);
        SpentIsPrefix(H, specs[1..], gs[1..]);
        if gs[1..] <= issued[1..] {
          assert gs == [gs[0]] + gs[1..] && issued == [issued[0]] + issued[1..];
        } else {
          CollidesTail(H, issued, gs);
        }
      } else {
        MessageOf(issued, 0);
        MessageOf(gs, 0);
        assert H(LinkMessage(issued[0])) == H(LinkMessage(gs[0]));
      }
    }
  }

  lemma CollidesTail(H: Hash, a: seq<Grant>, b: seq<Grant>)
    requires a != [] && b != [] && Collides(H, Messages(a[1..]), Messages(b[1..]))
    ensures Collides(H, Messages(a), Messages(b))
  {
    var m, n :| m in Messages(a[1..]) && n in Messages(b[1..]) && m != n && H(m) == H(n);
    assert m in Messages(a) && n in Messages(b);
  }

  /** All issued grants can be spent in order, unless a link happens to be the end marker. */
  lemma {:induction false} IssuedSpendable(H: Hash, specs: seq<Spec>)
    ensures SpendsFrom(H, Anchor(H, specs), Issued(H, specs))
       <==> forall i :: 0 <= i < |specs| ==> Link(H, Issued(H, specs)[i]) != CHAIN_END
  {
    if specs != [] {
      var gs := Issued(H, specs);
      assert gs[1..] == Issued(H, specs[1..]);
      IssuedSpendable(H, specs[1..]);
      assert forall i :: 0 < i < |gs| ==> gs[i] == gs[1..][i - 1];
      if forall i :: 0 <= i < |specs| ==> Link(H, gs[i]) != CHAIN_END {
        forall i | 0 <= i < |specs| - 1 ensures Link(H, gs[1..][i]) != CHAIN_END {
          assert gs[1..][i] == gs[i + 1];
        }
      }
    }
  }

  // ── Single use ───────────────────────────────────────────────────────────

  /** One of the hashed messages is a preimage of the end marker. */
  ghost predicate HitsEnd(H: Hash, messages: seq<bytes>) {
    exists m :: m in messages && H(m) == CHAIN_END
  }

  /** The anchor in force when `k` of the issued grants are spent. */
  function AnchorAt(H: Hash, specs: seq<Spec>, k: nat): Digest
    requires k <= |specs|
  {
    Anchor(H, specs[k..])
  }

  lemma {:induction false} IssuedAt(H: Hash, specs: seq<Spec>, k: nat)
    requires k < |specs|
    ensures Issued(H, specs)[k] == Grant(specs[k].token, specs[k].amount, AnchorAt(H, specs, k + 1))
    ensures Link(H, Issued(H, specs)[k]) == AnchorAt(H, specs, k)
  {
    if k > 0 {
      IssuedAt(H, specs[1..], k - 1);
      assert specs[1..][k..] == specs[k + 1..] && specs[1..][k - 1..] == specs[k..];
      assert specs[1..][k - 1] == specs[k];
      assert Issued(H, specs)[k] == Issued(H, specs[1..])[k - 1];
    } else {
      assert specs[0..] == specs;
    }
  }

  /** If the chain meets the same anchor twice, the hash is broken on a message of the chain. */
  lemma {:induction false} AnchorRepeats(H: Hash, specs: seq<Spec>, a: nat, b: nat)
    requires a < b <= |specs| && AnchorAt(H, specs, a) == AnchorAt(H, specs, b)
    ensures var ms := Messages(Issued(H, specs)); HitsEnd(H, ms) || Collides(H, ms, ms)
    decreases |specs| - b
  {
    var gs := Issued(H, specs);
    IssuedAt(H, specs, a);
    MessageOf(gs, a);
    if b == |specs| {
      assert specs[b..] == [];
      assert H(LinkMessage(gs[a])) == CHAIN_END;
    } else {
      IssuedAt(H, specs, b);
      MessageOf(gs, b);
      if LinkMessage(gs[a]) == LinkMessage(gs[b]) {
        LinkMessageInjective(gs[a], gs[b]);
        AnchorRepeats(H, specs, a + 1, b + 1);
      } else {
        assert H(LinkMessage(gs[a])) == H(LinkMessage(gs[b]));
      }
    }
  }

  /** No grant value is issued, hence none is spent, twice, unless the hash is broken. */
  lemma {:induction false} IssuedDistinct(H: Hash, specs: seq<Spec>, i: nat, j: nat)
    requires i < j < |specs| && Issued(H, specs)[i] == Issued(H, specs)[j]
    ensures var ms := Messages(Issued(H, specs)); HitsEnd(H, ms) || Collides(H, ms, ms)
  {
    IssuedAt(H, specs, i);
    IssuedAt(H, specs, j);
    AnchorRepeats(H, specs, i + 1, j + 1);
  }

  /** The sum of amounts, in unbounded integers. */
  function AmountSum(gs: seq<Grant>): nat {
    if gs == [] then 0 else AmountSum(gs[..|gs| - 1]) + gs[|gs| - 1].amount
  }

  lemma {:induction false} AmountSumPrefix(gs: seq<Grant>, hs: seq<Grant>)
    requires gs <= hs
    ensures AmountSum(gs) <= AmountSum(hs)
  {
    if |gs| < |hs| {
      AmountSumPrefix(gs, hs[..|hs| - 1]);
    } else {
      assert gs == hs;
    }
  }
}
