/** The replay window of `crates/chronos-agent/src/tls.rs`. */
module Replay {
  import opened Words

  type Nonce = n: bytes | |n| == 12 witness Zeros(12)

  predicate Distinct<T(==)>(s: seq<T>) {
    forall i, j :: 0 <= i < j < |s| ==> s[i] != s[j]
  }

  /** The window never has room for fewer than one nonce. */
  function Window(capacity: nat): (k: nat)
    ensures k >= 1
  {
    Max(capacity, 1)
  }

  /** A nonce is fresh if it is not among the last nonces accepted. */
  predicate Fresh(accepted: seq<Nonce>, capacity: nat, n: Nonce) {
    n !in Tail(accepted, Window(capacity))
  }

  /** The specification of a whole call sequence: the verdicts, from the calls alone. */
  function Accepted(capacity: nat, calls: seq<Nonce>): seq<Nonce> {
    if calls == [] then []
    else
      var before, n := Accepted(capacity, calls[..|calls| - 1]), calls[|calls| - 1];
      if Fresh(before, capacity, n) then before + [n] else before
  }

  class NonceCache {
    var seen: set<Nonce>
    var order: seq<Nonce>
    const capacity: nat
    /** Every nonce accepted so far, in order. */
    ghost var accepted: seq<Nonce>

    /** Set and queue hold the same distinct nonces: the last ones accepted. */
    ghost predicate Valid()
      reads this
    {
      && order == Tail(accepted, Window(capacity))
      && Distinct(order)
      && seen == (set n | n in order)
    }

    constructor (capacity: nat)
      ensures Valid() && accepted == [] && this.capacity == capacity
    {
      seen := {};
      order := [];
      this.capacity := capacity;
      accepted := [];
    }

    method CheckAndInsert(nonce: Nonce) returns (isNew: bool)
      requires Valid()
      modifies this
      ensures Valid()
      ensures isNew <==> Fresh(old(accepted), capacity, nonce)
      ensures accepted == if isNew then old(accepted) + [nonce] else old(accepted)
    {
      if nonce in seen { return false; }
      TailPush(accepted, nonce, Window(capacity));
      if |order| >= capacity {
        if |order| > 0 {
          var evicted := order[0];
          order := order[1..];
          seen := seen - {evicted};
        }
      }
      seen := seen + {nonce};
      order := order + [nonce];
      accepted := accepted + [nonce];
      return true;
    }
  }

  /** The specified verdict of every call. */
  function Verdicts(capacity: nat, calls: seq<Nonce>): (v: seq<bool>)
    ensures |v| == |calls|
  {
    if calls == [] then []
    else
      var k := |calls| - 1;
      Verdicts(capacity, calls[..k]) + [Fresh(Accepted(capacity, calls[..k]), capacity, calls[k])]
  }

  lemma SpecStep(capacity: nat, calls: seq<Nonce>, i: nat)
    requires i < |calls|
    ensures var before := Accepted(capacity, calls[..i]);
            var isNew := Fresh(before, capacity, calls[i]);
            Accepted(capacity, calls[..i + 1]) == (if isNew then before + [calls[i]] else before)
            && Verdicts(capacity, calls[..i + 1]) == Verdicts(capacity, calls[..i]) + [isNew]
  {
    assert calls[..i + 1][..i] == calls[..i];
  }

  /** The cache gives the specified verdicts on every call sequence, whatever the capacity. */
  method Replayed(capacity: nat, calls: seq<Nonce>) returns (verdicts: seq<bool>)
    ensures verdicts == Verdicts(capacity, calls)
  {
    var cache := new NonceCache(capacity);
    verdicts := [];
    for i := 0 to |calls|
      invariant cache.Valid() && cache.capacity == capacity
      invariant cache.accepted == Accepted(capacity, calls[..i])
      invariant verdicts == Verdicts(capacity, calls[..i])
    {
      SpecStep(capacity, calls, i);
      var ok := cache.CheckAndInsert(calls[i]);
      verdicts := verdicts + [ok];
    }
    assert calls[..|calls|] == calls;
  }

  lemma FreshIsNew(accepted: seq<Nonce>, capacity: nat, n: Nonce, i: nat)
    requires Fresh(accepted, capacity, n) && i < |accepted| && |accepted| - i <= Window(capacity)
    ensures accepted[i] != n
  {
    var l := Tail(accepted, Window(capacity));
    assert accepted[i] == l[i - (|accepted| - |l|)];
  }

  /** Within one window no nonce is accepted twice. */
  lemma {:induction false} NoReplayInWindow(capacity: nat, calls: seq<Nonce>, i: nat, j: nat)
    requires i < j < |Accepted(capacity, calls)| && j - i <= Max(capacity, 1)
    ensures Accepted(capacity, calls)[i] != Accepted(capacity, calls)[j]
  {
    var before, n := Accepted(capacity, calls[..|calls| - 1]), calls[|calls| - 1];
    if j < |before| {
      NoReplayInWindow(capacity, calls[..|calls| - 1], i, j);
    } else {
      FreshIsNew(before, capacity, n, i);
    }
  }

  lemma FreshExactly(accepted: seq<Nonce>, capacity: nat, i: nat)
    requires i < |accepted| && forall j :: i < j < |accepted| ==> accepted[j] != accepted[i]
    ensures Fresh(accepted, capacity, accepted[i]) <==> |accepted| - i > Window(capacity)
  {
    var l := Tail(accepted, Window(capacity));
    var skipped := |accepted| - |l|;
    if i >= skipped {
      assert l[i - skipped] == accepted[i];
    } else {
      forall k | 0 <= k < |l| ensures l[k] != accepted[i] {
        assert l[k] == accepted[skipped + k];
      }
    }
  }

  /**
   * When a nonce comes again after any call sequence: it is accepted exactly when more nonces
   * than the window holds were accepted from its last acceptance on.
   */
  lemma AcceptedAgainExactly(capacity: nat, calls: seq<Nonce>, i: nat)
    requires i < |Accepted(capacity, calls)|
    requires forall j :: i < j < |Accepted(capacity, calls)| ==>
               Accepted(capacity, calls)[j] != Accepted(capacity, calls)[i]
    ensures var accepted := Accepted(capacity, calls);
            Accepted(capacity, calls + [accepted[i]])
            == if |accepted| - i > Max(capacity, 1) then accepted + [accepted[i]] else accepted
  {
    var accepted := Accepted(capacity, calls);
    var all := calls + [accepted[i]];
    FreshExactly(accepted, capacity, i);
    assert all[..|all| - 1] == calls && all[|all| - 1] == accepted[i];
  }
}
