/** Arrival lists and the price-then-arrival order in which transactions leave the pool. */
module PriceTime {
  import opened Lists

  type Address = nat

  datatype Tx = Tx(sender: Address, nonce: nat, gasPrice: nat, payload: nat)

  /** A collision-free hash, modelled as a seal around what was hashed. */
  datatype Digest = Digest(preimage: Tx)

  function Digests(s: seq<Tx>): (d: seq<Digest>)
    ensures |d| == |s| && forall i :: 0 <= i < |s| ==> d[i] == Digest(s[i])
  {
    seq(|s|, i requires 0 <= i < |s| => Digest(s[i]))
  }

  ghost function Elems(s: seq<Tx>): set<Tx> {
    set t | t in s
  }

  /** The arrivals at one price, oldest first. */
  ghost function Tier(arrivals: seq<Tx>, price: nat): seq<Tx> {
    if arrivals == [] then []
    else
      var front, last := arrivals[..|arrivals| - 1], arrivals[|arrivals| - 1];
      if last.gasPrice == price then Tier(front, price) + [last] else Tier(front, price)
  }

  /** The arrivals that are not in `gone`, every copy. */
  ghost function Without(arrivals: seq<Tx>, gone: set<Tx>): seq<Tx> {
    if arrivals == [] then []
    else
      var front, last := arrivals[..|arrivals| - 1], arrivals[|arrivals| - 1];
      if last in gone then Without(front, gone) else Without(front, gone) + [last]
  }

  lemma TierSnoc(arrivals: seq<Tx>, tx: Tx, price: nat)
    ensures Tier(arrivals + [tx], price) ==
            if tx.gasPrice == price then Tier(arrivals, price) + [tx] else Tier(arrivals, price)
  {
    assert (arrivals + [tx])[..|arrivals|] == arrivals;
  }

  lemma {:induction false} TierMembers(arrivals: seq<Tx>, price: nat, t: Tx)
    ensures t in Tier(arrivals, price) <==> t in arrivals && t.gasPrice == price
  {
    if arrivals != [] {
      var front := arrivals[..|arrivals| - 1];
      assert arrivals == front + [arrivals[|arrivals| - 1]];
      TierMembers(front, price, t);
    }
  }

  lemma WithoutSnoc(arrivals: seq<Tx>, tx: Tx, gone: set<Tx>)
    ensures Without(arrivals + [tx], gone) ==
            if tx in gone then Without(arrivals, gone) else Without(arrivals, gone) + [tx]
  {
    assert (arrivals + [tx])[..|arrivals|] == arrivals;
  }

  lemma {:induction false} WithoutMembers(arrivals: seq<Tx>, gone: set<Tx>)
    ensures forall t :: t in Without(arrivals, gone) <==> t in arrivals && t !in gone
    ensures |Without(arrivals, gone)| <= |arrivals|
    ensures (exists t :: t in arrivals && t in gone) ==> |Without(arrivals, gone)| < |arrivals|
  {
    if arrivals != [] {
      var front := arrivals[..|arrivals| - 1];
      assert arrivals == front + [arrivals[|arrivals| - 1]];
      WithoutMembers(front, gone);
    }
  }

  lemma {:induction false} WithoutConcat(a: seq<Tx>, b: seq<Tx>, gone: set<Tx>)
    ensures Without(a + b, gone) == Without(a, gone) + Without(b, gone)
  {
    if b == [] {
      assert a + b == a;
    } else {
      var front := b[..|b| - 1];
      assert a + b == (a + front) + [b[|b| - 1]];
      WithoutSnoc(a + front, b[|b| - 1], gone);
      assert b == front + [b[|b| - 1]];
      WithoutConcat(a, front, gone);
    }
  }

  lemma {:induction false} WithoutKeeps(s: seq<Tx>, gone: set<Tx>)
    requires forall t :: t in s ==> t !in gone
    ensures Without(s, gone) == s
  {
    if s != [] {
      var front := s[..|s| - 1];
      assert s == front + [s[|s| - 1]];
      WithoutKeeps(front, gone);
    }
  }

  lemma {:induction false} WithoutAll(s: seq<Tx>, gone: set<Tx>)
    requires forall t :: t in s ==> t in gone
    ensures Without(s, gone) == []
  {
    if s != [] {
      var front := s[..|s| - 1];
      assert s == front + [s[|s| - 1]];
      WithoutAll(front, gone);
    }
  }

  lemma {:induction false} WithoutTwice(s: seq<Tx>, g1: set<Tx>, g2: set<Tx>)
    ensures Without(Without(s, g1), g2) == Without(s, g1 + g2)
  {
    if s != [] {
      var front, last := s[..|s| - 1], s[|s| - 1];
      WithoutTwice(front, g1, g2);
      if last !in g1 { WithoutSnoc(Without(front, g1), last, g2); }
    }
  }

  lemma {:induction false} TierOfWithout(arrivals: seq<Tx>, gone: set<Tx>, price: nat)
    ensures Tier(Without(arrivals, gone), price) == Without(Tier(arrivals, price), gone)
  {
    if arrivals != [] {
      var front, last := arrivals[..|arrivals| - 1], arrivals[|arrivals| - 1];
      TierOfWithout(front, gone, price);
      if last !in gone { TierSnoc(Without(front, gone), last, price); }
      if last.gasPrice == price { WithoutSnoc(Tier(front, price), last, gone); }
    }
  }

  // ----- ranking

  lemma {:induction false} MaxExists(ps: set<nat>)
    requires ps != {}
    ensures exists p :: p in ps && forall q :: q in ps ==> q <= p
  {
    var x :| x in ps;
    if ps == {x} {
    } else {
      MaxExists(ps - {x});
      var m :| m in ps - {x} && forall q :: q in ps - {x} ==> q <= m;
      assert ps == (ps - {x}) + {x};
      var p := if x < m then m else x;
      forall q | q in ps ensures q <= p { assert q == x || q in ps - {x}; }
      assert p in ps;
    }
  }

  ghost function Highest(ps: set<nat>): (p: nat)
    requires ps != {}
    ensures p in ps && forall q :: q in ps ==> q <= p
  {
    MaxExists(ps);
    var p :| p in ps && forall q :: q in ps ==> q <= p;
    p
  }

  /** The tiers of the given prices, highest price first. */
  ghost function Tiers(arrivals: seq<Tx>, ps: set<nat>): seq<Tx> {
    if ps == {} then []
    else
      var p := Highest(ps);
      Tier(arrivals, p) + Tiers(arrivals, ps - {p})
  }

  ghost function Prices(arrivals: seq<Tx>, minPrice: nat): set<nat> {
    set t | t in arrivals && t.gasPrice >= minPrice :: t.gasPrice
  }

  /** The eligible arrivals, by price descending and then by arrival. */
  ghost function Ranked(arrivals: seq<Tx>, minPrice: nat): seq<Tx> {
    Tiers(arrivals, Prices(arrivals, minPrice))
  }

  function First(s: seq<Tx>, n: nat): seq<Tx> {
    if |s| <= n then s else s[..n]
  }

  lemma {:induction false} TiersIgnoreEmpty(arrivals: seq<Tx>, ps: set<nat>, qs: set<nat>)
    requires qs <= ps && forall p :: p in ps - qs ==> Tier(arrivals, p) == []
    ensures Tiers(arrivals, ps) == Tiers(arrivals, qs)
    decreases ps
  {
    if ps != {} {
      var p := Highest(ps);
      if p in qs {
        assert Highest(qs) == p;
        TiersIgnoreEmpty(arrivals, ps - {p}, qs - {p});
      } else {
        TiersIgnoreEmpty(arrivals, ps - {p}, qs);
      }
    }
  }

  lemma {:induction false} TiersOfWithout(arrivals: seq<Tx>, gone: set<Tx>, ps: set<nat>)
    ensures Tiers(Without(arrivals, gone), ps) == Without(Tiers(arrivals, ps), gone)
    decreases ps
  {
    if ps != {} {
      var p := Highest(ps);
      TierOfWithout(arrivals, gone, p);
      TiersOfWithout(arrivals, gone, ps - {p});
      WithoutConcat(Tier(arrivals, p), Tiers(arrivals, ps - {p}), gone);
    }
  }

  lemma EmptyTier(arrivals: seq<Tx>, p: nat, minPrice: nat)
    requires p >= minPrice && p !in Prices(arrivals, minPrice)
    ensures Tier(arrivals, p) == []
  {
    if Tier(arrivals, p) != [] {
      TierMembers(arrivals, p, Tier(arrivals, p)[0]);
    }
  }

  /** Removing transactions commutes with ranking. */
  lemma RankedOfWithout(arrivals: seq<Tx>, gone: set<Tx>, minPrice: nat)
    ensures Ranked(Without(arrivals, gone), minPrice) == Without(Ranked(arrivals, minPrice), gone)
  {
    var ps, qs := Prices(arrivals, minPrice), Prices(Without(arrivals, gone), minPrice);
    TiersOfWithout(arrivals, gone, ps);
    WithoutMembers(arrivals, gone);
    forall p | p in ps - qs ensures Tier(Without(arrivals, gone), p) == [] {
      EmptyTier(Without(arrivals, gone), p, minPrice);
    }
    TiersIgnoreEmpty(Without(arrivals, gone), ps, qs);
  }

  // ----- what the ranking means

  /** idx lists positions of arrivals: `out` is read off at them, by price descending and then by arrival, and every
      arrival at one of the given prices is listed. */
  ghost predicate ReadOff(arrivals: seq<Tx>, prices: set<nat>, out: seq<Tx>, idx: seq<nat>) {
    && |idx| == |out|
    && (forall k :: 0 <= k < |idx| ==> idx[k] < |arrivals| && out[k] == arrivals[idx[k]] && out[k].gasPrice in prices)
    && (forall j, k :: 0 <= j < k < |idx| ==>
          out[j].gasPrice > out[k].gasPrice || (out[j].gasPrice == out[k].gasPrice && idx[j] < idx[k]))
    && (forall i :: 0 <= i < |arrivals| && arrivals[i].gasPrice in prices ==> i in idx)
  }

  lemma {:induction false} TierReadOff(arrivals: seq<Tx>, price: nat) returns (idx: seq<nat>)
    ensures ReadOff(arrivals, {price}, Tier(arrivals, price), idx)
  {
    if arrivals == [] {
      idx := [];
    } else {
      var n := |arrivals| - 1;
      var front := TierReadOff(arrivals[..n], price);
      if arrivals[n].gasPrice == price {
        idx := front + [n];
        ExtendReadOff(arrivals[..n], arrivals[n], Tier(arrivals[..n], price), front);
        assert arrivals == arrivals[..n] + [arrivals[n]];
      } else {
        idx := front;
        forall i | 0 <= i < |arrivals| && arrivals[i].gasPrice in {price} ensures i in idx {
          assert arrivals[..n][i] == arrivals[i];
        }
      }
    }
  }

  lemma ExtendReadOff(arrivals: seq<Tx>, tx: Tx, out: seq<Tx>, idx: seq<nat>)
    requires ReadOff(arrivals, {tx.gasPrice}, out, idx)
    ensures ReadOff(arrivals + [tx], {tx.gasPrice}, out + [tx], idx + [|arrivals|])
  {
    var idx', out', arrivals' := idx + [|arrivals|], out + [tx], arrivals + [tx];
    forall j, k | 0 <= j < k < |idx'|
      ensures out'[j].gasPrice == out'[k].gasPrice && idx'[j] < idx'[k]
    {
      assert out'[j] == out[j];
      if k < |idx| { assert out'[k] == out[k]; }
    }
    forall i | 0 <= i < |arrivals'| && arrivals'[i].gasPrice in {tx.gasPrice} ensures i in idx' {
      if i == |arrivals| { assert idx'[|idx|] == i; } else { assert i in idx; }
    }
  }

  lemma {:induction false} TiersReadOff(arrivals: seq<Tx>, ps: set<nat>) returns (idx: seq<nat>)
    ensures ReadOff(arrivals, ps, Tiers(arrivals, ps), idx)
    decreases ps
  {
    if ps == {} {
      idx := [];
    } else {
      var p := Highest(ps);
      var head := TierReadOff(arrivals, p);
      var rest := TiersReadOff(arrivals, ps - {p});
      idx := head + rest;
      JoinReadOff(arrivals, ps, p, head, rest);
    }
  }

  lemma JoinReadOff(arrivals: seq<Tx>, ps: set<nat>, p: nat, head: seq<nat>, rest: seq<nat>)
    requires ps != {} && p == Highest(ps)
    requires ReadOff(arrivals, {p}, Tier(arrivals, p), head)
    requires ReadOff(arrivals, ps - {p}, Tiers(arrivals, ps - {p}), rest)
    ensures ReadOff(arrivals, ps, Tiers(arrivals, ps), head + rest)
  {
    var idx, out, a := head + rest, Tiers(arrivals, ps), Tier(arrivals, p);
    var b := Tiers(arrivals, ps - {p});
    assert out == a + b;
    forall k | 0 <= k < |idx| ensures idx[k] < |arrivals| && out[k] == arrivals[idx[k]] && out[k].gasPrice in ps {
      if k < |head| { assert out[k] == a[k]; } else { assert out[k] == b[k - |head|]; }
    }
    forall j, k | 0 <= j < k < |idx|
      ensures out[j].gasPrice > out[k].gasPrice || (out[j].gasPrice == out[k].gasPrice && idx[j] < idx[k])
    {
      if k < |head| {
        assert out[j] == a[j] && out[k] == a[k];
      } else if j < |head| {
        assert out[j] == a[j] && a[j].gasPrice in {p} && out[k] == b[k - |head|] && b[k - |head|].gasPrice in ps - {p};
      } else {
        assert out[j] == b[j - |head|] && out[k] == b[k - |head|];
      }
    }
    forall i | 0 <= i < |arrivals| && arrivals[i].gasPrice in ps ensures i in idx {
      if arrivals[i].gasPrice == p {
        assert arrivals[i].gasPrice in {p};
        assert i in head;
      } else {
        assert i in rest;
      }
    }
  }

  /** Ranked lists every eligible arrival exactly once per arrival, by price descending and then by arrival. */
  lemma RankedIsPriceTime(arrivals: seq<Tx>, minPrice: nat) returns (idx: seq<nat>)
    ensures |idx| == |Ranked(arrivals, minPrice)|
    ensures forall k :: 0 <= k < |idx| ==>
              && idx[k] < |arrivals|
              && Ranked(arrivals, minPrice)[k] == arrivals[idx[k]]
              && arrivals[idx[k]].gasPrice >= minPrice
    ensures forall j, k :: 0 <= j < k < |idx| ==>
              || arrivals[idx[j]].gasPrice > arrivals[idx[k]].gasPrice
              || (arrivals[idx[j]].gasPrice == arrivals[idx[k]].gasPrice && idx[j] < idx[k])
    ensures forall i :: 0 <= i < |arrivals| && arrivals[i].gasPrice >= minPrice ==> i in idx
  {
    var ps := Prices(arrivals, minPrice);
    idx := TiersReadOff(arrivals, ps);
    forall i | 0 <= i < |arrivals| && arrivals[i].gasPrice >= minPrice ensures i in idx {
      assert arrivals[i] in arrivals;
      assert arrivals[i].gasPrice in ps;
    }
  }

  lemma RankedMembers(arrivals: seq<Tx>, minPrice: nat)
    ensures forall t :: t in Ranked(arrivals, minPrice) <==> t in arrivals && t.gasPrice >= minPrice
  {
    var idx := RankedIsPriceTime(arrivals, minPrice);
    forall t | t in arrivals && t.gasPrice >= minPrice ensures t in Ranked(arrivals, minPrice) {
      var i :| 0 <= i < |arrivals| && arrivals[i] == t;
      var k :| 0 <= k < |idx| && idx[k] == i;
      assert Ranked(arrivals, minPrice)[k] == t;
    }
    forall t | t in Ranked(arrivals, minPrice) ensures t in arrivals && t.gasPrice >= minPrice {
      var k :| 0 <= k < |idx| && Ranked(arrivals, minPrice)[k] == t;
      assert arrivals[idx[k]] == t;
    }
  }

  ghost predicate EligibleOnce(arrivals: seq<Tx>, minPrice: nat) {
    forall i, j :: 0 <= i < j < |arrivals| && arrivals[i].gasPrice >= minPrice ==> arrivals[i] != arrivals[j]
  }

  /** The ranking repeats a transaction exactly when an eligible transaction was added again while live. */
  lemma RankedNoRepeats(arrivals: seq<Tx>, minPrice: nat)
    ensures NoRepeats(Ranked(arrivals, minPrice)) <==> EligibleOnce(arrivals, minPrice)
  {
    var idx := RankedIsPriceTime(arrivals, minPrice);
    var out := Ranked(arrivals, minPrice);
    if EligibleOnce(arrivals, minPrice) {
      forall j, k | 0 <= j < k < |out| ensures out[j] != out[k] {
        assert idx[j] != idx[k];
        if idx[j] < idx[k] { assert arrivals[idx[j]] != arrivals[idx[k]]; }
        else { assert arrivals[idx[k]] != arrivals[idx[j]]; }
      }
    }
    if NoRepeats(out) {
      forall i, j | 0 <= i < j < |arrivals| && arrivals[i].gasPrice >= minPrice ensures arrivals[i] != arrivals[j] {
        assert i in idx;
        var a :| 0 <= a < |idx| && idx[a] == i;
        if arrivals[j].gasPrice >= minPrice {
          assert j in idx;
          var b :| 0 <= b < |idx| && idx[b] == j;
          assert out[a] != out[b];
        }
      }
    }
  }
}
