/** Leader rotation: validators take turns in address order. */
module LeaderRotation {
  import opened Arithmetic

  type Address = nat

  datatype Leader = NoLeader | Chosen(address: Address)

  ghost function Below(s: set<Address>, a: Address): set<Address> {
    set b | b in s && b < a
  }

  /** How many members of s are smaller than a. */
  ghost function Rank(s: set<Address>, a: Address): nat {
    |Below(s, a)|
  }

  ghost predicate Ascending(r: seq<Address>) {
    forall i, j :: 0 <= i < j < |r| ==> r[i] < r[j]
  }

  ghost predicate Least(s: set<Address>, m: Address) {
    m in s && forall a :: a in s ==> m <= a
  }

  lemma {:induction false} LeastExists(s: set<Address>)
    requires s != {}
    ensures exists m :: Least(s, m)
  {
    var x :| x in s;
    var t := s - {x};
    if t == {} {
      assert s == {x};
      assert Least(s, x);
    } else {
      LeastExists(t);
      var m :| Least(t, m);
      assert forall a :: a in s ==> a == x || a in t;
      assert Least(s, if x < m then x else m);
    }
  }

  lemma SnocAscending(r: seq<Address>, m: Address)
    requires Ascending(r) && forall a :: a in r ==> a < m
    ensures Ascending(r + [m])
  {
    forall i, j | 0 <= i < j < |r| + 1 ensures (r + [m])[i] < (r + [m])[j] {
      if j == |r| { assert r[i] in r; }
    }
  }

  /** Collect and sort by address. */
  method SortedAddresses(s: set<Address>) returns (r: seq<Address>)
    ensures Ascending(r) && (forall a :: a in r <==> a in s) && |r| == |s|
  {
    r := [];
    var todo := s;
    while todo != {}
      invariant todo <= s && Ascending(r) && |r| + |todo| == |s|
      invariant forall a :: a in r <==> a in s && a !in todo
      invariant forall a, b :: a in r && b in todo ==> a < b
      decreases todo
    {
      hide Ascending;
      LeastExists(todo);
      var m :| m in todo && forall a :: a in todo ==> m <= a;
      SnocAscending(r, m);
      r := r + [m];
      todo := todo - {m};
    }
  }

  lemma {:induction false} PrefixIsBelow(s: set<Address>, r: seq<Address>, i: nat)
    requires Ascending(r) && (forall a :: a in r <==> a in s) && i < |r|
    ensures Rank(s, r[i]) == i
    decreases i
  {
    assert r[i] in s;
    if i == 0 {
      forall b | b in s ensures b >= r[0] {
        var j :| 0 <= j < |r| && r[j] == b;
      }
      assert Below(s, r[0]) == {};
    } else {
      PrefixIsBelow(s, r, i - 1);
      var lower, mid := Below(s, r[i - 1]), r[i - 1];
      NextBelow(s, r, i);
      assert |lower + {mid}| == |lower| + 1;
    }
  }

  lemma NextBelow(s: set<Address>, r: seq<Address>, i: nat)
    requires Ascending(r) && (forall a :: a in r <==> a in s) && 0 < i < |r|
    ensures Below(s, r[i]) == Below(s, r[i - 1]) + {r[i - 1]}
    ensures r[i - 1] !in Below(s, r[i - 1])
  {
    assert r[i - 1] in r;
    forall b | b in Below(s, r[i]) ensures b in Below(s, r[i - 1]) + {r[i - 1]} {
      var j :| 0 <= j < |r| && r[j] == b;
      if j < i - 1 { assert r[j] < r[i - 1]; }
    }
  }

  lemma RankOrders(s: set<Address>, a: Address, b: Address)
    requires a in s && b in s
    ensures a < b ==> Rank(s, a) < Rank(s, b)
    ensures Rank(s, a) < |s|
  {
    ProperSubsetSmaller(Below(s, a), s, a);
    if a < b { ProperSubsetSmaller(Below(s, a), Below(s, b), a); }
  }

  lemma ProperSubsetSmaller(s: set<Address>, t: set<Address>, extra: Address)
    requires s <= t && extra in t && extra !in s
    ensures |s| < |t|
  {
    var rest := t - s - {extra};
    assert t == s + rest + {extra};
  }

  /** Round robin: in any n consecutive rounds each of the n validators leads exactly once. */
  lemma EveryValidatorLeadsOnce(s: set<Address>, start: nat, a: Address) returns (round: nat)
    requires a in s
    ensures start <= round < start + |s| && Rank(s, a) == round % |s|
    ensures forall r :: start <= r < start + |s| && Rank(s, a) == r % |s| ==> r == round
    ensures forall b :: b in s && Rank(s, b) == round % |s| ==> b == a
  {
    RankOrders(s, a, a);
    round := NextRound(start, Rank(s, a), |s|);
    forall b | b in s && Rank(s, b) == round % |s| ensures b == a {
      RankOrders(s, a, b);
      RankOrders(s, b, a);
    }
  }

  lemma NextRound(start: nat, k: nat, n: nat) returns (round: nat)
    requires k < n
    ensures start <= round < start + n && round % n == k
    ensures forall r :: start <= r < start + n && r % n == k ==> r == round
  {
    var q, m := start / n, start % n;
    assert start == q * n + m;
    round := if k >= m then q * n + k else (q + 1) * n + k;
    assert (q + 1) * n == q * n + n;
    ModTimesAdd(k, q, n);
    ModTimesAdd(k, q + 1, n);
    forall r | start <= r < start + n && r % n == k ensures r == round {
      SameResidue(r, round, n);
    }
  }

  lemma SameResidue(r: nat, t: nat, n: nat)
    requires n > 0 && r % n == t % n && r < t + n && t < r + n
    ensures r == t
  {
    DivBounds(r, n);
    DivBounds(t, n);
    SameRemainder(r, t, n, r / n, t / n, r % n);
  }

  lemma SameRemainder(r: nat, t: nat, n: nat, q: nat, p: nat, d: nat)
    requires r == q * n + d && t == p * n + d && r < t + n && t < r + n
    ensures r == t
  {
    assert (q + 1) * n == q * n + n && (p + 1) * n == p * n + n;
    CancelLess(q, p + 1, n);
    CancelLess(p, q + 1, n);
  }
}
