/** Totals over finite maps and sequences: the "sum over all accounts" that every ledger invariant speaks about. */
module Sums {

  /** A mapping read the way Solidity and `unwrap_or(0)` read it: absent keys are zero. */
  function Get<K>(m: map<K, nat>, k: K): nat {
    if k in m then m[k] else 0
  }

  ghost function Pick<K(!new), V>(m: map<K, V>): (k: K)
    requires m != map[]
    ensures k in m
  {
    assert m.Keys != {};
    var k :| k in m.Keys;
    k
  }

  ghost function Sum<K(!new)>(m: map<K, nat>): nat {
    if m == map[] then 0 else m[Pick(m)] + Sum(m - {Pick(m)})
  }

  lemma {:induction false} SumSplit<K(!new)>(m: map<K, nat>, k: K)
    requires k in m
    ensures Sum(m) == m[k] + Sum(m - {k})
    decreases |m|
  {
    var x := Pick(m);
    if x != k {
      SumSplit(m - {x}, k);
      SumSplit(m - {k}, x);
      assert m - {x} - {k} == m - {k} - {x};
    }
  }

  lemma SumRemove<K(!new)>(m: map<K, nat>, k: K)
    ensures Sum(m) == Get(m, k) + Sum(m - {k})
  {
    if k in m {
      SumSplit(m, k);
    } else {
      assert m - {k} == m;
    }
  }

  /** Writing one entry moves the total by exactly the change of that entry. */
  lemma SumUpdate<K(!new)>(m: map<K, nat>, k: K, v: nat)
    ensures Sum(m[k := v]) == Sum(m) - Get(m, k) + v
  {
    SumRemove(m, k);
    SumSplit(m[k := v], k);
    assert m[k := v] - {k} == m - {k};
  }

  lemma SumAtLeast<K(!new)>(m: map<K, nat>, k: K)
    ensures Get(m, k) <= Sum(m)
  {
    SumRemove(m, k);
  }

  lemma SumAtLeastTwo<K(!new)>(m: map<K, nat>, k: K, l: K)
    requires k != l
    ensures Get(m, k) + Get(m, l) <= Sum(m)
  {
    SumRemove(m, k);
    SumRemove(m - {k}, l);
  }

  /** Maps that read alike everywhere have the same total, whatever zero entries they store. */
  lemma {:induction false} SumSameReads<K(!new)>(m: map<K, nat>, n: map<K, nat>)
    requires forall k :: Get(m, k) == Get(n, k)
    ensures Sum(m) == Sum(n)
    decreases |m|
  {
    if m == map[] {
      forall k | k in n ensures n[k] == 0 {
        assert Get(m, k) == Get(n, k);
      }
      SumZero(n);
    } else {
      var x := Pick(m);
      SumRemove(n, x);
      forall k ensures Get(m - {x}, k) == Get(n - {x}, k) {
        assert Get(m, k) == Get(n, k);
      }
      SumSameReads(m - {x}, n - {x});
    }
  }

  lemma {:induction false} SumZero<K(!new)>(m: map<K, nat>)
    requires forall k :: k in m ==> m[k] == 0
    ensures Sum(m) == 0
    decreases |m|
  {
    if m != map[] {
      SumZero(m - {Pick(m)});
    }
  }

  lemma {:induction false} SumMonotone<K(!new)>(m: map<K, nat>, n: map<K, nat>)
    requires forall k :: Get(m, k) <= Get(n, k)
    ensures Sum(m) <= Sum(n)
    decreases |m|
  {
    if m != map[] {
      var x := Pick(m);
      SumRemove(n, x);
      assert Get(m, x) <= Get(n, x);
      forall k ensures Get(m - {x}, k) <= Get(n - {x}, k) {
        assert Get(m, k) <= Get(n, k);
      }
      SumMonotone(m - {x}, n - {x});
    }
  }

  /** Totals add up pointwise. */
  lemma {:induction false} SumPointwise<K(!new)>(m: map<K, nat>, n: map<K, nat>, p: map<K, nat>)
    requires forall k :: Get(p, k) == Get(m, k) + Get(n, k)
    ensures Sum(p) == Sum(m) + Sum(n)
    decreases |p|
  {
    if p == map[] {
      forall k | k in m ensures m[k] == 0 { assert Get(p, k) == Get(m, k) + Get(n, k); }
      forall k | k in n ensures n[k] == 0 { assert Get(p, k) == Get(m, k) + Get(n, k); }
      SumZero(m);
      SumZero(n);
    } else {
      var x := Pick(p);
      SumRemove(m, x);
      SumRemove(n, x);
      forall k ensures Get(p - {x}, k) == Get(m - {x}, k) + Get(n - {x}, k) {
        assert Get(p, k) == Get(m, k) + Get(n, k);
      }
      assert Get(p, x) == Get(m, x) + Get(n, x);
      SumPointwise(m - {x}, n - {x}, p - {x});
    }
  }
}
