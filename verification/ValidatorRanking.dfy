/** The nested exchange loops that rank two parallel arrays by stake. */
module ValidatorRanking {
  import opened Lists

  /** t is s rearranged by p. */
  ghost predicate Rearranged(s: seq, p: seq<nat>, t: seq) {
    |p| == |s| == |t| && Permutation(p, |s|) && forall k :: 0 <= k < |t| ==> t[k] == s[p[k]]
  }

  /** The first n entries are each at least everything after them. */
  ghost predicate Leading(s: seq<nat>, n: nat) {
    forall i, j :: 0 <= i < n && i < j < |s| ==> s[i] >= s[j]
  }

  ghost predicate Beats(s: seq<nat>, i: nat, n: nat)
    requires i < |s|
  {
    forall j :: i < j < n && j < |s| ==> s[i] >= s[j]
  }

  function Swapped(s: seq, i: nat, j: nat): seq
    requires i < |s| && j < |s|
  {
    s[i := s[j]][j := s[i]]
  }

  lemma SwapRearranges(s: seq, p: seq<nat>, t: seq, i: nat, j: nat)
    requires i < |p| == |t| && j < |t| && Rearranged(s, p, t)
    ensures Rearranged(s, Swapped(p, i, j), Swapped(t, i, j))
  {
    SwapKeepsPermutation(p, |s|, i, j);
  }

  lemma SwapLeads(s: seq<nat>, i: nat, j: nat)
    requires i < j < |s| && Leading(s, i) && Beats(s, i, j) && s[j] > s[i]
    ensures Leading(Swapped(s, i, j), i) && Beats(Swapped(s, i, j), i, j + 1)
  {
  }

  lemma NothingLeads(s: seq<nat>)
    ensures Leading(s, 0)
  {
  }

  lemma BeatsNothing(s: seq<nat>, i: nat)
    requires i < |s|
    ensures Beats(s, i, i + 1)
  {
  }

  lemma KeepsBeating(s: seq<nat>, i: nat, j: nat)
    requires i < j < |s| && Beats(s, i, j) && s[j] <= s[i]
    ensures Beats(s, i, j + 1)
  {
  }

  lemma LeadsOneMore(s: seq<nat>, i: nat)
    requires i < |s| && Leading(s, i) && Beats(s, i, |s|)
    ensures Leading(s, i + 1)
  {
  }

  lemma IdentityPermutation(a: seq, s: seq<nat>) returns (p: seq<nat>)
    requires |a| == |s|
    ensures |p| == |s| && Rearranged(a, p, a) && Rearranged(s, p, s)
  {
    p := seq(|s|, k => k);
  }

  /** Both arrays end rearranged by the same permutation, the stakes in descending order. */
  method ExchangeSort(addrs: array<nat>, stakes: array<nat>) returns (ghost perm: seq<nat>)
    requires addrs != stakes && addrs.Length == stakes.Length
    modifies addrs, stakes
    ensures Rearranged(old(addrs[..]), perm, addrs[..]) && Rearranged(old(stakes[..]), perm, stakes[..])
    ensures Leading(stakes[..], stakes.Length)
  {
    hide Rearranged, Permutation, NoRepeats, Leading;
    ghost var a0, s0 := addrs[..], stakes[..];
    perm := IdentityPermutation(a0, s0);
    NothingLeads(s0);
    for i := 0 to stakes.Length
      invariant |perm| == stakes.Length && Leading(stakes[..], i)
      invariant Rearranged(a0, perm, addrs[..]) && Rearranged(s0, perm, stakes[..])
    {
      perm := ExchangePass(addrs, stakes, i, a0, s0, perm);
    }
  }

  /** The inner loop: the largest stake from i on comes to i. */
  method ExchangePass(addrs: array<nat>, stakes: array<nat>, i: nat, ghost a0: seq<nat>, ghost s0: seq<nat>,
                      ghost p0: seq<nat>)
    returns (ghost perm: seq<nat>)
    requires addrs != stakes && i < addrs.Length == stakes.Length == |p0|
    requires Rearranged(a0, p0, addrs[..]) && Rearranged(s0, p0, stakes[..]) && Leading(stakes[..], i)
    modifies addrs, stakes
    ensures |perm| == stakes.Length && Leading(stakes[..], i + 1)
    ensures Rearranged(a0, perm, addrs[..]) && Rearranged(s0, perm, stakes[..])
  {
    hide Rearranged, Permutation, NoRepeats, Leading, Beats, Swapped;
    perm := p0;
    BeatsNothing(stakes[..], i);
    for j := i + 1 to stakes.Length
      invariant |perm| == stakes.Length && Leading(stakes[..], i) && Beats(stakes[..], i, j)
      invariant Rearranged(a0, perm, addrs[..]) && Rearranged(s0, perm, stakes[..])
    {
      if stakes[j] > stakes[i] {
        SwapRearranges(a0, perm, addrs[..], i, j);
        SwapRearranges(s0, perm, stakes[..], i, j);
        SwapLeads(stakes[..], i, j);
        perm := Swapped(perm, i, j);
        Exchange(addrs, stakes, i, j);
      } else {
        KeepsBeating(stakes[..], i, j);
      }
    }
    LeadsOneMore(stakes[..], i);
  }

  method Exchange(addrs: array<nat>, stakes: array<nat>, i: nat, j: nat)
    requires addrs != stakes && i < addrs.Length == stakes.Length && j < addrs.Length
    modifies addrs, stakes
    ensures addrs[..] == Swapped(old(addrs[..]), i, j) && stakes[..] == Swapped(old(stakes[..]), i, j)
  {
    stakes[i], stakes[j] := stakes[j], stakes[i];
    addrs[i], addrs[j] := addrs[j], addrs[i];
  }

  ghost function Indices(n: nat): set<nat> {
    if n == 0 then {} else Indices(n - 1) + {n - 1}
  }

  lemma {:induction false} IndicesBelow(n: nat)
    ensures |Indices(n)| == n && forall i: nat :: i in Indices(n) <==> i < n
  {
    if n > 0 {
      IndicesBelow(n - 1);
    }
  }

  /** A set within another of the same size is that set. */
  lemma SameSize(s: set, t: set)
    requires s <= t && |s| == |t|
    ensures s == t
  {
    assert t == s + (t - s);
  }

  lemma PermutationReaches(p: seq<nat>, n: nat, x: nat)
    requires Permutation(p, n) && x < n
    ensures x in p
  {
    IndicesBelow(n);
    MembersSize(p);
    SameSize(Members(p), Indices(n));
    assert x in Members(p);
  }

  /** What taking the first entries of a descending rearrangement gives. */
  lemma RankedPrefix(listed: seq, staked: seq<nat>, perm: seq<nat>, addrs: seq, stakes: seq<nat>, size: nat)
    requires |listed| == |staked| && size <= |listed| && NoRepeats(listed)
    requires Rearranged(listed, perm, addrs) && Rearranged(staked, perm, stakes) && Leading(stakes, |stakes|)
    ensures NoRepeats(addrs[..size]) && forall i, j :: 0 <= i < j < size ==> stakes[i] >= stakes[j]
    ensures forall i :: 0 <= i < size ==> addrs[i] in listed
    ensures forall k, i :: 0 <= k < |listed| && listed[k] !in addrs[..size] && 0 <= i < size ==> staked[k] <= stakes[i]
    ensures forall i, k :: 0 <= i < size && 0 <= k < |listed| && listed[k] == addrs[i] ==> stakes[i] == staked[k]
  {
    forall k, i | 0 <= k < |listed| && listed[k] !in addrs[..size] && 0 <= i < size ensures staked[k] <= stakes[i] {
      PermutationReaches(perm, |listed|, k);
      var j :| 0 <= j < |perm| && perm[j] == k;
      assert addrs[j] == listed[k];
      assert forall m :: 0 <= m < size ==> addrs[..size][m] == addrs[m];
    }
    forall i, k | 0 <= i < size && 0 <= k < |listed| && listed[k] == addrs[i] ensures stakes[i] == staked[k] {
      assert listed[perm[i]] == listed[k];
      assert perm[i] == k;
    }
  }
}
