/** Lists without repetition. */
module Lists {

  ghost function Members<T>(s: seq<T>): set<T> {
    set x | x in s
  }

  ghost predicate NoRepeats<T>(s: seq<T>) {
    forall i, j :: 0 <= i < j < |s| ==> s[i] != s[j]
  }

  lemma EmptyNoRepeats<T>()
    ensures NoRepeats<T>([])
  {
  }

  lemma HeadIsNew<T>(a: seq<T>, b: seq<T>)
    requires NoRepeats(a + b) && b != []
    ensures b[0] !in a && NoRepeats(a) && NoRepeats(b)
  {
    var s := a + b;
    forall i | 0 <= i < |a| ensures a[i] != b[0] { assert s[i] != s[|a|]; }
    forall i, j | 0 <= i < j < |a| ensures a[i] != a[j] { assert s[i] != s[j]; }
    forall i, j | 0 <= i < j < |b| ensures b[i] != b[j] { assert s[|a| + i] != s[|a| + j]; }
  }

  lemma SnocIsNew<T>(s: seq<T>, x: T)
    requires NoRepeats(s) && x !in s
    ensures NoRepeats(s + [x])
    ensures forall y :: y in s + [x] <==> y in s || y == x
  {
  }

  lemma {:induction false} CountOfNoRepeats<T>(s: seq<T>, x: T)
    requires NoRepeats(s)
    ensures multiset(s)[x] == if x in s then 1 else 0
  {
    if s != [] {
      var front, last := s[..|s| - 1], s[|s| - 1];
      assert s == front + [last];
      CountOfNoRepeats(front, x);
      assert last !in front by {
        forall i | 0 <= i < |front| ensures front[i] != last { assert s[i] != s[|s| - 1]; }
      }
    }
  }

  /** A rearrangement of the indices below n. */
  ghost predicate Permutation(p: seq<nat>, n: nat) {
    |p| == n && NoRepeats(p) && forall i :: 0 <= i < n ==> p[i] < n
  }

  lemma SwapKeepsPermutation(p: seq<nat>, n: nat, i: nat, j: nat)
    requires Permutation(p, n) && i < n && j < n
    ensures Permutation(p[i := p[j]][j := p[i]], n)
  {
  }

  /** A list has as many members as entries exactly when none repeats. */
  lemma {:induction false} MembersSize<T>(s: seq<T>)
    ensures |Members(s)| <= |s|
    ensures |Members(s)| == |s| <==> NoRepeats(s)
  {
    if s != [] {
      var front, last := s[..|s| - 1], s[|s| - 1];
      assert s == front + [last];
      MembersSize(front);
      assert Members(s) == Members(front) + {last};
      if last in front {
        assert Members(s) == Members(front);
        var i :| 0 <= i < |front| && front[i] == last;
        assert s[i] == s[|s| - 1];
      } else if NoRepeats(front) {
        SnocIsNew(front, last);
      } else {
        var i, j :| 0 <= i < j < |front| && front[i] == front[j];
        assert s[i] == s[j];
      }
    }
  }
}
