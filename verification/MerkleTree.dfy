/** The Merkle root: the level-by-level loop, the tree it builds, and exactly what a root commits to. */
module MerkleTree {
  import PriceTime

  /** Collision-free hashing, as free constructors: the zero hash, the hash of some transaction, and the hash of two
      concatenated hashes. Equal hashes were hashed from equal inputs. */
  datatype Hash = Zero | Leaf(digest: PriceTime.Digest) | Node(left: Hash, right: Hash)

  // ----- the tree, top down

  function Pow2(d: nat): (p: nat)
    ensures p >= 1
  {
    if d == 0 then 1 else 2 * Pow2(d - 1)
  }

  /** Levels above n leaves. */
  function Depth(n: nat): nat {
    if n <= 1 then 0 else 1 + Depth((n + 1) / 2)
  }

  lemma {:induction false} DepthCovers(n: nat)
    requires n >= 1
    ensures n <= Pow2(Depth(n))
  {
    if n >= 2 { DepthCovers((n + 1) / 2); }
  }

  /** The hash of a tree of depth d over the leaves lo..hi; a right half without leaves repeats the left half. */
  ghost function Tree(d: nat, l: seq<Hash>, lo: nat, hi: nat): Hash
    requires lo < hi <= |l| && hi - lo <= Pow2(d)
    decreases d
  {
    if d == 0 then l[lo]
    else
      var half := Pow2(d - 1);
      if hi - lo <= half then Node(Tree(d - 1, l, lo, hi), Tree(d - 1, l, lo, hi))
      else Node(Tree(d - 1, l, lo, lo + half), Tree(d - 1, l, lo + half, hi))
  }

  ghost function RootOf(l: seq<Hash>): Hash {
    if l == [] then Zero
    else
      DepthCovers(|l|);
      Tree(Depth(|l|), l, 0, |l|)
  }

  // ----- the loop, bottom up

  function Parent(l: seq<Hash>, i: nat): Hash
    requires 2 * i < |l|
  {
    Node(l[2 * i], if 2 * i + 1 < |l| then l[2 * i + 1] else l[2 * i])
  }

  ghost predicate IsLevelAbove(l: seq<Hash>, up: seq<Hash>) {
    |up| == (|l| + 1) / 2 && forall i :: 0 <= i < |up| ==> up[i] == Parent(l, i)
  }

  lemma TreeOfOne(d: nat, l: seq<Hash>, lo: nat, hi: nat)
    requires d >= 1 && lo < hi <= |l| && hi - lo <= Pow2(d - 1)
    ensures Tree(d, l, lo, hi) == Node(Tree(d - 1, l, lo, hi), Tree(d - 1, l, lo, hi))
  {
  }

  lemma TreeOfTwo(d: nat, l: seq<Hash>, lo: nat, mid: nat, hi: nat)
    requires d >= 1 && lo < mid < hi <= |l| && mid == lo + Pow2(d - 1) && hi - lo <= Pow2(d)
    ensures Tree(d, l, lo, hi) == Node(Tree(d - 1, l, lo, mid), Tree(d - 1, l, mid, hi))
  {
  }

  /** One level up is one level less of the tree: leaves 2*ulo..hi have the parents ulo..uhi. */
  lemma {:induction false} TreeOfLevel(d: nat, l: seq<Hash>, lo: nat, hi: nat, up: seq<Hash>, ulo: nat, uhi: nat)
    requires d >= 1 && IsLevelAbove(l, up)
    requires lo < hi <= |l| && hi - lo <= Pow2(d) && lo == 2 * ulo
    requires hi == 2 * uhi || (hi == 2 * uhi - 1 && hi == |l|)
    ensures ulo < uhi <= |up| && uhi - ulo <= Pow2(d - 1)
    ensures Tree(d, l, lo, hi) == Tree(d - 1, up, ulo, uhi)
    decreases d
  {
    assert uhi <= |up|;
    hide Tree, Pow2, IsLevelAbove, Parent;
    PowStep(d);
    if d == 1 {
      TreeOfPair(l, lo, hi, up, ulo);
    } else {
      var e, half, quarter := d - 2, Pow2(d - 1), Pow2(d - 2);
      PowStep(d - 1);
      if hi - lo <= half {
        TreeOfLevel(e + 1, l, lo, hi, up, ulo, uhi);
        LiftBoth(e, l, lo, hi, up, ulo, uhi);
      } else {
        var mid, umid := lo + half, ulo + quarter;
        TreeOfLevel(e + 1, l, lo, mid, up, ulo, umid);
        TreeOfLevel(e + 1, l, mid, hi, up, umid, uhi);
        JoinHalves(e, l, lo, mid, hi, up, ulo, umid, uhi);
      }
    }
  }

  lemma PowStep(d: nat)
    requires d >= 1
    ensures Pow2(d) == 2 * Pow2(d - 1)
    ensures d == 1 ==> Pow2(d) == 2
  {
  }

  lemma LiftBoth(e: nat, l: seq<Hash>, lo: nat, hi: nat, up: seq<Hash>, ulo: nat, uhi: nat)
    requires lo < hi <= |l| && hi - lo <= Pow2(e + 1) && ulo < uhi <= |up| && uhi - ulo <= Pow2(e)
    requires Tree(e + 1, l, lo, hi) == Tree(e, up, ulo, uhi)
    ensures Tree(e + 2, l, lo, hi) == Tree(e + 1, up, ulo, uhi)
  {
    hide Tree, Pow2;
    TreeOfOne(e + 2, l, lo, hi);
    TreeOfOne(e + 1, up, ulo, uhi);
  }

  lemma JoinHalves(e: nat, l: seq<Hash>, lo: nat, mid: nat, hi: nat, up: seq<Hash>, ulo: nat, umid: nat, uhi: nat)
    requires lo < mid < hi <= |l| && mid == lo + Pow2(e + 1) && hi - lo <= Pow2(e + 2)
    requires ulo < umid < uhi <= |up| && umid == ulo + Pow2(e) && uhi - ulo <= Pow2(e + 1)
    requires Tree(e + 1, l, lo, mid) == Tree(e, up, ulo, umid)
    requires Tree(e + 1, l, mid, hi) == Tree(e, up, umid, uhi)
    ensures Tree(e + 2, l, lo, hi) == Tree(e + 1, up, ulo, uhi)
  {
    PowStep(e + 1);
    PowStep(e + 2);
    hide Tree, Pow2;
    TreeOfTwo(e + 2, l, lo, mid, hi);
    TreeOfTwo(e + 1, up, ulo, umid, uhi);
  }

  lemma TreeOfPair(l: seq<Hash>, lo: nat, hi: nat, up: seq<Hash>, ulo: nat)
    requires IsLevelAbove(l, up)
    requires lo == 2 * ulo && lo < hi <= lo + 2 && hi <= |l| && (hi == lo + 2 || hi == |l|)
    ensures Pow2(1) == 2 && Pow2(0) == 1 && ulo < |up|
    ensures Tree(1, l, lo, hi) == Tree(0, up, ulo, ulo + 1)
  {
    assert up[ulo] == Parent(l, ulo);
  }

  lemma RootOfLevel(l: seq<Hash>, up: seq<Hash>)
    requires |l| >= 2 && IsLevelAbove(l, up)
    ensures RootOf(up) == RootOf(l)
  {
    DepthCovers(|l|);
    TreeOfLevel(Depth(|l|), l, 0, |l|, up, 0, |up|);
  }

  /** The smallest trees: left before right, and an odd last hash paired with itself. */
  lemma SmallRoots(a: Hash, b: Hash, c: Hash)
    ensures RootOf([]) == Zero && RootOf([a]) == a && RootOf([a, b]) == Node(a, b)
    ensures RootOf([a, b, c]) == Node(Node(a, b), Node(c, c))
  {
    assert IsLevelAbove([a, b], [Node(a, b)]);
    assert IsLevelAbove([a, b, c], [Node(a, b), Node(c, c)]);
    assert IsLevelAbove([Node(a, b), Node(c, c)], [Node(Node(a, b), Node(c, c))]);
    RootOfLevel([a, b], [Node(a, b)]);
    RootOfLevel([a, b, c], [Node(a, b), Node(c, c)]);
    RootOfLevel([Node(a, b), Node(c, c)], [Node(Node(a, b), Node(c, c))]);
    hide Tree;
    OneLeaf(a);
    OneLeaf(Node(a, b));
    OneLeaf(Node(Node(a, b), Node(c, c)));
  }

  lemma OneLeaf(a: Hash)
    ensures RootOf([a]) == a
  {
  }

  /** The loop as written: rebuild the level from chunks of two until one hash is left. */
  method Root(leaves: seq<Hash>) returns (root: Hash)
    ensures root == RootOf(leaves)
  {
    if leaves == [] {
      return Zero;
    }
    var current := leaves;
    while |current| > 1
      invariant |current| >= 1 && RootOf(current) == RootOf(leaves)
      decreases |current|
    {
      var next := [];
      var i := 0;
      while i < |current|
        invariant i % 2 == 0 && |next| == i / 2 && i <= |current| + 1
        invariant forall j :: 0 <= j < |next| ==> next[j] == Parent(current, j)
        decreases |current| - i
      {
        var left := current[i];
        var right := if i + 1 < |current| then current[i + 1] else left;
        next := next + [Node(left, right)];
        i := i + 2;
      }
      RootOfLevel(current, next);
      current := next;
    }
    return current[0];
  }

  // ----- what a root commits to

  /** Which of n leaves stands at position i of a full tree of depth d. */
  function LeafAt(d: nat, n: nat, i: nat): (j: nat)
    requires 1 <= n <= Pow2(d) && i < Pow2(d)
    ensures j < n && (i < n ==> j == i)
    decreases d
  {
    if d == 0 then 0
    else
      var half := Pow2(d - 1);
      if n <= half then LeafAt(d - 1, n, if i < half then i else i - half)
      else if i < half then LeafAt(d - 1, half, i)
      else half + LeafAt(d - 1, n - half, i - half)
  }

  /** The leaf of the range lo..hi that stands at position i of a full tree of depth d. */
  function Filled(d: nat, l: seq<Hash>, lo: nat, hi: nat, i: nat): Hash
    requires lo < hi <= |l| && hi - lo <= Pow2(d) && i < Pow2(d)
  {
    l[lo + LeafAt(d, hi - lo, i)]
  }

  /** Two ranges of leaves fill a full tree of depth d alike. */
  ghost predicate SameFilling(d: nat, a: seq<Hash>, alo: nat, ahi: nat, b: seq<Hash>, blo: nat, bhi: nat)
    requires alo < ahi <= |a| && ahi - alo <= Pow2(d) && blo < bhi <= |b| && bhi - blo <= Pow2(d)
  {
    forall i: nat :: i < Pow2(d) ==> Filled(d, a, alo, ahi, i) == Filled(d, b, blo, bhi, i)
  }

  /** Where the left half of lo..hi ends and the right half starts; a missing right half is the left one again. */
  function LeftEnd(d: nat, lo: nat, hi: nat): nat
    requires d >= 1
  {
    if hi - lo <= Pow2(d - 1) then hi else lo + Pow2(d - 1)
  }

  function RightStart(d: nat, lo: nat, hi: nat): nat
    requires d >= 1
  {
    if hi - lo <= Pow2(d - 1) then lo else lo + Pow2(d - 1)
  }

  lemma HalfRanges(d: nat, lo: nat, hi: nat)
    requires d >= 1 && lo < hi && hi - lo <= Pow2(d)
    ensures Pow2(d) == 2 * Pow2(d - 1)
    ensures lo < LeftEnd(d, lo, hi) <= hi && LeftEnd(d, lo, hi) - lo <= Pow2(d - 1)
    ensures lo <= RightStart(d, lo, hi) < hi && hi - RightStart(d, lo, hi) <= Pow2(d - 1)
  {
  }

  lemma FilledInHalf(e: nat, l: seq<Hash>, lo: nat, hi: nat, m: nat, n: nat, i: nat)
    requires lo < hi <= |l| && hi - lo <= Pow2(e + 1) && i < Pow2(e)
    requires m == LeftEnd(e + 1, lo, hi) && n == RightStart(e + 1, lo, hi)
    ensures Pow2(e + 1) == 2 * Pow2(e) && lo < m <= |l| && n < hi && m - lo <= Pow2(e) && hi - n <= Pow2(e)
    ensures Filled(e + 1, l, lo, hi, i) == Filled(e, l, lo, m, i)
    ensures Filled(e + 1, l, lo, hi, Pow2(e) + i) == Filled(e, l, n, hi, i)
  {
  }

  lemma FillingOfHalves(e: nat, a: seq<Hash>, alo: nat, ahi: nat, am: nat, an: nat,
                        b: seq<Hash>, blo: nat, bhi: nat, bm: nat, bn: nat)
    requires alo < ahi <= |a| && ahi - alo <= Pow2(e + 1) && blo < bhi <= |b| && bhi - blo <= Pow2(e + 1)
    requires am == LeftEnd(e + 1, alo, ahi) && an == RightStart(e + 1, alo, ahi)
    requires bm == LeftEnd(e + 1, blo, bhi) && bn == RightStart(e + 1, blo, bhi)
    requires alo < am <= ahi && am - alo <= Pow2(e) && an < ahi && ahi - an <= Pow2(e)
    requires blo < bm <= bhi && bm - blo <= Pow2(e) && bn < bhi && bhi - bn <= Pow2(e)
    ensures SameFilling(e + 1, a, alo, ahi, b, blo, bhi) <==>
              SameFilling(e, a, alo, am, b, blo, bm) && SameFilling(e, a, an, ahi, b, bn, bhi)
  {
    var d, half := e + 1, Pow2(e);
    assert Pow2(d) == 2 * half;
    hide Filled, Pow2, LeftEnd, RightStart;
    if SameFilling(d, a, alo, ahi, b, blo, bhi) {
      forall i: nat | i < half ensures Filled(e, a, alo, am, i) == Filled(e, b, blo, bm, i) {
        FilledInHalf(e, a, alo, ahi, am, an, i);
        FilledInHalf(e, b, blo, bhi, bm, bn, i);
        assert Filled(d, a, alo, ahi, i) == Filled(d, b, blo, bhi, i);
      }
      forall i: nat | i < half ensures Filled(e, a, an, ahi, i) == Filled(e, b, bn, bhi, i) {
        FilledInHalf(e, a, alo, ahi, am, an, i);
        FilledInHalf(e, b, blo, bhi, bm, bn, i);
        assert Filled(d, a, alo, ahi, half + i) == Filled(d, b, blo, bhi, half + i);
      }
    }
    if SameFilling(e, a, alo, am, b, blo, bm) && SameFilling(e, a, an, ahi, b, bn, bhi) {
      forall i: nat | i < Pow2(d) ensures Filled(d, a, alo, ahi, i) == Filled(d, b, blo, bhi, i) {
        var k := if i < half then i else i - half;
        FilledInHalf(e, a, alo, ahi, am, an, k);
        FilledInHalf(e, b, blo, bhi, bm, bn, k);
        assert Filled(e, a, alo, am, k) == Filled(e, b, blo, bm, k);
        assert Filled(e, a, an, ahi, k) == Filled(e, b, bn, bhi, k);
      }
    }
  }

  /** Full trees have equal hashes exactly when they are filled alike. */
  lemma {:induction false} TreesEqualIff(d: nat, a: seq<Hash>, alo: nat, ahi: nat,
                                         b: seq<Hash>, blo: nat, bhi: nat)
    requires alo < ahi <= |a| && ahi - alo <= Pow2(d) && blo < bhi <= |b| && bhi - blo <= Pow2(d)
    ensures Tree(d, a, alo, ahi) == Tree(d, b, blo, bhi) <==> SameFilling(d, a, alo, ahi, b, blo, bhi)
    decreases d
  {
    hide Tree, SameFilling, Pow2, LeftEnd, RightStart;
    if d == 0 {
      TreesOfOneLeaf(a, alo, ahi, b, blo, bhi);
    } else {
      HalfRanges(d, alo, ahi);
      HalfRanges(d, blo, bhi);
      var am, an := LeftEnd(d, alo, ahi), RightStart(d, alo, ahi);
      var bm, bn := LeftEnd(d, blo, bhi), RightStart(d, blo, bhi);
      TreeOfHalves(d, a, alo, ahi, am, an);
      TreeOfHalves(d, b, blo, bhi, bm, bn);
      FillingOfHalves(d - 1, a, alo, ahi, am, an, b, blo, bhi, bm, bn);
      TreesEqualIff(d - 1, a, alo, am, b, blo, bm);
      TreesEqualIff(d - 1, a, an, ahi, b, bn, bhi);
    }
  }

  lemma TreesOfOneLeaf(a: seq<Hash>, alo: nat, ahi: nat, b: seq<Hash>, blo: nat, bhi: nat)
    requires alo < ahi <= |a| && ahi - alo <= Pow2(0) && blo < bhi <= |b| && bhi - blo <= Pow2(0)
    ensures Tree(0, a, alo, ahi) == Tree(0, b, blo, bhi) <==> SameFilling(0, a, alo, ahi, b, blo, bhi)
  {
    assert Filled(0, a, alo, ahi, 0) == a[alo] && Filled(0, b, blo, bhi, 0) == b[blo];
  }

  lemma TreeOfHalves(d: nat, l: seq<Hash>, lo: nat, hi: nat, m: nat, n: nat)
    requires d >= 1 && lo < hi <= |l| && hi - lo <= Pow2(d)
    requires m == LeftEnd(d, lo, hi) && n == RightStart(d, lo, hi)
    ensures lo < m <= hi && m - lo <= Pow2(d - 1) && n < hi && hi - n <= Pow2(d - 1)
    ensures Tree(d, l, lo, hi) == Node(Tree(d - 1, l, lo, m), Tree(d - 1, l, n, hi))
  {
  }

  /** Lists with the same number of levels have the same root exactly when they fill the tree alike. */
  lemma SameDepthRoots(a: seq<Hash>, b: seq<Hash>)
    requires a != [] && b != [] && Depth(|a|) == Depth(|b|)
    ensures |a| <= Pow2(Depth(|a|)) && |b| <= Pow2(Depth(|b|))
    ensures RootOf(a) == RootOf(b) <==> SameFilling(Depth(|a|), a, 0, |a|, b, 0, |b|)
  {
    DepthCovers(|a|);
    DepthCovers(|b|);
    TreesEqualIff(Depth(|a|), a, 0, |a|, b, 0, |b|);
  }

  /** Lists of equal length with equal roots are equal. */
  lemma EqualLengthBinding(a: seq<Hash>, b: seq<Hash>)
    requires |a| == |b| && RootOf(a) == RootOf(b)
    ensures a == b
  {
    if a != [] {
      SameDepthRoots(a, b);
      var d := Depth(|a|);
      forall i | 0 <= i < |a| ensures a[i] == b[i] {
        assert Filled(d, a, 0, |a|, i) == Filled(d, b, 0, |b|, i);
      }
    }
  }

  ghost function LevelAbove(l: seq<Hash>): (up: seq<Hash>)
    ensures IsLevelAbove(l, up)
  {
    seq((|l| + 1) / 2, i requires 0 <= 2 * i < |l| => Parent(l, i))
  }

  /** Two lists, the second one longer, have the same level above exactly when the first is odd and the second repeats
      its last leaf. */
  lemma OneLongerSameLevel(a: seq<Hash>, b: seq<Hash>)
    requires a != [] && |b| == |a| + 1
    ensures LevelAbove(a) == LevelAbove(b) <==> |a| % 2 == 1 && b == a + [a[|a| - 1]]
  {
    var x, y, n := LevelAbove(a), LevelAbove(b), |a|;
    if x == y {
      forall i | 0 <= i < n ensures a[i] == b[i] && b[n] == a[n - 1] {
        var j, k := i / 2, (n - 1) / 2;
        assert x[j] == Parent(a, j) && y[j] == Parent(b, j) && x[k] == Parent(a, k) && y[k] == Parent(b, k);
      }
    }
    if n % 2 == 1 && b == a + [a[n - 1]] {
      forall i | 0 <= i < |x| ensures x[i] == y[i] {
        assert x[i] == Parent(a, i) && y[i] == Parent(b, i);
      }
    }
  }

  /** Repeating the last leaf of an odd list keeps the root, for every odd length from three on. */
  lemma OddListRepeatsLast(l: seq<Hash>)
    requires |l| % 2 == 1 && |l| >= 3
    ensures RootOf(l + [l[|l| - 1]]) == RootOf(l)
  {
    var m := l + [l[|l| - 1]];
    var x, y := LevelAbove(l), LevelAbove(m);
    forall i | 0 <= i < |x| ensures x[i] == y[i] {
      assert x[i] == Parent(l, i) && y[i] == Parent(m, i);
    }
    assert x == y;
    RootOfLevel(l, x);
    RootOfLevel(m, y);
  }

  /** Length is not committed to across levels: every list of two or more has the root of the list one level up. */
  lemma RootForgetsLevels(l: seq<Hash>)
    requires |l| >= 2
    ensures |LevelAbove(l)| < |l| && RootOf(LevelAbove(l)) == RootOf(l)
  {
    RootOfLevel(l, LevelAbove(l));
  }

  // ----- lists of transaction hashes

  ghost predicate AllDigests(l: seq<Hash>) {
    forall i :: 0 <= i < |l| ==> l[i].Leaf?
  }

  /** How often one can step to the left child. */
  ghost function LeftSpine(x: Hash): nat {
    if x.Node? then 1 + LeftSpine(x.left) else 0
  }

  lemma {:induction false} SpineIsDepth(d: nat, l: seq<Hash>, lo: nat, hi: nat)
    requires AllDigests(l) && lo < hi <= |l| && hi - lo <= Pow2(d)
    ensures LeftSpine(Tree(d, l, lo, hi)) == d
    decreases d
  {
    if d > 0 {
      SpineIsDepth(d - 1, l, lo, if hi - lo <= Pow2(d - 1) then hi else lo + Pow2(d - 1));
    }
  }

  /** For lists of transaction hashes the root commits to everything but repetition at the end: two lists, of whatever
      lengths, have equal roots exactly when both are empty, or they have equally many levels and fill them alike. */
  lemma TransactionRootsIff(a: seq<Hash>, b: seq<Hash>)
    requires AllDigests(a) && AllDigests(b)
    ensures a != [] ==> |a| <= Pow2(Depth(|a|))
    ensures b != [] ==> |b| <= Pow2(Depth(|b|))
    ensures RootOf(a) == RootOf(b) <==>
              if a == [] || b == [] then a == b
              else Depth(|a|) == Depth(|b|) && SameFilling(Depth(|a|), a, 0, |a|, b, 0, |b|)
  {
    if a != [] { DepthCovers(|a|); SpineIsDepth(Depth(|a|), a, 0, |a|); NotZero(a); }
    if b != [] { DepthCovers(|b|); SpineIsDepth(Depth(|b|), b, 0, |b|); NotZero(b); }
    if a != [] && b != [] && Depth(|a|) == Depth(|b|) { SameDepthRoots(a, b); }
  }

  lemma NotZero(l: seq<Hash>)
    requires AllDigests(l) && l != []
    ensures RootOf(l) != Zero
  {
    DepthCovers(|l|);
  }
}
