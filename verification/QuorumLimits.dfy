/** Where quorum safety ends: exact fault budgets, exact certificate lists, and the totals that wrap. */
module QuorumLimits {
  import opened Arithmetic
  import opened Sums
  import opened LeaderRotation
  import opened Quorum

  // ----- the exact fault budget

  /** Two sound certificates for conflicting blocks under a recorded total, over validators of stake `sum`, with faulty
      stake at most f and nobody else signing conflicting blocks. */
  ghost predicate Split(vs: Validators, total: nat, sum: nat, check: SignatureCheck, faulty: set<Address>, f: nat,
                        conflicts: (Hash, Hash) -> bool, q1: QuorumCertificate, q2: QuorumCertificate)
  {
    && Sum(Stakes(vs)) == sum && StakeOf(vs, faulty) <= f && HonestOutside(vs, check, faulty, conflicts)
    && SoundCertificate(vs, total, check, q1) && SoundCertificate(vs, total, check, q2)
    && conflicts(q1.blockHash, q2.blockHash)
  }

  /** The stake that two quorums must share, where validators of stake `sum` face the threshold of `total`. */
  function Overlap(total: nat, sum: nat): int {
    2 * Threshold(total) - sum
  }

  lemma ThresholdBounds(total: nat)
    ensures 3 * Threshold(total) < U128
    ensures total < U128 ==> 2 * total < U128 || 3 * Threshold(total) <= 2 * total - U128
    ensures total < U128 ==> Threshold(total) <= total
  {
    if U128 <= 2 * total < 2 * U128 {
      assert 2 * total % U128 == 2 * total - U128;
    }
  }

  ghost function FourStakes(x: nat, p: nat, r: nat): Validators {
    map[1 := Validator(1, 1, x), 2 := Validator(2, 2, p), 3 := Validator(3, 3, p), 4 := Validator(4, 4, r)]
  }

  /** Validator 2 signs block 10 only, 3 signs block 20 only, 4 nothing; 1 signs both, if it has stake. */
  ghost function DoubleCheck(x: nat): SignatureCheck {
    (k, h, g) => (k == 1 && x > 0 && (h == 10 || h == 20)) || (k == 2 && h == 10) || (k == 3 && h == 20)
  }

  ghost function AnyTwo(): (Hash, Hash) -> bool {
    (h1, h2) => h1 != h2
  }

  lemma FourTotal(x: nat, p: nat, r: nat)
    ensures Sum(Stakes(FourStakes(x, p, r))) == x + p + p + r
  {
    var st: map<Address, nat> := map[1 := x, 2 := p, 3 := p, 4 := r];
    assert Stakes(FourStakes(x, p, r)) == st;
    SumSplit(st, 1);
    SumSplit(st - {1}, 2);
    SumSplit(st - {1} - {2}, 3);
    SumSplit(st - {1} - {2} - {3}, 4);
    assert st - {1} - {2} - {3} - {4} == map[];
  }

  lemma PairWeight(vs: Validators, check: SignatureCheck, h: Hash, a: Address, b: Address)
    requires a in vs && b in vs
    ensures Weight(vs, check, h, [(a, 0), (b, 0)]) ==
            (if Counts(vs, check, h, (a, 0)) then vs[a].stake else 0)
            + (if Counts(vs, check, h, (b, 0)) then vs[b].stake else 0)
  {
    hide Counts;
    var one, two := [(a, 0)], [(a, 0), (b, 0)];
    assert one[..|one| - 1] == [] && two[..|two| - 1] == one;
    assert Weight(vs, check, h, []) == 0;
  }

  lemma FaultyStake(x: nat, p: nat, r: nat)
    ensures StakeOf(FourStakes(x, p, r), if x > 0 then {1} else {}) == x
  {
    var vs := FourStakes(x, p, r);
    NoStake(vs, {});
    AddSigner(vs, {}, 1);
    assert {} + {1} == {1};
  }

  /** For every recorded total, and every stake that reaches its threshold at all, faulty stake of the overlap suffices
      to split it. */
  lemma SplitExists(total: nat, sum: nat, f: nat)
    returns (vs: Validators, check: SignatureCheck, faulty: set<Address>, conflicts: (Hash, Hash) -> bool,
             q1: QuorumCertificate, q2: QuorumCertificate)
    requires Threshold(total) <= sum && f >= Overlap(total, sum)
    ensures Split(vs, total, sum, check, faulty, f, conflicts, q1, q2)
    ensures Overlap(total, sum) <= 0 ==> faulty == {}
  {
    ThresholdBounds(total);
    hide Sum, StakeOf, Weight, Threshold, FourStakes, DoubleCheck, HonestOutside;
    var q := Threshold(total);
    var x := if Overlap(total, sum) > 0 then Overlap(total, sum) else 0;
    vs, check := FourStakes(x, q - x, sum - 2 * q + x), DoubleCheck(x);
    faulty, conflicts := if x > 0 then {1} else {}, AnyTwo();
    q1, q2 := QuorumCertificate(10, [(1, 0), (2, 0)]), QuorumCertificate(20, [(1, 0), (3, 0)]);
    FourTotal(x, q - x, sum - 2 * q + x);
    FaultyStake(x, q - x, sum - 2 * q + x);
    BothQuorums(x, q - x, sum - 2 * q + x);
    HonestSignOnce(x, q - x, sum - 2 * q + x);
    SmallWeight(q);
    TwoDistinct(2);
    TwoDistinct(3);
    hide DistinctSigners;
  }

  lemma SmallWeight(weight: nat)
    requires weight < U128
    ensures weight % U128 == weight
  {
  }

  lemma TwoDistinct(b: Address)
    requires b != 1
    ensures DistinctSigners([(1, 0), (b, 0)])
  {
  }

  lemma BothQuorums(x: nat, p: nat, r: nat)
    ensures Weight(FourStakes(x, p, r), DoubleCheck(x), 10, [(1, 0), (2, 0)]) == x + p
    ensures Weight(FourStakes(x, p, r), DoubleCheck(x), 20, [(1, 0), (3, 0)]) == x + p
  {
    PairWeight(FourStakes(x, p, r), DoubleCheck(x), 10, 1, 2);
    PairWeight(FourStakes(x, p, r), DoubleCheck(x), 20, 1, 3);
  }

  lemma HonestSignOnce(x: nat, p: nat, r: nat)
    ensures HonestOutside(FourStakes(x, p, r), DoubleCheck(x), if x > 0 then {1} else {}, AnyTwo())
  {
  }

  /** Validators of stake `sum` can be split under faulty stake f exactly when their stake reaches the threshold and f
      the overlap, whatever the recorded total. */
  lemma SplitBySumIff(total: nat, sum: nat, f: nat)
    ensures (exists vs, check, faulty, conflicts, q1, q2 :: Split(vs, total, sum, check, faulty, f, conflicts, q1, q2))
            <==> Threshold(total) <= sum && f >= Overlap(total, sum)
  {
    if Threshold(total) <= sum && f >= Overlap(total, sum) {
      var vs, check, faulty, conflicts, q1, q2 := SplitExists(total, sum, f);
    } else {
      forall vs, check, faulty, conflicts, q1, q2
        ensures !Split(vs, total, sum, check, faulty, f, conflicts, q1, q2)
      {
        if Split(vs, total, sum, check, faulty, f, conflicts, q1, q2) {
          SplitBounds(vs, total, sum, check, faulty, f, conflicts, q1, q2);
        }
      }
    }
  }

  lemma SplitBounds(vs: Validators, total: nat, sum: nat, check: SignatureCheck, faulty: set<Address>, f: nat,
                    conflicts: (Hash, Hash) -> bool, q1: QuorumCertificate, q2: QuorumCertificate)
    requires Split(vs, total, sum, check, faulty, f, conflicts, q1, q2)
    ensures Threshold(total) <= sum && f >= Overlap(total, sum)
  {
    CertifiedStake(vs, total, check, q1);
    var signers := Signers(vs, check, q1.blockHash, q1.signatures);
    StakeMonotone(vs, signers, signers);
    if f < Overlap(total, sum) {
      NoConflictingCertificates(vs, total, check, faulty, conflicts, q1, q2);
    }
  }

  /** Validators whose stake is at most the recorded total, as it is unless additions wrapped, and faulty stake f. */
  ghost predicate SplitWithin(vs: Validators, total: nat, check: SignatureCheck, faulty: set<Address>, f: nat,
                              conflicts: (Hash, Hash) -> bool, q1: QuorumCertificate, q2: QuorumCertificate)
  {
    Sum(Stakes(vs)) <= total && Split(vs, total, Sum(Stakes(vs)), check, faulty, f, conflicts, q1, q2)
  }

  lemma WithinTotal(total: nat, f: nat)
    returns (vs: Validators, check: SignatureCheck, faulty: set<Address>, conflicts: (Hash, Hash) -> bool,
             q1: QuorumCertificate, q2: QuorumCertificate)
    requires total < U128 && f >= Overlap(total, total)
    ensures SplitWithin(vs, total, check, faulty, f, conflicts, q1, q2) && Sum(Stakes(vs)) == total
    ensures Overlap(total, total) <= 0 ==> faulty == {}
  {
    ThresholdBounds(total);
    vs, check, faulty, conflicts, q1, q2 := SplitExists(total, total, f);
  }

  /** For every total of 128 bits, conflicting certificates are possible under faulty stake f exactly when f reaches the
      overlap of two quorums. */
  lemma SplitIff(total: nat, f: nat)
    requires total < U128
    ensures (exists vs, check, faulty, conflicts, q1, q2 ::
               SplitWithin(vs, total, check, faulty, f, conflicts, q1, q2))
            <==> f >= Overlap(total, total)
  {
    if f >= Overlap(total, total) {
      var vs, check, faulty, conflicts, q1, q2 := WithinTotal(total, f);
    } else {
      forall vs, check, faulty, conflicts, q1, q2
        ensures !SplitWithin(vs, total, check, faulty, f, conflicts, q1, q2)
      {
        if SplitWithin(vs, total, check, faulty, f, conflicts, q1, q2) {
          SplitBounds(vs, total, Sum(Stakes(vs)), check, faulty, f, conflicts, q1, q2);
        }
      }
    }
  }

  lemma OverlapOf(total: nat)
    requires total < U128
    ensures Overlap(total, total) <= 0 <==> total in {0, 1, 2, 4} || 2 * total >= U128
    ensures (exists f: nat :: 3 * f < total && f >= Overlap(total, total)) <==> total % 3 != 0 || 2 * total >= U128
  {
    ThresholdBounds(total);
    assert total == 3 * (total / 3) + total % 3;
    if 2 * total >= U128 {
      assert 3 * 0 < total && 0 >= Overlap(total, total);
    } else if total % 3 != 0 {
      assert 3 * (total / 3) < total && total / 3 >= Overlap(total, total);
    }
  }

  /** A total allows conflicting certificates under some faulty stake below a third, the classical budget, exactly when
      three does not divide it or its double wraps. */
  lemma ClassicalBudgetIff(total: nat)
    requires total < U128
    ensures (exists f: nat, vs, check, faulty, conflicts, q1, q2 ::
               3 * f < total && SplitWithin(vs, total, check, faulty, f, conflicts, q1, q2))
            <==> total % 3 != 0 || 2 * total >= U128
  {
    hide SplitWithin, Overlap;
    OverlapOf(total);
    if f: nat :| 3 * f < total && f >= Overlap(total, total) {
      var vs, check, faulty, conflicts, q1, q2 := WithinTotal(total, f);
      assert 3 * f < total && SplitWithin(vs, total, check, faulty, f, conflicts, q1, q2);
    } else {
      forall f: nat, vs, check, faulty, conflicts, q1, q2 | 3 * f < total
        ensures !SplitWithin(vs, total, check, faulty, f, conflicts, q1, q2)
      {
        SplitIff(total, f);
      }
    }
  }

  /** With nobody faulty at all, conflicting certificates are possible exactly for four small totals and for all whose
      double wraps. */
  lemma NoOverlapIff(total: nat)
    requires total < U128
    ensures (exists vs, check, conflicts, q1, q2 :: SplitWithin(vs, total, check, {}, 0, conflicts, q1, q2))
            <==> total in {0, 1, 2, 4} || 2 * total >= U128
  {
    hide SplitWithin, Overlap;
    OverlapOf(total);
    if Overlap(total, total) <= 0 {
      var vs, check, faulty, conflicts, q1, q2 := WithinTotal(total, 0);
    } else {
      SplitIff(total, 0);
    }
  }

  ghost function UnitValidators(): Validators {
    FourStakes(1, 1, 1)
  }

  /** Validators 1 and 2 sign block 10 only, validators 3 and 4 block 20 only. */
  ghost function SplitCheck(): SignatureCheck {
    (k, h, g) => (h == 10 && (k == 1 || k == 2)) || (h == 20 && (k == 3 || k == 4))
  }

  /** With four unit stakes and nobody faulty, two conflicting blocks can both be certified: the threshold is 2. */
  lemma FourValidatorsSplit()
    ensures var vs, check := UnitValidators(), SplitCheck();
            && Sum(Stakes(vs)) == 4
            && SoundCertificate(vs, 4, check, QuorumCertificate(10, [(1, 0), (2, 0)]))
            && SoundCertificate(vs, 4, check, QuorumCertificate(20, [(3, 0), (4, 0)]))
            && HonestOutside(vs, check, {}, (h1, h2) => h1 != h2)
  {
    var vs, check := UnitValidators(), SplitCheck();
    FourTotal(1, 1, 1);
    TwoUnitWeights(vs, check, 10, 1, 2);
    TwoUnitWeights(vs, check, 20, 3, 4);
  }

  lemma TwoUnitWeights(vs: Validators, check: SignatureCheck, h: Hash, a: Address, b: Address)
    requires Counts(vs, check, h, (a, 0)) && Counts(vs, check, h, (b, 0)) && vs[a].stake == vs[b].stake == 1
    ensures Weight(vs, check, h, [(a, 0), (b, 0)]) == 2
  {
    var one, two := [(a, 0)], [(a, 0), (b, 0)];
    assert one[..|one| - 1] == [] && two[..|two| - 1] == one;
    assert Weight(vs, check, h, []) == 0;
    assert Weight(vs, check, h, one) == 1;
  }

  // ----- which lists certify

  function Copies(entry: (Address, Sig), n: nat): seq<(Address, Sig)> {
    if n == 0 then [] else Copies(entry, n - 1) + [entry]
  }

  /** Signers are not deduplicated: one validator with any stake can fill a certificate on its own, whatever the
      total. */
  lemma RepeatedSignerVerifies(vs: Validators, total: nat, check: SignatureCheck, hash: Hash, entry: (Address, Sig))
    requires Counts(vs, check, hash, entry) && 0 < vs[entry.0].stake < U128
    ensures exists n: nat :: Verifies(vs, total, check, QuorumCertificate(hash, Copies(entry, n)))
  {
    var stake := vs[entry.0].stake;
    var n := if stake < Threshold(total) then CopiesNeeded(Threshold(total), stake) else 1;
    ThresholdBounds(total);
    RepeatedWeight(vs, check, hash, entry, n);
    hide Weight, Counts, Copies, Threshold;
    SmallWeight(n * stake);
    assert Verifies(vs, total, check, QuorumCertificate(hash, Copies(entry, n)));
  }

  /** The least n with x <= n * s. */
  function CopiesNeeded(x: nat, s: nat): (n: nat)
    requires s > 0
    ensures x <= n * s < x + s
  {
    DivBounds(x + s - 1, s);
    (x + s - 1) / s
  }

  lemma {:induction false} RepeatedWeight(vs: Validators, check: SignatureCheck, hash: Hash, entry: (Address, Sig),
                                        n: nat)
    requires Counts(vs, check, hash, entry)
    ensures Weight(vs, check, hash, Copies(entry, n)) == n * vs[entry.0].stake
  {
    if n > 0 {
      RepeatedWeight(vs, check, hash, entry, n - 1);
      assert Copies(entry, n)[..|Copies(entry, n)| - 1] == Copies(entry, n - 1);
      assert n * vs[entry.0].stake == (n - 1) * vs[entry.0].stake + vs[entry.0].stake;
    }
  }

  ghost function Occurrences(entries: seq<(Address, Sig)>, a: Address): nat {
    if entries == [] then 0
    else
      var front, last := entries[..|entries| - 1], entries[|entries| - 1];
      Occurrences(front, a) + if last.0 == a then 1 else 0
  }

  lemma {:induction false} OccurrenceBounds(entries: seq<(Address, Sig)>, a: Address)
    ensures Occurrences(entries, a) <= |entries|
    ensures forall i :: 0 <= i < |entries| && entries[i].0 == a ==> Occurrences(entries, a) >= 1
    ensures forall i, j :: 0 <= i < j < |entries| && entries[i].0 == entries[j].0 == a ==> Occurrences(entries, a) >= 2
  {
    if entries != [] {
      var front := entries[..|entries| - 1];
      OccurrenceBounds(front, a);
      forall i | 0 <= i < |entries| - 1 ensures entries[i] == front[i] { }
    }
  }

  /** Two validators, of which only a ever signs. */
  ghost function Lopsided(a: Address, stake: nat, rest: nat): Validators {
    map[a := Validator(a, 0, stake), a + 1 := Validator(a + 1, 1, rest)]
  }

  ghost function OnlyKeyZero(): SignatureCheck {
    (k, h, g) => k == 0
  }

  lemma {:induction false} LopsidedWeight(a: Address, stake: nat, rest: nat, hash: Hash, entries: seq<(Address, Sig)>)
    ensures Weight(Lopsided(a, stake, rest), OnlyKeyZero(), hash, entries) == Occurrences(entries, a) * stake
  {
    if entries != [] {
      LopsidedWeight(a, stake, rest, hash, entries[..|entries| - 1]);
    }
  }

  lemma LopsidedStakes(a: Address, stake: nat, rest: nat, who: set<Address>)
    ensures Sum(Stakes(Lopsided(a, stake, rest))) == stake + rest
    ensures who <= {a} ==> StakeOf(Lopsided(a, stake, rest), who) <= stake
  {
    var vs := Lopsided(a, stake, rest);
    var st := Stakes(vs);
    SumSplit(st, a);
    SumSplit(st - {a}, a + 1);
    assert st - {a} - {a + 1} == map[];
    if who <= {a} {
      NoStake(vs, {});
      AddSigner(vs, {}, a);
      assert {} + {a} == {a};
      StakeMonotone(vs, who, {a});
    }
  }

  /** A list verifies with no more stake than it takes a's occurrences, with their multiplicity, to reach the
      threshold. */
  lemma OccurrencesVerify(entries: seq<(Address, Sig)>, hash: Hash, total: nat, a: Address)
    returns (vs: Validators, check: SignatureCheck, stake: nat)
    requires total < U128 && |entries| < U128 / 2 && Occurrences(entries, a) > 0
    ensures stake == CopiesNeeded(Threshold(total), Occurrences(entries, a))
    ensures Sum(Stakes(vs)) == total && Verifies(vs, total, check, QuorumCertificate(hash, entries))
    ensures StakeOf(vs, Signers(vs, check, hash, entries)) <= stake
  {
    hide Weight, Sum, StakeOf, Occurrences, Threshold, CopiesNeeded, Signers, Lopsided, OnlyKeyZero;
    var n := Occurrences(entries, a);
    stake := CopiesNeeded(Threshold(total), n);
    ThresholdBounds(total);
    OccurrenceBounds(entries, a);
    NoMoreThan(Threshold(total), n);
    vs, check := Lopsided(a, stake, total - stake), OnlyKeyZero();
    LopsidedWeight(a, stake, total - stake, hash, entries);
    LopsidedSigners(a, stake, total - stake, hash, entries);
    LopsidedStakes(a, stake, total - stake, Signers(vs, check, hash, entries));
    Commute(stake, n);
    SmallWeight(n * stake);
  }

  lemma LopsidedSigners(a: Address, stake: nat, rest: nat, hash: Hash, entries: seq<(Address, Sig)>)
    ensures Signers(Lopsided(a, stake, rest), OnlyKeyZero(), hash, entries) <= {a}
  {
  }

  lemma NoMoreThan(x: nat, n: nat)
    requires n > 0
    ensures CopiesNeeded(x, n) <= x
    ensures n >= 2 && x >= 2 ==> CopiesNeeded(x, n) < x
  {
    var c := CopiesNeeded(x, n);
    assert c * n < x + n;
    if c > x {
      MulMono(x + 1, c, n, n);
      assert (x + 1) * n == x * n + n;
      MulMono(x, x, 1, n);
    } else if n >= 2 && x >= 2 && c == x {
      assert x * n == x + x * (n - 1);
      MulMono(2, x, n - 1, n - 1);
    }
  }

  /** Any list that names an address twice verifies, for some validators, with less than the threshold. */
  lemma RepeatVerifiesShort(entries: seq<(Address, Sig)>, hash: Hash, total: nat, i: nat, j: nat)
    returns (vs: Validators, check: SignatureCheck)
    requires i < j < |entries| < U128 / 2 && entries[i].0 == entries[j].0
    requires total < U128 && Threshold(total) >= 2
    ensures Sum(Stakes(vs)) == total && Verifies(vs, total, check, QuorumCertificate(hash, entries))
    ensures StakeOf(vs, Signers(vs, check, hash, entries)) < Threshold(total)
  {
    OccurrenceBounds(entries, entries[i].0);
    NoMoreThan(Threshold(total), Occurrences(entries, entries[i].0));
    var stake;
    vs, check, stake := OccurrencesVerify(entries, hash, total, entries[i].0);
  }

  /** A verifying list has the threshold behind it. */
  ghost predicate Certifies(entries: seq<(Address, Sig)>, vs: Validators, total: nat, check: SignatureCheck,
                            hash: Hash)
  {
    Verifies(vs, total, check, QuorumCertificate(hash, entries)) ==>
      StakeOf(vs, Signers(vs, check, hash, entries)) >= Threshold(total)
  }

  /** Verifying certifies the threshold, for all validators, totals, keys and blocks, exactly when the list repeats no
      signer. The length bound is that of a list in memory, with room to spare. */
  lemma CertifiesIffDistinct(entries: seq<(Address, Sig)>)
    requires |entries| < U128 / 2
    ensures (forall vs, total, check, hash :: Certifies(entries, vs, total, check, hash)) <==> DistinctSigners(entries)
  {
    if DistinctSigners(entries) {
      forall vs, total: nat, check, hash ensures Certifies(entries, vs, total, check, hash) {
        if Verifies(vs, total, check, QuorumCertificate(hash, entries)) {
          CertifiedStake(vs, total, check, QuorumCertificate(hash, entries));
        }
      }
    } else {
      var i, j :| 0 <= i < j < |entries| && entries[i].0 == entries[j].0;
      assert Threshold(3) == 2;
      var vs, check := RepeatVerifiesShort(entries, 0, 3, i, j);
      assert !Certifies(entries, vs, 3, check, 0);
    }
  }

  /** A verifying list has two thirds of the recorded total behind it, rounded down. */
  ghost predicate CertifiesTwoThirds(entries: seq<(Address, Sig)>, vs: Validators, total: nat, check: SignatureCheck,
                                     hash: Hash)
  {
    Sum(Stakes(vs)) <= total && Verifies(vs, total, check, QuorumCertificate(hash, entries)) ==>
      StakeOf(vs, Signers(vs, check, hash, entries)) >= 2 * total / 3
  }

  /** For one list and one total, whether verifying means two thirds of it for all validators, keys and blocks: below
      2^127, when the list repeats nobody or two thirds are at most one unit; from there on, only for the empty list
      where it cannot verify. */
  lemma TwoThirdsIff(entries: seq<(Address, Sig)>, total: nat)
    requires |entries| < U128 / 2 && total < U128
    ensures (forall vs, check, hash :: CertifiesTwoThirds(entries, vs, total, check, hash)) <==>
            if 2 * total < U128 then DistinctSigners(entries) || 2 * total / 3 <= 1
            else entries == [] && 2 * total - U128 >= 3
  {
    if 2 * total < U128 { TwoThirdsBelow(entries, total); } else { TwoThirdsWrapped(entries, total); }
  }

  lemma CertifiedBelow(vs: Validators, total: nat, check: SignatureCheck, qc: QuorumCertificate)
    requires 2 * total < U128 && Verifies(vs, total, check, qc)
    requires DistinctSigners(qc.signatures) || 2 * total / 3 <= 1
    ensures StakeOf(vs, Signers(vs, check, qc.blockHash, qc.signatures)) >= 2 * total / 3
  {
    hide StakeOf, Signers, Weight;
    if DistinctSigners(qc.signatures) {
      CertifiedStake(vs, total, check, qc);
    } else if Threshold(total) == 1 {
      SomeStake(vs, check, qc.blockHash, qc.signatures);
    }
  }

  lemma TwoThirdsBelow(entries: seq<(Address, Sig)>, total: nat)
    requires |entries| < U128 / 2 && 2 * total < U128
    ensures (forall vs, check, hash :: CertifiesTwoThirds(entries, vs, total, check, hash)) <==>
            DistinctSigners(entries) || 2 * total / 3 <= 1
  {
    hide StakeOf, Signers, Weight, Verifies, Sum;
    if DistinctSigners(entries) || 2 * total / 3 <= 1 {
      forall vs, check, hash ensures CertifiesTwoThirds(entries, vs, total, check, hash) {
        var qc := QuorumCertificate(hash, entries);
        if Verifies(vs, total, check, qc) {
          CertifiedBelow(vs, total, check, qc);
        }
      }
    } else {
      var i, j :| 0 <= i < j < |entries| && entries[i].0 == entries[j].0;
      var vs, check := RepeatVerifiesShort(entries, 0, total, i, j);
      assert !CertifiesTwoThirds(entries, vs, total, check, 0);
    }
  }

  lemma TwoThirdsWrapped(entries: seq<(Address, Sig)>, total: nat)
    requires |entries| < U128 / 2 && U128 <= 2 * total < 2 * U128
    ensures (forall vs, check, hash :: CertifiesTwoThirds(entries, vs, total, check, hash)) <==>
            entries == [] && 2 * total - U128 >= 3
  {
    ThresholdBounds(total);
    assert 2 * total % U128 == 2 * total - U128;
    if entries == [] && 2 * total - U128 >= 3 {
      forall vs, check, hash ensures CertifiesTwoThirds(entries, vs, total, check, hash) {
        assert Weight(vs, check, hash, []) == 0;
      }
    } else if entries == [] {
      NoStake(map[], {});
      assert Signers(map[], OnlyKeyZero(), 0, []) == {};
      assert Sum(Stakes(map[])) == 0 by { assert Stakes(map[]) == map[]; }
      assert !CertifiesTwoThirds(entries, map[], total, OnlyKeyZero(), 0);
    } else {
      OccurrenceBounds(entries, entries[0].0);
      NoMoreThan(Threshold(total), Occurrences(entries, entries[0].0));
      var vs, check, stake := OccurrencesVerify(entries, 0, total, entries[0].0);
      assert !CertifiesTwoThirds(entries, vs, total, check, 0);
    }
  }

  /** Weight comes from somebody's stake. */
  lemma {:induction false} SomeStake(vs: Validators, check: SignatureCheck, hash: Hash, entries: seq<(Address, Sig)>)
    requires Weight(vs, check, hash, entries) > 0
    ensures StakeOf(vs, Signers(vs, check, hash, entries)) > 0
  {
    var front, last := entries[..|entries| - 1], entries[|entries| - 1];
    assert entries == front + [last];
    SignersSnoc(vs, check, hash, front, last);
    var all := Signers(vs, check, hash, entries);
    if Weight(vs, check, hash, front) > 0 {
      SomeStake(vs, check, hash, front);
      StakeMonotone(vs, Signers(vs, check, hash, front), all);
    } else {
      SumAtLeast(StakesAmong(vs, all), last.0);
    }
  }

  // ----- totals that wrap

  /** The threshold is two thirds of the total exactly when the doubled total fits 128 bits, and nobody need sign
      exactly when the wrapped double is below three, as it is at 2^127. */
  lemma WrappedThreshold(vs: Validators, total: nat, check: SignatureCheck, hash: Hash)
    requires total < U128
    ensures Threshold(total) == 2 * total / 3 <==> 2 * total < U128
    ensures Verifies(vs, total, check, QuorumCertificate(hash, [])) <==> 2 * total % U128 < 3
    ensures Verifies(vs, U128 / 2, check, QuorumCertificate(hash, []))
  {
    if 2 * total >= U128 {
      assert 2 * total % U128 == 2 * total - U128;
    }
  }
}
