/** Stake-weighted quorum certificates, the validator set behind them, and leader rotation. */
module Quorum {
  import opened Arithmetic
  import opened Sums
  import opened LeaderRotation

  type Hash = nat
  type Key = nat
  type Sig = nat

  const U128: nat := 0x1_0000_0000_0000_0000_0000_0000_0000_0000

  datatype Validator = Validator(address: Address, publicKey: Key, stake: nat)

  datatype QuorumCertificate = QuorumCertificate(blockHash: Hash, signatures: seq<(Address, Sig)>)

  /** The elliptic-curve check, left open: does this signature of this hash verify under this key? */
  type SignatureCheck = (Key, Hash, Sig) -> bool

  type Validators = map<Address, Validator>

  ghost function Stakes(vs: Validators): map<Address, nat> {
    map a | a in vs :: vs[a].stake
  }

  ghost function StakeOf(vs: Validators, who: set<Address>): nat {
    Sum(StakesAmong(vs, who))
  }

  ghost function StakesAmong(vs: Validators, who: set<Address>): map<Address, nat> {
    map a | a in vs && a in who :: vs[a].stake
  }

  /** Two thirds of the recorded total, in wrapping 128-bit arithmetic. */
  function Threshold(total: nat): nat {
    (total * 2 % U128) / 3
  }

  predicate Counts(vs: Validators, check: SignatureCheck, hash: Hash, entry: (Address, Sig)) {
    entry.0 in vs && check(vs[entry.0].publicKey, hash, entry.1)
  }

  /** The exact stake behind a signature list, entry by entry: repeated signers count repeatedly. */
  ghost function Weight(vs: Validators, check: SignatureCheck, hash: Hash, entries: seq<(Address, Sig)>): nat {
    if entries == [] then 0
    else
      var front, last := entries[..|entries| - 1], entries[|entries| - 1];
      Weight(vs, check, hash, front) + if Counts(vs, check, hash, last) then vs[last.0].stake else 0
  }

  ghost predicate Verifies(vs: Validators, total: nat, check: SignatureCheck, qc: QuorumCertificate) {
    Weight(vs, check, qc.blockHash, qc.signatures) % U128 >= Threshold(total)
  }

  class ValidatorSet {
    var validators: Validators
    var totalStake: nat
    /** History: the sum of all stakes ever added, and of those replaced by adding an address again. */
    ghost var everAdded: nat
    ghost var replaced: nat

    ghost predicate Valid()
      reads this
    {
      && (forall a :: a in validators ==> validators[a].address == a)
      && totalStake == everAdded % U128
      && everAdded == Sum(Stakes(validators)) + replaced
    }

    constructor ()
      ensures Valid() && validators == map[] && everAdded == 0 && replaced == 0
    {
      validators, totalStake := map[], 0;
      everAdded, replaced := 0, 0;
    }

    /** The total grows by the new stake even when the address was already a validator. */
    method AddValidator(validator: Validator)
      requires Valid()
      modifies this
      ensures Valid()
      ensures validators == old(validators)[validator.address := validator]
      ensures everAdded == old(everAdded) + validator.stake
      ensures replaced == old(replaced) + Get(Stakes(old(validators)), validator.address)
    {
      ghost var before := Stakes(validators);
      SumUpdate(before, validator.address, validator.stake);
      replaced := replaced + Get(before, validator.address);
      everAdded := everAdded + validator.stake;
      totalStake := (totalStake + validator.stake) % U128;
      validators := validators[validator.address := validator];
      assert Stakes(validators) == before[validator.address := validator.stake];
      ModSum(everAdded - validator.stake, validator.stake, U128);
    }

    /** The certificate check, with its wrapping 128-bit accumulator. */
    method VerifyCertificate(qc: QuorumCertificate, check: SignatureCheck) returns (ok: bool)
      ensures ok == Verifies(validators, totalStake, check, qc)
    {
      var threshold := (totalStake * 2 % U128) / 3;
      var stakeWeight := 0;
      for i := 0 to |qc.signatures|
        invariant stakeWeight == Weight(validators, check, qc.blockHash, qc.signatures[..i]) % U128
      {
        var (addr, sig) := qc.signatures[i];
        assert qc.signatures[..i + 1][..i] == qc.signatures[..i];
        if addr in validators {
          if check(validators[addr].publicKey, qc.blockHash, sig) {
            ModSum(Weight(validators, check, qc.blockHash, qc.signatures[..i]), validators[addr].stake, U128);
            stakeWeight := (stakeWeight + validators[addr].stake) % U128;
          }
        }
      }
      assert qc.signatures[..|qc.signatures|] == qc.signatures;
      ok := stakeWeight >= threshold;
    }

    /** The leader is the validator with exactly round mod n smaller addresses. */
    method GetLeader(round: nat) returns (leader: Leader)
      ensures validators == map[] ==> leader == NoLeader
      ensures validators != map[] ==>
                && leader.Chosen? && leader.address in validators
                && Rank(validators.Keys, leader.address) == round % |validators|
    {
      var sorted := SortedAddresses(validators.Keys);
      assert |validators.Keys| == |validators|;
      if sorted == [] {
        return NoLeader;
      }
      var index := round % |sorted|;
      PrefixIsBelow(validators.Keys, sorted, index);
      return Chosen(sorted[index]);
    }
  }

  // ----- what two certificates share

  ghost function Signers(vs: Validators, check: SignatureCheck, hash: Hash, entries: seq<(Address, Sig)>)
    : set<Address>
  {
    set e | e in entries && Counts(vs, check, hash, e) :: e.0
  }

  ghost predicate DistinctSigners(entries: seq<(Address, Sig)>) {
    forall i, j :: 0 <= i < j < |entries| ==> entries[i].0 != entries[j].0
  }

  /** Without repeated signers, the weight is the stake of the set of signers. */
  lemma {:induction false} WeightIsStake(vs: Validators, check: SignatureCheck, hash: Hash,
                                       entries: seq<(Address, Sig)>)
    requires DistinctSigners(entries)
    ensures Weight(vs, check, hash, entries) == StakeOf(vs, Signers(vs, check, hash, entries))
  {
    hide StakeOf, Sum;
    var all := Signers(vs, check, hash, entries);
    if entries == [] {
      NoStake(vs, all);
    } else {
      var front, last := entries[..|entries| - 1], entries[|entries| - 1];
      assert entries == front + [last];
      WeightIsStake(vs, check, hash, front);
      var before := Signers(vs, check, hash, front);
      SignersSnoc(vs, check, hash, front, last);
      if Counts(vs, check, hash, last) {
        assert last.0 !in before by {
          forall e | e in front ensures e.0 != last.0 {
            var i :| 0 <= i < |front| && front[i] == e;
            assert entries[i].0 != entries[|entries| - 1].0;
          }
        }
        AddSigner(vs, before, last.0);
      } else {
        assert before + {} == before;
      }
    }
  }

  lemma SignersSnoc(vs: Validators, check: SignatureCheck, hash: Hash, front: seq<(Address, Sig)>, last: (Address, Sig))
    ensures Signers(vs, check, hash, front + [last]) ==
            Signers(vs, check, hash, front) + if Counts(vs, check, hash, last) then {last.0} else {}
  {
  }

  lemma NoStake(vs: Validators, who: set<Address>)
    requires who == {}
    ensures StakeOf(vs, who) == 0
  {
    assert StakesAmong(vs, who) == map[];
  }

  lemma AddSigner(vs: Validators, who: set<Address>, a: Address)
    requires a in vs && a !in who
    ensures StakeOf(vs, who + {a}) == StakeOf(vs, who) + vs[a].stake
  {
    SumUpdate(StakesAmong(vs, who), a, vs[a].stake);
    assert StakesAmong(vs, who + {a}) == StakesAmong(vs, who)[a := vs[a].stake];
  }

  lemma StakeInclusionExclusion(vs: Validators, s: set<Address>, t: set<Address>)
    ensures StakeOf(vs, s) + StakeOf(vs, t) == StakeOf(vs, s + t) + StakeOf(vs, s * t)
  {
    var ms, mt := StakesAmong(vs, s), StakesAmong(vs, t);
    var both: map<Address, nat> := map a | a in vs :: Get(ms, a) + Get(mt, a);
    SumPointwise(ms, mt, both);
    SumPointwise(StakesAmong(vs, s + t), StakesAmong(vs, s * t), both);
  }

  lemma StakeMonotone(vs: Validators, s: set<Address>, t: set<Address>)
    requires s <= t
    ensures StakeOf(vs, s) <= StakeOf(vs, t) <= Sum(Stakes(vs))
  {
    SumMonotone(StakesAmong(vs, s), StakesAmong(vs, t));
    SumMonotone(StakesAmong(vs, t), Stakes(vs));
  }

  ghost predicate SoundCertificate(vs: Validators, total: nat, check: SignatureCheck, qc: QuorumCertificate) {
    Verifies(vs, total, check, qc) && DistinctSigners(qc.signatures)
  }

  /** Certified stake: with repetition-free signers, a verifying certificate has at least the threshold behind it, for
      any recorded total; where twice the total fits 128 bits, that is two thirds of it, rounded down. */
  lemma CertifiedStake(vs: Validators, total: nat, check: SignatureCheck, qc: QuorumCertificate)
    requires SoundCertificate(vs, total, check, qc)
    ensures StakeOf(vs, Signers(vs, check, qc.blockHash, qc.signatures)) >= Threshold(total)
    ensures 2 * total < U128 ==> Threshold(total) == 2 * total / 3
  {
    WeightIsStake(vs, check, qc.blockHash, qc.signatures);
    ModAtMost(Weight(vs, check, qc.blockHash, qc.signatures), U128);
  }

  lemma ModAtMost(x: nat, n: nat)
    requires n > 0
    ensures x % n <= x
  {
    DivisionOf(x, n);
  }

  /** Quorum intersection: whatever the recorded total, two such certificates share at least twice the threshold less
      all stake there is. */
  lemma QuorumIntersection(vs: Validators, total: nat, check: SignatureCheck, q1: QuorumCertificate,
                           q2: QuorumCertificate)
    requires SoundCertificate(vs, total, check, q1) && SoundCertificate(vs, total, check, q2)
    ensures var s1 := Signers(vs, check, q1.blockHash, q1.signatures);
            var s2 := Signers(vs, check, q2.blockHash, q2.signatures);
            StakeOf(vs, s1 * s2) >= 2 * Threshold(total) - Sum(Stakes(vs))
  {
    CertifiedStake(vs, total, check, q1);
    CertifiedStake(vs, total, check, q2);
    var s1 := Signers(vs, check, q1.blockHash, q1.signatures);
    var s2 := Signers(vs, check, q2.blockHash, q2.signatures);
    StakeInclusionExclusion(vs, s1, s2);
    StakeMonotone(vs, s1 + s2, s1 + s2);
  }

  ghost predicate HonestOutside(vs: Validators, check: SignatureCheck, faulty: set<Address>,
                                conflicts: (Hash, Hash) -> bool) {
    forall a, h1, h2, g1, g2 ::
      && a in vs && a !in faulty
      && check(vs[a].publicKey, h1, g1) && check(vs[a].publicKey, h2, g2)
      ==> !conflicts(h1, h2)
  }

  /** Safety: if the faulty stake is below the guaranteed intersection and no honest validator signs two conflicting
      blocks, two sound certificates never name conflicting blocks. */
  lemma NoConflictingCertificates(vs: Validators, total: nat, check: SignatureCheck, faulty: set<Address>,
                                  conflicts: (Hash, Hash) -> bool, q1: QuorumCertificate, q2: QuorumCertificate)
    requires SoundCertificate(vs, total, check, q1) && SoundCertificate(vs, total, check, q2)
    requires HonestOutside(vs, check, faulty, conflicts)
    requires StakeOf(vs, faulty) < 2 * Threshold(total) - Sum(Stakes(vs))
    ensures !conflicts(q1.blockHash, q2.blockHash)
  {
    QuorumIntersection(vs, total, check, q1, q2);
    var s1 := Signers(vs, check, q1.blockHash, q1.signatures);
    var s2 := Signers(vs, check, q2.blockHash, q2.signatures);
    assert !(s1 * s2 <= faulty) by {
      if s1 * s2 <= faulty { StakeMonotone(vs, s1 * s2, faulty); }
    }
    var a :| a in s1 * s2 && a !in faulty;
    var e1 :| e1 in q1.signatures && Counts(vs, check, q1.blockHash, e1) && e1.0 == a;
    var e2 :| e2 in q2.signatures && Counts(vs, check, q2.blockHash, e2) && e2.0 == a;
  }

  /** The same for a validator set with any history of additions: the threshold is that of the recorded total, which
      wraps, and the stake there is excludes what was replaced. */
  lemma SetIsSafe(members: ValidatorSet, check: SignatureCheck, faulty: set<Address>, conflicts: (Hash, Hash) -> bool,
                  q1: QuorumCertificate, q2: QuorumCertificate)
    requires members.Valid()
    requires SoundCertificate(members.validators, members.totalStake, check, q1)
    requires SoundCertificate(members.validators, members.totalStake, check, q2)
    requires HonestOutside(members.validators, check, faulty, conflicts)
    requires StakeOf(members.validators, faulty) <
             2 * Threshold(members.everAdded % U128) - (members.everAdded - members.replaced)
    ensures !conflicts(q1.blockHash, q2.blockHash)
  {
    hide Verifies, DistinctSigners, HonestOutside, StakeOf, Sum, Threshold;
    NoConflictingCertificates(members.validators, members.totalStake, check, faulty, conflicts, q1, q2);
  }
}
