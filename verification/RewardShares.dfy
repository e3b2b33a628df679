/** The Solidity staking contract: delegation accounting and the reward formula. */
module RewardShares {
  import opened Arithmetic
  import opened Sums
  import opened Delegations

  const BASIS: nat := 10000
  const SCALE: nat := 1_000_000_000_000_000_000
  const COMMISSION_BASE: nat := 500

  datatype Validator = Validator(
    stake: nat, commission: nat, isActive: bool, totalDelegated: nat, rewardsAccumulated: nat)

  datatype Error =
    | CommissionTooHigh | ValidatorAlreadyExists | ValidatorNotFound | InsufficientStake | TransferFailed
    | InvalidDelegation | InvalidProof | NotOwner | LengthMismatch | InvalidPercentage | Underflow

  datatype Outcome = Ok | Revert(error: Error)

  /** Storage, and as history the number of private stakes each validator received. */
  datatype Book = Book(
    validators: map<Address, Validator>,
    delegations: map<(Address, Address), nat>,
    totalDelegatedTo: map<Address, nat>,
    nullifiers: set<nat>,
    minStake: nat,
    privateStakes: map<Address, nat>)

  // ----- what each call does

  function Register(s: Book, caller: Address, commission: nat): (Book, Outcome) {
    if commission > BASIS then (s, Revert(CommissionTooHigh))
    else if caller in s.validators then (s, Revert(ValidatorAlreadyExists))
    else
      var v := Validator(0, if commission > COMMISSION_BASE then commission else COMMISSION_BASE, false, 0, 0);
      (s.(validators := s.validators[caller := v]), Ok)
  }

  function Stake(s: Book, delegator: Address, validator: Address, amount: nat, funded: bool): (Book, Outcome) {
    if validator !in s.validators then (s, Revert(ValidatorNotFound))
    else if amount < s.minStake && s.validators[validator].stake == 0 then (s, Revert(InsufficientStake))
    else if !funded then (s, Revert(TransferFailed))
    else
      var v, key := s.validators[validator], (delegator, validator);
      (s.(delegations := s.delegations[key := Get(s.delegations, key) + amount],
          totalDelegatedTo := s.totalDelegatedTo[validator := Get(s.totalDelegatedTo, validator) + amount],
          validators := s.validators[validator :=
            v.(stake := v.stake + amount, totalDelegated := v.totalDelegated + amount,
               isActive := v.isActive || v.stake + amount >= s.minStake)]), Ok)
  }

  /** Counts the stake, not its hidden amount. */
  function PrivateStake(s: Book, validator: Address, nullifier: nat, proofOk: bool): (Book, Outcome) {
    if validator !in s.validators then (s, Revert(ValidatorNotFound))
    else if nullifier in s.nullifiers then (s, Revert(InvalidDelegation))
    else if !proofOk then (s, Revert(InvalidProof))
    else
      var v := s.validators[validator];
      (s.(nullifiers := s.nullifiers + {nullifier},
          validators := s.validators[validator := v.(isActive := true, totalDelegated := v.totalDelegated + 1)],
          privateStakes := s.privateStakes[validator := Get(s.privateStakes, validator) + 1]), Ok)
  }

  function Unstake(s: Book, delegator: Address, validator: Address, amount: nat): (Book, Outcome) {
    var key := (delegator, validator);
    if validator !in s.validators then (s, Revert(ValidatorNotFound))
    else if Get(s.delegations, key) < amount then (s, Revert(InvalidDelegation))
    else
      var v := s.validators[validator];
      if Get(s.totalDelegatedTo, validator) < amount || v.stake < amount || v.totalDelegated < amount
      then (s, Revert(Underflow))
      else
        (s.(delegations := s.delegations[key := Get(s.delegations, key) - amount],
            totalDelegatedTo := s.totalDelegatedTo[validator := Get(s.totalDelegatedTo, validator) - amount],
            validators := s.validators[validator :=
              v.(stake := v.stake - amount, totalDelegated := v.totalDelegated - amount,
                 isActive := v.isActive && v.stake - amount >= s.minStake)]), Ok)
  }

  function Commission(reward: nat, commission: nat): nat {
    reward * commission / BASIS
  }

  function Credit(vs: map<Address, Validator>, a: Address, reward: nat): map<Address, Validator> {
    if a in vs && vs[a].isActive then
      var c := Commission(reward, vs[a].commission);
      vs[a := vs[a].(stake := vs[a].stake + c, rewardsAccumulated := vs[a].rewardsAccumulated + c)]
    else vs
  }

  /** The payouts in list order; a validator may be listed several times, inactive ones are skipped. */
  function CreditAll(vs: map<Address, Validator>, addrs: seq<Address>, rewards: seq<nat>): map<Address, Validator>
    requires |addrs| == |rewards|
  {
    if addrs == [] then vs
    else
      var n := |addrs| - 1;
      Credit(CreditAll(vs, addrs[..n], rewards[..n]), addrs[n], rewards[n])
  }

  ghost predicate CommissionExceeds(vs: map<Address, Validator>, addrs: seq<Address>, rewards: seq<nat>)
    requires |addrs| == |rewards|
  {
    exists i :: 0 <= i < |addrs| && ExceedsAt(vs, addrs[i], rewards[i])
  }

  predicate ExceedsAt(vs: map<Address, Validator>, a: Address, reward: nat) {
    a in vs && vs[a].isActive && Commission(reward, vs[a].commission) > reward
  }

  ghost function Distribute(s: Book, byOwner: bool, addrs: seq<Address>, rewards: seq<nat>): (Book, Outcome) {
    if !byOwner then (s, Revert(NotOwner))
    else if |addrs| != |rewards| then (s, Revert(LengthMismatch))
    else if CommissionExceeds(s.validators, addrs, rewards) then (s, Revert(Underflow))
    else (s.(validators := CreditAll(s.validators, addrs, rewards)), Ok)
  }

  function Slash(s: Book, byOwner: bool, validator: Address, percentage: nat): (Book, Outcome) {
    if !byOwner then (s, Revert(NotOwner))
    else if validator !in s.validators then (s, Revert(ValidatorNotFound))
    else if percentage > BASIS then (s, Revert(InvalidPercentage))
    else
      var v := s.validators[validator];
      var amount := Commission(v.stake, percentage);
      if amount > v.stake then (s, Revert(Underflow))
      else (s.(validators := s.validators[validator := v.(stake := v.stake - amount, isActive := false)]), Ok)
  }

  // ----- the invariant

  ghost predicate ValidatorSound(s: Book, a: Address)
    requires a in s.validators
  {
    && s.validators[a].totalDelegated == DelegatedTo(s.delegations, a) + Get(s.privateStakes, a)
    && s.validators[a].commission <= BASIS
  }

  ghost predicate Inv(s: Book) {
    && (forall a :: a in s.validators ==> ValidatorSound(s, a))
    && (forall a :: a !in s.validators ==> DelegatedTo(s.delegations, a) == 0 && Get(s.privateStakes, a) == 0)
    && (forall a :: Get(s.totalDelegatedTo, a) == DelegatedTo(s.delegations, a))
  }

  ghost function Deployed(minStake: nat): Book {
    Book(map[], map[], map[], {}, minStake, map[])
  }

  lemma DeployedInv(minStake: nat)
    ensures Inv(Deployed(minStake))
  {
    forall a: Address ensures DelegatedTo(Deployed(minStake).delegations, a) == 0 {
      assert ToValidator(Deployed(minStake).delegations, a) == map[];
    }
  }

  lemma StakeKeepsInv(s: Book, delegator: Address, validator: Address, amount: nat, funded: bool)
    requires Inv(s)
    ensures Inv(Stake(s, delegator, validator, amount, funded).0)
  {
    hide DelegatedTo;
    var (s', r) := Stake(s, delegator, validator, amount, funded);
    var key := (delegator, validator);
    if r.Ok? {
      forall a
        ensures DelegatedTo(s'.delegations, a) == DelegatedTo(s.delegations, a) + if a == validator then amount else 0
      {
        DelegationWrite(s.delegations, key, Get(s.delegations, key) + amount, a);
      }
      forall a | a in s'.validators ensures ValidatorSound(s', a) { assert ValidatorSound(s, a); }
    }
  }

  /** Unstaking within one's delegation can only fail where slashing has cut the validator's stake below the amount. */
  lemma UnstakeKeepsInv(s: Book, delegator: Address, validator: Address, amount: nat)
    requires Inv(s)
    ensures Inv(Unstake(s, delegator, validator, amount).0)
    ensures Unstake(s, delegator, validator, amount).1.Ok? <==>
              && validator in s.validators
              && amount <= Get(s.delegations, (delegator, validator))
              && amount <= s.validators[validator].stake
  {
    hide DelegatedTo;
    var (s', r) := Unstake(s, delegator, validator, amount);
    var key := (delegator, validator);
    DelegationWithin(s.delegations, key);
    if validator in s.validators { assert ValidatorSound(s, validator); }
    if r.Ok? {
      forall a
        ensures DelegatedTo(s'.delegations, a) == DelegatedTo(s.delegations, a) - if a == validator then amount else 0
      {
        DelegationWrite(s.delegations, key, Get(s.delegations, key) - amount, a);
      }
      forall a | a in s'.validators ensures ValidatorSound(s', a) { assert ValidatorSound(s, a); }
    }
  }

  lemma PrivateStakeKeepsInv(s: Book, validator: Address, nullifier: nat, proofOk: bool)
    requires Inv(s)
    ensures Inv(PrivateStake(s, validator, nullifier, proofOk).0)
  {
    hide DelegatedTo;
    var s' := PrivateStake(s, validator, nullifier, proofOk).0;
    forall a | a in s'.validators ensures ValidatorSound(s', a) { assert ValidatorSound(s, a); }
  }

  /** Crediting commission touches neither delegations nor commissions. */
  lemma {:induction false} CreditAllKeeps(vs: map<Address, Validator>, addrs: seq<Address>, rewards: seq<nat>)
    requires |addrs| == |rewards|
    ensures var ws := CreditAll(vs, addrs, rewards);
            && ws.Keys == vs.Keys
            && forall a :: a in vs ==>
                 && ws[a].totalDelegated == vs[a].totalDelegated
                 && ws[a].commission == vs[a].commission
                 && ws[a].isActive == vs[a].isActive
    decreases |addrs|
  {
    hide Commission;
    if addrs != [] { CreditAllKeeps(vs, addrs[..|addrs| - 1], rewards[..|addrs| - 1]); }
  }

  lemma CommissionWithin(reward: nat, commission: nat)
    requires commission <= BASIS
    ensures Commission(reward, commission) <= reward
  {
    MulMono(reward, reward, commission, BASIS);
    DivAtMost(reward * commission, BASIS, reward);
  }

  lemma DistributeKeepsInv(s: Book, byOwner: bool, addrs: seq<Address>, rewards: seq<nat>)
    requires Inv(s)
    ensures Inv(Distribute(s, byOwner, addrs, rewards).0)
    ensures Distribute(s, byOwner, addrs, rewards).1 != Revert(Underflow)
  {
    hide DelegatedTo, Commission;
    if |addrs| == |rewards| {
      CreditAllKeeps(s.validators, addrs, rewards);
      forall i | 0 <= i < |addrs| ensures !ExceedsAt(s.validators, addrs[i], rewards[i]) {
        if addrs[i] in s.validators {
          assert ValidatorSound(s, addrs[i]);
          CommissionWithin(rewards[i], s.validators[addrs[i]].commission);
        }
      }
      var s' := Distribute(s, byOwner, addrs, rewards).0;
      forall a | a in s'.validators ensures ValidatorSound(s', a) { assert ValidatorSound(s, a); }
    }
  }

  lemma OthersKeepInv(s: Book, caller: Address, commission: nat, byOwner: bool, validator: Address, percentage: nat)
    requires Inv(s)
    ensures Inv(Register(s, caller, commission).0)
    ensures Inv(Slash(s, byOwner, validator, percentage).0)
    ensures Slash(s, byOwner, validator, percentage).1 != Revert(Underflow)
  {
    hide DelegatedTo, Commission;
    var s1 := Register(s, caller, commission).0;
    forall a | a in s1.validators ensures ValidatorSound(s1, a) {
      if a in s.validators { assert ValidatorSound(s, a); }
    }
    if validator in s.validators && percentage <= BASIS { CommissionWithin(s.validators[validator].stake, percentage); }
    var s2 := Slash(s, byOwner, validator, percentage).0;
    forall a | a in s2.validators ensures ValidatorSound(s2, a) { assert ValidatorSound(s, a); }
  }

  // ----- runs

  datatype Op =
    | DoRegister(caller: Address, commission: nat)
    | DoStake(delegator: Address, validator: Address, amount: nat, funded: bool)
    | DoPrivateStake(validator: Address, nullifier: nat, proofOk: bool)
    | DoUnstake(delegator: Address, validator: Address, amount: nat)
    | DoDistribute(byOwner: bool, addrs: seq<Address>, rewards: seq<nat>)
    | DoSlash(byOwner: bool, validator: Address, percentage: nat)
    | DoSetMinStake(byOwner: bool, minStake: nat)

  ghost function Step(s: Book, op: Op): Book {
    match op
    case DoRegister(a, m) => Register(s, a, m).0
    case DoStake(d, v, x, f) => Stake(s, d, v, x, f).0
    case DoPrivateStake(v, n, p) => PrivateStake(s, v, n, p).0
    case DoUnstake(d, v, x) => Unstake(s, d, v, x).0
    case DoDistribute(o, a, r) => Distribute(s, o, a, r).0
    case DoSlash(o, v, p) => Slash(s, o, v, p).0
    case DoSetMinStake(o, m) => if o then s.(minStake := m) else s
  }

  ghost function Run(s: Book, ops: seq<Op>): Book
    decreases |ops|
  {
    if ops == [] then s else Step(Run(s, ops[..|ops| - 1]), ops[|ops| - 1])
  }

  lemma StepKeepsInv(s: Book, op: Op)
    requires Inv(s)
    ensures Inv(Step(s, op))
  {
    hide Inv, Register, Stake, PrivateStake, Unstake, Distribute, Slash;
    match op
    case DoRegister(a, m) => OthersKeepInv(s, a, m, false, a, 0);
    case DoStake(d, v, x, f) => StakeKeepsInv(s, d, v, x, f);
    case DoPrivateStake(v, n, p) => PrivateStakeKeepsInv(s, v, n, p);
    case DoUnstake(d, v, x) => UnstakeKeepsInv(s, d, v, x);
    case DoDistribute(o, a, r) => DistributeKeepsInv(s, o, a, r);
    case DoSlash(o, v, p) => OthersKeepInv(s, v, 0, o, v, p);
    case DoSetMinStake(o, m) => MinStakeKeepsInv(s, m);
  }

  lemma MinStakeKeepsInv(s: Book, minStake: nat)
    requires Inv(s)
    ensures Inv(s.(minStake := minStake))
  {
    var s' := s.(minStake := minStake);
    forall a | a in s'.validators ensures ValidatorSound(s', a) { assert ValidatorSound(s, a); }
  }

  lemma {:induction false} RunKeepsInv(s: Book, ops: seq<Op>)
    requires Inv(s)
    ensures Inv(Run(s, ops))
    decreases |ops|
  {
    if ops != [] {
      RunKeepsInv(s, ops[..|ops| - 1]);
      StepKeepsInv(Run(s, ops[..|ops| - 1]), ops[|ops| - 1]);
    }
  }

  // ----- rewards

  /** The validator record read the way Solidity reads an absent key. */
  function ValidatorOf(vs: map<Address, Validator>, a: Address): Validator {
    if a in vs then vs[a] else Validator(0, 0, false, 0, 0)
  }

  /** None stands for a division by zero, which reverts. */
  datatype Reward = DivisionByZero | Amount(value: nat)

  function CalculateRewards(s: Book, delegator: Address, validator: Address): Reward {
    var delegation := Get(s.delegations, (delegator, validator));
    if delegation == 0 then Amount(0)
    else
      var v := ValidatorOf(s.validators, validator);
      if v.totalDelegated == 0 then DivisionByZero
      else Amount(Portion(Portion(delegation, SCALE, v.totalDelegated), v.rewardsAccumulated, SCALE))
  }

  function Portion(x: nat, a: nat, b: nat): (p: nat)
    requires b > 0
    ensures p * b <= x * a
  {
    DivBounds(x * a, b);
    x * a / b
  }

  ghost function Scaled(m: map<(Address, Address), nat>, a: nat, b: nat): map<(Address, Address), nat>
    requires b > 0
  {
    map k | k in m :: Portion(m[k], a, b)
  }

  lemma AddProducts(p: nat, q: nat, b: nat, x: nat, y: nat, a: nat)
    requires p * b <= x * a && q * b <= y * a
    ensures (p + q) * b <= (x + y) * a
  {
    assert (p + q) * b == p * b + q * b && (x + y) * a == x * a + y * a;
  }

  /** Rounding each part down never adds up to more than the whole. */
  lemma {:induction false} SumOfFloors(m: map<(Address, Address), nat>, a: nat, b: nat)
    requires b > 0
    ensures Sum(Scaled(m, a, b)) * b <= Sum(m) * a
    decreases |m|
  {
    hide Portion;
    if m == map[] {
      assert Scaled(m, a, b) == map[];
    } else {
      var k := Pick(m);
      SumOfFloors(m - {k}, a, b);
      SumRemove(m, k);
      SumRemove(Scaled(m, a, b), k);
      assert Scaled(m, a, b) - {k} == Scaled(m - {k}, a, b);
      AddProducts(Portion(m[k], a, b), Sum(Scaled(m - {k}, a, b)), b, m[k], Sum(m - {k}), a);
    }
  }

  /** What all delegators of one validator can claim together. */
  ghost function Claims(s: Book, v: Address): map<(Address, Address), nat> {
    map k | k in s.delegations && k.1 == v :: Claim(s, k.0, v)
  }

  ghost function Claim(s: Book, delegator: Address, validator: Address): nat {
    match CalculateRewards(s, delegator, validator)
    case Amount(x) => x
    case DivisionByZero => 0
  }

  lemma NeverDividesByZero(s: Book, delegator: Address, validator: Address)
    requires Inv(s)
    ensures CalculateRewards(s, delegator, validator).Amount?
  {
    DelegationWithin(s.delegations, (delegator, validator));
    if validator in s.validators { assert ValidatorSound(s, validator); }
  }

  lemma ClaimsBounded(s: Book, v: Address)
    requires Inv(s)
    ensures Sum(Claims(s, v)) <= ValidatorOf(s.validators, v).rewardsAccumulated
  {
    var info := ValidatorOf(s.validators, v);
    var total, acc := info.totalDelegated, info.rewardsAccumulated;
    var m := ToValidator(s.delegations, v);
    if v in s.validators { assert ValidatorSound(s, v); }
    assert Sum(m) <= total;
    if total == 0 {
      forall k | k in Claims(s, v) ensures Claims(s, v)[k] == 0 { SumAtLeast(m, k); }
      SumZero(Claims(s, v));
    } else {
      var shares := Scaled(m, SCALE, total);
      ClaimsAreScaled(s, v);
      SumOfFloors(m, SCALE, total);
      SumOfFloors(shares, acc, SCALE);
      TwoStepBound(Sum(Scaled(shares, acc, SCALE)), Sum(shares), Sum(m), total, SCALE, acc);
    }
  }

  lemma ClaimsAreScaled(s: Book, v: Address)
    requires ValidatorOf(s.validators, v).totalDelegated > 0
    ensures var info := ValidatorOf(s.validators, v);
            Claims(s, v) == Scaled(Scaled(ToValidator(s.delegations, v), SCALE, info.totalDelegated),
                                   info.rewardsAccumulated, SCALE)
  {
    var info := ValidatorOf(s.validators, v);
    var m := ToValidator(s.delegations, v);
    var shares := Scaled(m, SCALE, info.totalDelegated);
    var paid := Scaled(shares, info.rewardsAccumulated, SCALE);
    forall k | k in Claims(s, v) ensures Claims(s, v)[k] == paid[k] {
      assert k == (k.0, v);
      if m[k] == 0 {
        assert shares[k] == 0 by { ZeroShare(info.totalDelegated, SCALE); }
        ZeroShare(SCALE, info.rewardsAccumulated);
      }
    }
  }

  lemma ZeroShare(b: nat, a: nat)
    requires b > 0
    ensures Portion(0, a, b) == 0
  {
    assert 0 * a == 0;
  }

  lemma TwoStepBound(paid: nat, shares: nat, delegated: nat, total: nat, scale: nat, acc: nat)
    requires total > 0 && scale > 0 && delegated <= total
    requires shares * total <= delegated * scale && paid * scale <= shares * acc
    ensures paid <= acc
  {
    MulMono(delegated, total, scale, scale);
    assert total * scale == scale * total;
    CancelFactor(scale, shares, total);
    MulMono(shares, scale, acc, acc);
    assert scale * acc == acc * scale;
    CancelFactor(acc, paid, scale);
  }

  /** Each rounding loses less than one unit of its scale: a claim falls short of the exact proportion
      delegation * accumulated / total by less than one plus accumulated / 10^18. */
  lemma ClaimAccurate(s: Book, delegator: Address, validator: Address)
    requires Inv(s)
    ensures var info := ValidatorOf(s.validators, validator);
            var delegation := Get(s.delegations, (delegator, validator));
            delegation > 0 ==>
              (Claim(s, delegator, validator) + 1) * SCALE * info.totalDelegated
              + info.rewardsAccumulated * info.totalDelegated
              > delegation * SCALE * info.rewardsAccumulated
  {
    var info := ValidatorOf(s.validators, validator);
    var delegation := Get(s.delegations, (delegator, validator));
    if delegation > 0 {
      NeverDividesByZero(s, delegator, validator);
      var total, acc := info.totalDelegated, info.rewardsAccumulated;
      var share := Portion(delegation, SCALE, total);
      DivBounds(delegation * SCALE, total);
      DivBounds(share * acc, SCALE);
      TwoRoundings(Claim(s, delegator, validator), share, delegation, total, acc, SCALE);
    }
  }

  lemma TwoRoundings(claim: nat, share: nat, delegation: nat, total: nat, acc: nat, scale: nat)
    requires total > 0 && delegation * scale < share * total + total && share * acc < claim * scale + scale
    ensures (claim + 1) * scale * total + acc * total > delegation * scale * acc
  {
    MulMono(delegation * scale, share * total + total, acc, acc);
    assert (share * total + total) * acc == share * acc * total + acc * total;
    MulMono(share * acc + 1, (claim + 1) * scale, total, total);
    assert (share * acc + 1) * total == share * acc * total + total;
  }

  /** Whoever holds the whole recorded total claims everything accumulated. */
  lemma WholeShareClaimsAll(s: Book, delegator: Address, validator: Address)
    requires Get(s.delegations, (delegator, validator)) == ValidatorOf(s.validators, validator).totalDelegated > 0
    ensures CalculateRewards(s, delegator, validator) == Amount(ValidatorOf(s.validators, validator).rewardsAccumulated)
  {
    var info := ValidatorOf(s.validators, validator);
    ExactQuotient(SCALE, info.totalDelegated);
    ExactQuotient(info.rewardsAccumulated, SCALE);
  }

  /** In every reachable state the recorded total splits into the delegations and the count of private stakes, no
      reward divides by zero, and the doubly rounded rewards of all delegators stay within what was accumulated. */
  lemma Reachable(minStake: nat, ops: seq<Op>, delegator: Address, v: Address)
    ensures var s := Run(Deployed(minStake), ops);
            && (v in s.validators ==>
                  s.validators[v].totalDelegated == DelegatedTo(s.delegations, v) + Get(s.privateStakes, v))
            && Get(s.totalDelegatedTo, v) == DelegatedTo(s.delegations, v)
            && CalculateRewards(s, delegator, v).Amount?
            && Sum(Claims(s, v)) <= ValidatorOf(s.validators, v).rewardsAccumulated
  {
    DeployedInv(minStake);
    RunKeepsInv(Deployed(minStake), ops);
    var s := Run(Deployed(minStake), ops);
    if v in s.validators { assert ValidatorSound(s, v); }
    NeverDividesByZero(s, delegator, v);
    ClaimsBounded(s, v);
  }
}
