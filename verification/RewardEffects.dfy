/** What one delegator, and one validator, can check about the Solidity staking contract: when each call succeeds, whose
    stake it moves, and that over every run a delegation is what its owner staked less what they took back. */
module RewardEffects {
  import opened Arithmetic
  import opened Sums
  import opened Delegations
  import opened RewardShares

  type Key = (Address, Address)

  /** Registration succeeds once per caller, with a commission of at most 100% raised to 5%; the new validator is idle
      and empty, and nothing else changes. */
  lemma RegisterEffect(s: Book, caller: Address, commission: nat, w: Address)
    ensures var (s', r) := Register(s, caller, commission);
            && (r == Ok <==> commission <= 10000 && caller !in s.validators)
            && s' == s.(validators := s'.validators)
            && (r != Ok ==> s' == s)
            && (r == Ok ==>
                  && s'.validators.Keys == s.validators.Keys + {caller}
                  && (w in s.validators ==> s'.validators[w] == s.validators[w])
                  && s'.validators[caller] ==
                     Validator(0, if commission > 500 then commission else 500, false, 0, 0))
  {
  }

  /** A stake needs a registered validator, tokens, and the minimum amount where the validator has no stake; it is
      credited to that delegator with that validator alone. */
  lemma StakeEffect(s: Book, d: Address, v: Address, amount: nat, funded: bool, k: Key, w: Address)
    ensures var (s', r) := Stake(s, d, v, amount, funded);
            && (r == Ok <==> v in s.validators && (amount >= s.minStake || s.validators[v].stake > 0) && funded)
            && (r != Ok ==> s' == s)
            && (r == Ok ==>
                  && Get(s'.delegations, k) == Get(s.delegations, k) + (if k == (d, v) then amount else 0)
                  && Get(s'.totalDelegatedTo, w) == Get(s.totalDelegatedTo, w) + (if w == v then amount else 0)
                  && s' == s.(validators := s'.validators, delegations := s'.delegations,
                              totalDelegatedTo := s'.totalDelegatedTo)
                  && s'.validators.Keys == s.validators.Keys
                  && (w in s.validators && w != v ==> s'.validators[w] == s.validators[w])
                  && s'.validators[v] == s.validators[v].(stake := s.validators[v].stake + amount,
                                                          totalDelegated := s.validators[v].totalDelegated + amount,
                                                          isActive := s'.validators[v].isActive)
                  && (s'.validators[v].isActive <==> s.validators[v].isActive || s'.validators[v].stake >= s.minStake))
  {
  }

  /** A private stake needs a registered validator, a fresh nullifier and a proof; it spends the nullifier, activates
      the validator and counts one, whatever the hidden amount. */
  lemma PrivateStakeEffect(s: Book, v: Address, nullifier: nat, proofOk: bool, w: Address)
    ensures var (s', r) := PrivateStake(s, v, nullifier, proofOk);
            && (r == Ok <==> v in s.validators && nullifier !in s.nullifiers && proofOk)
            && (r != Ok ==> s' == s)
            && (r == Ok ==>
                  && s'.nullifiers == s.nullifiers + {nullifier}
                  && s'.delegations == s.delegations && s'.totalDelegatedTo == s.totalDelegatedTo
                  && s'.minStake == s.minStake && s'.validators.Keys == s.validators.Keys
                  && (w in s.validators && w != v ==> s'.validators[w] == s.validators[w])
                  && s'.validators[v] == s.validators[v].(isActive := true,
                                                          totalDelegated := s.validators[v].totalDelegated + 1))
  {
  }

  /** In a sound state unstaking succeeds within the caller's own delegation, where slashing has left the stake; it
      takes the amount from that delegator and that validator alone. */
  lemma UnstakeEffect(s: Book, d: Address, v: Address, amount: nat, k: Key, w: Address)
    requires Inv(s)
    ensures var (s', r) := Unstake(s, d, v, amount);
            && (r == Ok <==>
                  v in s.validators && amount <= Get(s.delegations, (d, v)) && amount <= s.validators[v].stake)
            && (r != Ok ==> s' == s)
            && (r == Ok ==>
                  && Get(s'.delegations, k) == Get(s.delegations, k) - (if k == (d, v) then amount else 0)
                  && Get(s'.totalDelegatedTo, w) == Get(s.totalDelegatedTo, w) - (if w == v then amount else 0)
                  && s' == s.(validators := s'.validators, delegations := s'.delegations,
                              totalDelegatedTo := s'.totalDelegatedTo)
                  && s'.validators.Keys == s.validators.Keys
                  && (w in s.validators && w != v ==> s'.validators[w] == s.validators[w])
                  && s'.validators[v].stake == s.validators[v].stake - amount
                  && s'.validators[v].totalDelegated == s.validators[v].totalDelegated - amount
                  && s'.validators[v].commission == s.validators[v].commission
                  && s'.validators[v].rewardsAccumulated == s.validators[v].rewardsAccumulated
                  && (s'.validators[v].isActive <==> s.validators[v].isActive && s'.validators[v].stake >= s.minStake))
  {
    UnstakeKeepsInv(s, d, v, amount);
    hide Inv, DelegatedTo;
  }

  /** A commission, and the cut of a slash, is the most that stays within the rate's share. */
  lemma CommissionIsLargest(reward: nat, rate: nat, x: nat)
    ensures x <= Commission(reward, rate) <==> x * 10000 <= reward * rate
  {
    QuotientIsLargest(x, reward * rate, 10000);
  }

  /** What a distribution credits to one validator: the sum of its commissions over all its entries in the list. */
  ghost function Credited(addrs: seq<Address>, rewards: seq<nat>, w: Address, rate: nat): nat
    requires |addrs| == |rewards|
  {
    if addrs == [] then 0
    else
      var n := |addrs| - 1;
      Credited(addrs[..n], rewards[..n], w, rate) + if addrs[n] == w then Commission(rewards[n], rate) else 0
  }

  lemma {:induction false} CreditAllFor(vs: map<Address, Validator>, addrs: seq<Address>, rewards: seq<nat>, w: Address)
    requires |addrs| == |rewards| && w in vs
    ensures w in CreditAll(vs, addrs, rewards)
    ensures var c := if vs[w].isActive then Credited(addrs, rewards, w, vs[w].commission) else 0;
            CreditAll(vs, addrs, rewards)[w] ==
            vs[w].(stake := vs[w].stake + c, rewardsAccumulated := vs[w].rewardsAccumulated + c)
    decreases |addrs|
  {
    hide Commission;
    if addrs != [] {
      CreditAllFor(vs, addrs[..|addrs| - 1], rewards[..|addrs| - 1], w);
    }
  }

  /** In a sound state the owner's distribution always goes through for lists of equal length; every active validator
      gains its commissions on its own entries, in stake and in rewards, and nothing else about anybody changes. */
  lemma DistributeEffect(s: Book, byOwner: bool, addrs: seq<Address>, rewards: seq<nat>, w: Address)
    requires Inv(s)
    ensures var (s', r) := Distribute(s, byOwner, addrs, rewards);
            && (r == Ok <==> byOwner && |addrs| == |rewards|)
            && (r != Ok ==> s' == s)
            && (r == Ok ==>
                  && s' == s.(validators := s'.validators) && s'.validators.Keys == s.validators.Keys
                  && (w in s.validators ==>
                        var v := s.validators[w];
                        var c := if v.isActive then Credited(addrs, rewards, w, v.commission) else 0;
                        s'.validators[w] == v.(stake := v.stake + c, rewardsAccumulated := v.rewardsAccumulated + c)))
  {
    DistributeKeepsInv(s, byOwner, addrs, rewards);
    if |addrs| == |rewards| {
      CreditAllKeeps(s.validators, addrs, rewards);
      if w in s.validators { CreditAllFor(s.validators, addrs, rewards, w); }
    }
    hide Inv, CreditAll, Credited, CommissionExceeds;
  }

  /** Only the owner slashes, a registered validator, by at most all of its stake, rounded down; it is deactivated,
      and no delegation changes. */
  lemma SlashEffect(s: Book, byOwner: bool, v: Address, percentage: nat, w: Address)
    requires Inv(s)
    ensures var (s', r) := Slash(s, byOwner, v, percentage);
            && (r == Ok <==> byOwner && v in s.validators && percentage <= 10000)
            && s' == s.(validators := s'.validators)
            && (r != Ok ==> s' == s)
            && (r == Ok ==>
                  && s'.validators.Keys == s.validators.Keys
                  && (w in s.validators && w != v ==> s'.validators[w] == s.validators[w])
                  && Commission(s.validators[v].stake, percentage) <= s.validators[v].stake
                  && s'.validators[v] == s.validators[v].(stake := s.validators[v].stake
                                                                   - Commission(s.validators[v].stake, percentage),
                                                          isActive := false))
  {
    hide Inv, Commission;
    if v in s.validators && percentage <= BASIS { CommissionWithin(s.validators[v].stake, percentage); }
  }

  /** A claim is rounded down twice: the most within share / 10^18 of the rewards, where the share is the most within
      the delegation's part of 10^18. */
  lemma ClaimIsLargest(s: Book, d: Address, v: Address, x: nat)
    requires Inv(s) && Get(s.delegations, (d, v)) > 0
    ensures var total := ValidatorOf(s.validators, v).totalDelegated;
            && total > 0
            && var share := Get(s.delegations, (d, v)) * SCALE / total;
               && SCALE == 1000000000000000000
               && share * total <= Get(s.delegations, (d, v)) * SCALE < (share + 1) * total
               && (x <= Claim(s, d, v) <==> x * SCALE <= share * ValidatorOf(s.validators, v).rewardsAccumulated)
  {
    NeverDividesByZero(s, d, v);
    var info := ValidatorOf(s.validators, v);
    var share := Portion(Get(s.delegations, (d, v)), SCALE, info.totalDelegated);
    DivBounds(Get(s.delegations, (d, v)) * SCALE, info.totalDelegated);
    QuotientIsLargest(x, share * info.rewardsAccumulated, SCALE);
    hide Inv;
  }

  // ----- one delegator over a run

  /** What a call adds to one delegation, and what it takes. */
  ghost function StakedIn(s: Book, op: Op, k: Key): nat {
    if op.DoStake? && (op.delegator, op.validator) == k && k.1 in s.validators
       && (op.amount >= s.minStake || s.validators[k.1].stake > 0) && op.funded
    then op.amount else 0
  }

  ghost function UnstakedIn(s: Book, op: Op, k: Key): nat {
    if op.DoUnstake? && (op.delegator, op.validator) == k && k.1 in s.validators
       && op.amount <= Get(s.delegations, k) && op.amount <= s.validators[k.1].stake
    then op.amount else 0
  }

  ghost function StakedBy(s: Book, ops: seq<Op>, k: Key): nat
    decreases |ops|
  {
    if ops == [] then 0
    else
      var front := ops[..|ops| - 1];
      StakedBy(s, front, k) + StakedIn(Run(s, front), ops[|ops| - 1], k)
  }

  ghost function UnstakedBy(s: Book, ops: seq<Op>, k: Key): nat
    decreases |ops|
  {
    if ops == [] then 0
    else
      var front := ops[..|ops| - 1];
      UnstakedBy(s, front, k) + UnstakedIn(Run(s, front), ops[|ops| - 1], k)
  }

  lemma StepMovesOwn(s: Book, op: Op, k: Key)
    requires Inv(s)
    ensures Get(Step(s, op).delegations, k) + UnstakedIn(s, op, k) == Get(s.delegations, k) + StakedIn(s, op, k)
  {
    hide Inv, Register, Stake, PrivateStake, Unstake, Distribute, Slash;
    match op
    case DoRegister(a, c) => RegisterEffect(s, a, c, 0);
    case DoStake(d, v, x, f) => StakeEffect(s, d, v, x, f, k, 0);
    case DoPrivateStake(v, n, p) => PrivateStakeEffect(s, v, n, p, 0);
    case DoUnstake(d, v, x) => UnstakeEffect(s, d, v, x, k, 0);
    case DoDistribute(o, a, r) => DistributeEffect(s, o, a, r, 0);
    case DoSlash(o, v, p) => SlashEffect(s, o, v, p, 0);
    case DoSetMinStake(_, _) =>
  }

  /** Over every run a delegation is what its owner staked with that validator less what they unstaked. */
  lemma {:induction false} DelegationIsOwn(s: Book, ops: seq<Op>, k: Key)
    requires Inv(s)
    ensures Get(Run(s, ops).delegations, k) + UnstakedBy(s, ops, k) == Get(s.delegations, k) + StakedBy(s, ops, k)
    decreases |ops|
  {
    hide Inv, Step;
    if ops != [] {
      var front := ops[..|ops| - 1];
      DelegationIsOwn(s, front, k);
      RunKeepsInv(s, front);
      StepMovesOwn(Run(s, front), ops[|ops| - 1], k);
    }
  }
}
