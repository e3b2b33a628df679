/** What one delegator, and one validator, can check about the Rust staking contract: when each call succeeds, whose
    money it moves, and that over every run nobody's stake goes anywhere but back to them. */
module StakingEffects {
  import opened Sums
  import opened Delegations
  import opened StakingLedger

  type Key = (Address, Address)

  // ----- one call

  /** Registration succeeds once per caller, with a commission of at most 100% raised to the base; the new validator is
      idle and empty, and nothing else changes. */
  lemma RegisterEffect(s: Ledger, caller: Address, commission: nat, w: Address)
    ensures var (s', r) := Register(s, caller, commission);
            && (r == Ok <==> commission <= 10000 && caller !in s.validators)
            && s' == s.(validators := s'.validators)
            && (r != Ok ==> s' == s)
            && (r == Ok ==>
                  && s'.validators.Keys == s.validators.Keys + {caller}
                  && (w in s.validators ==> s'.validators[w] == s.validators[w])
                  && var info := s'.validators[caller];
                     && info.commission >= commission && info.commission >= s.commissionBase
                     && info.commission in {commission, s.commissionBase}
                     && info.stake == 0 && info.totalDelegated == 0 && !info.isActive)
  {
  }

  /** A stake succeeds exactly at the minimum or more, for a registered validator, when the tokens arrive; it is
      credited to that delegator with that validator alone. */
  lemma StakeEffect(s: Ledger, d: Address, v: Address, amount: nat, funded: bool, k: Key, w: Address)
    ensures var (s', r) := Stake(s, d, v, amount, funded);
            && (r == Ok <==> amount >= s.minStake && v in s.validators && funded)
            && (r != Ok ==> s' == s)
            && (r == Ok ==>
                  && Get(s'.delegations, k) == Get(s.delegations, k) + (if k == (d, v) then amount else 0)
                  && s'.totalStaked == s.totalStaked + amount && s'.held == s.held + amount
                  && s' == s.(validators := s'.validators, delegations := s'.delegations, totalStaked := s'.totalStaked,
                              held := s'.held)
                  && s'.validators.Keys == s.validators.Keys
                  && (w in s.validators && w != v ==> s'.validators[w] == s.validators[w])
                  && s'.validators[v].stake == s.validators[v].stake + amount
                  && s'.validators[v].totalDelegated == s.validators[v].totalDelegated + amount
                  && s'.validators[v].commission == s.validators[v].commission
                  && (s'.validators[v].isActive <==> s.validators[v].isActive || s'.validators[v].stake >= s.minStake))
  {
  }

  /** In a sound state unstaking succeeds exactly within the caller's own delegation; it moves the amount to the end
      of the queue, under the caller's name, to unlock one period later. */
  lemma UnstakeEffect(s: Ledger, d: Address, v: Address, amount: nat, height: nat, k: Key, w: Address)
    requires Inv(s)
    ensures var (s', r) := Unstake(s, d, v, amount, height);
            && (r == Ok <==> amount <= Get(s.delegations, (d, v)) && v in s.validators)
            && (r != Ok ==> s' == s)
            && (r == Ok ==>
                  && Get(s'.delegations, k) == Get(s.delegations, k) - (if k == (d, v) then amount else 0)
                  && s'.totalStaked == s.totalStaked - amount
                  && |s'.queue| == |s.queue| + 1 && s.queue == s'.queue[..|s.queue|]
                  && s'.queue[|s.queue|].delegator == d && s'.queue[|s.queue|].validator == v
                  && s'.queue[|s.queue|].amount == amount
                  && s'.queue[|s.queue|].unlockHeight == height + s.unbondingPeriod
                  && s' == s.(validators := s'.validators, delegations := s'.delegations, totalStaked := s'.totalStaked,
                              queue := s'.queue)
                  && s'.validators.Keys == s.validators.Keys
                  && (w in s.validators && w != v ==> s'.validators[w] == s.validators[w])
                  && s'.validators[v].stake == s.validators[v].stake - amount
                  && s'.validators[v].totalDelegated == s.validators[v].totalDelegated - amount
                  && s'.validators[v].commission == s.validators[v].commission
                  && (s'.validators[v].isActive <==> s.validators[v].isActive && s'.validators[v].stake >= s.minStake))
  {
    UnstakeKeepsInv(s, d, v, amount, height);
    hide Inv, DelegatedTo;
  }

  /** A private stake needs a proof and a registered validator, which it activates; nothing else changes. */
  lemma PrivateStakeEffect(s: Ledger, v: Address, proofOk: bool, w: Address)
    ensures var (s', r) := PrivateStake(s, v, proofOk);
            && (r == Ok <==> proofOk && v in s.validators)
            && s' == s.(validators := s'.validators)
            && s'.validators.Keys == s.validators.Keys
            && (w in s.validators ==>
                  && s'.validators[w] == s.validators[w].(isActive := s'.validators[w].isActive)
                  && (s'.validators[w].isActive <==> s.validators[w].isActive || (r == Ok && w == v)))
  {
  }

  /** A commission is the most that stays within the rate's share of the reward. */
  lemma CommissionIsLargest(reward: nat, rate: nat, x: nat)
    ensures x <= Commission(reward, rate) <==> x * 10000 <= reward * rate
  {
    var n := reward * rate;
    assert n == n / 10000 * 10000 + n % 10000;
  }

  /** Only the protocol distributes; every listed validator's stake grows by its own commission on its own reward, and
      nothing else about anybody changes. */
  lemma DistributeEffect(s: Ledger, byProtocol: bool, rewards: map<Address, nat>, w: Address)
    ensures var (s', r) := DistributeRewards(s, byProtocol, rewards);
            && (r == Ok <==>
                  && byProtocol
                  && (s.overflowChecks ==> forall v :: v in rewards && v in s.validators ==>
                        Commission(rewards[v], s.validators[v].commission) <= rewards[v]))
            && (r != Ok ==> s' == s)
            && (r == Ok ==>
                  && s' == s.(validators := s'.validators, credited := s'.credited, epoch := s.epoch + 1)
                  && s'.validators.Keys == s.validators.Keys
                  && (w in s.validators ==>
                        var c := if w in rewards then Commission(rewards[w], s.validators[w].commission) else 0;
                        && s'.validators[w] == s.validators[w].(stake := s.validators[w].stake + c)
                        && Get(s'.credited, w) == Get(s.credited, w) + c))
  {
    hide Commission;
  }

  // ----- one delegator over a run

  /** What the entries of one delegation add up to. */
  ghost function AmountFor(entries: seq<UnbondingEntry>, k: Key): nat {
    if entries == [] then 0
    else
      var front, last := entries[..|entries| - 1], entries[|entries| - 1];
      AmountFor(front, k) + if (last.delegator, last.validator) == k then last.amount else 0
  }

  lemma AmountForSnoc(entries: seq<UnbondingEntry>, e: UnbondingEntry, k: Key)
    ensures AmountFor(entries + [e], k) ==
            AmountFor(entries, k) + if (e.delegator, e.validator) == k then e.amount else 0
  {
    assert (entries + [e])[..|entries|] == entries;
  }

  lemma {:induction false} DueSplitsFor(queue: seq<UnbondingEntry>, height: nat, k: Key)
    ensures AmountFor(queue, k) == AmountFor(Due(queue, height), k) + AmountFor(NotDue(queue, height), k)
  {
    if queue != [] {
      var front, last := queue[..|queue| - 1], queue[|queue| - 1];
      DueSplitsFor(front, height, k);
      AmountForSnoc(Due(front, height), last, k);
      AmountForSnoc(NotDue(front, height), last, k);
    }
  }

  lemma {:induction false} PaidAllFor(paidOut: map<Key, nat>, entries: seq<UnbondingEntry>, k: Key)
    ensures Get(PaidAll(paidOut, entries), k) == Get(paidOut, k) + AmountFor(entries, k)
  {
    if entries != [] {
      PaidAllFor(paidOut, entries[..|entries| - 1], k);
    }
  }

  /** What one delegator staked with one validator in the calls of a run. */
  ghost function StakedIn(s: Ledger, c: Call, k: Key): nat {
    if c.op.DoStake? && (c.op.delegator, c.op.validator) == k && c.op.amount >= s.minStake && k.1 in s.validators
       && c.op.funded
    then c.op.amount else 0
  }

  ghost function StakedBy(s: Ledger, calls: seq<Call>, k: Key): nat
    decreases |calls|
  {
    if calls == [] then 0
    else
      var front := calls[..|calls| - 1];
      StakedBy(s, front, k) + StakedIn(Run(s, front), calls[|calls| - 1], k)
  }

  ghost function Owned(s: Ledger, k: Key): nat {
    Get(s.delegations, k) + AmountFor(s.queue, k) + Get(s.paidOut, k)
  }

  lemma StepKeepsOwned(s: Ledger, c: Call, k: Key)
    requires Inv(s)
    ensures Owned(Step(s, c), k) == Owned(s, k) + StakedIn(s, c, k)
  {
    hide Inv, Register, Stake, PrivateStake, Unstake, ProcessUnbonding, DistributeRewards, AmountFor;
    match c.op
    case DoRegister(a, m) => RegisterEffect(s, a, m, 0);
    case DoStake(d, v, x, f) => StakeEffect(s, d, v, x, f, k, 0);
    case DoPrivateStake(v, p) => PrivateStakeEffect(s, v, p, 0);
    case DoUnstake(d, v, x) =>
      UnstakeEffect(s, d, v, x, c.height, k, 0);
      if Unstake(s, d, v, x, c.height).1 == Ok {
        var queue := Unstake(s, d, v, x, c.height).0.queue;
        assert queue == s.queue + [queue[|s.queue|]];
        AmountForSnoc(s.queue, queue[|s.queue|], k);
      }
    case DoProcessUnbonding => ProcessKeepsOwned(s, c.height, k);
    case DoDistribute(p, m) => DistributeEffect(s, p, m, 0);
  }

  lemma ProcessKeepsOwned(s: Ledger, height: nat, k: Key)
    requires Inv(s)
    ensures Owned(ProcessUnbonding(s, height).0, k) == Owned(s, k)
  {
    UnbondingKeepsInv(s, height);
    DueSplitsFor(s.queue, height, k);
    PaidAllFor(s.paidOut, Due(s.queue, height), k);
    hide Inv, Due, NotDue, PaidAll, AmountFor, Amounts;
  }

  lemma {:induction false} RunKeepsOwned(s: Ledger, calls: seq<Call>, k: Key)
    requires Inv(s)
    ensures Owned(Run(s, calls), k) == Owned(s, k) + StakedBy(s, calls, k)
    decreases |calls|
  {
    hide Inv, Step, Owned;
    if calls != [] {
      var front, last := calls[..|calls| - 1], calls[|calls| - 1];
      RunKeepsOwned(s, front, k);
      RunKeepsInv(s, front);
      StepKeepsOwned(Run(s, front), last, k);
    }
  }

  /** Over every run, for every delegator and validator: all that the one staked with the other is still delegated
      there, queued to be paid back, or has been paid back. */
  lemma NothingGoesElsewhere(minStake: nat, commissionBase: nat, unbondingPeriod: nat, overflowChecks: bool,
                             calls: seq<Call>, d: Address, v: Address)
    ensures var s0 := Created(minStake, commissionBase, unbondingPeriod, overflowChecks);
            var s := Run(s0, calls);
            StakedBy(s0, calls, (d, v)) ==
            Get(s.delegations, (d, v)) + AmountFor(s.queue, (d, v)) + Get(s.paidOut, (d, v))
  {
    CreatedInv(minStake, commissionBase, unbondingPeriod, overflowChecks);
    RunKeepsOwned(Created(minStake, commissionBase, unbondingPeriod, overflowChecks), calls, (d, v));
  }

  // ----- where queue entries come from

  /** Call i asked for this entry, one unbonding period before it unlocks. */
  ghost predicate AskedFor(calls: seq<Call>, i: nat, e: UnbondingEntry, period: nat)
    requires i < |calls|
  {
    calls[i].op == DoUnstake(e.delegator, e.validator, e.amount) && e.unlockHeight == calls[i].height + period
  }

  lemma StepQueues(s: Ledger, c: Call, e: UnbondingEntry)
    requires Inv(s) && e in Step(s, c).queue
    ensures e in s.queue || (c.op == DoUnstake(e.delegator, e.validator, e.amount)
                             && e.unlockHeight == c.height + s.unbondingPeriod)
  {
    hide Inv, Register, Stake, PrivateStake, Unstake, DistributeRewards;
    match c.op
    case DoRegister(a, m) => RegisterEffect(s, a, m, 0);
    case DoStake(d, v, x, f) => StakeEffect(s, d, v, x, f, (0, 0), 0);
    case DoPrivateStake(v, p) => PrivateStakeEffect(s, v, p, 0);
    case DoUnstake(d, v, x) => UnstakeEffect(s, d, v, x, c.height, (0, 0), 0);
    case DoProcessUnbonding => NotDueIsSublist(s.queue, c.height);
    case DoDistribute(p, m) => DistributeEffect(s, p, m, 0);
  }

  lemma StepKeepsPeriod(s: Ledger, c: Call)
    ensures Step(s, c).unbondingPeriod == s.unbondingPeriod
  {
    StepQueue(s, c);
    hide Step;
  }

  /** Every entry, and so every payout, was asked for by its own delegator a full unbonding period before it unlocks. */
  lemma {:induction false} EntriesWereAskedFor(s: Ledger, calls: seq<Call>, e: UnbondingEntry)
    requires Inv(s) && s.queue == [] && e in Run(s, calls).queue
    ensures Run(s, calls).unbondingPeriod == s.unbondingPeriod
    ensures exists i :: 0 <= i < |calls| && AskedFor(calls, i, e, s.unbondingPeriod)
    decreases |calls|
  {
    hide Inv, Step;
    if calls != [] {
      var front, last := calls[..|calls| - 1], calls[|calls| - 1];
      RunKeepsInv(s, front);
      PeriodStays(s, front);
      StepKeepsPeriod(Run(s, front), last);
      StepQueues(Run(s, front), last, e);
      if e in Run(s, front).queue {
        EntriesWereAskedFor(s, front, e);
        var i :| 0 <= i < |front| && AskedFor(front, i, e, s.unbondingPeriod);
        assert AskedFor(calls, i, e, s.unbondingPeriod);
      } else {
        assert AskedFor(calls, |front|, e, s.unbondingPeriod);
      }
    }
  }

  lemma {:induction false} PeriodStays(s: Ledger, calls: seq<Call>)
    ensures Run(s, calls).unbondingPeriod == s.unbondingPeriod
    decreases |calls|
  {
    hide Step;
    if calls != [] {
      PeriodStays(s, calls[..|calls| - 1]);
      StepKeepsPeriod(Run(s, calls[..|calls| - 1]), calls[|calls| - 1]);
    }
  }
}
