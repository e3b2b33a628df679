/** The delegation ledger and unbonding queue of the Rust staking contract: what each call does, and what every run
    keeps. */
module StakingLedger {
  import opened Sums
  import opened Delegations

  const BASIS: nat := 10000

  datatype ValidatorInfo = ValidatorInfo(stake: nat, commission: nat, isActive: bool, totalDelegated: nat)

  datatype UnbondingEntry = UnbondingEntry(delegator: Address, validator: Address, amount: nat, unlockHeight: nat)

  datatype Error =
    | CommissionTooHigh | AlreadyRegistered | BelowMinimum | ValidatorNotFound | TransferFailed
    | InsufficientStake | InvalidProof | NotProtocol | Underflow

  /** A failed call panics, which undoes all of its writes. */
  datatype Outcome = Ok | Panic(error: Error)

  /** The contract's storage, whether it is built with overflow checks, the tokens it holds, and as history the
      commission credited to each validator and what was paid out of each delegation. */
  datatype Ledger = Ledger(
    validators: map<Address, ValidatorInfo>,
    delegations: map<(Address, Address), nat>,
    totalStaked: nat,
    minStake: nat,
    commissionBase: nat,
    epoch: nat,
    unbondingPeriod: nat,
    overflowChecks: bool,
    queue: seq<UnbondingEntry>,
    held: nat,
    credited: map<Address, nat>,
    paidOut: map<(Address, Address), nat>)

  function Max(a: nat, b: nat): nat {
    if a < b then b else a
  }

  // ----- what each call does

  function Register(s: Ledger, caller: Address, commission: nat): (Ledger, Outcome) {
    if commission > BASIS then (s, Panic(CommissionTooHigh))
    else if caller in s.validators then (s, Panic(AlreadyRegistered))
    else
      var info := ValidatorInfo(0, Max(commission, s.commissionBase), false, 0);
      (s.(validators := s.validators[caller := info]), Ok)
  }

  function Stake(s: Ledger, delegator: Address, validator: Address, amount: nat, funded: bool): (Ledger, Outcome) {
    if amount < s.minStake then (s, Panic(BelowMinimum))
    else if validator !in s.validators then (s, Panic(ValidatorNotFound))
    else if !funded then (s, Panic(TransferFailed))
    else
      var info, key := s.validators[validator], (delegator, validator);
      var info' := info.(stake := info.stake + amount, totalDelegated := info.totalDelegated + amount,
                         isActive := info.isActive || info.stake + amount >= s.minStake);
      (s.(validators := s.validators[validator := info'],
          delegations := s.delegations[key := Get(s.delegations, key) + amount],
          totalStaked := s.totalStaked + amount,
          held := s.held + amount), Ok)
  }

  function Unstake(s: Ledger, delegator: Address, validator: Address, amount: nat, height: nat): (Ledger, Outcome) {
    var key := (delegator, validator);
    var current := Get(s.delegations, key);
    if current < amount then (s, Panic(InsufficientStake))
    else if validator !in s.validators then (s, Panic(ValidatorNotFound))
    else
      var info := s.validators[validator];
      if info.stake < amount || info.totalDelegated < amount || s.totalStaked < amount then (s, Panic(Underflow))
      else
        var info' := info.(stake := info.stake - amount, totalDelegated := info.totalDelegated - amount,
                           isActive := info.isActive && info.stake - amount >= s.minStake);
        (s.(validators := s.validators[validator := info'],
            delegations := if current == amount then s.delegations - {key} else s.delegations[key := current - amount],
            totalStaked := s.totalStaked - amount,
            queue := s.queue + [UnbondingEntry(delegator, validator, amount, height + s.unbondingPeriod)]), Ok)
  }

  /** The entries whose unlock height has been reached, and the others, each in queue order. */
  function Due(queue: seq<UnbondingEntry>, height: nat): seq<UnbondingEntry> {
    if queue == [] then []
    else
      var front, last := queue[..|queue| - 1], queue[|queue| - 1];
      if last.unlockHeight <= height then Due(front, height) + [last] else Due(front, height)
  }

  function NotDue(queue: seq<UnbondingEntry>, height: nat): seq<UnbondingEntry> {
    if queue == [] then []
    else
      var front, last := queue[..|queue| - 1], queue[|queue| - 1];
      if last.unlockHeight <= height then NotDue(front, height) else NotDue(front, height) + [last]
  }

  ghost function Amounts(entries: seq<UnbondingEntry>): nat {
    if entries == [] then 0
    else Amounts(entries[..|entries| - 1]) + entries[|entries| - 1].amount
  }

  /** A payout goes to the delegator of the entry, out of what was delegated to its validator. */
  function Paid(paidOut: map<(Address, Address), nat>, e: UnbondingEntry): map<(Address, Address), nat> {
    paidOut[(e.delegator, e.validator) := Get(paidOut, (e.delegator, e.validator)) + e.amount]
  }

  function PaidAll(paidOut: map<(Address, Address), nat>, entries: seq<UnbondingEntry>): map<(Address, Address), nat> {
    if entries == [] then paidOut
    else Paid(PaidAll(paidOut, entries[..|entries| - 1]), entries[|entries| - 1])
  }

  /** Every due entry is paid in queue order; a transfer the contract cannot fund panics. */
  ghost function ProcessUnbonding(s: Ledger, height: nat): (Ledger, Outcome) {
    if Amounts(Due(s.queue, height)) > s.held then (s, Panic(TransferFailed))
    else
      (s.(queue := NotDue(s.queue, height),
          held := s.held - Amounts(Due(s.queue, height)),
          paidOut := PaidAll(s.paidOut, Due(s.queue, height))), Ok)
  }

  function Commission(reward: nat, commission: nat): nat {
    reward * commission / BASIS
  }

  /** The rewards arrive as a map; each known validator is credited its commission, in any order. What the delegators
      would keep is computed and not used: where it is negative, only a build with overflow checks panics. */
  ghost function DistributeRewards(s: Ledger, byProtocol: bool, rewards: map<Address, nat>): (Ledger, Outcome) {
    if !byProtocol then (s, Panic(NotProtocol))
    else if s.overflowChecks && exists v :: v in rewards && CommissionFor(s.validators, v, rewards) > rewards[v]
    then (s, Panic(Underflow))
    else
      (s.(validators := map v | v in s.validators :: Rewarded(s.validators[v], v, rewards),
          credited := map v | v in s.credited.Keys + (rewards.Keys * s.validators.Keys) ::
                        Get(s.credited, v) + CommissionFor(s.validators, v, rewards),
          epoch := s.epoch + 1), Ok)
  }

  function CommissionFor(validators: map<Address, ValidatorInfo>, v: Address, rewards: map<Address, nat>): nat {
    if v in rewards && v in validators then Commission(rewards[v], validators[v].commission) else 0
  }

  function Rewarded(info: ValidatorInfo, v: Address, rewards: map<Address, nat>): ValidatorInfo {
    if v in rewards then info.(stake := info.stake + Commission(rewards[v], info.commission)) else info
  }

  /** A private stake reveals no amount; it only activates the validator. */
  function PrivateStake(s: Ledger, validator: Address, proofOk: bool): (Ledger, Outcome) {
    if !proofOk then (s, Panic(InvalidProof))
    else if validator !in s.validators then (s, Panic(ValidatorNotFound))
    else (s.(validators := s.validators[validator := s.validators[validator].(isActive := true)]), Ok)
  }

  // ----- the invariant

  ghost function DelegatedTotals(validators: map<Address, ValidatorInfo>): map<Address, nat> {
    map v | v in validators :: validators[v].totalDelegated
  }

  ghost predicate ValidatorSound(s: Ledger, v: Address)
    requires v in s.validators
  {
    && s.validators[v].totalDelegated == DelegatedTo(s.delegations, v)
    && s.validators[v].stake == s.validators[v].totalDelegated + Get(s.credited, v)
  }

  ghost predicate Inv(s: Ledger) {
    && (forall v :: v in s.validators ==> ValidatorSound(s, v))
    && (forall v :: v !in s.validators ==> DelegatedTo(s.delegations, v) == 0 && Get(s.credited, v) == 0)
    && s.totalStaked == Sum(DelegatedTotals(s.validators))
    && s.held == s.totalStaked + Amounts(s.queue)
  }

  ghost function Created(minStake: nat, commissionBase: nat, unbondingPeriod: nat, overflowChecks: bool): Ledger {
    Ledger(map[], map[], 0, minStake, commissionBase, 0, unbondingPeriod, overflowChecks, [], 0, map[], map[])
  }

  lemma CreatedInv(minStake: nat, commissionBase: nat, unbondingPeriod: nat, overflowChecks: bool)
    ensures Inv(Created(minStake, commissionBase, unbondingPeriod, overflowChecks))
  {
    var s := Created(minStake, commissionBase, unbondingPeriod, overflowChecks);
    forall v: Address ensures DelegatedTo(s.delegations, v) == 0 {
      assert ToValidator(s.delegations, v) == map[];
    }
    assert DelegatedTotals(s.validators) == map[];
  }

  lemma ValidatorWrite(vs: map<Address, ValidatorInfo>, v: Address, info: ValidatorInfo)
    requires v in vs
    ensures Sum(DelegatedTotals(vs[v := info])) == Sum(DelegatedTotals(vs)) - vs[v].totalDelegated + info.totalDelegated
  {
    SumUpdate(DelegatedTotals(vs), v, info.totalDelegated);
    assert DelegatedTotals(vs[v := info]) == DelegatedTotals(vs)[v := info.totalDelegated];
  }

  lemma RegisterKeepsInv(s: Ledger, caller: Address, commission: nat)
    requires Inv(s)
    ensures Inv(Register(s, caller, commission).0)
  {
    hide DelegatedTo, Sum;
    var (s', r) := Register(s, caller, commission);
    if r.Ok? {
      var m := DelegatedTotals(s.validators);
      SumUpdate(m, caller, 0);
      assert DelegatedTotals(s'.validators) == m[caller := 0];
      forall v | v in s'.validators ensures ValidatorSound(s', v) {
        if v != caller { assert ValidatorSound(s, v); }
      }
    }
  }

  lemma StakeKeepsInv(s: Ledger, delegator: Address, validator: Address, amount: nat, funded: bool)
    requires Inv(s)
    ensures Inv(Stake(s, delegator, validator, amount, funded).0)
  {
    hide DelegatedTo, DelegatedTotals, Sum;
    var (s', r) := Stake(s, delegator, validator, amount, funded);
    if r.Ok? {
      var key := (delegator, validator);
      ValidatorWrite(s.validators, validator, s'.validators[validator]);
      forall v
        ensures DelegatedTo(s'.delegations, v) == DelegatedTo(s.delegations, v) + if v == validator then amount else 0
      {
        DelegationWrite(s.delegations, key, Get(s.delegations, key) + amount, v);
      }
      forall v | v in s'.validators ensures ValidatorSound(s', v) {
        assert ValidatorSound(s, v);
      }
    }
  }

  /** In a sound state unstaking never underflows, and it keeps the state sound. */
  lemma UnstakeKeepsInv(s: Ledger, delegator: Address, validator: Address, amount: nat, height: nat)
    requires Inv(s)
    ensures Unstake(s, delegator, validator, amount, height).1 != Panic(Underflow)
    ensures Inv(Unstake(s, delegator, validator, amount, height).0)
  {
    hide DelegatedTo, Sum;
    var (s', r) := Unstake(s, delegator, validator, amount, height);
    var key := (delegator, validator);
    if Get(s.delegations, key) >= amount && validator in s.validators {
      assert ValidatorSound(s, validator);
      DelegationWithin(s.delegations, key);
      SumAtLeast(DelegatedTotals(s.validators), validator);
      ValidatorWrite(s.validators, validator, s'.validators[validator]);
      forall v
        ensures DelegatedTo(s'.delegations, v) == DelegatedTo(s.delegations, v) - if v == validator then amount else 0
      {
        DelegationWrite(s.delegations, key, Get(s.delegations, key) - amount, v);
        DelegationErase(s.delegations, key, v);
      }
      forall v | v in s'.validators ensures ValidatorSound(s', v) {
        assert ValidatorSound(s, v);
      }
      assert s'.queue[..|s.queue|] == s.queue;
    }
  }

  lemma {:induction false} DueSplitsAmounts(queue: seq<UnbondingEntry>, height: nat)
    ensures Amounts(Due(queue, height)) + Amounts(NotDue(queue, height)) == Amounts(queue)
  {
    if queue != [] {
      var front, last := queue[..|queue| - 1], queue[|queue| - 1];
      DueSplitsAmounts(front, height);
      if last.unlockHeight <= height {
        assert (Due(front, height) + [last])[..|Due(front, height)|] == Due(front, height);
      } else {
        assert (NotDue(front, height) + [last])[..|NotDue(front, height)|] == NotDue(front, height);
      }
    }
  }

  /** In a sound state every due payout is funded. */
  lemma UnbondingKeepsInv(s: Ledger, height: nat)
    requires Inv(s)
    ensures ProcessUnbonding(s, height).1 == Ok
    ensures Inv(ProcessUnbonding(s, height).0)
  {
    DueSplitsAmounts(s.queue, height);
    var s' := ProcessUnbonding(s, height).0;
    forall v | v in s'.validators ensures ValidatorSound(s', v) { assert ValidatorSound(s, v); }
  }

  lemma RewardsKeepInv(s: Ledger, byProtocol: bool, rewards: map<Address, nat>)
    requires Inv(s)
    ensures Inv(DistributeRewards(s, byProtocol, rewards).0)
  {
    hide Commission, DelegatedTo, Sum;
    var (s', r) := DistributeRewards(s, byProtocol, rewards);
    if r.Ok? {
      assert DelegatedTotals(s'.validators) == DelegatedTotals(s.validators);
      forall v ensures Get(s'.credited, v) == Get(s.credited, v) + CommissionFor(s.validators, v, rewards) {}
      forall v | v in s'.validators ensures ValidatorSound(s', v) {
        assert ValidatorSound(s, v);
      }
    }
  }

  lemma PrivateStakeKeepsInv(s: Ledger, validator: Address, proofOk: bool)
    requires Inv(s)
    ensures Inv(PrivateStake(s, validator, proofOk).0)
  {
    var (s', r) := PrivateStake(s, validator, proofOk);
    if r.Ok? {
      ValidatorWrite(s.validators, validator, s'.validators[validator]);
      forall v | v in s'.validators ensures ValidatorSound(s', v) { assert ValidatorSound(s, v); }
    }
  }

  // ----- runs

  datatype Op =
    | DoRegister(caller: Address, commission: nat)
    | DoStake(delegator: Address, validator: Address, amount: nat, funded: bool)
    | DoPrivateStake(validator: Address, proofOk: bool)
    | DoUnstake(delegator: Address, validator: Address, amount: nat)
    | DoProcessUnbonding
    | DoDistribute(byProtocol: bool, rewards: map<Address, nat>)

  /** One call, made at a block height. */
  datatype Call = Call(height: nat, op: Op)

  ghost function Step(s: Ledger, c: Call): Ledger {
    match c.op
    case DoRegister(a, m) => Register(s, a, m).0
    case DoStake(d, v, x, f) => Stake(s, d, v, x, f).0
    case DoPrivateStake(v, p) => PrivateStake(s, v, p).0
    case DoUnstake(d, v, x) => Unstake(s, d, v, x, c.height).0
    case DoProcessUnbonding => ProcessUnbonding(s, c.height).0
    case DoDistribute(p, m) => DistributeRewards(s, p, m).0
  }

  ghost function Run(s: Ledger, calls: seq<Call>): Ledger
    decreases |calls|
  {
    if calls == [] then s else Step(Run(s, calls[..|calls| - 1]), calls[|calls| - 1])
  }

  lemma StepKeepsInv(s: Ledger, c: Call)
    requires Inv(s)
    ensures Inv(Step(s, c))
  {
    hide Inv, Register, Stake, PrivateStake, Unstake, ProcessUnbonding, DistributeRewards;
    match c.op
    case DoRegister(a, m) => RegisterKeepsInv(s, a, m);
    case DoStake(d, v, x, f) => StakeKeepsInv(s, d, v, x, f);
    case DoPrivateStake(v, p) => PrivateStakeKeepsInv(s, v, p);
    case DoUnstake(d, v, x) => UnstakeKeepsInv(s, d, v, x, c.height);
    case DoProcessUnbonding => UnbondingKeepsInv(s, c.height);
    case DoDistribute(p, m) => RewardsKeepInv(s, p, m);
  }

  lemma {:induction false} RunKeepsInv(s: Ledger, calls: seq<Call>)
    requires Inv(s)
    ensures Inv(Run(s, calls))
    decreases |calls|
  {
    if calls != [] {
      RunKeepsInv(s, calls[..|calls| - 1]);
      StepKeepsInv(Run(s, calls[..|calls| - 1]), calls[|calls| - 1]);
    }
  }

  /** Conservation in every reachable state: delegations, validator totals, the grand total, credited commissions and
      the tokens held all agree, so no unstake underflows and every due payout is funded. */
  lemma Reachable(minStake: nat, commissionBase: nat, unbondingPeriod: nat, overflowChecks: bool, calls: seq<Call>,
                  v: Address, delegator: Address, amount: nat, height: nat)
    ensures var s := Run(Created(minStake, commissionBase, unbondingPeriod, overflowChecks), calls);
            && (v in s.validators ==>
                  && s.validators[v].totalDelegated == DelegatedTo(s.delegations, v)
                  && s.validators[v].stake == s.validators[v].totalDelegated + Get(s.credited, v))
            && s.totalStaked == Sum(DelegatedTotals(s.validators))
            && s.held == s.totalStaked + Amounts(s.queue)
            && Unstake(s, delegator, v, amount, height).1 != Panic(Underflow)
            && ProcessUnbonding(s, height).1 == Ok
  {
    CreatedInv(minStake, commissionBase, unbondingPeriod, overflowChecks);
    var s := Run(Created(minStake, commissionBase, unbondingPeriod, overflowChecks), calls);
    RunKeepsInv(Created(minStake, commissionBase, unbondingPeriod, overflowChecks), calls);
    if v in s.validators { assert ValidatorSound(s, v); }
    UnstakeKeepsInv(s, delegator, v, amount, height);
    UnbondingKeepsInv(s, height);
  }

  // ----- the queue under a monotone height

  ghost predicate SortedByUnlock(queue: seq<UnbondingEntry>) {
    forall i, j :: 0 <= i < j < |queue| ==> queue[i].unlockHeight <= queue[j].unlockHeight
  }

  ghost predicate HeightsRise(calls: seq<Call>) {
    forall i, j :: 0 <= i < j < |calls| ==> calls[i].height <= calls[j].height
  }

  ghost predicate UnlocksBy(queue: seq<UnbondingEntry>, bound: nat) {
    forall i :: 0 <= i < |queue| ==> queue[i].unlockHeight <= bound
  }

  lemma {:induction false} NotDueIsSublist(queue: seq<UnbondingEntry>, height: nat)
    ensures forall e :: e in NotDue(queue, height) <==> e in queue && e.unlockHeight > height
    ensures forall e :: e in Due(queue, height) <==> e in queue && e.unlockHeight <= height
  {
    if queue != [] {
      var front, last := queue[..|queue| - 1], queue[|queue| - 1];
      assert queue == front + [last];
      NotDueIsSublist(front, height);
    }
  }

  lemma {:induction false} AllDue(queue: seq<UnbondingEntry>, height: nat)
    requires UnlocksBy(queue, height)
    ensures NotDue(queue, height) == []
  {
    if queue != [] { AllDue(queue[..|queue| - 1], height); }
  }

  /** In a sorted queue the due entries are a prefix. */
  lemma {:induction false} DueIsPrefix(queue: seq<UnbondingEntry>, height: nat)
    requires SortedByUnlock(queue)
    ensures Due(queue, height) + NotDue(queue, height) == queue
    decreases |queue|
  {
    if queue != [] {
      var front, last := queue[..|queue| - 1], queue[|queue| - 1];
      assert queue == front + [last];
      DueIsPrefix(front, height);
      if last.unlockHeight <= height {
        assert forall i :: 0 <= i < |front| ==> front[i] == queue[i];
        AllDue(front, height);
      }
    }
  }

  lemma StepQueue(s: Ledger, c: Call)
    ensures Step(s, c).unbondingPeriod == s.unbondingPeriod
    ensures Step(s, c).queue == s.queue
         || Step(s, c).queue == NotDue(s.queue, c.height)
         || exists e: UnbondingEntry ::
              e.unlockHeight == c.height + s.unbondingPeriod && Step(s, c).queue == s.queue + [e]
  {
    if c.op.DoUnstake? {
      var e := UnbondingEntry(c.op.delegator, c.op.validator, c.op.amount, c.height + s.unbondingPeriod);
      assert Step(s, c).queue == s.queue || Step(s, c).queue == s.queue + [e];
    }
  }

  lemma {:induction false} RunSorted(s: Ledger, calls: seq<Call>)
    requires s.queue == [] && HeightsRise(calls)
    ensures var t := Run(s, calls);
            && t.unbondingPeriod == s.unbondingPeriod
            && SortedByUnlock(t.queue)
            && (calls != [] ==> UnlocksBy(t.queue, calls[|calls| - 1].height + s.unbondingPeriod))
            && (calls == [] ==> t.queue == [])
    decreases |calls|
  {
    hide Step;
    if calls != [] {
      var front, last := calls[..|calls| - 1], calls[|calls| - 1];
      RunSorted(s, front);
      var t := Run(s, front);
      var bound := last.height + s.unbondingPeriod;
      assert UnlocksBy(t.queue, bound);
      StepQueue(t, last);
      if Step(t, last).queue == NotDue(t.queue, last.height) {
        DueIsPrefix(t.queue, last.height);
        SuffixSorted(Due(t.queue, last.height), NotDue(t.queue, last.height), bound);
      }
    }
  }

  lemma SuffixSorted(a: seq<UnbondingEntry>, b: seq<UnbondingEntry>, bound: nat)
    requires SortedByUnlock(a + b) && UnlocksBy(a + b, bound)
    ensures SortedByUnlock(b) && UnlocksBy(b, bound)
  {
    forall i, j | 0 <= i < j < |b| ensures b[i].unlockHeight <= b[j].unlockHeight {
      assert (a + b)[|a| + i] == b[i] && (a + b)[|a| + j] == b[j];
    }
    forall i | 0 <= i < |b| ensures b[i].unlockHeight <= bound {
      assert (a + b)[|a| + i] == b[i];
    }
  }

  /** With block heights that never fall, the queue is always sorted and every payout takes a prefix of it. */
  lemma PayoutsArePrefixes(minStake: nat, commissionBase: nat, unbondingPeriod: nat, overflowChecks: bool,
                           calls: seq<Call>, height: nat)
    requires HeightsRise(calls)
    ensures var s := Run(Created(minStake, commissionBase, unbondingPeriod, overflowChecks), calls);
            SortedByUnlock(s.queue) && Due(s.queue, height) + NotDue(s.queue, height) == s.queue
  {
    RunSorted(Created(minStake, commissionBase, unbondingPeriod, overflowChecks), calls);
    DueIsPrefix(Run(Created(minStake, commissionBase, unbondingPeriod, overflowChecks), calls).queue, height);
  }

  // ----- rewards

  lemma CommissionWithinReward(reward: nat, commission: nat)
    ensures commission <= BASIS ==> Commission(reward, commission) <= reward
    ensures commission > BASIS ==> exists r: nat :: Commission(r, commission) > r
  {
    if commission <= BASIS {
      assert reward * commission <= reward * BASIS;
    } else {
      assert BASIS * commission / BASIS == commission;
      assert Commission(BASIS, commission) > BASIS;
    }
  }

  /** A commission is fixed at registration. */
  lemma StepKeepsCommission(s: Ledger, c: Call, v: Address)
    ensures var t := Step(s, c);
            && t.commissionBase == s.commissionBase
            && (v in t.validators ==>
                  if v in s.validators then t.validators[v].commission == s.validators[v].commission
                  else s.commissionBase <= t.validators[v].commission <= Max(BASIS, s.commissionBase))
  {
    hide Commission, CommissionFor, Due, NotDue, Amounts;
    match c.op
    case DoDistribute(p, m) => DistributionKeepsCommission(s, p, m, v);
    case _ => hide DistributeRewards;
  }

  lemma DistributionKeepsCommission(s: Ledger, byProtocol: bool, rewards: map<Address, nat>, v: Address)
    ensures var t := DistributeRewards(s, byProtocol, rewards).0;
            && t.commissionBase == s.commissionBase && t.validators.Keys == s.validators.Keys
            && (v in s.validators ==> t.validators[v].commission == s.validators[v].commission)
  {
    hide Commission, CommissionFor;
  }

  /** Registration allows a commission above 100% only through a base commission above 100%. */
  lemma {:induction false} CommissionsBounded(s: Ledger, calls: seq<Call>, v: Address)
    requires s.validators == map[]
    ensures var t := Run(s, calls);
            && t.commissionBase == s.commissionBase
            && (v in t.validators ==> s.commissionBase <= t.validators[v].commission <= Max(BASIS, s.commissionBase))
    decreases |calls|
  {
    hide Step;
    if calls != [] {
      CommissionsBounded(s, calls[..|calls| - 1], v);
      StepKeepsCommission(Run(s, calls[..|calls| - 1]), calls[|calls| - 1], v);
    }
  }

  /** Some reward makes distribution panic exactly in a build with overflow checks and at a commission above 100%. */
  lemma DistributionPanicsIff(s: Ledger, v: Address)
    requires v in s.validators
    ensures (exists reward: nat :: DistributeRewards(s, true, map[v := reward]).1 == Panic(Underflow)) <==>
              s.overflowChecks && s.validators[v].commission > BASIS
    ensures !s.overflowChecks ==> forall rewards :: DistributeRewards(s, true, rewards).1 == Ok
  {
    var c := s.validators[v].commission;
    if s.overflowChecks && c > BASIS {
      CommissionWithinReward(0, c);
      var r: nat :| Commission(r, c) > r;
      var rewards: map<Address, nat> := map[v := r];
      assert v in rewards;
      assert DistributeRewards(s, true, rewards).1 == Panic(Underflow);
    } else {
      forall reward: nat ensures DistributeRewards(s, true, map[v := reward]).1 != Panic(Underflow) {
        CommissionWithinReward(reward, c);
      }
    }
  }
}
