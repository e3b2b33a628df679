/** The Rust staking contract, updated in place. */
module StakingContract {
  import opened Sums
  import opened Delegations
  import opened Calls = StakingLedger

  class ProtonStaking {
    var validators: map<Address, ValidatorInfo>
    var delegations: map<(Address, Address), nat>
    var totalStaked: nat
    const minStake: nat
    const commissionBase: nat
    const overflowChecks: bool
    var epoch: nat
    const unbondingPeriod: nat
    var unbondingQueue: seq<UnbondingEntry>
    var held: nat
    ghost var credited: map<Address, nat>
    ghost var paidOut: map<(Address, Address), nat>

    ghost function State(): Ledger
      reads this
    {
      Ledger(validators, delegations, totalStaked, minStake, commissionBase, epoch, unbondingPeriod, overflowChecks,
             unbondingQueue, held, credited, paidOut)
    }

    constructor (minStake: nat, commissionBase: nat, unbondingPeriod: nat, overflowChecks: bool)
      ensures State() == Created(minStake, commissionBase, unbondingPeriod, overflowChecks) && Inv(State())
    {
      this.minStake, this.commissionBase, this.unbondingPeriod := minStake, commissionBase, unbondingPeriod;
      this.overflowChecks := overflowChecks;
      validators, delegations, totalStaked, epoch := map[], map[], 0, 0;
      unbondingQueue, held, credited, paidOut := [], 0, map[], map[];
      new;
      CreatedInv(minStake, commissionBase, unbondingPeriod, overflowChecks);
    }

    method RegisterValidator(caller: Address, commission: nat) returns (r: Outcome)
      modifies this
      ensures (State(), r) == Register(old(State()), caller, commission)
      ensures Inv(old(State())) ==> Inv(State())
    {
      hide Inv;
      if Inv(State()) { RegisterKeepsInv(State(), caller, commission); }
      if commission > BASIS { return Panic(CommissionTooHigh); }
      if caller in validators { return Panic(AlreadyRegistered); }
      validators := validators[caller := ValidatorInfo(0, Max(commission, commissionBase), false, 0)];
      return Ok;
    }

    /** `funded` says whether the token transfer into the contract goes through. */
    method Stake(delegator: Address, validator: Address, amount: nat, funded: bool) returns (r: Outcome)
      modifies this
      ensures (State(), r) == Calls.Stake(old(State()), delegator, validator, amount, funded)
      ensures Inv(old(State())) ==> Inv(State())
    {
      hide Inv;
      if Inv(State()) { StakeKeepsInv(State(), delegator, validator, amount, funded); }
      if amount < minStake { return Panic(BelowMinimum); }
      if validator !in validators { return Panic(ValidatorNotFound); }
      var info := validators[validator];
      if !funded { return Panic(TransferFailed); }
      held := held + amount;
      var key := (delegator, validator);
      delegations := delegations[key := Get(delegations, key) + amount];
      info := info.(stake := info.stake + amount);
      info := info.(totalDelegated := info.totalDelegated + amount);
      if info.stake >= minStake { info := info.(isActive := true); }
      validators := validators[validator := info];
      totalStaked := totalStaked + amount;
      return Ok;
    }

    method PrivateStake(validator: Address, proofOk: bool) returns (r: Outcome)
      modifies this
      ensures (State(), r) == Calls.PrivateStake(old(State()), validator, proofOk)
      ensures Inv(old(State())) ==> Inv(State())
    {
      hide Inv;
      if Inv(State()) { PrivateStakeKeepsInv(State(), validator, proofOk); }
      if !proofOk { return Panic(InvalidProof); }
      if validator !in validators { return Panic(ValidatorNotFound); }
      validators := validators[validator := validators[validator].(isActive := true)];
      return Ok;
    }

    method Unstake(delegator: Address, validator: Address, amount: nat, height: nat) returns (r: Outcome)
      modifies this
      ensures (State(), r) == Calls.Unstake(old(State()), delegator, validator, amount, height)
      ensures Inv(old(State())) ==> Inv(State())
    {
      hide Inv;
      if Inv(State()) { UnstakeKeepsInv(State(), delegator, validator, amount, height); }
      var key := (delegator, validator);
      var current := Get(delegations, key);
      if current < amount { return Panic(InsufficientStake); }
      var entry := delegations;  // restored by a later panic
      delegations := if current == amount then delegations - {key} else delegations[key := current - amount];
      if validator !in validators { delegations := entry; return Panic(ValidatorNotFound); }
      var info := validators[validator];
      if info.stake < amount || info.totalDelegated < amount || totalStaked < amount {
        delegations := entry;
        return Panic(Underflow);
      }
      info := info.(stake := info.stake - amount);
      info := info.(totalDelegated := info.totalDelegated - amount);
      if info.stake < minStake { info := info.(isActive := false); }
      validators := validators[validator := info];
      totalStaked := totalStaked - amount;
      unbondingQueue := unbondingQueue + [UnbondingEntry(delegator, validator, amount, height + unbondingPeriod)];
      return Ok;
    }

    /** Pays the due entries while collecting their positions, then removes those positions from the back. */
    method ProcessUnbonding(height: nat) returns (r: Outcome, paid: seq<UnbondingEntry>)
      modifies this
      ensures (State(), r) == Calls.ProcessUnbonding(old(State()), height)
      ensures r == Ok ==> paid == Due(old(unbondingQueue), height)
      ensures Inv(old(State())) ==> r == Ok && Inv(State())
    {
      hide Inv, Due, DueAt, Amounts, NotDue, PaidAll;
      if Inv(State()) { UnbondingKeepsInv(State(), height); }
      var toRemove: seq<nat> := [];
      paid := [];
      var entryHeld := held;
      ghost var entryPaid := paidOut;
      ghost var q := unbondingQueue;
      NothingDueYet(q, height, paidOut);
      for i := 0 to |unbondingQueue|
        invariant unbondingQueue == q && State() == old(State()).(held := held, paidOut := paidOut)
        invariant paidOut == PaidAll(entryPaid, paid)
        invariant paid == Due(q[..i], height) && toRemove == DueAt(q[..i], height)
        invariant Amounts(paid) <= entryHeld && held == entryHeld - Amounts(paid)
      {
        DueSoFar(q, height, i);
        PaidOneMore(entryPaid, paid, q[i]);
        var entry := unbondingQueue[i];
        if entry.unlockHeight <= height {
          if held < entry.amount {
            PrefixAmounts(q, height, i + 1);
            held, paidOut := entryHeld, entryPaid;
            return Panic(TransferFailed), [];
          }
          held := held - entry.amount;
          paidOut := Paid(paidOut, entry);
          paid := paid + [entry];
          toRemove := toRemove + [i];
        }
      }
      assert q[..|q|] == q;
      RemoveBackwards(toRemove, height);
      return Ok, paid;
    }

    method RemoveBackwards(toRemove: seq<nat>, height: nat)
      requires toRemove == DueAt(unbondingQueue, height)
      modifies this`unbondingQueue
      ensures unbondingQueue == NotDue(old(unbondingQueue), height)
    {
      hide NotDue, DueAt, Cleared, Marks;
      ghost var q := unbondingQueue;
      var k: nat := |toRemove|;
      DueAtMarks(q, height);
      ClearedEnds(q, height, toRemove);
      while k > 0
        invariant k <= |toRemove|
        invariant unbondingQueue == Cleared(q, height, toRemove, k)
      {
        ClearNext(q, height, toRemove, k);
        k := k - 1;
        var i := toRemove[k];
        unbondingQueue := unbondingQueue[..i] + unbondingQueue[i + 1..];
      }
    }

    /** Commissions are credited in whatever order the map yields its entries. */
    method DistributeRewards(byProtocol: bool, rewards: map<Address, nat>) returns (r: Outcome)
      modifies this
      ensures (State(), r) == Calls.DistributeRewards(old(State()), byProtocol, rewards)
      ensures Inv(old(State())) ==> Inv(State())
    {
      hide Inv, Commission, Rewarded, ValidatorsAfter, CreditedAfter;
      if Inv(State()) { RewardsKeepInv(State(), byProtocol, rewards); }
      if !byProtocol { return Panic(NotProtocol); }
      var entry := validators;
      ghost var entryCredited := credited;
      var todo := rewards.Keys;
      ghost var done: set<Address> := {};
      NothingRewarded(entry, entryCredited, rewards);
      while todo != {}
        invariant todo <= rewards.Keys && done == rewards.Keys - todo
        invariant State() == old(State()).(validators := validators, credited := credited)
        invariant overflowChecks ==>
                    forall v :: v in done && v in entry ==> Commission(rewards[v], entry[v].commission) <= rewards[v]
        invariant validators == ValidatorsAfter(entry, rewards, done)
        invariant credited == CreditedAfter(entry, entryCredited, rewards, done)
        decreases todo
      {
        var v :| v in todo;
        todo := todo - {v};
        OneMoreReward(entry, entryCredited, rewards, done, v);
        if v in validators {
          var info := validators[v];
          var commission := Commission(rewards[v], info.commission);
          if overflowChecks && commission > rewards[v] {
            validators, credited := entry, entryCredited;
            return Panic(Underflow);
          }
          validators := validators[v := info.(stake := info.stake + commission)];
          credited := credited[v := Get(credited, v) + commission];
        }
        done := done + {v};
      }
      AllRewarded(entry, entryCredited, rewards, done);
      epoch := epoch + 1;
      return Ok;
    }
  }

  ghost function ValidatorsAfter(entry: map<Address, ValidatorInfo>, rewards: map<Address, nat>, done: set<Address>)
    : map<Address, ValidatorInfo>
  {
    map v | v in entry :: if v in done then Rewarded(entry[v], v, rewards) else entry[v]
  }

  ghost function CreditedAfter(entry: map<Address, ValidatorInfo>, credited: map<Address, nat>,
                               rewards: map<Address, nat>, done: set<Address>): map<Address, nat>
  {
    map v | v in credited.Keys + (done * entry.Keys) ::
      Get(credited, v) + if v in done then CommissionFor(entry, v, rewards) else 0
  }

  lemma NothingRewarded(entry: map<Address, ValidatorInfo>, credited: map<Address, nat>, rewards: map<Address, nat>)
    ensures ValidatorsAfter(entry, rewards, {}) == entry
    ensures CreditedAfter(entry, credited, rewards, {}) == credited
  {
  }

  lemma OneMoreValidator(entry: map<Address, ValidatorInfo>, rewards: map<Address, nat>, done: set<Address>, v: Address)
    requires v in rewards && v !in done
    ensures var vs := ValidatorsAfter(entry, rewards, done);
            && vs.Keys == entry.Keys
            && (v in entry ==> vs[v] == entry[v])
            && ValidatorsAfter(entry, rewards, done + {v}) ==
               if v in entry then vs[v := Rewarded(entry[v], v, rewards)] else vs
  {
    hide Rewarded;
  }

  lemma OneMoreCredit(entry: map<Address, ValidatorInfo>, credited: map<Address, nat>, rewards: map<Address, nat>,
                      done: set<Address>, v: Address)
    requires v in rewards && v !in done
    ensures var cs := CreditedAfter(entry, credited, rewards, done);
            CreditedAfter(entry, credited, rewards, done + {v}) ==
            if v in entry then cs[v := Get(cs, v) + CommissionFor(entry, v, rewards)] else cs
  {
    hide Commission;
  }

  lemma OneMoreReward(entry: map<Address, ValidatorInfo>, credited: map<Address, nat>, rewards: map<Address, nat>,
                      done: set<Address>, v: Address)
    requires v in rewards && v !in done
    ensures var vs, cs := ValidatorsAfter(entry, rewards, done), CreditedAfter(entry, credited, rewards, done);
            && vs.Keys == entry.Keys
            && (v in entry ==>
                  && vs[v] == entry[v]
                  && var commission := Commission(rewards[v], entry[v].commission);
                  && ValidatorsAfter(entry, rewards, done + {v}) ==
                     vs[v := entry[v].(stake := entry[v].stake + commission)]
                  && CreditedAfter(entry, credited, rewards, done + {v}) == cs[v := Get(cs, v) + commission])
            && (v !in entry ==>
                  && ValidatorsAfter(entry, rewards, done + {v}) == vs
                  && CreditedAfter(entry, credited, rewards, done + {v}) == cs)
  {
    hide Commission, ValidatorsAfter, CreditedAfter;
    OneMoreValidator(entry, rewards, done, v);
    OneMoreCredit(entry, credited, rewards, done, v);
  }

  lemma AllRewarded(entry: map<Address, ValidatorInfo>, credited: map<Address, nat>, rewards: map<Address, nat>,
                    done: set<Address>)
    requires done == rewards.Keys
    ensures ValidatorsAfter(entry, rewards, done) == map v | v in entry :: Rewarded(entry[v], v, rewards)
    ensures CreditedAfter(entry, credited, rewards, done) ==
            map v | v in credited.Keys + (rewards.Keys * entry.Keys) ::
              Get(credited, v) + CommissionFor(entry, v, rewards)
  {
    hide Commission;
  }

  // ----- the two unbonding loops

  /** Positions of the due entries, ascending. */
  function DueAt(queue: seq<UnbondingEntry>, height: nat): seq<nat> {
    if queue == [] then []
    else
      var n := |queue| - 1;
      if queue[n].unlockHeight <= height then DueAt(queue[..n], height) + [n] else DueAt(queue[..n], height)
  }

  lemma NothingDueYet(q: seq<UnbondingEntry>, height: nat, paidOut: map<(Address, Address), nat>)
    ensures Due(q[..0], height) == [] && DueAt(q[..0], height) == [] && Amounts([]) == 0
    ensures PaidAll(paidOut, []) == paidOut
  {
  }

  lemma PaidOneMore(paidOut: map<(Address, Address), nat>, paid: seq<UnbondingEntry>, e: UnbondingEntry)
    ensures PaidAll(paidOut, paid + [e]) == Paid(PaidAll(paidOut, paid), e)
  {
    assert (paid + [e])[..|paid|] == paid;
  }

  /** One more entry looked at. */
  lemma DueSoFar(q: seq<UnbondingEntry>, height: nat, i: nat)
    requires i < |q|
    ensures var due := q[i].unlockHeight <= height;
            && Due(q[..i + 1], height) == Due(q[..i], height) + (if due then [q[i]] else [])
            && DueAt(q[..i + 1], height) == DueAt(q[..i], height) + (if due then [i] else [])
            && Amounts(Due(q[..i + 1], height)) == Amounts(Due(q[..i], height)) + if due then q[i].amount else 0
  {
    assert q[..i + 1][..i] == q[..i];
    var paid := Due(q[..i], height);
    assert (paid + [q[i]])[..|paid|] == paid;
  }

  lemma {:induction false} DueAtMarks(queue: seq<UnbondingEntry>, height: nat)
    ensures Marks(queue, height, DueAt(queue, height))
  {
    if queue != [] {
      var n := |queue| - 1;
      DueAtMarks(queue[..n], height);
      var at := DueAt(queue[..n], height);
      if queue[n].unlockHeight <= height { MarkOneMore(queue, height, at); } else { MarksStay(queue, height, at); }
    }
  }

  lemma MarkOneMore(queue: seq<UnbondingEntry>, height: nat, at: seq<nat>)
    requires queue != [] && queue[|queue| - 1].unlockHeight <= height
    requires Marks(queue[..|queue| - 1], height, at)
    ensures Marks(queue, height, at + [|queue| - 1])
  {
    var n, all := |queue| - 1, at + [|queue| - 1];
    forall i | 0 <= i < |queue| && queue[i].unlockHeight <= height ensures i in all {
      if i < n { assert queue[..n][i] == queue[i] && i in at; } else { assert all[|at|] == n; }
    }
    assert forall k :: 0 <= k < |at| ==> all[k] == at[k] && queue[..n][at[k]] == queue[at[k]];
  }

  lemma MarksStay(queue: seq<UnbondingEntry>, height: nat, at: seq<nat>)
    requires queue != [] && queue[|queue| - 1].unlockHeight > height
    requires Marks(queue[..|queue| - 1], height, at)
    ensures Marks(queue, height, at)
  {
    var n := |queue| - 1;
    forall i | 0 <= i < |queue| && queue[i].unlockHeight <= height ensures i in at {
      assert queue[..n][i] == queue[i];
    }
    assert forall k :: 0 <= k < |at| ==> queue[..n][at[k]] == queue[at[k]];
  }

  /** Everything from here on has already been cleared when k marks are left. */
  ghost function Cut(q: seq<UnbondingEntry>, marks: seq<nat>, k: nat): nat
    requires k <= |marks|
  {
    if k == |marks| then |q| else marks[k]
  }

  ghost predicate Marks(q: seq<UnbondingEntry>, height: nat, at: seq<nat>) {
    && (forall k :: 0 <= k < |at| ==> at[k] < |q| && q[at[k]].unlockHeight <= height)
    && (forall j, k :: 0 <= j < k < |at| ==> at[j] < at[k])
    && (forall i :: 0 <= i < |q| && q[i].unlockHeight <= height ==> i in at)
  }

  /** The queue once the marks from k on have been removed. */
  ghost function Cleared(q: seq<UnbondingEntry>, height: nat, at: seq<nat>, k: nat): seq<UnbondingEntry>
    requires Marks(q, height, at) && k <= |at|
  {
    q[..Cut(q, at, k)] + NotDue(q[Cut(q, at, k)..], height)
  }

  lemma ClearedEnds(q: seq<UnbondingEntry>, height: nat, at: seq<nat>)
    requires Marks(q, height, at)
    ensures Cleared(q, height, at, |at|) == q
    ensures Cleared(q, height, at, 0) == NotDue(q, height)
  {
    assert q[..|q|] == q && q[|q|..] == [];
    NoneBetween(q, height, at, 0);
    NothingDueBefore(q, height, Cut(q, at, 0));
  }

  lemma ClearNext(q: seq<UnbondingEntry>, height: nat, at: seq<nat>, k: nat)
    requires Marks(q, height, at) && 0 < k <= |at|
    ensures var s := Cleared(q, height, at, k);
            at[k - 1] < |s| && s[..at[k - 1]] + s[at[k - 1] + 1..] == Cleared(q, height, at, k - 1)
  {
    var cut, i := Cut(q, at, k), at[k - 1];
    NoneBetween(q, height, at, k);
    assert i < cut;
    CutAt(q, height, i, cut);
    hide NotDue;
    RemoveAt(q[..cut], NotDue(q[cut..], height), i);
    assert q[..cut][..i] == q[..i] && q[..cut][i + 1..] == q[i + 1..cut];
  }

  lemma NoneBetween(q: seq<UnbondingEntry>, height: nat, at: seq<nat>, k: nat)
    requires Marks(q, height, at) && k <= |at|
    ensures Cut(q, at, k) <= |q|
    ensures forall j :: (if k == 0 then 0 else at[k - 1] + 1) <= j < Cut(q, at, k) ==> q[j].unlockHeight > height
  {
    forall j | (if k == 0 then 0 else at[k - 1] + 1) <= j < Cut(q, at, k) ensures q[j].unlockHeight > height {
      forall m | 0 <= m < |at| ensures at[m] != j {
        if m < k {
          assert at[m] <= at[k - 1];
        } else {
          assert at[k] <= at[m];
        }
      }
      assert j !in at;
    }
  }

  lemma RemoveAt(a: seq<UnbondingEntry>, b: seq<UnbondingEntry>, i: nat)
    requires i < |a|
    ensures (a + b)[..i] + (a + b)[i + 1..] == a[..i] + (a[i + 1..] + b)
  {
  }

  lemma {:induction false} NotDueConcat(a: seq<UnbondingEntry>, b: seq<UnbondingEntry>, height: nat)
    ensures NotDue(a + b, height) == NotDue(a, height) + NotDue(b, height)
  {
    if b == [] {
      assert a + b == a;
    } else {
      var front, last := b[..|b| - 1], b[|b| - 1];
      assert (a + b)[..|a + b| - 1] == a + front;
      NotDueConcat(a, front, height);
    }
  }

  lemma {:induction false} NotDueKeeps(a: seq<UnbondingEntry>, height: nat)
    requires forall i :: 0 <= i < |a| ==> a[i].unlockHeight > height
    ensures NotDue(a, height) == a
  {
    if a != [] {
      NotDueKeeps(a[..|a| - 1], height);
      assert a == a[..|a| - 1] + [a[|a| - 1]];
    }
  }

  /** Removing a due entry with nothing due between it and the cut extends the finished part. */
  lemma CutAt(q: seq<UnbondingEntry>, height: nat, i: nat, cut: nat)
    requires i < cut <= |q| && q[i].unlockHeight <= height
    requires forall j :: i < j < cut ==> q[j].unlockHeight > height
    ensures NotDue(q[i..], height) == q[i + 1..cut] + NotDue(q[cut..], height)
  {
    assert q[i..] == [q[i]] + (q[i + 1..cut] + q[cut..]);
    NotDueConcat([q[i]], q[i + 1..cut] + q[cut..], height);
    NotDueConcat(q[i + 1..cut], q[cut..], height);
    NotDueKeeps(q[i + 1..cut], height);
    assert [q[i]][..0] == [];
  }

  lemma NothingDueBefore(q: seq<UnbondingEntry>, height: nat, cut: nat)
    requires cut <= |q| && forall j :: 0 <= j < cut ==> q[j].unlockHeight > height
    ensures NotDue(q, height) == q[..cut] + NotDue(q[cut..], height)
  {
    assert q == q[..cut] + q[cut..];
    NotDueConcat(q[..cut], q[cut..], height);
    NotDueKeeps(q[..cut], height);
  }

  lemma {:induction false} PrefixAmounts(q: seq<UnbondingEntry>, height: nat, n: nat)
    requires n <= |q|
    ensures Amounts(Due(q[..n], height)) <= Amounts(Due(q, height))
    decreases |q| - n
  {
    if n == |q| {
      assert q[..n] == q;
    } else {
      assert q[..n + 1][..n] == q[..n];
      var front, last := Due(q[..n], height), q[n];
      assert (front + [last])[..|front|] == front;
      PrefixAmounts(q, height, n + 1);
    }
  }
}
