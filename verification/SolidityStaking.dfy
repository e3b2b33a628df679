/** The Solidity staking contract, updated in place, and its ranking of validators by stake. */
module SolidityStaking {
  import opened Lists
  import opened Sums
  import opened Delegations
  import opened ValidatorRanking
  import opened Calls = RewardShares

  class ProtonStaking {
    var validators: map<Address, Validator>
    var validatorList: seq<Address>
    var delegations: map<(Address, Address), nat>
    var totalDelegatedTo: map<Address, nat>
    var nullifiers: set<nat>
    var minStake: nat
    ghost var privateStakes: map<Address, nat>

    ghost function State(): Book
      reads this
    {
      Book(validators, delegations, totalDelegatedTo, nullifiers, minStake, privateStakes)
    }

    /** The list names every registered validator once. */
    ghost predicate Listed()
      reads this
    {
      NoRepeats(validatorList) && forall a :: a in validatorList <==> a in validators
    }

    constructor (minStake: nat)
      ensures State() == Deployed(minStake) && Listed() && Inv(State())
    {
      this.minStake := minStake;
      validators, validatorList, delegations, totalDelegatedTo, nullifiers := map[], [], map[], map[], {};
      privateStakes := map[];
      new;
      DeployedInv(minStake);
    }

    method RegisterValidator(caller: Address, commission: nat) returns (r: Outcome)
      requires Listed()
      modifies this
      ensures (State(), r) == Register(old(State()), caller, commission) && Listed()
      ensures Inv(old(State())) ==> Inv(State())
    {
      hide Inv;
      if Inv(State()) { OthersKeepInv(State(), caller, commission, false, 0, 0); }
      if commission > BASIS { return Revert(CommissionTooHigh); }
      if caller in validators { return Revert(ValidatorAlreadyExists); }
      validators := validators[caller :=
        Validator(0, if commission > COMMISSION_BASE then commission else COMMISSION_BASE, false, 0, 0)];
      SnocIsNew(validatorList, caller);
      validatorList := validatorList + [caller];
      return Ok;
    }

    method Stake(delegator: Address, validator: Address, amount: nat, funded: bool) returns (r: Outcome)
      requires Listed()
      modifies this
      ensures (State(), r) == Calls.Stake(old(State()), delegator, validator, amount, funded) && Listed()
      ensures Inv(old(State())) ==> Inv(State())
    {
      hide Inv, NoRepeats;
      if Inv(State()) { StakeKeepsInv(State(), delegator, validator, amount, funded); }
      if validator !in validators { return Revert(ValidatorNotFound); }
      if amount < minStake && validators[validator].stake == 0 { return Revert(InsufficientStake); }
      if !funded { return Revert(TransferFailed); }
      var key := (delegator, validator);
      delegations := delegations[key := Get(delegations, key) + amount];
      totalDelegatedTo := totalDelegatedTo[validator := Get(totalDelegatedTo, validator) + amount];
      var v := validators[validator];
      v := v.(stake := v.stake + amount);
      v := v.(totalDelegated := v.totalDelegated + amount);
      if v.stake >= minStake { v := v.(isActive := true); }
      validators := validators[validator := v];
      return Ok;
    }

    method PrivateStake(validator: Address, nullifier: nat, proofOk: bool) returns (r: Outcome)
      requires Listed()
      modifies this
      ensures (State(), r) == Calls.PrivateStake(old(State()), validator, nullifier, proofOk) && Listed()
      ensures Inv(old(State())) ==> Inv(State())
    {
      hide Inv;
      if Inv(State()) { PrivateStakeKeepsInv(State(), validator, nullifier, proofOk); }
      if validator !in validators { return Revert(ValidatorNotFound); }
      if nullifier in nullifiers { return Revert(InvalidDelegation); }
      if !proofOk { return Revert(InvalidProof); }
      nullifiers := nullifiers + {nullifier};
      var v := validators[validator];
      validators := validators[validator := v.(isActive := true, totalDelegated := v.totalDelegated + 1)];
      privateStakes := privateStakes[validator := Get(privateStakes, validator) + 1];
      return Ok;
    }

    method Unstake(delegator: Address, validator: Address, amount: nat) returns (r: Outcome)
      requires Listed()
      modifies this
      ensures (State(), r) == Calls.Unstake(old(State()), delegator, validator, amount) && Listed()
      ensures Inv(old(State())) ==> Inv(State())
    {
      hide Inv;
      if Inv(State()) { UnstakeKeepsInv(State(), delegator, validator, amount); }
      var key := (delegator, validator);
      if validator !in validators { return Revert(ValidatorNotFound); }
      if Get(delegations, key) < amount { return Revert(InvalidDelegation); }
      var v := validators[validator];
      if Get(totalDelegatedTo, validator) < amount || v.stake < amount || v.totalDelegated < amount {
        return Revert(Underflow);
      }
      delegations := delegations[key := Get(delegations, key) - amount];
      totalDelegatedTo := totalDelegatedTo[validator := Get(totalDelegatedTo, validator) - amount];
      v := v.(stake := v.stake - amount);
      v := v.(totalDelegated := v.totalDelegated - amount);
      if v.stake < minStake { v := v.(isActive := false); }
      validators := validators[validator := v];
      return Ok;
    }

    method DistributeRewards(byOwner: bool, addrs: seq<Address>, rewards: seq<nat>) returns (r: Outcome)
      requires Listed()
      modifies this
      ensures (State(), r) == Distribute(old(State()), byOwner, addrs, rewards) && Listed()
      ensures Inv(old(State())) ==> Inv(State())
    {
      hide Inv, Commission, CreditAll, NoRepeats;
      if Inv(State()) { DistributeKeepsInv(State(), byOwner, addrs, rewards); }
      if !byOwner { return Revert(NotOwner); }
      if |addrs| != |rewards| { return Revert(LengthMismatch); }
      var entry := validators;
      CreditNone(entry, addrs, rewards);
      for i := 0 to |addrs|
        invariant State() == old(State()).(validators := validators)
        invariant validators == CreditAll(entry, addrs[..i], rewards[..i]) && validators.Keys == entry.Keys
        invariant forall j :: 0 <= j < i ==> !ExceedsAt(entry, addrs[j], rewards[j])
        invariant validatorList == old(validatorList)
      {
        CreditAllKeeps(entry, addrs[..i], rewards[..i]);
        CreditOneMore(entry, addrs, rewards, i);
        var a := addrs[i];
        if a in validators && validators[a].isActive {
          var v := validators[a];
          var commission := Commission(rewards[i], v.commission);
          if commission > rewards[i] {
            assert ExceedsAt(entry, addrs[i], rewards[i]);
            validators := entry;
            return Revert(Underflow);
          }
          v := v.(stake := v.stake + commission);
          v := v.(rewardsAccumulated := v.rewardsAccumulated + commission);
          validators := validators[a := v];
        }
      }
      assert addrs[..|addrs|] == addrs && rewards[..|addrs|] == rewards;
      return Ok;
    }

    method SlashValidator(byOwner: bool, validator: Address, percentage: nat) returns (r: Outcome)
      requires Listed()
      modifies this
      ensures (State(), r) == Slash(old(State()), byOwner, validator, percentage) && Listed()
      ensures Inv(old(State())) ==> Inv(State())
    {
      hide Inv;
      if Inv(State()) { OthersKeepInv(State(), 0, 0, byOwner, validator, percentage); }
      if !byOwner { return Revert(NotOwner); }
      if validator !in validators { return Revert(ValidatorNotFound); }
      if percentage > BASIS { return Revert(InvalidPercentage); }
      var v := validators[validator];
      var slashAmount := Commission(v.stake, percentage);
      if slashAmount > v.stake { return Revert(Underflow); }
      validators := validators[validator := v.(stake := v.stake - slashAmount, isActive := false)];
      return Ok;
    }

    /** The `count` validators with the most stake, most first, with their stakes: nobody left out has more than
        anybody listed. */
    method GetValidatorSet(count: nat) returns (addrs: seq<Address>, stakes: seq<nat>)
      requires Listed()
      ensures |addrs| == |stakes| == if count < |validatorList| then count else |validatorList|
      ensures NoRepeats(addrs)
      ensures forall i :: 0 <= i < |addrs| ==> addrs[i] in validators && stakes[i] == validators[addrs[i]].stake
      ensures forall i, j :: 0 <= i < j < |stakes| ==> stakes[i] >= stakes[j]
      ensures forall a, i :: a in validators && a !in addrs && 0 <= i < |stakes| ==> validators[a].stake <= stakes[i]
    {
      hide Rearranged, Leading, NoRepeats;
      var allAddrs, allStakes := Gather();
      var n := |validatorList|;
      ghost var staked := allStakes[..];
      ghost var perm := ExchangeSort(allAddrs, allStakes);
      var size := if count < n then count else n;
      addrs, stakes := allAddrs[..size], allStakes[..size];
      RankedPrefix(validatorList, staked, perm, allAddrs[..], allStakes[..], size);
      RankedStakes(validators, validatorList, staked, addrs, stakes);
    }

    method Gather() returns (addrs: array<Address>, stakes: array<nat>)
      requires Listed()
      ensures fresh(addrs) && fresh(stakes) && addrs != stakes
      ensures addrs[..] == validatorList && stakes.Length == addrs.Length
      ensures forall k :: 0 <= k < |validatorList| ==>
                validatorList[k] in validators && stakes[k] == validators[validatorList[k]].stake
    {
      var n := |validatorList|;
      addrs, stakes := new Address[n], new nat[n];
      for i := 0 to n
        invariant addrs[..i] == validatorList[..i]
        invariant forall k :: 0 <= k < i ==>
                    validatorList[k] in validators && stakes[k] == validators[validatorList[k]].stake
      {
        assert validatorList[i] in validatorList;
        addrs[i] := validatorList[i];
        stakes[i] := validators[validatorList[i]].stake;
      }
    }
  }

  lemma CreditNone(vs: map<Address, Validator>, addrs: seq<Address>, rewards: seq<nat>)
    ensures CreditAll(vs, addrs[..0], rewards[..0]) == vs
  {
  }

  lemma CreditOneMore(vs: map<Address, Validator>, addrs: seq<Address>, rewards: seq<nat>, i: nat)
    requires i < |addrs| == |rewards|
    ensures CreditAll(vs, addrs[..i + 1], rewards[..i + 1]) ==
            Credit(CreditAll(vs, addrs[..i], rewards[..i]), addrs[i], rewards[i])
  {
    assert addrs[..i + 1][..i] == addrs[..i] && rewards[..i + 1][..i] == rewards[..i];
  }

  /** Ranked stakes are the stakes on record. */
  lemma RankedStakes(vs: map<Address, Validator>, listed: seq<Address>, staked: seq<nat>, addrs: seq<Address>,
                     stakes: seq<nat>)
    requires |listed| == |staked| && |addrs| == |stakes|
    requires forall a :: a in listed <==> a in vs
    requires forall k :: 0 <= k < |listed| ==> listed[k] in vs && staked[k] == vs[listed[k]].stake
    requires forall i :: 0 <= i < |addrs| ==> addrs[i] in listed
    requires forall k, i :: 0 <= k < |listed| && listed[k] !in addrs && 0 <= i < |addrs| ==> staked[k] <= stakes[i]
    requires forall i, k :: 0 <= i < |addrs| && 0 <= k < |listed| && listed[k] == addrs[i] ==> stakes[i] == staked[k]
    ensures forall i :: 0 <= i < |addrs| ==> addrs[i] in vs && stakes[i] == vs[addrs[i]].stake
    ensures forall a, i :: a in vs && a !in addrs && 0 <= i < |stakes| ==> vs[a].stake <= stakes[i]
  {
    forall i | 0 <= i < |addrs| ensures addrs[i] in vs && stakes[i] == vs[addrs[i]].stake {
      assert addrs[i] in listed;
      var k :| 0 <= k < |listed| && listed[k] == addrs[i];
    }
    forall a, i | a in vs && a !in addrs && 0 <= i < |stakes| ensures vs[a].stake <= stakes[i] {
      var k :| 0 <= k < |listed| && listed[k] == a;
    }
  }
}
