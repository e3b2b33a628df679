/** Delegated amounts, keyed by delegator and validator, and their total per validator. */
module Delegations {
  import opened Sums

  type Address = nat

  /** Everything delegated to one validator. */
  ghost function DelegatedTo(delegations: map<(Address, Address), nat>, v: Address): nat {
    Sum(ToValidator(delegations, v))
  }

  ghost function ToValidator(delegations: map<(Address, Address), nat>, v: Address): map<(Address, Address), nat> {
    map k | k in delegations && k.1 == v :: delegations[k]
  }

  /** Writing one delegation moves one validator's total by the change. */
  lemma DelegationWrite(d: map<(Address, Address), nat>, key: (Address, Address), amount: nat, v: Address)
    ensures DelegatedTo(d[key := amount], v) == DelegatedTo(d, v) + if v == key.1 then amount - Get(d, key) else 0
  {
    var m := ToValidator(d, v);
    if v == key.1 {
      SumUpdate(m, key, amount);
      assert ToValidator(d[key := amount], v) == m[key := amount];
    } else {
      assert ToValidator(d[key := amount], v) == m;
    }
  }

  lemma DelegationErase(d: map<(Address, Address), nat>, key: (Address, Address), v: Address)
    ensures DelegatedTo(d - {key}, v) == DelegatedTo(d, v) - if v == key.1 then Get(d, key) else 0
  {
    var m := ToValidator(d, v);
    if v == key.1 {
      SumRemove(m, key);
      assert ToValidator(d - {key}, v) == m - {key};
    } else {
      assert ToValidator(d - {key}, v) == m;
    }
  }

  lemma DelegationWithin(d: map<(Address, Address), nat>, key: (Address, Address))
    ensures Get(d, key) <= DelegatedTo(d, key.1)
  {
    SumAtLeast(ToValidator(d, key.1), key);
  }
}
