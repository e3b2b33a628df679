/** What executing transfers does to the sum of all balances, wrapping arithmetic included. */
module BalanceConservation {
  import opened Sums
  import opened MachineInts
  import opened TransferSteps

  ghost function Balances(s: Accounts): map<Address, nat> {
    map a | a in s :: s[a].balance
  }

  ghost function Supply(s: Accounts): nat {
    Sum(Balances(s))
  }

  lemma TwoWrites(s: Accounts, s': Accounts, a: Address, b: Address)
    requires a != b
    requires forall c :: c != a && c != b ==> AccountOf(s', c) == AccountOf(s, c)
    ensures Supply(s') == Supply(s) - BalanceIn(s, a) - BalanceIn(s, b) + BalanceIn(s', a) + BalanceIn(s', b)
  {
    var m := Balances(s);
    var n: map<Address, nat> := m[a := BalanceIn(s', a)][b := BalanceIn(s', b)];
    SumUpdate(m, a, BalanceIn(s', a));
    SumUpdate(m[a := BalanceIn(s', a)], b, BalanceIn(s', b));
    forall c ensures Get(Balances(s'), c) == Get(n, c) {
      if c != a && c != b { assert AccountOf(s', c) == AccountOf(s, c); }
    }
    SumSameReads(Balances(s'), n);
  }

  lemma OneWrite(s: Accounts, s': Accounts, a: Address)
    requires forall c :: c != a ==> AccountOf(s', c) == AccountOf(s, c)
    ensures Supply(s') == Supply(s) - BalanceIn(s, a) + BalanceIn(s', a)
  {
    TwoWrites(s, s', a, a + 1);
  }

  lemma SupplyCovers(s: Accounts, a: Address, b: Address)
    requires a != b
    ensures BalanceIn(s, a) + BalanceIn(s, b) <= Supply(s)
  {
    SumAtLeastTwo(Balances(s), a, b);
  }

  ghost function GasOf(s: Accounts, tx: Transaction): nat {
    if Execute(s, tx).1.success then GasCost(tx) else 0
  }

  /** What the debit leaves out: everything when the credit replaces it, 2^128 when the cost wraps. */
  function Undebited(tx: Transaction): nat {
    if tx.sender == Receiver(tx) then tx.value + GasCost(tx) else if CostWraps(tx) then M128 else 0
  }

  /** What the credit leaves out: 2^128 when the receiver's balance wraps. */
  function Uncredited(s: Accounts, tx: Transaction): nat {
    if BalanceIn(s, Receiver(tx)) + tx.value >= M128 then M128 else 0
  }

  ghost function Created(s: Accounts, tx: Transaction): int {
    if Execute(s, tx).1.success then Undebited(tx) - Uncredited(s, tx) else 0
  }

  lemma CreditWrapped(s: Accounts, tx: Transaction)
    ensures (BalanceIn(s, Receiver(tx)) + tx.value) % M128 == BalanceIn(s, Receiver(tx)) + tx.value - Uncredited(s, tx)
  {
  }

  /** For every transaction in every state: the supply falls by the gas of a success and grows by what its debit leaves
      out, less what its credit leaves out. */
  lemma TransferSupply(s: Accounts, tx: Transaction)
    ensures Supply(Execute(s, tx).0) == Supply(s) - GasOf(s, tx) + Created(s, tx)
  {
    hide Execute, Supply, TotalCost, GasCost, Uncredited, CostWraps, BalanceIn;
    ExecuteEffect(s, tx);
    CostCharged(tx);
    CreditWrapped(s, tx);
    var (s', r) := Execute(s, tx);
    if r.success {
      if tx.sender == Receiver(tx) {
        OneWrite(s, s', tx.sender);
      } else {
        TwoWrites(s, s', tx.sender, Receiver(tx));
      }
    }
  }

  /** A successful transfer burns exactly its gas if and only if debit and credit leave out the same: for two accounts,
      when the cost wraps just where the credit does; for one account, when value and gas are zero or wrap away. */
  lemma ConservesIff(s: Accounts, tx: Transaction)
    requires Execute(s, tx).1.success
    ensures Supply(Execute(s, tx).0) == Supply(s) - GasCost(tx) <==> Undebited(tx) == Uncredited(s, tx)
  {
    hide Execute, Supply, GasCost;
    TransferSupply(s, tx);
  }

  lemma CreditFits(s: Accounts, tx: Transaction)
    requires tx.sender != Receiver(tx) && !CostWraps(tx) && Supply(s) < M128 && Execute(s, tx).1.success
    ensures Uncredited(s, tx) == 0
  {
    hide Execute, Supply, TotalCost, GasCost;
    ExecuteEffect(s, tx);
    CostCharged(tx);
    SupplyCovers(s, tx.sender, Receiver(tx));
  }

  /** A transfer between two accounts whose cost fits lowers a supply below 2^128 by exactly its gas cost when it
      succeeds, else by nothing. */
  lemma TransferConserves(s: Accounts, tx: Transaction)
    requires !CostWraps(tx) && tx.sender != Receiver(tx) && Supply(s) < M128
    ensures Supply(Execute(s, tx).0) == Supply(s) - GasOf(s, tx)
  {
    hide Execute, Supply, GasCost, CostWraps;
    TransferSupply(s, tx);
    if Execute(s, tx).1.success { CreditFits(s, tx); }
  }

  /** One state that shows a wrapped cost: the sender holds just what is charged. */
  lemma WrappedCostCreates(tx: Transaction) returns (s: Accounts)
    requires CostWraps(tx) && tx.sender != Receiver(tx) && !tx.txType.Unsupported?
    ensures Supply(s) == TotalCost(tx) && Execute(s, tx).1.success
    ensures Supply(Execute(s, tx).0) == Supply(s) - GasCost(tx) + M128
  {
    hide Execute, GasCost, TotalCost, CostWraps;
    s := map[tx.sender := Account(0, TotalCost(tx))];
    assert Supply(s) == TotalCost(tx) by {
      SumSplit(Balances(s), tx.sender);
      assert Balances(s) - {tx.sender} == map[];
    }
    ExecuteEffect(s, tx);
    TransferSupply(s, tx);
  }

  /** A transfer between two accounts burns exactly its gas from every supply below 2^128 if and only if value plus gas
      stays below 2^128. */
  lemma ConservesEverywhereIff(tx: Transaction)
    requires tx.sender != Receiver(tx) && !tx.txType.Unsupported?
    ensures (forall s :: Supply(s) < M128 ==> Supply(Execute(s, tx).0) == Supply(s) - GasOf(s, tx)) <==> !CostWraps(tx)
  {
    hide Execute, Supply, GasCost, CostWraps;
    if CostWraps(tx) {
      var s := WrappedCostCreates(tx);
      assert Supply(Execute(s, tx).0) != Supply(s) - GasOf(s, tx);
    } else {
      forall s | Supply(s) < M128 ensures Supply(Execute(s, tx).0) == Supply(s) - GasOf(s, tx) {
        TransferConserves(s, tx);
      }
    }
  }

  lemma PaidFromExactFunds(tx: Transaction) returns (s: Accounts)
    requires !CostWraps(tx) && tx.sender != Receiver(tx) && !tx.txType.Unsupported?
    ensures Supply(s) == TotalCost(tx) && Supply(Execute(s, tx).0) == Supply(s) - GasCost(tx)
    ensures Execute(s, tx).1.success
  {
    hide Execute, GasCost, TotalCost, CostWraps;
    s := map[tx.sender := Account(0, TotalCost(tx))];
    assert Supply(s) == TotalCost(tx) by {
      SumSplit(Balances(s), tx.sender);
      assert Balances(s) - {tx.sender} == map[];
    }
    ExecuteEffect(s, tx);
    TransferConserves(s, tx);
  }

  /** Every success from a supply below 2^128 burns gas price times gas limit, unwrapped, if and only if value plus that
      product stays below 2^128. */
  lemma BurnsGasDueIff(tx: Transaction)
    requires tx.sender != Receiver(tx) && !tx.txType.Unsupported?
    ensures (forall s :: Supply(s) < M128 && Execute(s, tx).1.success ==>
               Supply(Execute(s, tx).0) == Supply(s) - GasDue(tx))
            <==> tx.value + GasDue(tx) < M128
  {
    ChargedInFullIff(tx);
    hide Execute, Supply, GasCost, GasDue, TotalCost, CostWraps;
    if tx.value + GasDue(tx) < M128 {
      forall s | Supply(s) < M128 && Execute(s, tx).1.success
        ensures Supply(Execute(s, tx).0) == Supply(s) - GasDue(tx)
      {
        TransferConserves(s, tx);
      }
    } else if CostWraps(tx) {
      var s := WrappedCostCreates(tx);
      assert Supply(Execute(s, tx).0) != Supply(s) - GasDue(tx);
    } else {
      var s := PaidFromExactFunds(tx);
      assert Supply(Execute(s, tx).0) != Supply(s) - GasDue(tx);
    }
  }

  /** The smallest input of that kind: from an empty state, a transfer that costs 2^128 in all is charged nothing and
      credits 2^128 - 1. */
  lemma WrappedCostFromNothing()
    ensures var tx := Transaction(Transfer, 1, Some(2), M128 - 1, 1, 1, false);
            && Supply(map[]) == 0
            && Execute(map[], tx).1.success
            && Supply(Execute(map[], tx).0) == M128 - 1
  {
    var tx := Transaction(Transfer, 1, Some(2), M128 - 1, 1, 1, false);
    assert GasCost(tx) == 1 && TotalCost(tx) == 0;
    assert Balances(map[]) == map[];
    hide Execute, Supply, GasCost, TotalCost;
    ExecuteEffect(map[], tx);
    TransferSupply(map[], tx);
  }

  // ----- blocks

  /** The gas of the transactions that succeed along an order. */
  ghost function GasAlong(s: Accounts, txs: seq<Transaction>, order: seq<nat>): nat
    requires Within(order, |txs|)
  {
    if order == [] then 0
    else
      var front, last := order[..|order| - 1], order[|order| - 1];
      GasAlong(s, txs, front) + GasOf(RunOrder(s, txs, front).0, txs[last])
  }

  ghost function CreatedAlong(s: Accounts, txs: seq<Transaction>, order: seq<nat>): int
    requires Within(order, |txs|)
  {
    if order == [] then 0
    else
      var front, last := order[..|order| - 1], order[|order| - 1];
      CreatedAlong(s, txs, front) + Created(RunOrder(s, txs, front).0, txs[last])
  }

  /** The supply after any block, in any order, from any state. */
  lemma {:induction false} BlockSupply(s: Accounts, txs: seq<Transaction>, order: seq<nat>)
    requires Within(order, |txs|)
    ensures Supply(RunOrder(s, txs, order).0) == Supply(s) - GasAlong(s, txs, order) + CreatedAlong(s, txs, order)
  {
    hide Execute, Supply, GasOf, Created;
    if order != [] {
      var front, last := order[..|order| - 1], order[|order| - 1];
      BlockSupply(s, txs, front);
      TransferSupply(RunOrder(s, txs, front).0, txs[last]);
    }
  }

  ghost predicate AllBetweenTwo(txs: seq<Transaction>) {
    forall i :: 0 <= i < |txs| ==> txs[i].sender != Receiver(txs[i])
  }

  ghost predicate NoCostWraps(txs: seq<Transaction>) {
    forall i :: 0 <= i < |txs| ==> !CostWraps(txs[i])
  }

  /** For any block of transfers between distinct accounts whose costs fit, in any order and with any overlap, the
      supply falls by exactly the gas of the transactions that succeed. */
  lemma {:induction false} BlockConserves(s: Accounts, txs: seq<Transaction>, order: seq<nat>)
    requires AllBetweenTwo(txs) && NoCostWraps(txs) && Supply(s) < M128 && Within(order, |txs|)
    ensures Supply(RunOrder(s, txs, order).0) == Supply(s) - GasAlong(s, txs, order)
  {
    hide Execute, Supply, GasOf, CostWraps;
    if order != [] {
      var front, last := order[..|order| - 1], order[|order| - 1];
      BlockConserves(s, txs, front);
      TransferConserves(RunOrder(s, txs, front).0, txs[last]);
    }
  }

  /** A block of transfers between distinct accounts conserves in every order from every supply below 2^128 if and only
      if none of its costs wraps. */
  lemma BlockConservesIff(txs: seq<Transaction>)
    requires AllBetweenTwo(txs) && forall i :: 0 <= i < |txs| ==> !txs[i].txType.Unsupported?
    ensures (forall s, order :: Supply(s) < M128 && Within(order, |txs|) ==>
               Supply(RunOrder(s, txs, order).0) == Supply(s) - GasAlong(s, txs, order))
            <==> NoCostWraps(txs)
  {
    hide Execute, Supply, GasOf, CostWraps;
    if NoCostWraps(txs) {
      forall s, order | Supply(s) < M128 && Within(order, |txs|)
        ensures Supply(RunOrder(s, txs, order).0) == Supply(s) - GasAlong(s, txs, order)
      {
        BlockConserves(s, txs, order);
      }
    } else {
      var i :| 0 <= i < |txs| && CostWraps(txs[i]);
      var s := WrappedCostCreates(txs[i]);
      SingleRun(s, txs, i);
      GasIsCost(s, txs[i]);
      hide RunOrder, GasAlong;
      assert Supply(RunOrder(s, txs, [i]).0) != Supply(s) - GasAlong(s, txs, [i]);
    }
  }

  lemma GasIsCost(s: Accounts, tx: Transaction)
    ensures Execute(s, tx).1.success ==> GasOf(s, tx) == GasCost(tx)
  {
  }

  lemma SingleRun(s: Accounts, txs: seq<Transaction>, i: nat)
    requires i < |txs|
    ensures RunOrder(s, txs, [i]).0 == Execute(s, txs[i]).0 && GasAlong(s, txs, [i]) == GasOf(s, txs[i])
  {
    hide Execute, GasOf;
    assert [i][..0] == [];
  }
}
