/** What executing one transaction does to the accounts, in the wrapping machine arithmetic of a release build. */
module TransferSteps {
  import opened Lists
  import opened MachineInts

  type Address = nat

  const BASE_TX_COST: nat := 21000
  const ZK_COST: nat := 100000

  datatype Account = Account(nonce: u64, balance: u128)
  datatype Option<T> = None | Some(value: T)

  /** The staking and cross-chain kinds share one branch; deployment and contract calls are not part of this model. */
  datatype TxType = Transfer | PrivateTransfer | Unsupported

  datatype Transaction = Transaction(
    txType: TxType, sender: Address, to: Option<Address>, value: u128, gasPrice: u128, gasLimit: u64, hasProof: bool)

  datatype AccountChange = AccountChange(balanceDelta: int, nonceDelta: int)

  datatype ExecutionResult = ExecutionResult(success: bool, gasUsed: nat, stateChanges: map<Address, AccountChange>)

  type Accounts = map<Address, Account>

  function GasCost(tx: Transaction): u128 {
    tx.gasPrice * tx.gasLimit % M128
  }

  function TotalCost(tx: Transaction): u128 {
    (tx.value + GasCost(tx)) % M128
  }

  function AccountOf(s: Accounts, a: Address): Account {
    if a in s then s[a] else Account(0, 0)
  }

  function Receiver(tx: Transaction): Address {
    if tx.to.Some? then tx.to.value else tx.sender
  }

  function Applied(account: Account, change: AccountChange): Account {
    Account((account.nonce + change.nonceDelta) % M64,
            AsU128(WrapI128(ToI128(account.balance) + change.balanceDelta)))
  }

  /** The sender's entry first, then the receiver's, which replaces it when both are the same account. */
  function Changes(tx: Transaction): map<Address, AccountChange> {
    map[tx.sender := AccountChange(WrapI128(-ToI128(TotalCost(tx))), 1)]
      [Receiver(tx) := AccountChange(ToI128(tx.value), 0)]
  }

  function ApplyAll(s: Accounts, changes: map<Address, AccountChange>): Accounts {
    s + map a | a in changes :: Applied(AccountOf(s, a), changes[a])
  }

  function RunTransfer(s: Accounts, tx: Transaction, gasUsed: nat): (Accounts, ExecutionResult) {
    if AccountOf(s, tx.sender).balance < TotalCost(tx) then (s, ExecutionResult(false, gasUsed, map[]))
    else (ApplyAll(s, Changes(tx)), ExecutionResult(true, gasUsed + BASE_TX_COST, Changes(tx)))
  }

  function Execute(s: Accounts, tx: Transaction): (Accounts, ExecutionResult) {
    match tx.txType
    case Transfer => RunTransfer(s, tx, BASE_TX_COST)
    case PrivateTransfer => RunTransfer(s, tx, BASE_TX_COST + if tx.hasProof then ZK_COST else 0)
    case Unsupported => (s, ExecutionResult(false, BASE_TX_COST, map[]))
  }

  // ----- schedules

  function InOrder(n: nat): (order: seq<nat>)
    ensures |order| == n && forall i :: 0 <= i < n ==> order[i] == i
  {
    seq(n, i => i)
  }

  ghost predicate Within(order: seq<nat>, n: nat) {
    forall k :: 0 <= k < |order| ==> order[k] < n
  }

  /** Every index once, in any order. */
  ghost predicate Schedule(order: seq<nat>, n: nat) {
    && NoRepeats(order) && Within(order, n)
    && forall i :: 0 <= i < n ==> i in order
  }

  ghost function RunOrder(s: Accounts, txs: seq<Transaction>, order: seq<nat>): (Accounts, map<nat, ExecutionResult>)
    requires Within(order, |txs|)
  {
    if order == [] then (s, map[])
    else
      var front, last := order[..|order| - 1], order[|order| - 1];
      var (s1, rs) := RunOrder(s, txs, front);
      var (s2, r) := Execute(s1, txs[last]);
      (s2, rs[last := r])
  }

  lemma RunNothing(s: Accounts, txs: seq<Transaction>)
    ensures RunOrder(s, txs, []) == (s, map[])
  {
  }

  lemma RunOneMore(s: Accounts, txs: seq<Transaction>, order: seq<nat>, i: nat)
    requires Within(order, |txs|) && i < |txs|
    ensures Within(order + [i], |txs|)
    ensures var (s1, rs) := RunOrder(s, txs, order);
            var (s2, r) := Execute(s1, txs[i]);
            RunOrder(s, txs, order + [i]) == (s2, rs[i := r])
  {
    assert (order + [i])[..|order|] == order;
  }

  function Footprint(tx: Transaction): set<Address> {
    {tx.sender, Receiver(tx)}
  }

  function Lookup(s: Accounts, a: Address): Option<Account> {
    if a in s then Some(s[a]) else None
  }

  // ----- what a transfer moves

  /** Value and gas together exceed 128 bits, so the cost charged is short of them by 2^128. */
  predicate CostWraps(tx: Transaction) {
    tx.value + GasCost(tx) >= M128
  }

  lemma CostCharged(tx: Transaction)
    ensures TotalCost(tx) == tx.value + GasCost(tx) - if CostWraps(tx) then M128 else 0
  {
    hide GasCost;
  }

  /** The full price of gas, before either wrap. */
  function GasDue(tx: Transaction): nat {
    tx.gasPrice * tx.gasLimit
  }

  /** Value and the full price of gas are charged exactly when together they fit 128 bits. */
  lemma ChargedInFullIff(tx: Transaction)
    ensures TotalCost(tx) == tx.value + GasDue(tx) <==> tx.value + GasDue(tx) < M128
    ensures tx.value + GasDue(tx) < M128 <==> GasCost(tx) == GasDue(tx) && !CostWraps(tx)
  {
    WrapsDown(GasDue(tx));
    WrapsDown(tx.value + GasDue(tx));
    WrapsDown(tx.value + GasCost(tx));
  }

  lemma WrapsDown(x: nat)
    ensures x % M128 == x <==> x < M128
  {
  }

  function BalanceIn(s: Accounts, a: Address): nat {
    AccountOf(s, a).balance
  }

  lemma DebitApplied(account: Account, cost: u128)
    requires cost <= account.balance
    ensures Applied(account, AccountChange(WrapI128(-ToI128(cost)), 1)) ==
            Account((account.nonce + 1) % M64, account.balance - cost)
  {
    hide ToI128, WrapI128, AsU128;
    NegatedCastIsModular(account.balance, cost);
    SmallResidue(account.balance - cost);
  }

  lemma CreditApplied(account: Account, value: u128)
    ensures Applied(account, AccountChange(ToI128(value), 0)) ==
            Account(account.nonce, (account.balance + value) % M128)
  {
    hide ToI128, WrapI128, AsU128;
    CreditIsModular(account.balance, value);
  }

  /** A transfer between two accounts succeeds exactly when the sender covers the cost as charged; it then debits the
      sender by that, bumps its nonce, and credits the receiver by the value, modulo 2^128. A failed one changes
      nothing. The cost charged is value plus gas, less 2^128 where that wraps. */
  lemma TransferEffect(s: Accounts, tx: Transaction, gasUsed: nat)
    requires tx.sender != Receiver(tx)
    ensures var (s', r) := RunTransfer(s, tx, gasUsed);
            var cost := tx.value + GasCost(tx) - if CostWraps(tx) then M128 else 0;
            && (r.success <==> BalanceIn(s, tx.sender) >= cost)
            && (!r.success ==> s' == s)
            && (r.success ==>
                  && BalanceIn(s', tx.sender) == BalanceIn(s, tx.sender) - cost
                  && AccountOf(s', tx.sender).nonce == (AccountOf(s, tx.sender).nonce + 1) % M64
                  && BalanceIn(s', Receiver(tx)) == (BalanceIn(s, Receiver(tx)) + tx.value) % M128
                  && AccountOf(s', Receiver(tx)).nonce == AccountOf(s, Receiver(tx)).nonce)
            && (forall a :: a !in Footprint(tx) ==> AccountOf(s', a) == AccountOf(s, a))
  {
    hide Applied, ToI128, WrapI128, GasCost, TotalCost, CostWraps;
    CostCharged(tx);
    if AccountOf(s, tx.sender).balance >= TotalCost(tx) {
      DebitApplied(AccountOf(s, tx.sender), TotalCost(tx));
    }
    CreditApplied(AccountOf(s, Receiver(tx)), tx.value);
  }

  /** A self-transfer (or one without receiver) never debits: it credits the value and leaves the nonce. */
  lemma SelfTransferEffect(s: Accounts, tx: Transaction, gasUsed: nat)
    requires tx.sender == Receiver(tx)
    ensures var (s', r) := RunTransfer(s, tx, gasUsed);
            && (r.success <==> BalanceIn(s, tx.sender) >= TotalCost(tx))
            && (!r.success ==> s' == s)
            && (r.success ==>
              s' == s[tx.sender := Account(AccountOf(s, tx.sender).nonce, (BalanceIn(s, tx.sender) + tx.value) % M128)])
  {
    hide Applied, ToI128, WrapI128, GasCost, TotalCost;
    CreditApplied(AccountOf(s, tx.sender), tx.value);
  }

  /** The same for a whole execution, of any kind: when it succeeds, and what it does to sender and receiver. */
  lemma ExecuteEffect(s: Accounts, tx: Transaction)
    ensures var (s', r) := Execute(s, tx);
            && (r.success <==> !tx.txType.Unsupported? && BalanceIn(s, tx.sender) >= TotalCost(tx))
            && (!r.success ==> s' == s)
            && (r.success && tx.sender != Receiver(tx) ==>
                  && BalanceIn(s', tx.sender) == BalanceIn(s, tx.sender) - TotalCost(tx)
                  && BalanceIn(s', Receiver(tx)) == (BalanceIn(s, Receiver(tx)) + tx.value) % M128)
            && (r.success && tx.sender == Receiver(tx) ==>
                  BalanceIn(s', tx.sender) == (BalanceIn(s, tx.sender) + tx.value) % M128)
            && (forall a :: a !in Footprint(tx) ==> AccountOf(s', a) == AccountOf(s, a))
  {
    hide RunTransfer, GasCost, TotalCost, CostWraps;
    CostCharged(tx);
    if !tx.txType.Unsupported? {
      var gas := if tx.txType.Transfer? then BASE_TX_COST else BASE_TX_COST + if tx.hasProof then ZK_COST else 0;
      if tx.sender == Receiver(tx) { SelfTransferEffect(s, tx, gas); } else { TransferEffect(s, tx, gas); }
    }
  }

  // ----- execution as a whole

  /** Success decides the result. */
  lemma ResultOfSuccess(s: Accounts, t: Accounts, tx: Transaction)
    requires Execute(s, tx).1.success == Execute(t, tx).1.success
    ensures Execute(s, tx).1 == Execute(t, tx).1
  {
    hide Changes, TotalCost, ApplyAll;
  }

  lemma ExecuteShape(s: Accounts, tx: Transaction)
    ensures Execute(s, tx).0 == if Execute(s, tx).1.success then ApplyAll(s, Changes(tx)) else s
  {
    hide ApplyAll, Changes, TotalCost;
  }

  lemma ChangedAccounts(tx: Transaction)
    ensures Changes(tx).Keys == Footprint(tx)
  {
  }

  /** Execution reads and writes only the footprint. */
  lemma ExecutionIsLocal(s: Accounts, t: Accounts, tx: Transaction)
    requires forall a :: a in Footprint(tx) ==> Lookup(s, a) == Lookup(t, a)
    ensures Execute(s, tx).1 == Execute(t, tx).1
    ensures forall a :: a in Footprint(tx) ==> Lookup(Execute(s, tx).0, a) == Lookup(Execute(t, tx).0, a)
    ensures forall a :: a !in Footprint(tx) ==> Lookup(Execute(s, tx).0, a) == Lookup(s, a)
  {
    hide Execute, Changes, Applied, TotalCost;
    forall a | a in Footprint(tx) ensures AccountOf(s, a) == AccountOf(t, a) {
      assert Lookup(s, a) == Lookup(t, a);
    }
    ExecuteEffect(s, tx);
    ExecuteEffect(t, tx);
    ResultOfSuccess(s, t, tx);
    ExecuteShape(s, tx);
    ExecuteShape(t, tx);
    ChangedAccounts(tx);
  }

  /** A transfer that names a receiver pays that account; one that names none pays its own sender. */
  lemma NamedReceiverPaid(s: Accounts, tx: Transaction, a: Address)
    requires Execute(s, tx).1.success
    ensures tx.to.Some? && tx.to.value != tx.sender ==>
              && BalanceIn(Execute(s, tx).0, tx.to.value) == (BalanceIn(s, tx.to.value) + tx.value) % M128
              && BalanceIn(Execute(s, tx).0, tx.sender) == BalanceIn(s, tx.sender) - TotalCost(tx)
              && (a != tx.sender && a != tx.to.value ==> AccountOf(Execute(s, tx).0, a) == AccountOf(s, a))
    ensures tx.to.None? || tx.to.value == tx.sender ==>
              && BalanceIn(Execute(s, tx).0, tx.sender) == (BalanceIn(s, tx.sender) + tx.value) % M128
              && (a != tx.sender ==> AccountOf(Execute(s, tx).0, a) == AccountOf(s, a))
  {
    ExecuteEffect(s, tx);
    hide Execute, TotalCost;
  }

  /** What a result reports: the gas, twice the base cost on success, 100000 more for a private transfer with a proof;
      and the changes made, none on failure, else the receiver's credit and, apart from a self-transfer, the sender's
      debit. */
  lemma ResultReports(s: Accounts, tx: Transaction)
    ensures var r := Execute(s, tx).1;
            && r.gasUsed == 21000 + (if r.success then 21000 else 0)
                            + (if tx.txType.PrivateTransfer? && tx.hasProof then 100000 else 0)
            && (!r.success ==> r.stateChanges == map[])
            && (r.success ==>
                  && r.stateChanges.Keys == {tx.sender, Receiver(tx)}
                  && r.stateChanges[Receiver(tx)].nonceDelta == 0
                  && r.stateChanges[Receiver(tx)].balanceDelta % M128 == tx.value
                  && (tx.sender != Receiver(tx) ==>
                        && r.stateChanges[tx.sender].nonceDelta == 1
                        && (r.stateChanges[tx.sender].balanceDelta + TotalCost(tx)) % M128 == 0))
  {
    SignedResidues(tx.value);
    SignedResidues(TotalCost(tx));
    hide ApplyAll, TotalCost, ToI128, WrapI128;
  }

  lemma SignedResidues(x: u128)
    ensures ToI128(x) % M128 == x
    ensures (WrapI128(0 - ToI128(x)) + x) % M128 == 0
  {
    var z: int := 0 - ToI128(x);
    WrapKeepsResidue(z);
    if x >= M128 / 2 { ShiftKeepsResidue(x); }
    SumResidue(x, WrapI128(z), z);
    hide WrapI128;
  }

  /** The repository's own transfer test expects success here, but the gas of 210000 exceeds the balance of 10000. */
  lemma TransferTestIsRejected()
    ensures !Execute(map[1 := Account(0, 10000)], Transaction(Transfer, 1, Some(2), 1000, 10, 21000, false)).1.success
  {
    var tx := Transaction(Transfer, 1, Some(2), 1000, 10, 21000, false);
    assert GasCost(tx) == 210000;
    TransferEffect(map[1 := Account(0, 10000)], tx, BASE_TX_COST);
  }
}
