/** The transaction executor on the account state, and block execution in sequence and in parallel. */
module TransactionExecutor {
  import opened Lists
  import opened MachineInts
  import opened TransferSteps
  import opened BlockSchedules

  class ProtonVM {
    var accounts: Accounts

    constructor (accounts: Accounts)
      ensures this.accounts == accounts
    {
      this.accounts := accounts;
    }

    method ExecuteTransaction(tx: Transaction) returns (r: ExecutionResult)
      modifies this
      ensures (accounts, r) == Execute(old(accounts), tx)
    {
      var gasUsed := BASE_TX_COST;
      match tx.txType {
        case Transfer =>
          r := ExecuteTransfer(tx, gasUsed);
        case PrivateTransfer =>
          if tx.hasProof { gasUsed := gasUsed + ZK_COST; }
          r := ExecuteTransfer(tx, gasUsed);
        case Unsupported =>
          r := ExecutionResult(false, gasUsed, map[]);
      }
    }

    method ExecuteTransfer(tx: Transaction, gasUsed: nat) returns (r: ExecutionResult)
      modifies this
      ensures (accounts, r) == RunTransfer(old(accounts), tx, gasUsed)
    {
      hide ApplyAll, ToI128, WrapI128, GasCost, TotalCost;
      var sender := AccountOf(accounts, tx.sender);
      if sender.balance < TotalCost(tx) {
        return ExecutionResult(false, gasUsed, map[]);
      }
      var changes := map[tx.sender := AccountChange(WrapI128(-ToI128(TotalCost(tx))), 1)];
      changes := changes[Receiver(tx) := AccountChange(ToI128(tx.value), 0)];
      ApplyChanges(changes);
      return ExecutionResult(true, gasUsed + BASE_TX_COST, changes);
    }

    /** The changes are applied in whatever order the hash map yields them. */
    method ApplyChanges(changes: map<Address, AccountChange>)
      modifies this
      ensures accounts == ApplyAll(old(accounts), changes)
    {
      hide Applied;
      ghost var s := accounts;
      var todo := changes.Keys;
      while todo != {}
        invariant todo <= changes.Keys
        invariant accounts == s + map a | a in changes.Keys - todo :: Applied(AccountOf(s, a), changes[a])
        decreases todo
      {
        var addr :| addr in todo;
        todo := todo - {addr};
        assert AccountOf(accounts, addr) == AccountOf(s, addr);
        accounts := accounts[addr := Applied(AccountOf(accounts, addr), changes[addr])];
      }
      assert changes.Keys - todo == changes.Keys;
    }

    method ExecuteBlockSequential(txs: seq<Transaction>) returns (results: seq<ExecutionResult>)
      modifies this
      ensures |results| == |txs|
      ensures var (s, rs) := RunOrder(old(accounts), txs, InOrder(|txs|));
              accounts == s && forall i :: 0 <= i < |txs| ==> i in rs && results[i] == rs[i]
    {
      results := [];
      for i := 0 to |txs|
        invariant |results| == i
        invariant var (s, rs) := RunOrder(old(accounts), txs, InOrder(i));
                  accounts == s && forall j :: 0 <= j < i ==> j in rs && results[j] == rs[j]
      {
        var r := ExecuteTransaction(txs[i]);
        results := results + [r];
        assert InOrder(i + 1)[..i] == InOrder(i);
      }
    }

    /** Worker threads take the transactions in some order; each runs under the state's write lock. */
    method ExecuteBlockParallel(txs: seq<Transaction>)
      returns (results: map<nat, ExecutionResult>, ghost order: seq<nat>)
      modifies this
      ensures Schedule(order, |txs|)
      ensures (accounts, results) == RunOrder(old(accounts), txs, order)
      ensures NoneInterfere(txs) ==> (accounts, results) == RunOrder(old(accounts), txs, InOrder(|txs|))
    {
      hide Execute, NoRepeats, RunOrder;
      RunNothing(accounts, txs);
      results, order := map[], [];
      EmptyNoRepeats<nat>();
      var todo := set i | i in InOrder(|txs|);
      forall i | 0 <= i < |txs| ensures i in todo { assert InOrder(|txs|)[i] == i; }
      while todo != {}
        invariant forall i :: i in todo ==> i < |txs|
        invariant forall i :: 0 <= i < |txs| ==> i in todo || i in order
        invariant forall i :: i in todo ==> i !in order
        invariant NoRepeats(order) && Within(order, |txs|)
        invariant (accounts, results) == RunOrder(old(accounts), txs, order)
        decreases todo
      {
        var i :| i in todo;
        todo := todo - {i};
        var r := ExecuteTransaction(txs[i]);
        results := results[i := r];
        SnocIsNew<nat>(order, i);
        RunOneMore(old(accounts), txs, order, i);
        order := order + [i];
      }
      if NoneInterfere(txs) {
        ScheduleIsSequential(old(accounts), txs, order, |txs|);
      }
    }
  }
}
