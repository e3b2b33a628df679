/** A plain EIP-20 ledger: who holds how much of which token. */
module TokenLedger {
  import opened Sums

  type Address = nat

  /** The contract under study is told apart from every outside account, because it never calls itself. */
  datatype Holder = Contract | Account(address: Address)

  type Ledger = map<(Address, Holder), nat>

  function BalanceOf(l: Ledger, token: Address, holder: Holder): nat {
    Get(l, (token, holder))
  }

  function Moved(l: Ledger, token: Address, sender: Holder, receiver: Holder, amount: nat): (l': Ledger)
    requires amount <= BalanceOf(l, token, sender)
    ensures forall t: Address, h: Holder :: BalanceOf(l', t, h) ==
                           BalanceOf(l, t, h)
                           - (if (t, h) == (token, sender) then amount else 0)
                           + (if (t, h) == (token, receiver) then amount else 0)
  {
    var debited := l[(token, sender) := BalanceOf(l, token, sender) - amount];
    debited[(token, receiver) := BalanceOf(debited, token, receiver) + amount]
  }
}
