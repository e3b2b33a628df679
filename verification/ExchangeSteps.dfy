/** What each call does to the exchange contract's storage and tokens; a call that reverts leaves both alone. */
module ExchangeSteps {
  import opened Sums
  import opened TokenLedger
  import opened ConstantProduct

  const MAX: nat := 0x1_0000_0000_0000_0000_0000_0000_0000_0000_0000_0000_0000_0000_0000_0000_0000_0000 - 1
  const MAX_FEE: nat := 1000

  /** Pairs are keyed by the hash of the sorted token addresses, which collision-freeness lets us read as the
      addresses. */
  type PairKey = (Address, Address)

  datatype Error =
    | SameToken | PairAlreadyExists | PairNotFound | InsufficientLiquidity | SlippageExceeded
    | TransferFailed | NotOwner | FeeTooHigh
    | Overflow | Underflow | DivisionByZero

  datatype Outcome<+T> = Ok(value: T) | Revert(error: Error)

  /** The contract's storage and its tokens. The last two fields are history: fees that left the contract, and
      tokens that belong to no reserve (held from the start, or outputs a caller sent back to the contract). */
  datatype Exchange = Exchange(
    owner: Address,
    pairs: map<PairKey, Pair>,
    lpBalances: map<PairKey, map<Address, nat>>,
    tradingFee: nat,
    feeRecipient: Holder,
    ledger: Ledger,
    feesPaid: map<Address, nat>,
    surplus: map<Address, nat>)

  function SortTokens(tokenA: Address, tokenB: Address): (k: PairKey)
    requires tokenA != tokenB
    ensures k.0 < k.1 && {k.0, k.1} == {tokenA, tokenB}
  {
    if tokenA < tokenB then (tokenA, tokenB) else (tokenB, tokenA)
  }

  /** A pair whose first token is the zero address reads as absent. */
  predicate Found(pairs: map<PairKey, Pair>, k: PairKey) {
    k in pairs && k.0 != 0
  }

  function LpOf(lpBalances: map<PairKey, map<Address, nat>>, k: PairKey): map<Address, nat> {
    if k in lpBalances then lpBalances[k] else map[]
  }

  function Bump(m: map<Address, nat>, t: Address, amount: nat): map<Address, nat> {
    m[t := Get(m, t) + amount]
  }

  // ----- what each call does to the state

  ghost function CreatePair(s: Exchange, caller: Address, tokenA: Address, tokenB: Address): (Exchange, Outcome<()>) {
    if caller != s.owner then (s, Revert(NotOwner))
    else if tokenA == tokenB then (s, Revert(SameToken))
    else
      var k := SortTokens(tokenA, tokenB);
      if Found(s.pairs, k) then (s, Revert(PairAlreadyExists))
      else (s.(pairs := s.pairs[k := Pair(0, 0, 0)]), Ok(()))
  }

  /** The shares a deposit mints, with the checked arithmetic it is computed under. */
  ghost function DepositShares(p: Pair, a: nat, b: nat): (r: Outcome<nat>)
    ensures r.Ok? ==> (p.totalLiquidity > 0 ==> p.reserveA > 0 && p.reserveB > 0) && r.value == Minted(p, a, b)
  {
    if p.totalLiquidity == 0 then
      if a * b >= MAX then Revert(Overflow) else Ok(Root(a * b))
    else if a * p.totalLiquidity > MAX then Revert(Overflow)
    else if p.reserveA == 0 then Revert(DivisionByZero)
    else if b * p.totalLiquidity > MAX then Revert(Overflow)
    else if p.reserveB == 0 then Revert(DivisionByZero)
    else Ok(Minted(p, a, b))
  }

  predicate DepositOverflows(p: Pair, a: nat, b: nat, liquidity: nat, lpBalance: nat) {
    p.reserveA + a > MAX || p.reserveB + b > MAX || p.totalLiquidity + liquidity > MAX || lpBalance + liquidity > MAX
  }

  ghost function AddLiquidity(s: Exchange, caller: Address, tokenA: Address, tokenB: Address,
                              amountA: nat, amountB: nat, minLiquidity: nat, approved: bool): (Exchange, Outcome<nat>)
  {
    if tokenA == tokenB then (s, Revert(SameToken)) else
    var k := SortTokens(tokenA, tokenB);
    if !Found(s.pairs, k) then (s, Revert(PairNotFound))
    else if !approved || BalanceOf(s.ledger, k.0, Account(caller)) < amountA
                      || BalanceOf(s.ledger, k.1, Account(caller)) < amountB then (s, Revert(TransferFailed))
    else
      var p, lp := s.pairs[k], LpOf(s.lpBalances, k);
      var minted := DepositShares(p, amountA, amountB);
      if minted.Revert? then (s, minted)
      else if minted.value < minLiquidity then (s, Revert(SlippageExceeded))
      else if DepositOverflows(p, amountA, amountB, minted.value, Get(lp, caller)) then (s, Revert(Overflow))
      else
        (s.(pairs := s.pairs[k := Deposited(p, amountA, amountB, minted.value)],
            lpBalances := s.lpBalances[k := Bump(lp, caller, minted.value)],
            ledger := Moved(Moved(s.ledger, k.0, Account(caller), Contract, amountA),
                            k.1, Account(caller), Contract, amountB)),
         minted)
  }

  ghost function RemoveLiquidity(s: Exchange, caller: Address, tokenA: Address, tokenB: Address,
                                 liquidity: nat, minAmountA: nat, minAmountB: nat): (Exchange, Outcome<(nat, nat)>)
  {
    if tokenA == tokenB then (s, Revert(SameToken)) else
    var k := SortTokens(tokenA, tokenB);
    if !Found(s.pairs, k) then (s, Revert(PairNotFound)) else
    var p, lp := s.pairs[k], LpOf(s.lpBalances, k);
    if Get(lp, caller) < liquidity then (s, Revert(InsufficientLiquidity))
    else if liquidity * p.reserveA > MAX then (s, Revert(Overflow))
    else if p.totalLiquidity == 0 then (s, Revert(DivisionByZero))
    else if liquidity * p.reserveB > MAX then (s, Revert(Overflow))
    else
      var out := Redeemed(p, liquidity);
      if out.0 < minAmountA || out.1 < minAmountB then (s, Revert(SlippageExceeded))
      else if p.reserveA < out.0 || p.reserveB < out.1 || p.totalLiquidity < liquidity then (s, Revert(Underflow))
      else if BalanceOf(s.ledger, k.0, Contract) < out.0 || BalanceOf(s.ledger, k.1, Contract) < out.1
      then (s, Revert(TransferFailed))
      else
        (s.(pairs := s.pairs[k := Withdrawn(p, liquidity)],
            lpBalances := s.lpBalances[k := lp[caller := Get(lp, caller) - liquidity]],
            ledger := Moved(Moved(s.ledger, k.0, Contract, Account(caller), out.0),
                            k.1, Contract, Account(caller), out.1)),
         Ok(out))
  }

  /** The output a swap computes, with the checked arithmetic it runs under. */
  function Quote(p: Pair, aToB: bool, amountIn: nat, fee: nat): (out: Outcome<nat>)
    ensures out.Ok? ==> CanSwap(p, aToB, amountIn, fee) && out.value == SwapOut(p, aToB, amountIn, fee)
  {
    if fee > FEE_DENOMINATOR then Revert(Underflow)
    else if amountIn * (FEE_DENOMINATOR - fee) > MAX then Revert(Overflow)
    else
      var net := NetIn(amountIn, fee);
      var rIn, rOut := if aToB then p.reserveA else p.reserveB, if aToB then p.reserveB else p.reserveA;
      if net * rOut > MAX || rIn + net > MAX then Revert(Overflow)
      else if rIn + net == 0 then Revert(DivisionByZero)
      else Ok(AmountOut(net, rIn, rOut))
  }

  ghost function Swap(s: Exchange, caller: Address, tokenIn: Address, tokenOut: Address,
                      amountIn: nat, minAmountOut: nat, to: Holder, approved: bool): (Exchange, Outcome<nat>)
  {
    if tokenIn == tokenOut then (s, Revert(SameToken)) else
    var k := SortTokens(tokenIn, tokenOut);
    if !Found(s.pairs, k) then (s, Revert(PairNotFound)) else
    var p, aToB := s.pairs[k], tokenIn == k.0;
    var out := Quote(p, aToB, amountIn, s.tradingFee);
    if out.Revert? then (s, out)
    else if (if aToB then p.reserveA else p.reserveB) + amountIn > MAX then (s, Revert(Overflow))
    else if out.value < minAmountOut then (s, Revert(SlippageExceeded))
    else if !approved || BalanceOf(s.ledger, tokenIn, Account(caller)) < amountIn
                      || BalanceOf(s.ledger, tokenOut, Contract) < out.value then (s, Revert(TransferFailed))
    else
      var fee := amountIn - NetIn(amountIn, s.tradingFee);
      var paidIn := Moved(s.ledger, tokenIn, Account(caller), Contract, amountIn);
      var paidOut := Moved(paidIn, tokenOut, Contract, to, out.value);
      (s.(pairs := s.pairs[k := Swapped(p, aToB, amountIn, s.tradingFee)],
          ledger := Moved(paidOut, tokenIn, Contract, s.feeRecipient, fee),
          feesPaid := if s.feeRecipient == Contract then s.feesPaid else Bump(s.feesPaid, tokenIn, fee),
          surplus := if to == Contract then Bump(s.surplus, tokenOut, out.value) else s.surplus),
       out)
  }

  ghost function SetTradingFee(s: Exchange, caller: Address, newFee: nat): (Exchange, Outcome<()>) {
    if caller != s.owner then (s, Revert(NotOwner))
    else if newFee > MAX_FEE then (s, Revert(FeeTooHigh))
    else (s.(tradingFee := newFee), Ok(()))
  }

  // ----- deployment

  ghost function Deployed(owner: Address, feeRecipient: Holder, ledger: Ledger): Exchange {
    Exchange(owner, map[], map[], 30, feeRecipient, ledger, map[], HeldAtStart(ledger))
  }

  ghost function HeldAtStart(ledger: Ledger): map<Address, nat> {
    map e | e in ledger && e.1 == Contract :: e.0 := ledger[e]
  }
}
