/** The exchange contract: pairs, LP balances, fees and the tokens it holds, updated in place. */
module ProtonDex {
  import opened Arithmetic
  import opened Sums
  import opened TokenLedger
  import opened ConstantProduct
  import opened Steps = ExchangeSteps
  import Runs = DexRuns
  import Effects = ExchangeEffects

  class ProtonDEX {
    const owner: Address
    var pairs: map<PairKey, Pair>
    var lpBalances: map<PairKey, map<Address, nat>>
    var tradingFee: nat
    var feeRecipient: Holder
    var ledger: Ledger
    ghost var feesPaid: map<Address, nat>
    ghost var surplus: map<Address, nat>

    ghost function State(): Exchange
      reads this
    {
      Exchange(owner, pairs, lpBalances, tradingFee, feeRecipient, ledger, feesPaid, surplus)
    }

    constructor (owner: Address, feeRecipient: Holder, ledger: Ledger)
      ensures State() == Deployed(owner, feeRecipient, ledger) && Runs.Inv(State())
      ensures tradingFee == 30 && pairs == map[] && lpBalances == map[]
    {
      this.owner, this.feeRecipient, this.ledger := owner, feeRecipient, ledger;
      pairs, lpBalances, tradingFee := map[], map[], 30;
      feesPaid, surplus := map[], HeldAtStart(ledger);
      new;
      Runs.DeployedInv(owner, feeRecipient, ledger);
    }

    method CreatePair(caller: Address, tokenA: Address, tokenB: Address) returns (r: Outcome<()>)
      modifies this
      ensures (State(), r) == Steps.CreatePair(old(State()), caller, tokenA, tokenB)
      ensures Runs.Inv(old(State())) ==> Runs.Inv(State())
    {
      hide Runs.Inv;
      if Runs.Inv(State()) { Runs.CreateKeepsInv(State(), caller, tokenA, tokenB); }
      if caller != owner { return Revert(NotOwner); }
      if tokenA == tokenB { return Revert(SameToken); }
      var k := SortTokens(tokenA, tokenB);
      if Found(pairs, k) { return Revert(PairAlreadyExists); }
      pairs := pairs[k := Pair(0, 0, 0)];
      return Ok(());
    }

    method AddLiquidity(caller: Address, tokenA: Address, tokenB: Address,
                        amountA: nat, amountB: nat, minLiquidity: nat, approved: bool) returns (r: Outcome<nat>)
      modifies this
      ensures (State(), r) ==
              Steps.AddLiquidity(old(State()), caller, tokenA, tokenB, amountA, amountB, minLiquidity, approved)
    {
      hide DepositShares, DepositOverflows, Minted, Moved;
      if tokenA == tokenB { return Revert(SameToken); }
      var k := SortTokens(tokenA, tokenB);
      if !Found(pairs, k) { return Revert(PairNotFound); }
      if !approved || BalanceOf(ledger, k.0, Account(caller)) < amountA { return Revert(TransferFailed); }
      var entry := ledger;  // restored by a later revert
      ledger := Moved(ledger, k.0, Account(caller), Contract, amountA);
      if BalanceOf(ledger, k.1, Account(caller)) < amountB { ledger := entry; return Revert(TransferFailed); }
      ledger := Moved(ledger, k.1, Account(caller), Contract, amountB);

      var p, lp := pairs[k], LpOf(lpBalances, k);
      var minted := Liquidity(p, amountA, amountB);
      if minted.Revert? { ledger := entry; return minted; }
      var liquidity := minted.value;
      if liquidity < minLiquidity { ledger := entry; return Revert(SlippageExceeded); }
      if DepositOverflows(p, amountA, amountB, liquidity, Get(lp, caller)) { ledger := entry; return Revert(Overflow); }
      pairs := pairs[k := Pair(p.reserveA + amountA, p.reserveB + amountB, p.totalLiquidity + liquidity)];
      lpBalances := lpBalances[k := lp[caller := Get(lp, caller) + liquidity]];
      return Ok(liquidity);
    }

    method Liquidity(p: Pair, amountA: nat, amountB: nat) returns (r: Outcome<nat>)
      ensures r == DepositShares(p, amountA, amountB)
    {
      if p.totalLiquidity == 0 {
        if amountA * amountB > MAX { return Revert(Overflow); }
        r := Sqrt(amountA * amountB);
      } else {
        if amountA * p.totalLiquidity > MAX { return Revert(Overflow); }
        if p.reserveA == 0 { return Revert(DivisionByZero); }
        var liquidityA := amountA * p.totalLiquidity / p.reserveA;
        if amountB * p.totalLiquidity > MAX { return Revert(Overflow); }
        if p.reserveB == 0 { return Revert(DivisionByZero); }
        var liquidityB := amountB * p.totalLiquidity / p.reserveB;
        r := Ok(if liquidityA < liquidityB then liquidityA else liquidityB);
      }
    }

    method RemoveLiquidity(caller: Address, tokenA: Address, tokenB: Address,
                           liquidity: nat, minAmountA: nat, minAmountB: nat) returns (r: Outcome<(nat, nat)>)
      modifies this
      ensures (State(), r) ==
              Steps.RemoveLiquidity(old(State()), caller, tokenA, tokenB, liquidity, minAmountA, minAmountB)
    {
      hide Moved, BalanceOf, Redeemed;
      if tokenA == tokenB { return Revert(SameToken); }
      var k := SortTokens(tokenA, tokenB);
      if !Found(pairs, k) { return Revert(PairNotFound); }
      var p, lp := pairs[k], LpOf(lpBalances, k);
      if Get(lp, caller) < liquidity { return Revert(InsufficientLiquidity); }
      if liquidity * p.reserveA > MAX { return Revert(Overflow); }
      if p.totalLiquidity == 0 { return Revert(DivisionByZero); }
      if liquidity * p.reserveB > MAX { return Revert(Overflow); }
      var (amountA, amountB) := Redeemed(p, liquidity);
      if amountA < minAmountA || amountB < minAmountB { return Revert(SlippageExceeded); }
      if p.reserveA < amountA || p.reserveB < amountB || p.totalLiquidity < liquidity { return Revert(Underflow); }
      var entryLp, entryPairs, entryLedger := lpBalances, pairs, ledger;
      lpBalances := lpBalances[k := lp[caller := Get(lp, caller) - liquidity]];
      pairs := pairs[k := Pair(p.reserveA - amountA, p.reserveB - amountB, p.totalLiquidity - liquidity)];
      if amountA <= BalanceOf(ledger, k.0, Contract) {
        ledger := Moved(ledger, k.0, Contract, Account(caller), amountA);
        if amountB <= BalanceOf(ledger, k.1, Contract) {
          ledger := Moved(ledger, k.1, Contract, Account(caller), amountB);
          return Ok((amountA, amountB));
        }
      }
      lpBalances, pairs, ledger := entryLp, entryPairs, entryLedger;
      return Revert(TransferFailed);
    }

    method Swap(caller: Address, tokenIn: Address, tokenOut: Address,
                amountIn: nat, minAmountOut: nat, to: Holder, approved: bool) returns (r: Outcome<nat>)
      modifies this
      ensures (State(), r) ==
              Steps.Swap(old(State()), caller, tokenIn, tokenOut, amountIn, minAmountOut, to, approved)
    {
      hide Quote, NetIn, SwapOut, Swapped, Moved, BalanceOf, Bump;
      if tokenIn == tokenOut { return Revert(SameToken); }
      var k := SortTokens(tokenIn, tokenOut);
      if !Found(pairs, k) { return Revert(PairNotFound); }
      var p := pairs[k];
      var aToB := tokenIn == k.0;
      var quote := Quote(p, aToB, amountIn, tradingFee);
      if quote.Revert? { return quote; }
      var amountOut := quote.value;
      if (if aToB then p.reserveA else p.reserveB) + amountIn > MAX { return Revert(Overflow); }
      var entry := pairs;  // restored by a later revert
      BookSwap(k, aToB, amountIn, amountOut);
      if amountOut < minAmountOut { pairs := entry; return Revert(SlippageExceeded); }
      var fee := amountIn - NetIn(amountIn, tradingFee);
      var settled := Settle(caller, tokenIn, tokenOut, amountIn, amountOut, fee, to, approved);
      if !settled { pairs := entry; return Revert(TransferFailed); }
      return Ok(amountOut);
    }

    /** The reserves take the whole input, fee included, and lose the output. */
    method BookSwap(k: PairKey, aToB: bool, amountIn: nat, amountOut: nat)
      requires k in pairs && CanSwap(pairs[k], aToB, amountIn, tradingFee)
      requires amountOut == SwapOut(pairs[k], aToB, amountIn, tradingFee)
      modifies this`pairs
      ensures pairs == old(pairs)[k := Swapped(old(pairs)[k], aToB, amountIn, tradingFee)]
    {
      var p := pairs[k];
      if aToB {
        pairs := pairs[k := Pair(p.reserveA + amountIn, p.reserveB - amountOut, p.totalLiquidity)];
      } else {
        pairs := pairs[k := Pair(p.reserveA - amountOut, p.reserveB + amountIn, p.totalLiquidity)];
      }
    }

    /** The three token transfers of a swap: the input in, the output out, the fee out of the input. */
    method Settle(caller: Address, tokenIn: Address, tokenOut: Address, amountIn: nat, amountOut: nat, fee: nat,
                  to: Holder, approved: bool) returns (ok: bool)
      requires tokenIn != tokenOut && fee <= amountIn
      modifies this`ledger, this`feesPaid, this`surplus
      ensures ok == (approved && amountIn <= BalanceOf(old(ledger), tokenIn, Account(caller))
                              && amountOut <= BalanceOf(old(ledger), tokenOut, Contract))
      ensures !ok ==> ledger == old(ledger) && feesPaid == old(feesPaid) && surplus == old(surplus)
      ensures ok ==>
                var paidIn := Moved(old(ledger), tokenIn, Account(caller), Contract, amountIn);
                var paidOut := Moved(paidIn, tokenOut, Contract, to, amountOut);
                && ledger == Moved(paidOut, tokenIn, Contract, feeRecipient, fee)
                && feesPaid == (if feeRecipient == Contract then old(feesPaid) else Bump(old(feesPaid), tokenIn, fee))
                && surplus == (if to == Contract then Bump(old(surplus), tokenOut, amountOut) else old(surplus))
    {
      if !approved || BalanceOf(ledger, tokenIn, Account(caller)) < amountIn { return false; }
      var entry := ledger;
      ledger := Moved(ledger, tokenIn, Account(caller), Contract, amountIn);
      if BalanceOf(ledger, tokenOut, Contract) < amountOut { ledger := entry; return false; }
      ledger := Moved(ledger, tokenOut, Contract, to, amountOut);
      ledger := Moved(ledger, tokenIn, Contract, feeRecipient, fee);
      if feeRecipient != Contract { feesPaid := Bump(feesPaid, tokenIn, fee); }
      if to == Contract { surplus := Bump(surplus, tokenOut, amountOut); }
      return true;
    }

    /** The quote a front end shows; a missing pair quotes zero. */
    method CalculateSwapAmount(tokenIn: Address, tokenOut: Address, amountIn: nat) returns (r: Outcome<nat>)
      ensures tokenIn == tokenOut ==> r == Revert(SameToken)
      ensures tokenIn != tokenOut && !Found(pairs, SortTokens(tokenIn, tokenOut)) ==> r == Ok(0)
      ensures forall caller, minAmountOut, to, approved ::
                var swapped := Steps.Swap(State(), caller, tokenIn, tokenOut, amountIn, minAmountOut, to, approved).1;
                swapped.Ok? ==> r == swapped
      ensures tokenIn != tokenOut && Found(pairs, SortTokens(tokenIn, tokenOut)) ==>
                r == Quote(pairs[SortTokens(tokenIn, tokenOut)], tokenIn < tokenOut, amountIn, tradingFee)
      ensures tokenIn != tokenOut && Found(pairs, SortTokens(tokenIn, tokenOut)) && r.Ok? ==>
                var k := SortTokens(tokenIn, tokenOut);
                && tradingFee <= FEE_DENOMINATOR
                && Effects.IsOutput(r.value, NetIn(amountIn, tradingFee), Runs.ReserveIn(pairs[k], k, tokenIn),
                                    Runs.ReserveIn(pairs[k], k, tokenOut))
    {
      if tokenIn == tokenOut { return Revert(SameToken); }
      var k := SortTokens(tokenIn, tokenOut);
      if !Found(pairs, k) { return Ok(0); }
      if Quote(pairs[k], tokenIn == k.0, amountIn, tradingFee).Ok? {
        Effects.QuoteIsOutput(pairs[k], k, tokenIn, tokenOut, amountIn, tradingFee);
      }
      return Quote(pairs[k], tokenIn == k.0, amountIn, tradingFee);
    }

    method SetTradingFee(caller: Address, newFee: nat) returns (r: Outcome<()>)
      modifies this`tradingFee
      ensures (State(), r) == Steps.SetTradingFee(old(State()), caller, newFee)
      ensures Runs.Inv(old(State())) ==> Runs.Inv(State())
    {
      hide Runs.Inv;
      if Runs.Inv(State()) { Runs.OtherFieldsKeepInv(State(), Runs.DoSetFee(caller, newFee)); }
      if caller != owner { return Revert(NotOwner); }
      if newFee > MAX_FEE { return Revert(FeeTooHigh); }
      tradingFee := newFee;
      return Ok(());
    }
  }

  /** Newton's iteration from above. It reverts on exactly one input, whose successor overflows. */
  method Sqrt(x: nat) returns (r: Outcome<nat>)
    requires x <= MAX
    ensures r == if x == MAX then Revert(Overflow) else Ok(Root(x))
  {
    if x + 1 > MAX { return Revert(Overflow); }
    var z: nat := (x + 1) / 2;
    var y: nat := x;
    StartAbove(x);
    while z < y
      invariant y <= x && Above(y, x) && Above(z, x)
      invariant z < y ==> z > 0
      invariant y <= z ==> y * y <= x
      decreases y
    {
      y := z;
      NewtonStep(x, z);
      assert x / z + z <= MAX;  // the sum inside the loop never overflows
      z := (x / z + z) / 2;
    }
    RootUnique(y, Root(x), x);
    return Ok(y);
  }

  ghost predicate Above(y: nat, x: nat) {
    x < (y + 1) * (y + 1)
  }

  lemma StartAbove(x: nat)
    ensures Above(x, x) && Above((x + 1) / 2, x)
    ensures x <= (x + 1) / 2 ==> x * x <= x
  {
    var z := (x + 1) / 2;
    assert (z + 1) * (z + 1) == z * z + 2 * z + 1;
    assert (x + 1) * (x + 1) == x * x + 2 * x + 1;
  }

  lemma NewtonStep(x: nat, z: nat)
    requires 0 < z <= x
    ensures var next := (x / z + z) / 2;
            && next > 0
            && x / z + z <= x + 1
            && Above(next, x)
            && (z <= next ==> z * z <= x)
  {
    NewtonStaysAbove(x, z);
    DivBounds(x, z);
    var q := x / z;
    if q == 0 { assert false; }
    ProductBeatsSum(q, z);
    if z <= (q + z) / 2 { MulMono(z, q, z, z); }
  }

  lemma ProductBeatsSum(q: nat, z: nat)
    requires q >= 1 && z >= 1
    ensures q + z <= q * z + 1
  {
    MulMono(1, q, z - 1, z - 1);
    assert q * (z - 1) == q * z - q;
  }
}
