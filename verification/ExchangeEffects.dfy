/** What a caller of the exchange can check: when each call succeeds, what it computes, and what it leaves alone. */
module ExchangeEffects {
  import opened Sums
  import opened TokenLedger
  import opened ConstantProduct
  import opened ExchangeSteps
  import opened DexRuns

  // ----- the amounts

  /** Paying out this much keeps the product of the reserves when only the net input is counted. */
  predicate KeepsProduct(out: nat, net: nat, reserveIn: nat, reserveOut: nat) {
    out <= reserveOut && (reserveIn + net) * (reserveOut - out) >= reserveIn * reserveOut
  }

  /** v is the most that can be paid out so. */
  ghost predicate IsOutput(v: nat, net: nat, reserveIn: nat, reserveOut: nat) {
    forall out: nat :: out <= v <==> KeepsProduct(out, net, reserveIn, reserveOut)
  }

  /** v is the most that stays within the part liquidity / total of a reserve. */
  ghost predicate IsPart(v: nat, liquidity: nat, reserve: nat, total: nat) {
    forall x: nat :: x <= v <==> x * total <= liquidity * reserve
  }

  /** v is the floor root of the product for the first deposit, and afterwards the most shares that neither side's
      contribution falls short of. */
  ghost predicate IsMint(v: nat, p: Pair, a: nat, b: nat) {
    if p.totalLiquidity == 0 then v * v <= a * b < (v + 1) * (v + 1)
    else forall x: nat :: x <= v <==> x * p.reserveA <= a * p.totalLiquidity && x * p.reserveB <= b * p.totalLiquidity
  }

  lemma OutputOf(net: nat, reserveIn: nat, reserveOut: nat)
    requires reserveIn + net > 0
    ensures IsOutput(AmountOut(net, reserveIn, reserveOut), net, reserveIn, reserveOut)
  {
    hide AmountOut;
    forall out: nat
      ensures out <= AmountOut(net, reserveIn, reserveOut) <==> KeepsProduct(out, net, reserveIn, reserveOut)
    {
      if out <= reserveOut { OutputIsLargest(net, reserveIn, reserveOut, out); }
    }
  }

  lemma PartsOf(p: Pair, liquidity: nat)
    requires p.totalLiquidity > 0
    ensures IsPart(Redeemed(p, liquidity).0, liquidity, p.reserveA, p.totalLiquidity)
    ensures IsPart(Redeemed(p, liquidity).1, liquidity, p.reserveB, p.totalLiquidity)
  {
    hide Redeemed;
    forall x: nat
      ensures x <= Redeemed(p, liquidity).0 <==> x * p.totalLiquidity <= liquidity * p.reserveA
      ensures x <= Redeemed(p, liquidity).1 <==> x * p.totalLiquidity <= liquidity * p.reserveB
    {
      RedemptionIsLargest(p, liquidity, x);
    }
  }

  lemma MintOf(p: Pair, a: nat, b: nat)
    requires p.totalLiquidity > 0 ==> p.reserveA > 0 && p.reserveB > 0
    ensures IsMint(Minted(p, a, b), p, a, b)
  {
    if p.totalLiquidity > 0 {
      hide Minted;
      forall x: nat
        ensures x <= Minted(p, a, b) <==>
                x * p.reserveA <= a * p.totalLiquidity && x * p.reserveB <= b * p.totalLiquidity
      {
        MintIsLargest(p, a, b, x);
      }
    }
  }

  /** A quote that does not revert is the output for the reserves of the two tokens, whichever of them sorts first. */
  lemma QuoteIsOutput(p: Pair, k: PairKey, tokenIn: Address, tokenOut: Address, amountIn: nat, fee: nat)
    requires tokenIn != tokenOut && k == SortTokens(tokenIn, tokenOut) && Quote(p, tokenIn == k.0, amountIn, fee).Ok?
    ensures fee <= FEE_DENOMINATOR
    ensures IsOutput(Quote(p, tokenIn == k.0, amountIn, fee).value, NetIn(amountIn, fee), ReserveIn(p, k, tokenIn),
                     ReserveIn(p, k, tokenOut))
  {
    hide IsOutput, AmountOut, NetIn;
    OutputOf(NetIn(amountIn, fee), ReserveIn(p, k, tokenIn), ReserveIn(p, k, tokenOut));
  }

  // ----- swaps

  /** The arithmetic of a swap stays within 256 bits. */
  ghost predicate SwapFits(p: Pair, k: PairKey, tokenIn: Address, tokenOut: Address, amountIn: nat, fee: nat) {
    && fee <= FEE_DENOMINATOR && amountIn * (FEE_DENOMINATOR - fee) <= MAX
    && NetIn(amountIn, fee) * ReserveIn(p, k, tokenOut) <= MAX
    && 0 < ReserveIn(p, k, tokenIn) + NetIn(amountIn, fee) && ReserveIn(p, k, tokenIn) + amountIn <= MAX
  }

  lemma QuoteFitsIff(p: Pair, k: PairKey, tokenIn: Address, tokenOut: Address, amountIn: nat, fee: nat)
    requires tokenIn != tokenOut && k == SortTokens(tokenIn, tokenOut)
    ensures Quote(p, tokenIn == k.0, amountIn, fee).Ok? && ReserveIn(p, k, tokenIn) + amountIn <= MAX <==>
            SwapFits(p, k, tokenIn, tokenOut, amountIn, fee)
  {
    hide AmountOut, NetIn;
  }

  /** A swap succeeds exactly when the pair exists, the arithmetic fits, the output meets the minimum, and both tokens
      can be paid; it is the exact output for the two reserves, which take the whole input and lose the output. */
  lemma SwapEffect(s: Exchange, caller: Address, tokenIn: Address, tokenOut: Address, amountIn: nat, minAmountOut: nat,
                   to: Holder, approved: bool)
    ensures var (s', r) := Swap(s, caller, tokenIn, tokenOut, amountIn, minAmountOut, to, approved);
            && (tokenIn == tokenOut ==> r.Revert?)
            && (r.Revert? ==> s' == s)
            && (tokenIn != tokenOut ==>
                  var k := SortTokens(tokenIn, tokenOut);
                  var p := PairOf(s, k);
                  && (r.Ok? <==>
                        && Found(s.pairs, k) && SwapFits(p, k, tokenIn, tokenOut, amountIn, s.tradingFee)
                        && minAmountOut <= Quote(p, tokenIn == k.0, amountIn, s.tradingFee).value
                             <= BalanceOf(s.ledger, tokenOut, Contract)
                        && approved && amountIn <= BalanceOf(s.ledger, tokenIn, Account(caller)))
                  && (r.Ok? ==>
                        var p' := PairOf(s', k);
                        && s.tradingFee <= FEE_DENOMINATOR
                        && IsOutput(r.value, NetIn(amountIn, s.tradingFee), ReserveIn(p, k, tokenIn),
                                    ReserveIn(p, k, tokenOut))
                        && ReserveIn(p', k, tokenIn) == ReserveIn(p, k, tokenIn) + amountIn
                        && ReserveIn(p', k, tokenOut) == ReserveIn(p, k, tokenOut) - r.value
                        && p'.totalLiquidity == p.totalLiquidity
                        && s'.lpBalances == s.lpBalances && s'.tradingFee == s.tradingFee
                        && s'.feeRecipient == s.feeRecipient))
  {
    if tokenIn != tokenOut {
      var k := SortTokens(tokenIn, tokenOut);
      var p := PairOf(s, k);
      hide IsOutput, NetIn, AmountOut, Moved, BalanceOf, Bump, SwapFits;
      QuoteFitsIff(p, k, tokenIn, tokenOut, amountIn, s.tradingFee);
      if Quote(p, tokenIn == k.0, amountIn, s.tradingFee).Ok? {
        QuoteIsOutput(p, k, tokenIn, tokenOut, amountIn, s.tradingFee);
      }
      hide Quote;
    }
  }

  // ----- deposits and withdrawals

  ghost predicate DepositFits(p: Pair, a: nat, b: nat, shares: nat, lpBalance: nat) {
    && (if p.totalLiquidity == 0 then a * b < MAX
        else p.reserveA > 0 && p.reserveB > 0 && a * p.totalLiquidity <= MAX && b * p.totalLiquidity <= MAX)
    && p.reserveA + a <= MAX && p.reserveB + b <= MAX && p.totalLiquidity + shares <= MAX && lpBalance + shares <= MAX
  }

  /** A deposit succeeds exactly when the pair exists, the caller can pay both amounts, the shares meet the minimum and
      the arithmetic fits; it mints exactly the shares due, to the caller, and books both amounts. */
  lemma DepositEffect(s: Exchange, caller: Address, tokenA: Address, tokenB: Address, amountA: nat, amountB: nat,
                      minLiquidity: nat, approved: bool, who: Address)
    requires tokenA != tokenB
    ensures var (s', r) := AddLiquidity(s, caller, tokenA, tokenB, amountA, amountB, minLiquidity, approved);
            var k := SortTokens(tokenA, tokenB);
            var p, lp := PairOf(s, k), LpOf(s.lpBalances, k);
            && (r.Revert? ==> s' == s)
            && (r.Ok? <==>
                  && Found(s.pairs, k) && approved
                  && amountA <= BalanceOf(s.ledger, k.0, Account(caller))
                  && amountB <= BalanceOf(s.ledger, k.1, Account(caller))
                  && DepositShares(p, amountA, amountB).Ok?
                  && minLiquidity <= DepositShares(p, amountA, amountB).value
                  && DepositFits(p, amountA, amountB, DepositShares(p, amountA, amountB).value, Get(lp, caller)))
            && (r.Ok? ==>
                  && IsMint(r.value, p, amountA, amountB)
                  && PairOf(s', k) == Pair(p.reserveA + amountA, p.reserveB + amountB, p.totalLiquidity + r.value)
                  && Get(LpOf(s'.lpBalances, k), who) == Get(lp, who) + (if who == caller then r.value else 0))
  {
    hide IsMint, Moved, BalanceOf, Minted;
    var p := PairOf(s, SortTokens(tokenA, tokenB));
    if DepositShares(p, amountA, amountB).Ok? { MintOf(p, amountA, amountB); }
    DepositArithmetic(p, amountA, amountB);
    hide DepositShares;
  }

  lemma DepositArithmetic(p: Pair, a: nat, b: nat)
    ensures DepositShares(p, a, b).Ok? <==>
            if p.totalLiquidity == 0 then a * b < MAX
            else p.reserveA > 0 && p.reserveB > 0 && a * p.totalLiquidity <= MAX && b * p.totalLiquidity <= MAX
  {
    hide Minted;
  }

  /** In a sound state a withdrawal succeeds exactly when the pair has shares, the caller holds enough of them, the
      products fit, the amounts meet the minimums and the tokens are there; it burns the caller's shares and pays, of
      each token, exactly the shares' part of the reserve. */
  lemma WithdrawalEffect(s: Exchange, caller: Address, tokenA: Address, tokenB: Address, liquidity: nat,
                         minAmountA: nat, minAmountB: nat, who: Address)
    requires Inv(s) && tokenA != tokenB
    ensures var (s', r) := RemoveLiquidity(s, caller, tokenA, tokenB, liquidity, minAmountA, minAmountB);
            var k := SortTokens(tokenA, tokenB);
            var p, lp := PairOf(s, k), LpOf(s.lpBalances, k);
            && (r.Revert? ==> s' == s)
            && (r.Ok? <==>
                  && Found(s.pairs, k) && liquidity <= Get(lp, caller) && p.totalLiquidity > 0
                  && liquidity * p.reserveA <= MAX && liquidity * p.reserveB <= MAX
                  && minAmountA <= Redeemed(p, liquidity).0 <= BalanceOf(s.ledger, k.0, Contract)
                  && minAmountB <= Redeemed(p, liquidity).1 <= BalanceOf(s.ledger, k.1, Contract))
            && (r.Ok? ==>
                  && IsPart(r.value.0, liquidity, p.reserveA, p.totalLiquidity)
                  && IsPart(r.value.1, liquidity, p.reserveB, p.totalLiquidity)
                  && PairOf(s', k).reserveA == p.reserveA - r.value.0
                  && PairOf(s', k).reserveB == p.reserveB - r.value.1
                  && PairOf(s', k).totalLiquidity == p.totalLiquidity - liquidity
                  && Get(LpOf(s'.lpBalances, k), who) == Get(lp, who) - (if who == caller then liquidity else 0))
  {
    var k := SortTokens(tokenA, tokenB);
    var p := PairOf(s, k);
    if Found(s.pairs, k) {
      assert PairSound(s, k);
      SumAtLeast(LpOf(s.lpBalances, k), caller);
      if p.totalLiquidity > 0 {
        PartsOf(p, liquidity);
        if liquidity <= p.totalLiquidity { RedeemedWithinReserves(p, liquidity); }
      }
    }
    hide Inv, IsPart, Redeemed, Moved, BalanceOf;
  }

  // ----- the owner's calls

  /** Only the owner creates pairs, of two tokens, once per pair; a new pair is empty and nothing else changes. */
  lemma CreateEffect(s: Exchange, caller: Address, tokenA: Address, tokenB: Address, j: PairKey)
    ensures var (s', r) := CreatePair(s, caller, tokenA, tokenB);
            && (r.Ok? <==> caller == s.owner && tokenA != tokenB && !Found(s.pairs, SortTokens(tokenA, tokenB)))
            && (r.Revert? ==> s' == s)
            && (r.Ok? ==>
                  && SortTokens(tokenA, tokenB) in s'.pairs
                  && s'.pairs[SortTokens(tokenA, tokenB)] == Pair(0, 0, 0)
                  && (j != SortTokens(tokenA, tokenB) ==> PairOf(s', j) == PairOf(s, j))
                  && s' == s.(pairs := s'.pairs))
  {
  }

  /** Only the owner sets the fee, to at most a tenth, and nothing else changes. */
  lemma FeeEffect(s: Exchange, caller: Address, newFee: nat)
    ensures var (s', r) := SetTradingFee(s, caller, newFee);
            && (r.Ok? <==> caller == s.owner && newFee <= 1000)
            && s' == s.(tradingFee := s'.tradingFee)
            && s'.tradingFee == if r.Ok? then newFee else s.tradingFee
  {
  }
}
