/** What every run of the exchange keeps: backing, share value, LP totals and custody of the tokens. */
module DexRuns {
  import opened Arithmetic
  import opened Sums
  import opened TokenLedger
  import opened ConstantProduct
  import opened ExchangeSteps

  datatype Op =
    | DoCreate(caller: Address, tokenA: Address, tokenB: Address)
    | DoAdd(caller: Address, tokenA: Address, tokenB: Address, amountA: nat, amountB: nat, minLiquidity: nat,
            approved: bool)
    | DoRemove(caller: Address, tokenA: Address, tokenB: Address, liquidity: nat, minAmountA: nat, minAmountB: nat)
    | DoSwap(caller: Address, tokenIn: Address, tokenOut: Address, amountIn: nat, minAmountOut: nat, to: Holder,
             approved: bool)
    | DoSetFee(caller: Address, newFee: nat)
    | DoSetRecipient(caller: Address, recipient: Holder)
    | Elsewhere(ledger: Ledger)  // outside accounts trade among themselves
    | Donate(token: Address, sender: Address, amount: nat)  // somebody sends tokens straight to the contract

  ghost function Step(s: Exchange, op: Op): Exchange {
    match op
    case DoCreate(c, a, b) => CreatePair(s, c, a, b).0
    case DoAdd(c, a, b, x, y, m, ok) => AddLiquidity(s, c, a, b, x, y, m, ok).0
    case DoRemove(c, a, b, l, x, y) => RemoveLiquidity(s, c, a, b, l, x, y).0
    case DoSwap(c, i, o, x, m, to, ok) => Swap(s, c, i, o, x, m, to, ok).0
    case DoSetFee(c, f) => SetTradingFee(s, c, f).0
    case DoSetRecipient(c, r) => if c == s.owner then s.(feeRecipient := r) else s
    case Elsewhere(l) =>
      if forall t: Address :: BalanceOf(l, t, Contract) == BalanceOf(s.ledger, t, Contract) then s.(ledger := l) else s
    case Donate(t, sender, x) =>
      if x <= BalanceOf(s.ledger, t, Account(sender))
      then s.(ledger := Moved(s.ledger, t, Account(sender), Contract, x), surplus := Bump(s.surplus, t, x)) else s
  }

  ghost function Run(s: Exchange, ops: seq<Op>): Exchange
    decreases |ops|
  {
    if ops == [] then s else Run(Step(s, ops[0]), ops[1..])
  }

  // ----- reading the state

  ghost function PairOf(s: Exchange, k: PairKey): Pair {
    if Found(s.pairs, k) then s.pairs[k] else Pair(0, 0, 0)
  }

  function ReserveIn(p: Pair, k: PairKey, t: Address): nat {
    if t == k.0 then p.reserveA else if t == k.1 then p.reserveB else 0
  }

  ghost function ReservesByPair(pairs: map<PairKey, Pair>, t: Address): map<PairKey, nat> {
    map k | k in pairs :: ReserveIn(pairs[k], k, t)
  }

  /** All reserves booked for a token, over every pair that trades it. */
  ghost function Reserves(s: Exchange, t: Address): nat {
    Sum(ReservesByPair(s.pairs, t))
  }

  ghost function Held(s: Exchange, t: Address): nat {
    BalanceOf(s.ledger, t, Contract)
  }

  /** Tokens held = reserves - fees that left + tokens belonging to no reserve. */
  ghost predicate Custody(s: Exchange, t: Address) {
    Held(s, t) + Get(s.feesPaid, t) == Reserves(s, t) + Get(s.surplus, t)
  }

  ghost predicate PairSound(s: Exchange, k: PairKey)
    requires k in s.pairs
  {
    && k.0 < k.1
    && Backed(s.pairs[k])
    && Sum(LpOf(s.lpBalances, k)) == s.pairs[k].totalLiquidity
    && (k.0 == 0 ==> s.pairs[k] == Pair(0, 0, 0))
  }

  ghost predicate Inv(s: Exchange) {
    && s.tradingFee <= MAX_FEE
    && (forall k :: k in s.pairs ==> PairSound(s, k))
    && (forall k :: k in s.lpBalances && k !in s.pairs ==> Sum(s.lpBalances[k]) == 0)
    && (forall t: Address :: Custody(s, t))
  }

  // ----- preservation, one call at a time

  lemma ReservesUpdate(s: Exchange, k: PairKey, q: Pair, t: Address)
    ensures Sum(ReservesByPair(s.pairs[k := q], t)) ==
            Reserves(s, t) - (if k in s.pairs then ReserveIn(s.pairs[k], k, t) else 0) + ReserveIn(q, k, t)
  {
    assert ReservesByPair(s.pairs[k := q], t) == ReservesByPair(s.pairs, t)[k := ReserveIn(q, k, t)];
    SumUpdate(ReservesByPair(s.pairs, t), k, ReserveIn(q, k, t));
  }

  lemma DeployedInv(owner: Address, feeRecipient: Holder, ledger: Ledger)
    ensures Inv(Deployed(owner, feeRecipient, ledger))
  {
    hide HeldAtStart;
    var s := Deployed(owner, feeRecipient, ledger);
    forall t: Address ensures Custody(s, t) {
      HeldAtStartReads(ledger, t);
      assert ReservesByPair(s.pairs, t) == map[];
    }
  }

  lemma HeldAtStartReads(ledger: Ledger, t: Address)
    ensures Get(HeldAtStart(ledger), t) == BalanceOf(ledger, t, Contract)
  {
    if (t, Contract) in ledger {
      assert t in HeldAtStart(ledger);
    }
  }

  lemma CreateKeepsInv(s: Exchange, caller: Address, tokenA: Address, tokenB: Address)
    requires Inv(s)
    ensures Inv(CreatePair(s, caller, tokenA, tokenB).0)
  {
    var (s', r) := CreatePair(s, caller, tokenA, tokenB);
    if r.Ok? {
      var k := SortTokens(tokenA, tokenB);
      forall t: Address ensures Custody(s', t) {
        ReservesUpdate(s, k, Pair(0, 0, 0), t);
        assert Custody(s, t);
      }
      assert PairSound(s', k);
      forall j | j in s'.pairs ensures PairSound(s', j) {
        if j != k { assert PairSound(s, j); }
      }
    }
  }

  /** Writing one pair and its LP balances, with everything else about pairs left alone. */
  lemma PairWritten(s: Exchange, s': Exchange, k: PairKey, q: Pair, lp: map<Address, nat>)
    requires Inv(s) && k in s.pairs && s'.tradingFee == s.tradingFee
    requires s'.pairs == s.pairs[k := q] && s'.lpBalances == s.lpBalances[k := lp]
    requires Backed(q) && Sum(lp) == q.totalLiquidity && k.0 != 0
    requires forall t: Address :: Custody(s', t)
    ensures Inv(s')
  {
    hide Backed, Sum, Custody;
    assert PairSound(s, k);
    forall j | j in s'.pairs ensures PairSound(s', j) {
      if j != k { assert PairSound(s, j); }
    }
  }

  lemma AddCustody(s: Exchange, caller: Address, tokenA: Address, tokenB: Address,
                   amountA: nat, amountB: nat, minLiquidity: nat, approved: bool, t: Address)
    requires Custody(s, t)
    ensures Custody(AddLiquidity(s, caller, tokenA, tokenB, amountA, amountB, minLiquidity, approved).0, t)
  {
    hide DepositShares, Moved, BalanceOf, ReservesByPair, Sum, DepositOverflows;
    var (s', r) := AddLiquidity(s, caller, tokenA, tokenB, amountA, amountB, minLiquidity, approved);
    if r.Ok? {
      var k := SortTokens(tokenA, tokenB);
      ReservesUpdate(s, k, s'.pairs[k], t);
    }
  }

  lemma DepositBacked(p: Pair, a: nat, b: nat)
    requires Backed(p)
    ensures p.totalLiquidity > 0 ==> p.reserveA > 0 && p.reserveB > 0
    ensures Backed(Deposited(p, a, b, Minted(p, a, b)))
  {
    if p.totalLiquidity == 0 {
      FirstDepositBacked(p, a, b);
    } else {
      BackedReservesPositive(p);
      DepositKeepsShareValue(p, a, b);
      ShareValueBacks(p, Deposited(p, a, b, Minted(p, a, b)));
    }
  }

  lemma AddKeepsInv(s: Exchange, caller: Address, tokenA: Address, tokenB: Address,
                    amountA: nat, amountB: nat, minLiquidity: nat, approved: bool)
    requires Inv(s)
    ensures Inv(AddLiquidity(s, caller, tokenA, tokenB, amountA, amountB, minLiquidity, approved).0)
  {
    hide DepositShares, Minted, Moved, Custody, Backed, Sum;
    var (s', r) := AddLiquidity(s, caller, tokenA, tokenB, amountA, amountB, minLiquidity, approved);
    if r.Ok? {
      var k := SortTokens(tokenA, tokenB);
      var lp := LpOf(s.lpBalances, k);
      assert PairSound(s, k);
      DepositBacked(s.pairs[k], amountA, amountB);
      SumUpdate(lp, caller, Get(lp, caller) + r.value);
      forall t: Address ensures Custody(s', t) {
        AddCustody(s, caller, tokenA, tokenB, amountA, amountB, minLiquidity, approved, t);
      }
      PairWritten(s, s', k, s'.pairs[k], Bump(lp, caller, r.value));
    }
  }

  /** The bookkeeping of a withdrawal, for any amounts. */
  lemma PayoutCustody(s: Exchange, s': Exchange, k: PairKey, caller: Address, outA: nat, outB: nat, shares: nat,
                      t: Address)
    requires Custody(s, t) && k in s.pairs && k.0 < k.1
    requires var p := s.pairs[k];
             && outA <= p.reserveA && outB <= p.reserveB
             && s'.pairs == s.pairs[k := Pair(p.reserveA - outA, p.reserveB - outB, shares)]
    requires outA <= Held(s, k.0) && outB <= Held(s, k.1)
    requires s'.ledger ==
             Moved(Moved(s.ledger, k.0, Contract, Account(caller), outA), k.1, Contract, Account(caller), outB)
    requires s'.feesPaid == s.feesPaid && s'.surplus == s.surplus
    ensures Custody(s', t)
  {
    hide Moved, BalanceOf, ReservesByPair, Sum;
    ReservesUpdate(s, k, s'.pairs[k], t);
  }

  lemma RemoveCustody(s: Exchange, caller: Address, tokenA: Address, tokenB: Address,
                      liquidity: nat, minAmountA: nat, minAmountB: nat, t: Address)
    requires Custody(s, t)
    ensures Custody(RemoveLiquidity(s, caller, tokenA, tokenB, liquidity, minAmountA, minAmountB).0, t)
  {
    hide Redeemed, Moved, BalanceOf, Custody;
    var (s', r) := RemoveLiquidity(s, caller, tokenA, tokenB, liquidity, minAmountA, minAmountB);
    if r.Ok? {
      var k := SortTokens(tokenA, tokenB);
      PayoutCustody(s, s', k, caller, r.value.0, r.value.1, s'.pairs[k].totalLiquidity, t);
    }
  }

  lemma RemoveKeepsInv(s: Exchange, caller: Address, tokenA: Address, tokenB: Address,
                       liquidity: nat, minAmountA: nat, minAmountB: nat)
    requires Inv(s)
    ensures Inv(RemoveLiquidity(s, caller, tokenA, tokenB, liquidity, minAmountA, minAmountB).0)
  {
    hide Redeemed, Moved, Custody, Backed, Sum;
    var (s', r) := RemoveLiquidity(s, caller, tokenA, tokenB, liquidity, minAmountA, minAmountB);
    if r.Ok? {
      var k := SortTokens(tokenA, tokenB);
      var lp := LpOf(s.lpBalances, k);
      assert PairSound(s, k);
      WithdrawalKeepsShareValue(s.pairs[k], liquidity);
      ShareValueBacks(s.pairs[k], s'.pairs[k]);
      SumUpdate(lp, caller, Get(lp, caller) - liquidity);
      forall t: Address ensures Custody(s', t) {
        RemoveCustody(s, caller, tokenA, tokenB, liquidity, minAmountA, minAmountB, t);
      }
      PairWritten(s, s', k, s'.pairs[k], lp[caller := Get(lp, caller) - liquidity]);
    }
  }

  ghost function SwapLedger(l: Ledger, caller: Address, tokenIn: Address, tokenOut: Address, to: Holder,
                            feeRecipient: Holder, amountIn: nat, out: nat, fee: nat): Ledger
    requires tokenIn != tokenOut && fee <= amountIn
    requires amountIn <= BalanceOf(l, tokenIn, Account(caller)) && out <= BalanceOf(l, tokenOut, Contract)
  {
    Moved(Moved(Moved(l, tokenIn, Account(caller), Contract, amountIn), tokenOut, Contract, to, out),
          tokenIn, Contract, feeRecipient, fee)
  }

  lemma SwapLedgerHeld(l: Ledger, caller: Address, tokenIn: Address, tokenOut: Address, to: Holder,
                       feeRecipient: Holder, amountIn: nat, out: nat, fee: nat, t: Address)
    requires tokenIn != tokenOut && fee <= amountIn
    requires amountIn <= BalanceOf(l, tokenIn, Account(caller)) && out <= BalanceOf(l, tokenOut, Contract)
    ensures BalanceOf(SwapLedger(l, caller, tokenIn, tokenOut, to, feeRecipient, amountIn, out, fee), t, Contract) ==
            BalanceOf(l, t, Contract)
            + (if t == tokenIn then amountIn - (if feeRecipient == Contract then 0 else fee) else 0)
            - (if t == tokenOut && to != Contract then out else 0)
  {
    hide Moved, BalanceOf;
  }

  /** The bookkeeping of a swap, for any amounts: input in, output out, fee out of the input. */
  lemma SettlementCustody(s: Exchange, s': Exchange, k: PairKey, aToB: bool, caller: Address, to: Holder,
                          amountIn: nat, out: nat, fee: nat, t: Address)
    requires Custody(s, t) && k in s.pairs && k.0 < k.1 && fee <= amountIn
    requires var p := s.pairs[k];
             && out <= (if aToB then p.reserveB else p.reserveA)
             && s'.pairs == s.pairs[k := if aToB then Pair(p.reserveA + amountIn, p.reserveB - out, p.totalLiquidity)
                                         else Pair(p.reserveA - out, p.reserveB + amountIn, p.totalLiquidity)]
    requires var tokenIn, tokenOut := if aToB then k.0 else k.1, if aToB then k.1 else k.0;
             && amountIn <= BalanceOf(s.ledger, tokenIn, Account(caller)) && out <= Held(s, tokenOut)
             && s'.ledger == SwapLedger(s.ledger, caller, tokenIn, tokenOut, to, s.feeRecipient, amountIn, out, fee)
             && s'.feesPaid == (if s.feeRecipient == Contract then s.feesPaid else Bump(s.feesPaid, tokenIn, fee))
             && s'.surplus == (if to == Contract then Bump(s.surplus, tokenOut, out) else s.surplus)
    ensures Custody(s', t)
  {
    hide SwapLedger, ReservesByPair, Sum, BalanceOf;
    var tokenIn, tokenOut := if aToB then k.0 else k.1, if aToB then k.1 else k.0;
    SwapLedgerHeld(s.ledger, caller, tokenIn, tokenOut, to, s.feeRecipient, amountIn, out, fee, t);
    ReservesUpdate(s, k, s'.pairs[k], t);
  }

  /** What a successful swap leaves behind, field by field. */
  lemma SwapShape(s: Exchange, caller: Address, tokenIn: Address, tokenOut: Address,
                  amountIn: nat, minAmountOut: nat, to: Holder, approved: bool)
    requires Swap(s, caller, tokenIn, tokenOut, amountIn, minAmountOut, to, approved).1.Ok?
    ensures tokenIn != tokenOut && s.tradingFee <= FEE_DENOMINATOR
    ensures var (s', r) := Swap(s, caller, tokenIn, tokenOut, amountIn, minAmountOut, to, approved);
            var k, fee := SortTokens(tokenIn, tokenOut), amountIn - NetIn(amountIn, s.tradingFee);
            && k in s.pairs && k.0 < k.1 && fee <= amountIn
            && CanSwap(s.pairs[k], tokenIn == k.0, amountIn, s.tradingFee)
            && r.value == SwapOut(s.pairs[k], tokenIn == k.0, amountIn, s.tradingFee)
            && s'.pairs == s.pairs[k := Swapped(s.pairs[k], tokenIn == k.0, amountIn, s.tradingFee)]
            && amountIn <= BalanceOf(s.ledger, tokenIn, Account(caller)) && r.value <= Held(s, tokenOut)
            && s'.ledger == SwapLedger(s.ledger, caller, tokenIn, tokenOut, to, s.feeRecipient, amountIn, r.value, fee)
            && s'.feesPaid == (if s.feeRecipient == Contract then s.feesPaid else Bump(s.feesPaid, tokenIn, fee))
            && s'.surplus == (if to == Contract then Bump(s.surplus, tokenOut, r.value) else s.surplus)
  {
    hide NetIn, AmountOut, Moved, Bump, BalanceOf, Swapped, SwapOut;
  }

  lemma SwapCustody(s: Exchange, caller: Address, tokenIn: Address, tokenOut: Address,
                    amountIn: nat, minAmountOut: nat, to: Holder, approved: bool, t: Address)
    requires Custody(s, t)
    ensures Custody(Swap(s, caller, tokenIn, tokenOut, amountIn, minAmountOut, to, approved).0, t)
  {
    hide Swap, SwapLedger, NetIn, AmountOut, Custody, Bump, BalanceOf, Swapped, SwapOut;
    var (s', r) := Swap(s, caller, tokenIn, tokenOut, amountIn, minAmountOut, to, approved);
    if r.Ok? {
      SwapShape(s, caller, tokenIn, tokenOut, amountIn, minAmountOut, to, approved);
      var k := SortTokens(tokenIn, tokenOut);
      SwappedPair(s.pairs[k], tokenIn == k.0, amountIn, s.tradingFee);
      SettlementCustody(s, s', k, tokenIn == k.0, caller, to, amountIn, r.value,
                        amountIn - NetIn(amountIn, s.tradingFee), t);
    } else {
      RevertedSwap(s, caller, tokenIn, tokenOut, amountIn, minAmountOut, to, approved);
    }
  }

  lemma SwappedPair(p: Pair, aToB: bool, amountIn: nat, fee: nat)
    requires CanSwap(p, aToB, amountIn, fee)
    ensures var out := SwapOut(p, aToB, amountIn, fee);
            && out <= (if aToB then p.reserveB else p.reserveA)
            && Swapped(p, aToB, amountIn, fee) ==
               if aToB then Pair(p.reserveA + amountIn, p.reserveB - out, p.totalLiquidity)
               else Pair(p.reserveA - out, p.reserveB + amountIn, p.totalLiquidity)
  {
    hide AmountOut, NetIn;
  }

  lemma RevertedSwap(s: Exchange, caller: Address, tokenIn: Address, tokenOut: Address,
                     amountIn: nat, minAmountOut: nat, to: Holder, approved: bool)
    requires Swap(s, caller, tokenIn, tokenOut, amountIn, minAmountOut, to, approved).1.Revert?
    ensures Swap(s, caller, tokenIn, tokenOut, amountIn, minAmountOut, to, approved).0 == s
  {
    hide Quote, NetIn, Moved, Bump, BalanceOf, Swapped;
  }

  lemma SwapKeepsInv(s: Exchange, caller: Address, tokenIn: Address, tokenOut: Address,
                     amountIn: nat, minAmountOut: nat, to: Holder, approved: bool)
    requires Inv(s)
    ensures Inv(Swap(s, caller, tokenIn, tokenOut, amountIn, minAmountOut, to, approved).0)
  {
    hide Quote, NetIn, SwapOut, Moved, Custody, Sum;
    var (s', r) := Swap(s, caller, tokenIn, tokenOut, amountIn, minAmountOut, to, approved);
    if r.Ok? {
      var k := SortTokens(tokenIn, tokenOut);
      assert PairSound(s, k);
      SwapKeepsProduct(s.pairs[k], tokenIn == k.0, amountIn, s.tradingFee);
      forall j | j in s'.pairs ensures PairSound(s', j) {
        assert PairSound(s, j);
      }
      forall t: Address ensures Custody(s', t) {
        SwapCustody(s, caller, tokenIn, tokenOut, amountIn, minAmountOut, to, approved, t);
      }
    }
  }

  lemma StepKeepsInv(s: Exchange, op: Op)
    requires Inv(s)
    ensures Inv(Step(s, op))
  {
    hide Inv, CreatePair, AddLiquidity, RemoveLiquidity, Swap, Moved, BalanceOf;
    match op
    case DoCreate(c, a, b) => CreateKeepsInv(s, c, a, b);
    case DoAdd(c, a, b, x, y, m, ok) => AddKeepsInv(s, c, a, b, x, y, m, ok);
    case DoRemove(c, a, b, l, x, y) => RemoveKeepsInv(s, c, a, b, l, x, y);
    case DoSwap(c, i, o, x, m, to, ok) => SwapKeepsInv(s, c, i, o, x, m, to, ok);
    case DoSetFee(c, f) => OtherFieldsKeepInv(s, op);
    case DoSetRecipient(c, r) => OtherFieldsKeepInv(s, op);
    case Elsewhere(l) => OtherFieldsKeepInv(s, op);
    case Donate(t, sender, x) => if x <= BalanceOf(s.ledger, t, Account(sender)) { DonateKeepsInv(s, t, sender, x); }
  }

  /** Tokens sent straight to the contract belong to no reserve. */
  lemma DonateKeepsInv(s: Exchange, token: Address, sender: Address, amount: nat)
    requires Inv(s) && amount <= BalanceOf(s.ledger, token, Account(sender))
    ensures Inv(s.(ledger := Moved(s.ledger, token, Account(sender), Contract, amount),
                   surplus := Bump(s.surplus, token, amount)))
  {
    hide Backed, Sum, ReservesByPair, BalanceOf, Moved;
    var s' := s.(ledger := Moved(s.ledger, token, Account(sender), Contract, amount),
                 surplus := Bump(s.surplus, token, amount));
    forall k | k in s'.pairs ensures PairSound(s', k) { assert PairSound(s, k); }
    forall t: Address ensures Custody(s', t) { assert Custody(s, t); }
  }

  lemma OtherFieldsKeepInv(s: Exchange, op: Op)
    requires Inv(s) && (op.DoSetFee? || op.DoSetRecipient? || op.Elsewhere?)
    ensures Inv(Step(s, op))
  {
    hide Inv, CreatePair, AddLiquidity, RemoveLiquidity, Swap, BalanceOf;
    FieldsOfPairsKept(s, Step(s, op));
  }

  lemma FieldsOfPairsKept(s: Exchange, s': Exchange)
    requires Inv(s) && s'.pairs == s.pairs && s'.lpBalances == s.lpBalances
    requires s'.tradingFee == s.tradingFee || s'.tradingFee <= MAX_FEE
    requires s'.feesPaid == s.feesPaid && s'.surplus == s.surplus
    requires forall t: Address :: BalanceOf(s'.ledger, t, Contract) == BalanceOf(s.ledger, t, Contract)
    ensures Inv(s')
  {
    hide Backed, Sum, ReservesByPair, BalanceOf;
    forall k | k in s'.pairs ensures PairSound(s', k) { assert PairSound(s, k); }
    forall t: Address ensures Custody(s', t) { assert Custody(s, t); }
  }

  lemma {:induction false} RunKeepsInv(s: Exchange, ops: seq<Op>)
    requires Inv(s)
    ensures Inv(Run(s, ops))
    decreases |ops|
  {
    if ops != [] {
      StepKeepsInv(s, ops[0]);
      RunKeepsInv(Step(s, ops[0]), ops[1..]);
    }
  }

  /** Every state reachable from deployment: reserveA * reserveB >= totalLiquidity^2, LP balances add up to
      totalLiquidity, reserves are positive while shares are out, and custody is reserves less the fees paid out. */
  lemma Reachable(owner: Address, feeRecipient: Holder, ledger: Ledger, ops: seq<Op>, k: PairKey, t: Address)
    ensures var s := Run(Deployed(owner, feeRecipient, ledger), ops);
            && s.tradingFee <= MAX_FEE
            && Held(s, t) + Get(s.feesPaid, t) == Reserves(s, t) + Get(s.surplus, t)
            && (k in s.pairs ==>
                  var p := s.pairs[k];
                  && p.reserveA * p.reserveB >= p.totalLiquidity * p.totalLiquidity
                  && Sum(LpOf(s.lpBalances, k)) == p.totalLiquidity
                  && (p.totalLiquidity > 0 ==> p.reserveA > 0 && p.reserveB > 0))
  {
    DeployedInv(owner, feeRecipient, ledger);
    RunKeepsInv(Deployed(owner, feeRecipient, ledger), ops);
    var s := Run(Deployed(owner, feeRecipient, ledger), ops);
    assert Custody(s, t);
    if k in s.pairs {
      assert PairSound(s, k);
      if s.pairs[k].totalLiquidity > 0 { BackedReservesPositive(s.pairs[k]); }
    }
  }

  // ----- share value over runs

  lemma AddKeepsShareValue(s: Exchange, caller: Address, tokenA: Address, tokenB: Address,
                           amountA: nat, amountB: nat, minLiquidity: nat, approved: bool, k: PairKey)
    requires PairOf(s, k).totalLiquidity > 0 && Backed(PairOf(s, k))
    ensures var s' := AddLiquidity(s, caller, tokenA, tokenB, amountA, amountB, minLiquidity, approved).0;
            ShareNoCheaper(PairOf(s, k), PairOf(s', k))
  {
    hide DepositShares, Minted, Moved, Backed, ShareNoCheaper;
    var p := PairOf(s, k);
    BackedReservesPositive(p);
    ProductKeepsShareValue(p, p);
    DepositKeepsShareValue(p, amountA, amountB);
  }

  lemma RemoveKeepsShareValue(s: Exchange, caller: Address, tokenA: Address, tokenB: Address,
                              liquidity: nat, minAmountA: nat, minAmountB: nat, k: PairKey)
    requires PairOf(s, k).totalLiquidity > 0
    ensures var s' := RemoveLiquidity(s, caller, tokenA, tokenB, liquidity, minAmountA, minAmountB).0;
            ShareNoCheaper(PairOf(s, k), PairOf(s', k))
  {
    hide Redeemed, Withdrawn, Moved, ShareNoCheaper;
    var p := PairOf(s, k);
    ProductKeepsShareValue(p, p);
    if liquidity <= p.totalLiquidity { WithdrawalKeepsShareValue(p, liquidity); }
  }

  lemma SwapKeepsShareValue(s: Exchange, caller: Address, tokenIn: Address, tokenOut: Address,
                            amountIn: nat, minAmountOut: nat, to: Holder, approved: bool, k: PairKey)
    ensures var s' := Swap(s, caller, tokenIn, tokenOut, amountIn, minAmountOut, to, approved).0;
            && ShareNoCheaper(PairOf(s, k), PairOf(s', k))
            && PairOf(s', k).totalLiquidity == PairOf(s, k).totalLiquidity
  {
    hide Quote, NetIn, SwapOut, Moved, ShareNoCheaper, CanSwap;
    var p, aToB := PairOf(s, k), tokenIn == k.0;
    ProductKeepsShareValue(p, p);
    if CanSwap(p, aToB, amountIn, s.tradingFee) {
      SwapPairKeepsShareValue(p, aToB, amountIn, s.tradingFee);
    }
  }

  lemma StepKeepsShareValue(s: Exchange, op: Op, k: PairKey)
    requires Inv(s) && PairOf(s, k).totalLiquidity > 0
    ensures ShareNoCheaper(PairOf(s, k), PairOf(Step(s, op), k))
    ensures op.DoSwap? ==> PairOf(Step(s, op), k).totalLiquidity == PairOf(s, k).totalLiquidity
  {
    hide AddLiquidity, RemoveLiquidity, Swap, ShareNoCheaper, Backed;
    assert PairSound(s, k);
    ProductKeepsShareValue(PairOf(s, k), PairOf(s, k));
    match op
    case DoAdd(c, a, b, x, y, m, ok) => AddKeepsShareValue(s, c, a, b, x, y, m, ok, k);
    case DoRemove(c, a, b, l, x, y) => RemoveKeepsShareValue(s, c, a, b, l, x, y, k);
    case DoSwap(c, i, o, x, m, to, ok) => SwapKeepsShareValue(s, c, i, o, x, m, to, ok, k);
    case _ =>
  }

  lemma SwapPairKeepsShareValue(p: Pair, aToB: bool, amountIn: nat, fee: nat)
    requires CanSwap(p, aToB, amountIn, fee)
    ensures ShareNoCheaper(p, Swapped(p, aToB, amountIn, fee))
  {
    SwapKeepsProduct(p, aToB, amountIn, fee);
    ProductKeepsShareValue(p, Swapped(p, aToB, amountIn, fee));
  }

  /** Shares of pair k are outstanding before every step of the run. */
  ghost predicate AlwaysShares(s: Exchange, ops: seq<Op>, k: PairKey)
    decreases |ops|
  {
    ops != [] ==> PairOf(s, k).totalLiquidity > 0 && AlwaysShares(Step(s, ops[0]), ops[1..], k)
  }

  lemma {:induction false} RunKeepsShareValue(s: Exchange, ops: seq<Op>, k: PairKey)
    requires Inv(s) && AlwaysShares(s, ops, k)
    ensures ShareNoCheaper(PairOf(s, k), PairOf(Run(s, ops), k))
    decreases |ops|
  {
    if ops != [] {
      var s1 := Step(s, ops[0]);
      StepKeepsInv(s, ops[0]);
      StepKeepsShareValue(s, ops[0], k);
      RunKeepsShareValue(s1, ops[1..], k);
      if ops[1..] == [] {
        assert Run(s, ops) == s1;
      } else {
        ShareValueTransitive(PairOf(s, k), PairOf(s1, k), PairOf(Run(s, ops), k));
      }
    }
  }

  /** No run extracts value: if it ends with as many shares as it began with, and one reserve is back at its
      starting value, then the other is no lower. Deposits and withdrawals in between are allowed. */
  lemma NoExtraction(s: Exchange, ops: seq<Op>, k: PairKey)
    requires Inv(s) && PairOf(s, k).totalLiquidity > 0 && AlwaysShares(s, ops, k)
    requires PairOf(Run(s, ops), k).totalLiquidity == PairOf(s, k).totalLiquidity
    ensures var p, q := PairOf(s, k), PairOf(Run(s, ops), k);
            && q.reserveA * q.reserveB >= p.reserveA * p.reserveB
            && (q.reserveA == p.reserveA ==> q.reserveB >= p.reserveB)
            && (q.reserveB == p.reserveB ==> q.reserveA >= p.reserveA)
  {
    var p, q := PairOf(s, k), PairOf(Run(s, ops), k);
    RunKeepsShareValue(s, ops, k);
    assert PairSound(s, k);
    SameSharesNoLower(p, q);
  }

  lemma SameSharesNoLower(p: Pair, q: Pair)
    requires Backed(p) && p.totalLiquidity > 0 && ShareNoCheaper(p, q) && q.totalLiquidity == p.totalLiquidity
    ensures q.reserveA * q.reserveB >= p.reserveA * p.reserveB
    ensures q.reserveA == p.reserveA ==> q.reserveB >= p.reserveB
    ensures q.reserveB == p.reserveB ==> q.reserveA >= p.reserveA
  {
    BackedReservesPositive(p);
    assert p.totalLiquidity * p.totalLiquidity > 0;
    CancelFactor(q.reserveA * q.reserveB, p.reserveA * p.reserveB, p.totalLiquidity * p.totalLiquidity);
    OneSideReturns(p, q);
  }

  lemma {:induction false} SwapsKeepShares(s: Exchange, ops: seq<Op>, k: PairKey)
    requires Inv(s) && PairOf(s, k).totalLiquidity > 0
    requires forall i :: 0 <= i < |ops| ==> ops[i].DoSwap?
    ensures AlwaysShares(s, ops, k)
    ensures PairOf(Run(s, ops), k).totalLiquidity == PairOf(s, k).totalLiquidity
    decreases |ops|
  {
    if ops != [] {
      StepKeepsInv(s, ops[0]);
      StepKeepsShareValue(s, ops[0], k);
      SwapsKeepShares(Step(s, ops[0]), ops[1..], k);
    }
  }

  /** Any sequence of swaps, by anyone, on any pairs. */
  lemma SwapsExtractNothing(s: Exchange, ops: seq<Op>, k: PairKey)
    requires Inv(s) && PairOf(s, k).totalLiquidity > 0
    requires forall i :: 0 <= i < |ops| ==> ops[i].DoSwap?
    ensures var p, q := PairOf(s, k), PairOf(Run(s, ops), k);
            && q.reserveA * q.reserveB >= p.reserveA * p.reserveB
            && (q.reserveA == p.reserveA ==> q.reserveB >= p.reserveB)
            && (q.reserveB == p.reserveB ==> q.reserveA >= p.reserveA)
  {
    SwapsKeepShares(s, ops, k);
    NoExtraction(s, ops, k);
  }

  // ----- calls in context

  /** k reads alike before and after. */
  ghost predicate Untouched(s: Exchange, s': Exchange, k: PairKey) {
    && (k in s.pairs ==> k in s'.pairs && s'.pairs[k] == s.pairs[k])
    && LpOf(s'.lpBalances, k) == LpOf(s.lpBalances, k)
  }

  lemma DepositTouchesOne(s: Exchange, caller: Address, tokenA: Address, tokenB: Address, amountA: nat, amountB: nat,
                          minLiquidity: nat, approved: bool, k: PairKey)
    requires tokenA != tokenB ==> SortTokens(tokenA, tokenB) != k
    ensures Untouched(s, AddLiquidity(s, caller, tokenA, tokenB, amountA, amountB, minLiquidity, approved).0, k)
  {
    hide DepositShares, DepositOverflows, Moved, BalanceOf, Bump;
  }

  lemma WithdrawalTouchesOne(s: Exchange, caller: Address, tokenA: Address, tokenB: Address, liquidity: nat,
                             minAmountA: nat, minAmountB: nat, k: PairKey)
    requires tokenA != tokenB ==> SortTokens(tokenA, tokenB) != k
    ensures Untouched(s, RemoveLiquidity(s, caller, tokenA, tokenB, liquidity, minAmountA, minAmountB).0, k)
  {
    hide Redeemed, Withdrawn, Moved, BalanceOf;
  }

  lemma SwapTouchesOne(s: Exchange, caller: Address, tokenIn: Address, tokenOut: Address, amountIn: nat,
                       minAmountOut: nat, to: Holder, approved: bool, k: PairKey)
    requires tokenIn != tokenOut ==> SortTokens(tokenIn, tokenOut) != k
    ensures Untouched(s, Swap(s, caller, tokenIn, tokenOut, amountIn, minAmountOut, to, approved).0, k)
  {
    hide Quote, Swapped, NetIn, Moved, BalanceOf, Bump;
  }

  /** A call on one pair leaves every other pair and its LP balances alone. */
  lemma OtherPairsUntouched(s: Exchange, op: Op, k: PairKey)
    requires Found(s.pairs, k)
    requires (op.DoCreate? || op.DoAdd? || op.DoRemove?) ==> {op.tokenA, op.tokenB} != {k.0, k.1}
    requires op.DoSwap? ==> {op.tokenIn, op.tokenOut} != {k.0, k.1}
    ensures Untouched(s, Step(s, op), k)
  {
    hide AddLiquidity, RemoveLiquidity, Swap, BalanceOf;
    match op
    case DoAdd(c, a, b, x, y, m, ok) => DepositTouchesOne(s, c, a, b, x, y, m, ok, k);
    case DoRemove(c, a, b, l, x, y) => WithdrawalTouchesOne(s, c, a, b, l, x, y, k);
    case DoSwap(c, i, o, x, m, to, ok) => SwapTouchesOne(s, c, i, o, x, m, to, ok, k);
    case _ =>
  }

  /** In a reachable state no subtraction underflows: a removal within the caller's LP balance can fail only for an
      empty pair, an oversized product, slippage, or missing custody. */
  lemma RemoveNeverUnderflows(s: Exchange, caller: Address, tokenA: Address, tokenB: Address,
                              liquidity: nat, minAmountA: nat, minAmountB: nat)
    requires Inv(s)
    ensures RemoveLiquidity(s, caller, tokenA, tokenB, liquidity, minAmountA, minAmountB).1 != Revert(Underflow)
    ensures liquidity > 0 ==>
              RemoveLiquidity(s, caller, tokenA, tokenB, liquidity, minAmountA, minAmountB).1 != Revert(DivisionByZero)
  {
    if tokenA != tokenB {
      var k := SortTokens(tokenA, tokenB);
      if Found(s.pairs, k) {
        assert PairSound(s, k);
        SumAtLeast(LpOf(s.lpBalances, k), caller);
        var p := s.pairs[k];
        if 0 < p.totalLiquidity && liquidity <= p.totalLiquidity { RedeemedWithinReserves(p, liquidity); }
      }
    }
  }

  /** Depositing and at once removing the minted shares returns at most the deposit on both sides, in every state
      where shares are outstanding. */
  lemma AddThenRemove(s: Exchange, caller: Address, tokenA: Address, tokenB: Address,
                      amountA: nat, amountB: nat, minLiquidity: nat, approved: bool)
    requires Inv(s) && tokenA != tokenB && PairOf(s, SortTokens(tokenA, tokenB)).totalLiquidity > 0
    ensures var (s1, minted) := AddLiquidity(s, caller, tokenA, tokenB, amountA, amountB, minLiquidity, approved);
            minted.Ok? ==>
              var out := RemoveLiquidity(s1, caller, tokenA, tokenB, minted.value, 0, 0).1;
              out.Ok? ==> out.value.0 <= amountA && out.value.1 <= amountB
  {
    var k := SortTokens(tokenA, tokenB);
    assert PairSound(s, k);
    BackedReservesPositive(s.pairs[k]);
    DepositThenRedeem(s.pairs[k], amountA, amountB);
  }

  /** In a pair without shares, the same round trip returns the deposit plus what stray swaps left in the reserves, so
      it returns at most the deposit exactly when both reserves were empty. */
  lemma FirstAddThenRemove(s: Exchange, caller: Address, tokenA: Address, tokenB: Address,
                           amountA: nat, amountB: nat, minLiquidity: nat, approved: bool)
    requires Inv(s) && tokenA != tokenB && Found(s.pairs, SortTokens(tokenA, tokenB))
    requires PairOf(s, SortTokens(tokenA, tokenB)).totalLiquidity == 0 && amountA > 0 && amountB > 0
    ensures var p := PairOf(s, SortTokens(tokenA, tokenB));
            var (s1, minted) := AddLiquidity(s, caller, tokenA, tokenB, amountA, amountB, minLiquidity, approved);
            minted.Ok? ==>
              var out := RemoveLiquidity(s1, caller, tokenA, tokenB, minted.value, 0, 0).1;
              out.Ok? ==>
                && out.value == (p.reserveA + amountA, p.reserveB + amountB)
                && (out.value.0 <= amountA && out.value.1 <= amountB <==> p.reserveA == 0 && p.reserveB == 0)
  {
    FirstDepositThenRedeem(s.pairs[SortTokens(tokenA, tokenB)], amountA, amountB);
  }

  // ----- custody and withdrawals

  /** The reserves of a token booked in all other pairs. */
  ghost function OtherReserves(s: Exchange, k: PairKey, t: Address): nat {
    Sum(ReservesByPair(s.pairs, t) - {k})
  }

  lemma ReservesElsewhere(s: Exchange, k: PairKey, t: Address)
    requires k in s.pairs
    ensures Reserves(s, t) == ReserveIn(s.pairs[k], k, t) + OtherReserves(s, k, t)
  {
    SumRemove(ReservesByPair(s.pairs, t), k);
  }

  /** Fees paid out of custody are covered by tokens of no reserve and by the other pairs' reserves. */
  ghost predicate FeesCovered(s: Exchange, k: PairKey, t: Address) {
    Get(s.feesPaid, t) <= Get(s.surplus, t) + OtherReserves(s, k, t)
  }

  /** The holder of all shares of a pair can withdraw everything exactly when the products fit and the fees paid in
      each token are covered by holdings that do not back this pair. */
  lemma FullWithdrawalPays(s: Exchange, caller: Address, k: PairKey)
    requires Inv(s) && Found(s.pairs, k) && s.pairs[k].totalLiquidity > 0
    requires Get(LpOf(s.lpBalances, k), caller) == s.pairs[k].totalLiquidity
    ensures RemoveLiquidity(s, caller, k.0, k.1, s.pairs[k].totalLiquidity, 0, 0).1.Ok? <==>
              && s.pairs[k].totalLiquidity * s.pairs[k].reserveA <= MAX
              && s.pairs[k].totalLiquidity * s.pairs[k].reserveB <= MAX
              && FeesCovered(s, k, k.0) && FeesCovered(s, k, k.1)
  {
    assert PairSound(s, k);
    var p := s.pairs[k];
    ExactQuotient(p.reserveA, p.totalLiquidity);
    ExactQuotient(p.reserveB, p.totalLiquidity);
    ReservesElsewhere(s, k, k.0);
    ReservesElsewhere(s, k, k.1);
    assert Custody(s, k.0) && Custody(s, k.1);
    hide Moved, OtherReserves, Reserves;
  }

  lemma OthersUnmoved(s: Exchange, s': Exchange, k: PairKey, p: Pair, t: Address)
    requires k in s.pairs && s'.pairs == s.pairs[k := p]
    ensures OtherReserves(s', k, t) == OtherReserves(s, k, t)
  {
    assert ReservesByPair(s'.pairs, t) - {k} == ReservesByPair(s.pairs, t) - {k};
  }

  /** So custody does not cover the reserves once a fee has left: after any successful swap that pays a positive fee to
      an outside recipient, a pair whose input token has nothing beyond its own reserve to cover earlier fees can no
      longer pay its only provider in full. */
  lemma FeeBlocksFullWithdrawal(s: Exchange, caller: Address, tokenIn: Address, tokenOut: Address, amountIn: nat,
                                minAmountOut: nat, to: Address, approved: bool, provider: Address)
    requires Inv(s) && tokenIn != tokenOut && s.feeRecipient != Contract
    requires var k := SortTokens(tokenIn, tokenOut);
             && Found(s.pairs, k) && s.pairs[k].totalLiquidity > 0
             && Get(LpOf(s.lpBalances, k), provider) == s.pairs[k].totalLiquidity
             && Get(s.surplus, tokenIn) + OtherReserves(s, k, tokenIn) <= Get(s.feesPaid, tokenIn)
    requires NetIn(amountIn, s.tradingFee) < amountIn
    requires Swap(s, caller, tokenIn, tokenOut, amountIn, minAmountOut, Account(to), approved).1.Ok?
    ensures var k := SortTokens(tokenIn, tokenOut);
            var s' := Swap(s, caller, tokenIn, tokenOut, amountIn, minAmountOut, Account(to), approved).0;
            && Get(LpOf(s'.lpBalances, k), provider) == PairOf(s', k).totalLiquidity
            && RemoveLiquidity(s', provider, k.0, k.1, PairOf(s', k).totalLiquidity, 0, 0).1.Revert?
  {
    hide Quote, NetIn, SwapOut, Moved, RemoveLiquidity, Inv, OtherReserves;
    var k := SortTokens(tokenIn, tokenOut);
    SwapKeepsInv(s, caller, tokenIn, tokenOut, amountIn, minAmountOut, Account(to), approved);
    var s' := Swap(s, caller, tokenIn, tokenOut, amountIn, minAmountOut, Account(to), approved).0;
    OthersUnmoved(s, s', k, s'.pairs[k], tokenIn);
    FullWithdrawalPays(s', provider, k);
  }

  /** A pool of 100 of tokens 1 and 2 with one provider, nothing beyond its reserves, the opening fee of 0.3%, and a
      trader who holds 100 of token 1. */
  ghost function SmallPool(owner: Address, collector: Address, provider: Address, trader: Address): Exchange {
    Exchange(owner, map[(1, 2) := Pair(100, 100, 100)], map[(1, 2) := map[provider := 100]], 30, Account(collector),
             map[(1, Contract) := 100, (2, Contract) := 100, (1, Account(trader)) := 100], map[], map[])
  }

  lemma SmallPoolReserves(owner: Address, collector: Address, provider: Address, trader: Address, t: Address)
    ensures Reserves(SmallPool(owner, collector, provider, trader), t) == if t == 1 || t == 2 then 100 else 0
    ensures OtherReserves(SmallPool(owner, collector, provider, trader), (1, 2), t) == 0
  {
    var m := ReservesByPair(SmallPool(owner, collector, provider, trader).pairs, t);
    SumSplit(m, (1, 2));
    assert m - {(1, 2)} == map[];
  }

  lemma SmallPoolSound(owner: Address, collector: Address, provider: Address, trader: Address)
    ensures Inv(SmallPool(owner, collector, provider, trader))
  {
    var s := SmallPool(owner, collector, provider, trader);
    var lp: map<Address, nat> := map[provider := 100];
    SumSplit(lp, provider);
    assert lp - {provider} == map[];
    assert PairSound(s, (1, 2));
    forall t: Address ensures Custody(s, t) { SmallPoolReserves(owner, collector, provider, trader, t); }
  }

  /** It happens: one swap of 100, and the provider's withdrawal reverts. */
  lemma OneSwapBlocksWithdrawal(owner: Address, collector: Address, provider: Address, trader: Address)
    ensures var s := SmallPool(owner, collector, provider, trader);
            var (s', r) := Swap(s, trader, 1, 2, 100, 0, Account(trader), true);
            && r == Ok(49) && PairOf(s', (1, 2)) == Pair(200, 51, 100)
            && RemoveLiquidity(s', provider, 1, 2, 100, 0, 0).1.Revert?
  {
    var s := SmallPool(owner, collector, provider, trader);
    SmallPoolSound(owner, collector, provider, trader);
    SmallPoolReserves(owner, collector, provider, trader, 1);
    assert NetIn(100, 30) == 99 && SwapOut(Pair(100, 100, 100), true, 100, 30) == 49;
    hide Inv, Reserves, OtherReserves, RemoveLiquidity, Moved;
    FeeBlocksFullWithdrawal(s, trader, 1, 2, 100, 0, trader, true, provider);
  }

  // ----- who pays and who is paid

  /** A swap takes the input from the caller, pays the output to `to` and the fee to the fee recipient; nobody else's
      balance of any token moves. */
  lemma SwapPays(s: Exchange, caller: Address, tokenIn: Address, tokenOut: Address, amountIn: nat, minAmountOut: nat,
                 to: Holder, approved: bool, t: Address, h: Holder)
    requires h != Contract
    ensures var (s', r) := Swap(s, caller, tokenIn, tokenOut, amountIn, minAmountOut, to, approved);
            r.Ok? ==>
              && r.value >= minAmountOut
              && BalanceOf(s'.ledger, t, h) ==
                 BalanceOf(s.ledger, t, h)
                 - (if t == tokenIn && h == Account(caller) then amountIn else 0)
                 + (if t == tokenOut && h == to then r.value else 0)
                 + (if t == tokenIn && h == s.feeRecipient then amountIn - NetIn(amountIn, s.tradingFee) else 0)
  {
    hide Quote, NetIn, Moved, BalanceOf, Swapped, Bump;
  }

  /** A deposit takes exactly the two stated amounts, of the sorted tokens, from the caller. */
  lemma DepositPays(s: Exchange, caller: Address, tokenA: Address, tokenB: Address, amountA: nat, amountB: nat,
                    minLiquidity: nat, approved: bool, t: Address, h: Holder)
    requires h != Contract && tokenA != tokenB
    ensures var (s', r) := AddLiquidity(s, caller, tokenA, tokenB, amountA, amountB, minLiquidity, approved);
            var k := SortTokens(tokenA, tokenB);
            r.Ok? ==>
              && r.value >= minLiquidity
              && Get(LpOf(s'.lpBalances, k), caller) == Get(LpOf(s.lpBalances, k), caller) + r.value
              && BalanceOf(s'.ledger, t, h) ==
                 BalanceOf(s.ledger, t, h)
                 - (if h == Account(caller) then (if t == k.0 then amountA else if t == k.1 then amountB else 0) else 0)
  {
    hide DepositShares, Moved, BalanceOf, Deposited, DepositOverflows;
  }

  /** A withdrawal burns the caller's shares and pays the caller alone. */
  lemma WithdrawalPays(s: Exchange, caller: Address, tokenA: Address, tokenB: Address, liquidity: nat, minAmountA: nat,
                       minAmountB: nat, t: Address, h: Holder)
    requires h != Contract && tokenA != tokenB
    ensures var (s', r) := RemoveLiquidity(s, caller, tokenA, tokenB, liquidity, minAmountA, minAmountB);
            var k := SortTokens(tokenA, tokenB);
            r.Ok? ==>
              && r.value.0 >= minAmountA && r.value.1 >= minAmountB
              && Get(LpOf(s'.lpBalances, k), caller) == Get(LpOf(s.lpBalances, k), caller) - liquidity
              && BalanceOf(s'.ledger, t, h) ==
                 BalanceOf(s.ledger, t, h)
                 + (if h == Account(caller) && t == k.0 then r.value.0
                    else if h == Account(caller) && t == k.1 then r.value.1 else 0)
  {
    hide Redeemed, Moved, BalanceOf, Withdrawn;
  }
}
