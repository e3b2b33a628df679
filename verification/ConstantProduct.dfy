/** The arithmetic of one trading pair: deposits, redemptions and swaps on floor-rounded integers. */
module ConstantProduct {
  import opened Arithmetic

  const FEE_DENOMINATOR: nat := 10000

  datatype Pair = Pair(reserveA: nat, reserveB: nat, totalLiquidity: nat)

  // ----- square root

  ghost predicate IsRoot(y: nat, x: nat) {
    y * y <= x < (y + 1) * (y + 1)
  }

  lemma RootUnique(y: nat, z: nat, x: nat)
    requires IsRoot(y, x) && IsRoot(z, x)
    ensures y == z
  {
    if y < z {
      MulMono(y + 1, z, y + 1, z);
    } else if z < y {
      MulMono(z + 1, y, z + 1, y);
    }
  }

  lemma {:induction false} RootExists(x: nat)
    ensures exists y: nat :: IsRoot(y, x)
  {
    if x == 0 {
      assert IsRoot(0, 0);
    } else {
      RootExists(x - 1);
      var y: nat :| IsRoot(y, x - 1);
      if x < (y + 1) * (y + 1) {
        assert IsRoot(y, x);
      } else {
        assert IsRoot(y + 1, x);
      }
    }
  }

  ghost function Root(x: nat): (y: nat)
    ensures IsRoot(y, x)
  {
    RootExists(x);
    var y: nat :| IsRoot(y, x);
    y
  }

  /** One Newton step from above never falls below the root. */
  lemma NewtonStaysAbove(x: nat, z: nat)
    requires z > 0
    ensures x < ((x / z + z) / 2 + 1) * ((x / z + z) / 2 + 1)
  {
    var q := x / z;
    var m := (q + z) / 2 + 1;
    DivBounds(x, z);
    assert x < (q + 1) * z;
    assert q + 1 + z <= 2 * m;
    // (q + 1) * z <= m * m because the sum q + 1 + z is at most 2 * m
    var d := m - z;
    assert q + 1 <= m + d;
    assert (q + 1) * z <= (m + d) * z by { MulMono(q + 1, m + d, z, z); }
    assert (m + d) * z == (m + d) * (m - d) == m * m - d * d;
    assert d * d >= 0;
  }

  // ----- the three operations on reserves

  ghost function Minted(p: Pair, a: nat, b: nat): nat
    requires p.totalLiquidity > 0 ==> p.reserveA > 0 && p.reserveB > 0
  {
    if p.totalLiquidity == 0 then Root(a * b)
    else
      DivBounds(a * p.totalLiquidity, p.reserveA);
      DivBounds(b * p.totalLiquidity, p.reserveB);
      var liquidityA := a * p.totalLiquidity / p.reserveA;
      var liquidityB := b * p.totalLiquidity / p.reserveB;
      if liquidityA < liquidityB then liquidityA else liquidityB
  }

  function Deposited(p: Pair, a: nat, b: nat, liquidity: nat): Pair {
    Pair(p.reserveA + a, p.reserveB + b, p.totalLiquidity + liquidity)
  }

  function Redeemed(p: Pair, liquidity: nat): (out: (nat, nat))
    requires p.totalLiquidity > 0
  {
    (liquidity * p.reserveA / p.totalLiquidity, liquidity * p.reserveB / p.totalLiquidity)
  }

  /** A redemption of no more than the whole supply never takes more than the reserves. */
  lemma RedeemedWithinReserves(p: Pair, liquidity: nat)
    requires 0 < p.totalLiquidity && liquidity <= p.totalLiquidity
    ensures Redeemed(p, liquidity).0 <= p.reserveA && Redeemed(p, liquidity).1 <= p.reserveB
  {
    MulMono(liquidity, p.totalLiquidity, p.reserveA, p.reserveA);
    MulMono(liquidity, p.totalLiquidity, p.reserveB, p.reserveB);
    DivAtMost(liquidity * p.reserveA, p.totalLiquidity, p.reserveA);
    DivAtMost(liquidity * p.reserveB, p.totalLiquidity, p.reserveB);
  }

  function Withdrawn(p: Pair, liquidity: nat): Pair
    requires 0 < p.totalLiquidity && liquidity <= p.totalLiquidity
  {
    RedeemedWithinReserves(p, liquidity);
    var out := Redeemed(p, liquidity);
    Pair(p.reserveA - out.0, p.reserveB - out.1, p.totalLiquidity - liquidity)
  }

  function NetIn(amountIn: nat, fee: nat): (net: nat)
    requires fee <= FEE_DENOMINATOR
    ensures net <= amountIn
  {
    MulMono(amountIn, amountIn, FEE_DENOMINATOR - fee, FEE_DENOMINATOR);
    amountIn * (FEE_DENOMINATOR - fee) / FEE_DENOMINATOR
  }

  function AmountOut(netIn: nat, reserveIn: nat, reserveOut: nat): (out: nat)
    requires reserveIn + netIn > 0
    ensures out <= reserveOut
    ensures out * (reserveIn + netIn) <= netIn * reserveOut
  {
    MulMono(netIn, reserveIn + netIn, reserveOut, reserveOut);
    DivAtMost(netIn * reserveOut, reserveIn + netIn, reserveOut);
    DivBounds(netIn * reserveOut, reserveIn + netIn);
    netIn * reserveOut / (reserveIn + netIn)
  }

  ghost predicate CanSwap(p: Pair, aToB: bool, amountIn: nat, fee: nat) {
    fee <= FEE_DENOMINATOR && NetIn(amountIn, fee) + (if aToB then p.reserveA else p.reserveB) > 0
  }

  function SwapOut(p: Pair, aToB: bool, amountIn: nat, fee: nat): nat
    requires CanSwap(p, aToB, amountIn, fee)
  {
    if aToB then AmountOut(NetIn(amountIn, fee), p.reserveA, p.reserveB)
    else AmountOut(NetIn(amountIn, fee), p.reserveB, p.reserveA)
  }

  function Swapped(p: Pair, aToB: bool, amountIn: nat, fee: nat): Pair
    requires CanSwap(p, aToB, amountIn, fee)
  {
    var out := SwapOut(p, aToB, amountIn, fee);
    if aToB then Pair(p.reserveA + amountIn, p.reserveB - out, p.totalLiquidity)
    else Pair(p.reserveA - out, p.reserveB + amountIn, p.totalLiquidity)
  }

  // ----- what the three formulas mean

  /** A deposit mints the most shares that neither side's contribution falls short of. */
  lemma MintIsLargest(p: Pair, a: nat, b: nat, shares: nat)
    requires p.totalLiquidity > 0 && p.reserveA > 0 && p.reserveB > 0
    ensures shares <= Minted(p, a, b) <==>
              shares * p.reserveA <= a * p.totalLiquidity && shares * p.reserveB <= b * p.totalLiquidity
  {
    QuotientIsLargest(shares, a * p.totalLiquidity, p.reserveA);
    QuotientIsLargest(shares, b * p.totalLiquidity, p.reserveB);
  }

  /** A withdrawal pays, of each token, the most that does not exceed the shares' part of the reserve. */
  lemma RedemptionIsLargest(p: Pair, liquidity: nat, x: nat)
    requires p.totalLiquidity > 0
    ensures x <= Redeemed(p, liquidity).0 <==> x * p.totalLiquidity <= liquidity * p.reserveA
    ensures x <= Redeemed(p, liquidity).1 <==> x * p.totalLiquidity <= liquidity * p.reserveB
  {
    QuotientIsLargest(x, liquidity * p.reserveA, p.totalLiquidity);
    QuotientIsLargest(x, liquidity * p.reserveB, p.totalLiquidity);
  }

  /** A swap pays out the most that keeps the product of the reserves when only the net input is counted. */
  lemma OutputIsLargest(net: nat, reserveIn: nat, reserveOut: nat, out: nat)
    requires reserveIn + net > 0 && out <= reserveOut
    ensures out <= AmountOut(net, reserveIn, reserveOut) <==>
              (reserveIn + net) * (reserveOut - out) >= reserveIn * reserveOut
  {
    hide AmountOut;
    OutputFits(net, reserveIn, reserveOut, out);
    Expand(reserveIn, net, reserveOut, out);
  }

  lemma OutputFits(net: nat, reserveIn: nat, reserveOut: nat, out: nat)
    requires reserveIn + net > 0
    ensures out <= AmountOut(net, reserveIn, reserveOut) <==> out * (reserveIn + net) <= net * reserveOut
  {
    OutputQuotient(net, reserveIn, reserveOut);
    QuotientIsLargest(out, net * reserveOut, reserveIn + net);
    hide AmountOut;
  }

  lemma OutputQuotient(net: nat, reserveIn: nat, reserveOut: nat)
    requires reserveIn + net > 0
    ensures AmountOut(net, reserveIn, reserveOut) == net * reserveOut / (reserveIn + net)
  {
  }

  lemma Expand(x: nat, n: nat, y: nat, out: nat)
    requires out <= y
    ensures (x + n) * (y - out) == x * y + n * y - out * (x + n)
  {
    TimesDifference(x + n, y, out);
    TimesSum(y, x, n);
    Commute(x + n, out);
    Commute(x + n, y);
    Commute(x, y);
    Commute(n, y);
  }

  lemma TimesDifference(d: nat, y: nat, out: nat)
    requires out <= y
    ensures d * (y - out) == d * y - d * out
  {
  }

  lemma TimesSum(y: nat, x: nat, n: nat)
    ensures y * (x + n) == y * x + y * n
  {
  }

  /** The fee is the stated share of the input, rounded up. */
  lemma FeeRoundsUp(amountIn: nat, fee: nat, x: nat)
    requires fee <= FEE_DENOMINATOR
    ensures amountIn - NetIn(amountIn, fee) <= x <==> amountIn * fee <= x * 10000
  {
    if x <= amountIn {
      QuotientIsLargest(amountIn - x, amountIn * (FEE_DENOMINATOR - fee), FEE_DENOMINATOR);
      assert amountIn * (FEE_DENOMINATOR - fee) == amountIn * FEE_DENOMINATOR - amountIn * fee;
    } else {
      MulMono(amountIn, x, fee, FEE_DENOMINATOR);
    }
  }

  // ----- what the operations keep

  /** reserveA * reserveB >= totalLiquidity^2 */
  ghost predicate Backed(p: Pair) {
    p.reserveA * p.reserveB >= p.totalLiquidity * p.totalLiquidity
  }

  /** Value per share, squared and without division: q's share is worth at least p's. */
  ghost predicate ShareNoCheaper(p: Pair, q: Pair) {
    (q.reserveA * q.reserveB) * (p.totalLiquidity * p.totalLiquidity)
      >= (p.reserveA * p.reserveB) * (q.totalLiquidity * q.totalLiquidity)
  }

  lemma BackedReservesPositive(p: Pair)
    requires Backed(p) && p.totalLiquidity > 0
    ensures p.reserveA > 0 && p.reserveB > 0
  {
    assert p.totalLiquidity * p.totalLiquidity > 0;
  }

  lemma Regroup(a: nat, b: nat, c: nat, d: nat)
    ensures (a * c) * (b * d) == (a * b) * (c * d)
  {
    assert (a * c) * (b * d) == a * (c * (b * d));
    assert c * (b * d) == b * (c * d);
    assert a * (b * (c * d)) == (a * b) * (c * d);
  }

  /** When each side gains per share, so does the product. */
  lemma SideWise(p: Pair, q: Pair)
    requires q.reserveA * p.totalLiquidity >= p.reserveA * q.totalLiquidity
    requires q.reserveB * p.totalLiquidity >= p.reserveB * q.totalLiquidity
    ensures ShareNoCheaper(p, q)
  {
    MulMono(p.reserveA * q.totalLiquidity, q.reserveA * p.totalLiquidity,
            p.reserveB * q.totalLiquidity, q.reserveB * p.totalLiquidity);
    Regroup(q.reserveA, q.reserveB, p.totalLiquidity, p.totalLiquidity);
    Regroup(p.reserveA, p.reserveB, q.totalLiquidity, q.totalLiquidity);
  }

  lemma MintBound(liquidity: nat, amount: nat, total: nat, reserve: nat)
    requires reserve > 0 && liquidity <= amount * total / reserve
    ensures liquidity * reserve <= amount * total
    ensures (reserve + amount) * total >= reserve * (total + liquidity)
  {
    DivBounds(amount * total, reserve);
    MulMono(liquidity, amount * total / reserve, reserve, reserve);
    assert (reserve + amount) * total == reserve * total + amount * total;
    assert reserve * (total + liquidity) == reserve * total + liquidity * reserve;
  }

  lemma DepositKeepsShareValue(p: Pair, a: nat, b: nat)
    requires p.totalLiquidity > 0 && Backed(p)
    requires p.reserveA > 0 && p.reserveB > 0
    ensures ShareNoCheaper(p, Deposited(p, a, b, Minted(p, a, b)))
  {
    var l := Minted(p, a, b);
    MintBound(l, a, p.totalLiquidity, p.reserveA);
    MintBound(l, b, p.totalLiquidity, p.reserveB);
    SideWise(p, Deposited(p, a, b, l));
  }

  lemma RedeemBound(liquidity: nat, total: nat, reserve: nat)
    requires 0 < total && liquidity <= total
    requires liquidity * reserve / total <= reserve
    ensures (reserve - liquidity * reserve / total) * total >= reserve * (total - liquidity)
  {
    DivBounds(liquidity * reserve, total);
    var out := liquidity * reserve / total;
    assert (reserve - out) * total == reserve * total - out * total;
    assert reserve * (total - liquidity) == reserve * total - liquidity * reserve;
  }

  lemma WithdrawalKeepsShareValue(p: Pair, liquidity: nat)
    requires 0 < p.totalLiquidity && liquidity <= p.totalLiquidity
    ensures ShareNoCheaper(p, Withdrawn(p, liquidity))
  {
    RedeemedWithinReserves(p, liquidity);
    RedeemBound(liquidity, p.totalLiquidity, p.reserveA);
    RedeemBound(liquidity, p.totalLiquidity, p.reserveB);
    SideWise(p, Withdrawn(p, liquidity));
  }

  lemma ProductOneSided(rIn: nat, rOut: nat, amountIn: nat, net: nat, out: nat)
    requires net <= amountIn && out <= rOut
    requires out * (rIn + net) <= net * rOut
    ensures (rIn + amountIn) * (rOut - out) >= rIn * rOut
  {
    var left := rOut - out;
    MulMono(rIn + net, rIn + amountIn, left, left);
    assert (rIn + net) * left == (rIn + net) * rOut - out * (rIn + net);
    assert (rIn + net) * rOut == rIn * rOut + net * rOut;
  }

  lemma SwapKeepsProduct(p: Pair, aToB: bool, amountIn: nat, fee: nat)
    requires CanSwap(p, aToB, amountIn, fee)
    ensures var q := Swapped(p, aToB, amountIn, fee);
            q.reserveA * q.reserveB >= p.reserveA * p.reserveB && q.totalLiquidity == p.totalLiquidity
  {
    var net := NetIn(amountIn, fee);
    var out := SwapOut(p, aToB, amountIn, fee);
    if aToB {
      ProductOneSided(p.reserveA, p.reserveB, amountIn, net, out);
    } else {
      ProductOneSided(p.reserveB, p.reserveA, amountIn, net, out);
      Commute(p.reserveA, p.reserveB);
      Commute(p.reserveA - out, p.reserveB + amountIn);
    }
  }

  lemma ProductKeepsShareValue(p: Pair, q: Pair)
    requires q.totalLiquidity == p.totalLiquidity
    requires q.reserveA * q.reserveB >= p.reserveA * p.reserveB
    ensures ShareNoCheaper(p, q)
  {
    var l2 := p.totalLiquidity * p.totalLiquidity;
    MulMono(p.reserveA * p.reserveB, q.reserveA * q.reserveB, l2, l2);
  }

  /** A share that never gets cheaper keeps the reserves backed. */
  lemma ShareValueBacks(p: Pair, q: Pair)
    requires p.totalLiquidity > 0 && Backed(p) && ShareNoCheaper(p, q)
    ensures Backed(q)
  {
    var lp := p.totalLiquidity * p.totalLiquidity;
    var lq := q.totalLiquidity * q.totalLiquidity;
    assert lp > 0;
    MulMono(lp, p.reserveA * p.reserveB, lq, lq);
    assert lp * lq == lq * lp;
    CancelFactor(q.reserveA * q.reserveB, lq, lp);
  }

  /** Share value composes across consecutive steps as long as shares are outstanding in between. */
  lemma ShareValueTransitive(p: Pair, q: Pair, r: Pair)
    requires q.totalLiquidity > 0
    requires ShareNoCheaper(p, q) && ShareNoCheaper(q, r)
    ensures ShareNoCheaper(p, r)
  {
    assert q.totalLiquidity * q.totalLiquidity > 0;
    CrossMultiply(p.reserveA * p.reserveB, q.reserveA * q.reserveB, r.reserveA * r.reserveB,
                  p.totalLiquidity * p.totalLiquidity, q.totalLiquidity * q.totalLiquidity,
                  r.totalLiquidity * r.totalLiquidity);
  }

  lemma CrossMultiply(kp: nat, kq: nat, kr: nat, lp: nat, lq: nat, lr: nat)
    requires lq > 0 && kq * lp >= kp * lq && kr * lq >= kq * lr
    ensures kr * lp >= kp * lr
  {
    calc {
      (kr * lp) * lq;
      { assert kr * lp * lq == (kr * lq) * lp; }
      (kr * lq) * lp;
    >= { MulMono(kq * lr, kr * lq, lp, lp); }
      (kq * lr) * lp;
      { assert (kq * lr) * lp == (kq * lp) * lr; }
      (kq * lp) * lr;
    >= { MulMono(kp * lq, kq * lp, lr, lr); }
      (kp * lq) * lr;
      { assert (kp * lq) * lr == (kp * lr) * lq; }
      (kp * lr) * lq;
    }
    CancelFactor(kr * lp, kp * lr, lq);
  }

  /** The first deposit into an empty pair is backed, even when stray swaps left reserves behind. */
  lemma FirstDepositBacked(p: Pair, a: nat, b: nat)
    requires p.totalLiquidity == 0
    ensures Backed(Deposited(p, a, b, Minted(p, a, b)))
  {
    MulMono(a, p.reserveA + a, b, p.reserveB + b);
  }

  // ----- no value is extracted

  /** Redeeming at once what a deposit minted returns at most the deposit, on both sides. */
  lemma DepositThenRedeem(p: Pair, a: nat, b: nat)
    requires p.totalLiquidity > 0 && p.reserveA > 0 && p.reserveB > 0
    ensures var l := Minted(p, a, b);
            var out := Redeemed(Deposited(p, a, b, l), l);
            out.0 <= a && out.1 <= b
  {
    var l := Minted(p, a, b);
    MintBound(l, a, p.totalLiquidity, p.reserveA);
    MintBound(l, b, p.totalLiquidity, p.reserveB);
    RoundTripSide(l, a, p.totalLiquidity, p.reserveA);
    RoundTripSide(l, b, p.totalLiquidity, p.reserveB);
  }

  lemma RoundTripSide(liquidity: nat, amount: nat, total: nat, reserve: nat)
    requires total > 0 && liquidity * reserve <= amount * total
    ensures liquidity * (reserve + amount) / (total + liquidity) <= amount
  {
    assert liquidity * (reserve + amount) == liquidity * reserve + liquidity * amount;
    assert amount * (total + liquidity) == amount * total + liquidity * amount;
    DivAtMost(liquidity * (reserve + amount), total + liquidity, amount);
  }

  /** In a pair without shares the first depositor redeems exactly the deposit plus whatever stray swaps had left:
      the round trip returns no more than the deposit exactly when nothing was left. */
  lemma FirstDepositThenRedeem(p: Pair, a: nat, b: nat)
    requires p.totalLiquidity == 0 && a > 0 && b > 0
    ensures var l := Minted(p, a, b);
            && l > 0
            && Redeemed(Deposited(p, a, b, l), l) == (p.reserveA + a, p.reserveB + b)
            && ((Redeemed(Deposited(p, a, b, l), l).0 <= a && Redeemed(Deposited(p, a, b, l), l).1 <= b)
                <==> p.reserveA == 0 && p.reserveB == 0)
  {
    var l := Minted(p, a, b);
    assert a * b > 0;
    var q := Deposited(p, a, b, l);
    assert l * q.reserveA / l == q.reserveA by { ExactQuotient(q.reserveA, l); }
    assert l * q.reserveB / l == q.reserveB by { ExactQuotient(q.reserveB, l); }
  }

  /** Selling the proceeds of a swap straight back never returns more than was put in. */
  lemma SwapThereAndBack(p: Pair, aToB: bool, amountIn: nat, fee: nat)
    requires p.reserveA > 0 && p.reserveB > 0
    requires CanSwap(p, aToB, amountIn, fee)
    requires CanSwap(Swapped(p, aToB, amountIn, fee), !aToB, SwapOut(p, aToB, amountIn, fee), fee)
    ensures SwapOut(Swapped(p, aToB, amountIn, fee), !aToB, SwapOut(p, aToB, amountIn, fee), fee) <= amountIn
  {
    var q := Swapped(p, aToB, amountIn, fee);
    SwapKeepsProduct(p, aToB, amountIn, fee);
    SwapKeepsProduct(q, !aToB, SwapOut(p, aToB, amountIn, fee), fee);
    OneSideReturns(p, Swapped(q, !aToB, SwapOut(p, aToB, amountIn, fee), fee));
  }

  /** When the product has not fallen and one reserve is back where it was, the other is no lower. */
  lemma OneSideReturns(p: Pair, q: Pair)
    requires p.reserveA > 0 && p.reserveB > 0
    requires q.reserveA * q.reserveB >= p.reserveA * p.reserveB
    ensures q.reserveA == p.reserveA ==> q.reserveB >= p.reserveB
    ensures q.reserveB == p.reserveB ==> q.reserveA >= p.reserveA
  {
    if q.reserveA == p.reserveA {
      Commute(q.reserveA, q.reserveB);
      Commute(p.reserveA, p.reserveB);
      CancelFactor(q.reserveB, p.reserveB, p.reserveA);
    }
    if q.reserveB == p.reserveB {
      CancelFactor(q.reserveA, p.reserveA, p.reserveB);
    }
  }
}
