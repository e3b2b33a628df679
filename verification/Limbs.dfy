/** 256-bit integers as four 64-bit limbs, lowest first, added and subtracted limb by limb. */
module Limbs {
  import opened Arithmetic
  import opened Digits
  import opened MachineInts

  type U256 = s: seq<u64> | |s| == 4 witness [0, 0, 0, 0]

  const W: nat := 0x1_0000_0000_0000_0000_0000_0000_0000_0000_0000_0000_0000_0000_0000_0000_0000_0000

  /** The number four limbs write. */
  function Number(a: U256): nat {
    Value(a, M64)
  }

  lemma LimbPowers()
    ensures Pow(M64, 1) == M64 && Pow(M64, 2) == M128 && Pow(M64, 4) == W
  {
    assert Pow(M64, 0) == 1;
    assert Pow(M64, 1) == M64 * Pow(M64, 0);
    assert Pow(M64, 2) == M64 * Pow(M64, 1);
    assert Pow(M64, 3) == M64 * Pow(M64, 2);
    assert Pow(M64, 4) == M64 * Pow(M64, 3);
  }

  lemma NumberBound(a: U256)
    ensures Number(a) < W
  {
    ValueBound(a, M64);
    LimbPowers();
  }

  lemma SameNumber(a: U256, b: U256)
    requires Number(a) == Number(b)
    ensures a == b
  {
    DigitsUnique(a, b, M64);
  }

  // ----- one limb

  function OverflowingAdd(x: u64, y: u64): (u64, bool) {
    ((x + y) % M64, x + y >= M64)
  }

  function OverflowingSub(x: u64, y: u64): (u64, bool) {
    ((x - y) % M64, x < y)
  }

  /** Both additions cannot overflow at once, so one carry bit holds all that is lost. */
  lemma OneCarry(x: u64, y: u64, carry: u64)
    requires carry <= 1
    ensures var (s1, c1) := OverflowingAdd(x, y);
            var (s, c2) := OverflowingAdd(s1, carry);
            !(c1 && c2) && s + (if c1 || c2 then M64 else 0) == x + y + carry
  {
  }

  lemma OneBorrow(x: u64, y: u64, borrow: u64)
    requires borrow <= 1
    ensures var (d1, b1) := OverflowingSub(x, y);
            var (d, b2) := OverflowingSub(d1, borrow);
            !(b1 && b2) && d + y + borrow == x + if b1 || b2 then M64 else 0
  {
  }

  // ----- the loops

  lemma Spread(p: nat, a: nat, b: nat)
    ensures p * (a + b) == p * a + p * b
  {
  }

  lemma ScaleEquation(p: nat, low: nat, high: nat, sum: nat, carry: nat)
    requires low + high * M64 == sum + carry
    ensures p * low + high * (M64 * p) == p * sum + carry * p
  {
    Spread(p, low, high * M64);
    Spread(p, sum, carry);
    assert p * (high * M64) == high * (M64 * p);
  }

  lemma AddOneLimb(done: seq<nat>, x: seq<nat>, y: seq<nat>, carry: nat, i: nat, limb: nat, carry': nat)
    requires |done| == i < |x| == |y|
    requires Value(done, M64) + carry * Pow(M64, i) == Value(x[..i], M64) + Value(y[..i], M64)
    requires limb + carry' * M64 == x[i] + y[i] + carry
    ensures Value(done + [limb], M64) + carry' * Pow(M64, i + 1) == Value(x[..i + 1], M64) + Value(y[..i + 1], M64)
  {
    LimbPowers();
    PowAdd(M64, 1, i);
    hide Value, Pow;
    ValueSnoc(done, limb, M64);
    ValueSnoc(x[..i], x[i], M64);
    ValueSnoc(y[..i], y[i], M64);
    assert x[..i + 1] == x[..i] + [x[i]] && y[..i + 1] == y[..i] + [y[i]];
    ScaleEquation(Pow(M64, i), limb, carry', x[i] + y[i], carry);
    Spread(Pow(M64, i), x[i], y[i]);
  }

  /** Addition modulo 2^256. */
  method Add(a: U256, b: U256) returns (r: U256)
    ensures Number(r) == (Number(a) + Number(b)) % W
  {
    hide Value, Pow;
    var result, carry: u64 := new u64[4](_ => 0), 0;
    StartOfSum(a, b);
    assert result[..0] == [];
    for i := 0 to 4
      invariant carry <= 1
      invariant Value(result[..i], M64) + carry * Pow(M64, i) == Value(a[..i], M64) + Value(b[..i], M64)
    {
      OneCarry(a[i], b[i], carry);
      var (sum, c1) := OverflowingAdd(a[i], b[i]);
      var (sum', c2) := OverflowingAdd(sum, carry);
      var carry': u64 := if c1 || c2 then 1 else 0;
      AddOneLimb(result[..i], a, b, carry, i, sum', carry');
      ghost var done := result[..i];
      result[i] := sum';
      assert result[..i + 1] == done + [sum'];
      carry := carry';
    }
    r := result[..];
    assert result[..4] == r;
    assert a[..4] == a && b[..4] == b;
    LimbPowers();
    NumberBound(r);
    DivModUnique(Number(a) + Number(b), W, carry, Number(r));
  }

  lemma StartOfSum(a: seq<nat>, b: seq<nat>)
    ensures Value([], M64) == Value(a[..0], M64) == Value(b[..0], M64) == 0
  {
  }

  /** Subtraction modulo 2^256. */
  method Sub(a: U256, b: U256) returns (r: U256)
    ensures Number(r) == (Number(a) - Number(b)) % W
  {
    hide Value, Pow;
    var result, borrow: u64 := new u64[4](_ => 0), 0;
    StartOfSum(a, b);
    assert result[..0] == [];
    for i := 0 to 4
      invariant borrow <= 1
      invariant Value(a[..i], M64) + borrow * Pow(M64, i) == Value(result[..i], M64) + Value(b[..i], M64)
    {
      OneBorrow(a[i], b[i], borrow);
      var (diff, b1) := OverflowingSub(a[i], b[i]);
      var (diff', b2) := OverflowingSub(diff, borrow);
      var borrow': u64 := if b1 || b2 then 1 else 0;
      SubOneLimb(result[..i], a, b, borrow, i, diff', borrow');
      ghost var done := result[..i];
      result[i] := diff';
      assert result[..i + 1] == done + [diff'];
      borrow := borrow';
    }
    r := result[..];
    assert result[..4] == r;
    assert a[..4] == a && b[..4] == b;
    LimbPowers();
    NumberBound(r);
    Difference(Number(a), Number(b), borrow, Number(r));
  }

  lemma SubOneLimb(done: seq<nat>, x: seq<nat>, y: seq<nat>, borrow: nat, i: nat, limb: nat, borrow': nat)
    requires |done| == i < |x| == |y|
    requires Value(x[..i], M64) + borrow * Pow(M64, i) == Value(done, M64) + Value(y[..i], M64)
    requires limb + y[i] + borrow == x[i] + borrow' * M64
    ensures Value(x[..i + 1], M64) + borrow' * Pow(M64, i + 1) == Value(done + [limb], M64) + Value(y[..i + 1], M64)
  {
    LimbPowers();
    PowAdd(M64, 1, i);
    hide Value, Pow;
    ValueSnoc(done, limb, M64);
    ValueSnoc(x[..i], x[i], M64);
    ValueSnoc(y[..i], y[i], M64);
    assert x[..i + 1] == x[..i] + [x[i]] && y[..i + 1] == y[..i] + [y[i]];
    ScaleEquation(Pow(M64, i), x[i], borrow', limb + y[i], borrow);
    Spread(Pow(M64, i), limb, y[i]);
  }

  lemma Difference(x: nat, y: nat, borrow: nat, d: nat)
    requires x + borrow * W == d + y && d < W && borrow <= 1
    ensures (x - y) % W == d
  {
    if borrow == 1 {
      assert x - y == d - W;
    }
  }

  // ----- what addition and subtraction promise together

  /** The 256-bit number with a given residue. */
  function FromNumber(n: int): U256 {
    Write(n % W, 4, M64)
  }

  lemma FromNumberValue(n: int)
    ensures Number(FromNumber(n)) == n % W
  {
    LimbPowers();
    WriteValue(n % W, 4, M64);
  }

  function Plus(a: U256, b: U256): U256 { FromNumber(Number(a) + Number(b)) }

  function Minus(a: U256, b: U256): U256 { FromNumber(Number(a) - Number(b)) }

  /** The loops return exactly these: limbs with a given number are unique. */
  lemma LoopsCompute(a: U256, b: U256, r: U256)
    ensures Number(r) == (Number(a) + Number(b)) % W <==> r == Plus(a, b)
    ensures Number(r) == (Number(a) - Number(b)) % W <==> r == Minus(a, b)
  {
    hide FromNumber, Number;
    FromNumberValue(Number(a) + Number(b));
    FromNumberValue(Number(a) - Number(b));
    if Number(r) == Number(Plus(a, b)) { SameNumber(r, Plus(a, b)); }
    if Number(r) == Number(Minus(a, b)) { SameNumber(r, Minus(a, b)); }
  }

  /** Each undoes the other, whether or not it wrapped. */
  lemma AddSubInverse(a: U256, b: U256)
    ensures Minus(Plus(a, b), b) == a && Plus(Minus(a, b), b) == a
  {
    hide FromNumber, Number;
    var x: int, y: int := Number(a), Number(b);
    NumberBound(a);
    FromNumberValue(x + y);
    FromNumberValue(x - y);
    FromNumberValue(Number(Plus(a, b)) - y);
    FromNumberValue(Number(Minus(a, b)) + y);
    UndoResidue(x, y);
    SameNumber(Minus(Plus(a, b), b), a);
    SameNumber(Plus(Minus(a, b), b), a);
  }

  lemma UndoResidue(x: int, y: int)
    requires 0 <= x < W
    ensures ((x + y) % W - y) % W == x && ((x - y) % W + y) % W == x
  {
    UndoOne(x, x + y, -y);
    UndoOne(x, x - y, y);
  }

  lemma UndoOne(x: nat, z: int, y: int)
    requires x < W && z + y == x
    ensures (z % W + y) % W == x
  {
    var q := z / W;
    assert z % W + y == x - q * W;
    Shift(x, -q);
  }

  lemma Shift(x: nat, q: int)
    requires x < W
    ensures (x + q * W) % W == x
  {
    assert (x + q * W) / W == q;
  }

  /** A sum wrapped exactly when it came out below either operand. */
  lemma WrappedIff(a: U256, b: U256)
    ensures Number(Plus(a, b)) < Number(a) <==> Number(a) + Number(b) >= W
    ensures Number(Plus(a, b)) == Number(a) + Number(b) <==> Number(a) + Number(b) < W
  {
    hide FromNumber, Number;
    FromNumberValue(Number(a) + Number(b));
    NumberBound(a);
    NumberBound(b);
    var s := Number(a) + Number(b);
    if s >= W {
      assert s % W == s - W;
    }
  }

  lemma AddAssociative(a: U256, b: U256, c: U256)
    ensures Plus(Plus(a, b), c) == Plus(a, Plus(b, c))
  {
    hide FromNumber, Number;
    var x, y, z := Number(a), Number(b), Number(c);
    FromNumberValue(x + y);
    FromNumberValue(y + z);
    FromNumberValue((x + y) % W + z);
    FromNumberValue(x + (y + z) % W);
    ModSum(x + y, z, W);
    ModSum(y + z, x, W);
    assert (x + y) % W + z == z + (x + y) % W && (y + z) % W + x == x + (y + z) % W;
    SameNumber(Plus(Plus(a, b), c), Plus(a, Plus(b, c)));
  }

  // ----- conversions

  function FromU128(value: u128): U256 {
    [value % M64, value / M64, 0, 0]
  }

  lemma FromU128Exact(value: u128)
    ensures Number(FromU128(value)) == value
  {
    var s: seq<nat> := FromU128(value);
    assert s[1..] == [value / M64, 0, 0] && s[2..] == [0, 0] && s[3..] == [0] && s[4..] == [];
    assert s[1..][1..] == s[2..] && s[2..][1..] == s[3..] && s[3..][1..] == s[4..];
    assert Value(s[4..], M64) == 0;
    assert Value(s[3..], M64) == 0;
    assert Value(s[2..], M64) == 0;
    assert Value(s[1..], M64) == value / M64;
  }

  lemma BytePowers()
    ensures Pow(256, 8) == M64
  {
    assert Pow(256, 2) == 0x1_0000 && Pow(256, 4) == 0x1_0000_0000;
  }

  /** The limbs' own bytes one after another. */
  method ToLeBytes(a: U256) returns (bytes: seq<nat>)
    ensures |bytes| == 32 && InRadix(bytes, 256)
    ensures Value(bytes, 256) == Number(a)
  {
    hide Value, Pow;
    bytes := [];
    StartOfBytes(a);
    for i := 0 to 4
      invariant |bytes| == 8 * i && InRadix(bytes, 256)
      invariant Value(bytes, 256) == Value(a[..i], M64) && Pow(256, 8 * i) == Pow(M64, i)
    {
      AppendLimb(bytes, a, i);
      bytes := bytes + Write(a[i], 8, 256);
    }
    assert a[..4] == a;
  }

  lemma StartOfBytes(a: seq<nat>)
    ensures Value([], 256) == Value(a[..0], M64) && Pow(256, 0) == Pow(M64, 0)
  {
  }

  lemma AppendLimb(bytes: seq<nat>, a: U256, i: nat)
    requires i < 4 && |bytes| == 8 * i
    requires Value(bytes, 256) == Value(a[..i], M64) && Pow(256, 8 * i) == Pow(M64, i)
    ensures Value(bytes + Write(a[i], 8, 256), 256) == Value(a[..i + 1], M64)
    ensures Pow(256, 8 * (i + 1)) == Pow(M64, i + 1)
  {
    BytePowers();
    LimbPowers();
    hide Value, Pow, Write;
    WriteValue(a[i], 8, 256);
    ValueConcat(bytes, Write(a[i], 8, 256), 256);
    var limbs: seq<nat> := a;
    ValueSnoc(limbs[..i], a[i], M64);
    assert limbs[..i + 1] == limbs[..i] + [a[i]];
    PowAdd(256, 8, 8 * i);
    PowAdd(M64, 1, i);
  }

  lemma Associate(x: nat, y: nat, z: nat)
    ensures x * (y * z) == x * y * z
  {
  }

  lemma {:induction false} PowAdd(r: nat, k: nat, l: nat)
    ensures Pow(r, k + l) == Pow(r, k) * Pow(r, l)
  {
    if k > 0 {
      PowAdd(r, k - 1, l);
      Associate(r, Pow(r, k - 1), Pow(r, l));
    }
  }

  /** Different numbers have different bytes. */
  lemma BytesDetermine(a: U256, b: U256, bytes: seq<nat>)
    requires Value(bytes, 256) == Number(a) && Value(bytes, 256) == Number(b)
    ensures a == b
  {
    SameNumber(a, b);
  }

  // ----- the derived order

  /** Arrays compare by their first differing element, which here is the lowest limb. */
  function DerivedLess(s: seq<nat>, t: seq<nat>): bool
    requires |s| == |t|
  {
    s != [] && (s[0] < t[0] || (s[0] == t[0] && DerivedLess(s[1..], t[1..])))
  }

  lemma {:induction false} FirstDigitDecides(s: seq<nat>, t: seq<nat>, lo: nat)
    requires lo < |s| == |t| && s[..lo] == t[..lo] && s[lo] != t[lo]
    ensures DerivedLess(s, t) <==> s[lo] < t[lo]
  {
    if lo > 0 {
      assert s[0] == s[..lo][0] && t[0] == t[..lo][0];
      assert s[1..][..lo - 1] == s[..lo][1..] && t[1..][..lo - 1] == t[..lo][1..];
      FirstDigitDecides(s[1..], t[1..], lo - 1);
    }
  }

  /** The derived comparison is the numeric one exactly when the lowest and the highest differing limbs agree on which
      side is smaller. */
  lemma DerivedOrderIsNumericIff(a: U256, b: U256, lo: nat, hi: nat)
    requires lo <= hi < 4 && a[lo] != b[lo] && a[hi] != b[hi]
    requires a[..lo] == b[..lo] && a[hi + 1..] == b[hi + 1..]
    ensures (DerivedLess(a, b) <==> Number(a) < Number(b)) <==> (a[lo] < b[lo] <==> a[hi] < b[hi])
  {
    FirstDigitDecides(a, b, lo);
    if a[hi] < b[hi] {
      TopDigitDecides(a, b, M64, hi);
    } else {
      TopDigitDecides(b, a, M64, hi);
    }
  }

  /** 2^64 compares below 1. */
  lemma DerivedOrderMisleads()
    ensures DerivedLess([0, 1, 0, 0], [1, 0, 0, 0]) && Number([0, 1, 0, 0]) > Number([1, 0, 0, 0])
  {
    TopDigitDecides([1, 0, 0, 0], [0, 1, 0, 0], M64, 1);
  }
}
