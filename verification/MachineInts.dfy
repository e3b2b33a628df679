/** Rust's fixed-width integers as a release build computes with them: two's complement, wrapping. */
module MachineInts {

  const M128: nat := 0x1_0000_0000_0000_0000_0000_0000_0000_0000
  const M64: nat := 0x1_0000_0000_0000_0000
  type u128 = x: nat | x < M128
  type u64 = x: nat | x < M64

  function ToI128(x: int): (i: int)
    ensures 0 <= x < M128 ==> -(M128 / 2) <= i < M128 / 2
  {
    if x < M128 / 2 then x else x - M128
  }

  /** Two's-complement wrap to 128 bits. */
  function WrapI128(z: int): int {
    ToI128(z % M128)
  }

  function AsU128(i: int): u128 {
    i % M128
  }

  lemma ShiftKeepsResidue(z: int)
    ensures (z - M128) % M128 == z % M128
  {
  }

  lemma WrapKeepsResidue(z: int)
    ensures WrapI128(z) % M128 == z % M128
  {
    ShiftKeepsResidue(z % M128);
  }

  lemma SignedSumResidue(balance: u128, d: int, delta: int)
    requires d % M128 == delta % M128
    ensures (ToI128(balance) + d) % M128 == (balance + delta) % M128
  {
    SumResidue(balance, d, delta);
    if balance >= M128 / 2 {
      ShiftKeepsResidue(balance + d);
      assert balance - M128 + d == balance + d - M128;
    }
  }

  lemma SumResidue(b: int, d: int, e: int)
    requires d % M128 == e % M128
    ensures (b + d) % M128 == (b + e) % M128
  {
  }

  /** Through signed 128-bit and back, a balance moves by the delta modulo 2^128, whichever casts wrap on the way. */
  lemma DeltaIsModular(balance: u128, delta: int)
    ensures AsU128(WrapI128(ToI128(balance) + WrapI128(delta))) == (balance + delta) % M128
    ensures AsU128(WrapI128(ToI128(balance) + delta)) == (balance + delta) % M128
  {
    hide ToI128, WrapI128;
    WrapKeepsResidue(delta);
    WrapKeepsResidue(ToI128(balance) + WrapI128(delta));
    WrapKeepsResidue(ToI128(balance) + delta);
    SignedSumResidue(balance, WrapI128(delta), delta);
    SignedSumResidue(balance, delta, delta);
  }

  /** Casting a debit to signed before negating it does not change what it does to a balance. */
  lemma NegatedCastIsModular(balance: u128, cost: u128)
    ensures AsU128(WrapI128(ToI128(balance) + WrapI128(-ToI128(cost)))) == (balance - cost) % M128
  {
    DeltaIsModular(balance, -ToI128(cost));
    if cost >= M128 / 2 {
      assert balance + -ToI128(cost) == balance - cost + M128;
      ShiftKeepsResidue(balance - cost + M128);
    }
  }

  lemma CreditIsModular(balance: u128, value: u128)
    ensures AsU128(WrapI128(ToI128(balance) + ToI128(value))) == (balance + value) % M128
  {
    DeltaIsModular(balance, ToI128(value));
    if value >= M128 / 2 {
      ShiftKeepsResidue(balance + value);
    }
  }

  lemma SmallResidue(x: nat)
    requires x < M128
    ensures x % M128 == x
  {
  }
}
