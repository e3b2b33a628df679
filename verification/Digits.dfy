/** Little-endian digit strings and the numbers they write. */
module Digits {
  import opened Arithmetic

  function Pow(r: nat, k: nat): nat {
    if k == 0 then 1 else r * Pow(r, k - 1)
  }

  function Value(s: seq<nat>, r: nat): nat {
    if s == [] then 0 else s[0] + r * Value(s[1..], r)
  }

  ghost predicate InRadix(s: seq<nat>, r: nat) {
    forall i :: 0 <= i < |s| ==> s[i] < r
  }

  lemma {:induction false} ValueConcat(s: seq<nat>, t: seq<nat>, r: nat)
    ensures Value(s + t, r) == Value(s, r) + Pow(r, |s|) * Value(t, r)
  {
    if s == [] {
      assert s + t == t;
    } else {
      var p, v := Pow(r, |s| - 1), Value(t, r);
      assert (s + t)[1..] == s[1..] + t;
      ValueConcat(s[1..], t, r);
      assert Value(s + t, r) == s[0] + r * Value(s[1..] + t, r);
      Distribute(r, Value(s[1..], r), p, v);
    }
  }

  lemma ValueSnoc(s: seq<nat>, x: nat, r: nat)
    ensures Value(s + [x], r) == Value(s, r) + Pow(r, |s|) * x
  {
    ValueConcat(s, [x], r);
    assert Value([x], r) == x + r * Value([], r);
  }

  lemma {:induction false} ValueBound(s: seq<nat>, r: nat)
    requires InRadix(s, r)
    ensures Value(s, r) < Pow(r, |s|)
  {
    if s != [] {
      var v, p := Value(s[1..], r), Pow(r, |s| - 1);
      ValueBound(s[1..], r);
      MulMono(r, r, v + 1, p);
      Distribute(r, v, 0, 0);
    }
  }

  /** Whichever digit differs last decides which number is smaller. */
  lemma {:induction false} TopDigitDecides(s: seq<nat>, t: seq<nat>, r: nat, hi: nat)
    requires hi < |s| == |t| && InRadix(s, r) && InRadix(t, r)
    requires s[hi] < t[hi] && s[hi + 1..] == t[hi + 1..]
    ensures Value(s, r) < Value(t, r)
  {
    var v, w := Value(s[1..], r), Value(t[1..], r);
    if hi > 0 {
      assert s[1..][hi..] == s[hi + 1..] && t[1..][hi..] == t[hi + 1..];
      TopDigitDecides(s[1..], t[1..], r, hi - 1);
      MulMono(r, r, v + 1, w);
      Distribute(r, v, 0, 0);
    }
  }

  lemma {:induction false} DigitsUnique(s: seq<nat>, t: seq<nat>, r: nat)
    requires |s| == |t| && InRadix(s, r) && InRadix(t, r) && Value(s, r) == Value(t, r)
    ensures s == t
  {
    if s != [] {
      Commute(r, Value(s[1..], r));
      Commute(r, Value(t[1..], r));
      DivModUnique(Value(s, r), r, Value(s[1..], r), s[0]);
      DivModUnique(Value(s, r), r, Value(t[1..], r), t[0]);
      DigitsUnique(s[1..], t[1..], r);
    }
  }

  lemma QuotientAndRest(x: nat, r: nat)
    requires r > 0
    ensures 0 <= x / r && 0 <= x % r < r && x == r * (x / r) + x % r
  {
  }

  lemma Distribute(r: nat, a: nat, p: nat, v: nat)
    ensures r * (a + p * v) == r * a + (r * p) * v
    ensures r * (a + 1) == r * a + r
  {
  }

  lemma QuotientBelow(x: nat, r: nat, p: nat)
    requires r > 0 && x < r * p
    ensures 0 <= x / r < p
  {
    QuotientAndRest(x, r);
    if x / r >= p {
      MulMono(r, r, p, x / r);
    }
  }

  /** The n lowest digits of x. */
  function Write(x: nat, n: nat, r: nat): (s: seq<nat>)
    requires r > 0
    ensures |s| == n && forall i :: 0 <= i < n ==> s[i] < r
    decreases n
  {
    if n == 0 then []
    else
      QuotientAndRest(x, r);
      [x % r] + Write(x / r, n - 1, r)
  }

  lemma {:induction false} WriteValue(x: nat, n: nat, r: nat)
    requires r > 0 && x < Pow(r, n)
    ensures Value(Write(x, n, r), r) == x
    decreases n
  {
    if n > 0 {
      QuotientBelow(x, r, Pow(r, n - 1));
      QuotientAndRest(x, r);
      WriteValue(x / r, n - 1, r);
      assert Write(x, n, r) == [x % r] + Write(x / r, n - 1, r);
      assert Write(x, n, r)[1..] == Write(x / r, n - 1, r);
    }
  }
}
