/** Finite IEEE 754 doubles as exact values, and what rounding to nearest, ties to even, means. */
module Doubles {

  function Pow2(k: nat): nat { if k == 0 then 1 else 2 * Pow2(k - 1) }

  lemma {:induction false} PowPositive(k: nat)
    ensures Pow2(k) > 0
  {
    if k > 0 { PowPositive(k - 1); }
  }

  lemma {:induction false} PowAdd(j: nat, k: nat)
    ensures Pow2(j + k) == Pow2(j) * Pow2(k)
    decreases k
  {
    if k > 0 {
      PowAdd(j, k - 1);
      PowStep(k - 1);
      PowStep(j + k - 1);
      hide Pow2;
      Double(Pow2(j), Pow2(k - 1));
    }
  }

  lemma Double(a: nat, b: nat)
    ensures a * (2 * b) == 2 * (a * b)
  {
  }

  lemma PowStep(k: nat)
    ensures Pow2(k + 1) == 2 * Pow2(k)
  {
  }

  lemma {:induction false} PowMonotone(j: nat, k: nat)
    requires j <= k
    ensures Pow2(j) <= Pow2(k)
    decreases k - j
  {
    if j < k { PowMonotone(j, k - 1); }
  }

  const T32 := 0x1_0000_0000
  const T52 := 0x10_0000_0000_0000
  const T53 := 0x20_0000_0000_0000
  const T64 := 0x1_0000_0000_0000_0000
  const T128 := 0x1_0000_0000_0000_0000_0000_0000_0000_0000

  lemma Powers()
    ensures Pow2(52) == T52 && Pow2(53) == T53 && Pow2(64) == T64 && Pow2(127) == T128 / 2 && Pow2(128) == T128
  {
    assert Pow2(4) == 16 && Pow2(5) == 32;
    PowAdd(4, 4);
    PowAdd(8, 8);
    assert Pow2(16) == 0x1_0000;
    hide Pow2;
    PowAdd(16, 16);
    PowAdd(16, 32);
    assert Pow2(48) == 0x1_0000_0000_0000;
    PowAdd(48, 4);
    PowAdd(48, 5);
    PowAdd(32, 32);
    PowAdd(64, 64);
    assert Pow2(128) == 2 * Pow2(127) by { PowStep(127); }
  }

  // ---------------------------------------------------------------- values

  /** The bits of a double: sign, and the other 63 bits as a number. */
  datatype Bits = Bits(negative: bool, magnitude: nat)

  const INFINITY := 2047 * T52

  /** Every value is held as a multiple of the smallest positive double, 2^-1074. */
  const SCALE := 1074

  function ExponentField(n: nat): nat { n / 0x10_0000_0000_0000 }

  function Fraction(n: nat): nat { n % 0x10_0000_0000_0000 }

  function Significand(n: nat): nat { if ExponentField(n) == 0 then Fraction(n) else T52 + Fraction(n) }

  function Exponent(n: nat): nat { if ExponentField(n) == 0 then 0 else ExponentField(n) - 1 }

  function Magnitude(n: nat): int { Significand(n) * Pow2(Exponent(n)) }

  /** Doubles in order: the double of rank r + 1 is the next larger one after that of rank r. */
  function Rank(b: Bits): int { if b.negative then 0 - b.magnitude as int else b.magnitude }

  function Value(r: int): int { if r >= 0 then Magnitude(r) else -Magnitude(-r) }

  function Abs(x: int): nat { if x < 0 then -x else x }

  ghost predicate Finite(r: int) { -INFINITY < r < INFINITY }

  /** The double of rank r is a nearest one to x, and has an even significand if another is as near. */
  ghost predicate NearestEven(x: int, r: int) {
    && Finite(r)
    && (forall q | Finite(q) :: Abs(Value(r) - x) <= Abs(Value(q) - x))
    && (forall q | Finite(q) && q != r && Abs(Value(q) - x) == Abs(Value(r) - x) :: r % 2 == 0)
  }

  // ---------------------------------------------------------------- order

  /** One step up in rank is one unit in the last place. */
  lemma MagnitudeStep(n: nat)
    ensures Magnitude(n + 1) == Magnitude(n) + Pow2(Exponent(n))
  {
    var e, m := ExponentField(n), Fraction(n);
    if m < T52 - 1 {
      assert ExponentField(n + 1) == e && Fraction(n + 1) == m + 1;
    } else {
      assert ExponentField(n + 1) == e + 1 && Fraction(n + 1) == 0;
      if e > 0 { assert Pow2(e) == 2 * Pow2(e - 1); }
    }
  }

  lemma ValueStep(r: int)
    ensures Value(r) < Value(r + 1)
  {
    var n := if r >= 0 then r else -r - 1;
    MagnitudeStep(n);
    PowPositive(Exponent(n));
    hide Magnitude, Pow2;
    assert Magnitude(0) == 0 by { ZeroMagnitude(); }
  }

  lemma ZeroMagnitude()
    ensures Magnitude(0) == 0
  {
  }

  lemma {:induction false} ValueMonotone(r: int, q: int)
    requires r <= q
    ensures Value(r) <= Value(q) && (r < q ==> Value(r) < Value(q))
    decreases q - r
  {
    hide Value;
    if r < q {
      ValueStep(q - 1);
      ValueMonotone(r, q - 1);
    }
  }

  // ---------------------------------------------------------------- nearest doubles

  /** Between two neighbours the nearer one is nearest of all. */
  lemma NearestOfTwo(x: int, r: int, up: bool)
    requires Finite(r) && Finite(r + 1) && Value(r) <= x < Value(r + 1)
    requires var below, above := x - Value(r), Value(r + 1) - x;
             if below == above then up <==> r % 2 == 1 else up <==> below > above
    ensures NearestEven(x, if up then r + 1 else r)
  {
    hide Value;
    forall q | Finite(q)
      ensures q <= r ==> Value(q) <= Value(r) && (q < r ==> Value(q) < Value(r))
      ensures q > r ==> Value(q) >= Value(r + 1) && (q > r + 1 ==> Value(q) > Value(r + 1))
    {
      if q <= r { ValueMonotone(q, r); } else { ValueMonotone(r + 1, q); }
    }
  }

  lemma NearestExact(x: int, r: int)
    requires Finite(r) && Value(r) == x
    ensures NearestEven(x, r)
  {
    hide Value;
    forall q | Finite(q) && q != r ensures Value(q) != x {
      if q < r { ValueMonotone(q, r); } else { ValueMonotone(r, q); }
    }
  }

  lemma NearestOrder(x: int, r: int, y: int, q: int)
    requires NearestEven(x, r) && NearestEven(y, q) && x <= y
    ensures r <= q
  {
    hide Value;
    if q < r {
      ValueMonotone(q, r);
      assert Abs(Value(r) - x) <= Abs(Value(q) - x) && Abs(Value(q) - y) <= Abs(Value(r) - y);
      assert x == y && 2 * x == Value(r) + Value(q);
      assert r % 2 == 0 && q % 2 == 0 && Finite(q + 1);
      assert Abs(Value(r) - x) <= Abs(Value(q + 1) - x);
      ValueMonotone(q, q + 1);
      ValueMonotone(q + 1, r);
    }
  }

  /** Rounding is monotone, so the nearest double is unique. */
  lemma RoundingMonotone(x: int, r: int, y: int, q: int)
    requires NearestEven(x, r) && NearestEven(y, q) && x <= y
    ensures Value(r) <= Value(q) && (x == y ==> r == q)
  {
    hide Value, NearestEven;
    NearestOrder(x, r, y, q);
    ValueMonotone(r, q);
    if x == y { NearestOrder(y, q, x, r); }
  }
}
