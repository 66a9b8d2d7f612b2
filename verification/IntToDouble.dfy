/** libraries/builtins: converting 128-bit integers to doubles and back. */
module IntToDouble {
  import opened Doubles

  // ---------------------------------------------------------------- leading zeros

  /** The number of significant binary digits. */
  function Digits(x: nat): nat { if x == 0 then 0 else 1 + Digits(x / 2) }

  lemma {:induction false} DigitsBound(x: nat)
    requires x > 0
    ensures Digits(x) > 0 && Pow2(Digits(x) - 1) <= x < Pow2(Digits(x))
  {
    if x > 1 { DigitsBound(x / 2); }
  }

  lemma DigitsUnique(x: nat, k: nat)
    requires k > 0 && Pow2(k - 1) <= x < Pow2(k)
    ensures Digits(x) == k
  {
    hide Pow2, Digits;
    PowPositive(k - 1);
    DigitsBound(x);
    if Digits(x) < k { PowMonotone(Digits(x), k - 1); }
    if Digits(x) > k { PowMonotone(k, Digits(x) - 1); }
  }

  /** __builtin_clzll, which is undefined for zero. */
  function Clz64(x: nat): int
    requires 0 < x < 0x1_0000_0000_0000_0000
  {
    64 - Digits(x)
  }

  /** __clzti2: the high half decides, unless it is zero. */
  function Clz128(a: nat): (r: int)
    requires 0 < a < T128
  {
    var high, low := a / 0x1_0000_0000_0000_0000, a % 0x1_0000_0000_0000_0000;
    if high == 0 then Clz64(low) + 64 else Clz64(high)
  }

  lemma Halves(high: nat, low: nat, p: nat, q: nat)
    requires p <= high < q && low < 0x1_0000_0000_0000_0000
    ensures p * T64 <= high * 0x1_0000_0000_0000_0000 + low < q * T64
  {
  }

  lemma Clz128Counts(a: nat)
    requires 0 < a < T128
    ensures Clz128(a) == 128 - Digits(a) && 0 < Digits(a) <= 128
    ensures Pow2(Digits(a) - 1) <= a < Pow2(Digits(a))
  {
    hide Pow2, Digits;
    Powers();
    DigitsBound(a);
    var high, low := a / 0x1_0000_0000_0000_0000, a % 0x1_0000_0000_0000_0000;
    if high > 0 {
      var k := Digits(high);
      DigitsBound(high);
      PowAdd(k - 1, 64);
      PowAdd(k, 64);
      Halves(high, low, Pow2(k - 1), Pow2(k));
      DigitsUnique(a, k + 64);
    }
    if Digits(a) > 128 { PowMonotone(128, Digits(a) - 1); }
  }

  // ---------------------------------------------------------------- rounding

  /** x | c */
  function OrBit(x: nat, c: bool): nat { if c && x % 2 == 0 then x + 1 else x }

  /** What the two bits below the mantissa say about a remainder r modulo p: zero, below half, half
      or above half. */
  function Guard(r: nat, p: nat): nat {
    if r == 0 then 0 else if 2 * r < p then 1 else if 2 * r == p then 2 else 3
  }

  /** x >> k, and the k bits that are shifted out. */
  function ShiftRight(x: nat, k: nat): nat { if k == 0 then x else ShiftRight(x / 2, k - 1) }

  function LowBits(x: nat, k: nat): nat { if k == 0 then 0 else x % 2 + 2 * LowBits(x / 2, k - 1) }

  lemma {:induction false} ShiftSplit(x: nat, k: nat)
    ensures x == ShiftRight(x, k) * Pow2(k) + LowBits(x, k) && LowBits(x, k) < Pow2(k)
  {
    if k > 0 {
      ShiftSplit(x / 2, k - 1);
      var q, p, r := ShiftRight(x / 2, k - 1), Pow2(k - 1), LowBits(x / 2, k - 1);
      assert x == 2 * (x / 2) + x % 2 == 2 * (q * p + r) + x % 2;
      Double(q, p);
    }
  }

  lemma {:induction false} ShiftTwice(x: nat, j: nat)
    ensures ShiftRight(x, j + 2) == ShiftRight(x, j) / 4
    ensures LowBits(x, j + 2) == ShiftRight(x, j) % 4 * Pow2(j) + LowBits(x, j)
    decreases j
  {
    if j == 0 {
      assert ShiftRight(x, 2) == ShiftRight(x / 2, 1) == ShiftRight(x / 2 / 2, 0) == x / 4;
      assert LowBits(x / 2, 1) == x / 2 % 2 + 2 * LowBits(x / 2 / 2, 0) == x / 2 % 2;
      assert LowBits(x, 2) == x % 2 + 2 * LowBits(x / 2, 1) == x % 4;
    } else {
      ShiftTwice(x / 2, j - 1);
      var t, p := ShiftRight(x, j) % 4, Pow2(j - 1);
      Double(t, p);
    }
  }

  /** A shift that keeps two bits below the mantissa, and ors what it drops into the last one. */
  lemma Shifted(x: nat, j: nat)
    ensures OrBit(ShiftRight(x, j), LowBits(x, j) != 0)
            == 4 * ShiftRight(x, j + 2) + Guard(LowBits(x, j + 2), Pow2(j + 2))
  {
    ShiftTwice(x, j);
    ShiftSplit(x, j);
    assert Pow2(j + 2) == 4 * Pow2(j);
    hide ShiftRight, LowBits, Pow2, Guard, OrBit;
    StickyBit(ShiftRight(x, j), LowBits(x, j), Pow2(j));
  }

  lemma StickyBit(y: nat, low: nat, p: nat)
    requires low < p
    ensures OrBit(y, low != 0) == 4 * (y / 4) + Guard(y % 4 * p + low, 4 * p)
  {
    hide Guard;
    var two := y % 4;
    TwoBits(two, p);
    GuardOf(two, two * p + low, low, p);
    assert y % 2 == two % 2;
  }

  lemma TwoBits(two: nat, p: nat)
    requires two < 4
    ensures two * p == if two == 0 then 0 else if two == 1 then p else if two == 2 then p + p else p + p + p
  {
  }

  /** The two bits, the lower of them with the rest ored in, are the guard. */
  lemma GuardOf(two: nat, r: nat, low: nat, p: nat)
    requires two < 4 && low < p
    requires r == low + if two == 0 then 0 else if two == 1 then p else if two == 2 then p + p else p + p + p
    ensures Guard(r, 4 * p) == OrBit(two, low != 0)
  {
  }

  /** The rank of the double with 53-bit significand a and exponent e. */
  function Packed(a: int, e: int): int { (e + 1023) * 0x10_0000_0000_0000 + a - T52 }

  lemma PackedFields(a: int, e: nat)
    requires T52 <= a < T53 && e <= 128
    ensures Packed(a, e) >= 0 && ExponentField(Packed(a, e)) == e + 1023 && Fraction(Packed(a, e)) == a - T52
    ensures Significand(Packed(a, e)) == a && Exponent(Packed(a, e)) == e + 1022
    ensures Finite(Packed(a, e)) && Finite(Packed(a, e) + 1) && Packed(a, e) % 2 == a % 2
  {
  }

  /** A 53-bit significand and an exponent for x. */
  method Round(x: nat) returns (a: nat, e: nat)
    requires 0 < x < T128
    ensures T52 <= a < T53 && e <= 128 && NearestEven(x * Pow2(SCALE), Packed(a, e))
  {
    Clz128Counts(x);
    hide Pow2, Digits, Clz128, NearestEven;
    var sd := 128 - Clz128(x);
    if sd > 53 {
      a, e := RoundDigits(x, sd);
    } else {
      a, e := x * Pow2(53 - sd), sd - 1;
      ExactNearest(x, sd);
    }
  }

  /** Rounds a number of sd digits to 53, and renormalises. */
  method RoundDigits(x: nat, sd: nat) returns (a: nat, e: nat)
    requires 53 < sd <= 128 && Pow2(sd - 1) <= x < Pow2(sd)
    ensures T52 <= a < T53 && e <= 128 && NearestEven(x * Pow2(SCALE), Packed(a, e))
  {
    hide Pow2, NearestEven, ShiftRight, LowBits, Guard, OrBit, Packed;
    a, e := x, sd - 1;
    if sd == 54 {
      a := a * 2;
    } else if sd != 55 {
      a := OrBit(ShiftRight(a, sd - 55), LowBits(a, sd - 55) != 0);
    }
    GuardBits(x, sd, a);
    a := OrBit(a, a / 4 % 2 == 1);
    a := a + 1;
    a := a / 4;
    RoundedNearest(x, sd, a);
    if a / 0x20_0000_0000_0000 % 2 == 1 {
      a := a / 2;
      e := e + 1;
    }
  }

  /** The upper 53 digits. */
  lemma SplitTop(x: nat, sd: nat)
    requires 53 < sd <= 128 && Pow2(sd - 1) <= x < Pow2(sd)
    ensures T52 <= ShiftRight(x, sd - 53) < T53
  {
    Powers();
    PowAdd(52, sd - 53);
    PowAdd(53, sd - 53);
    ShiftSplit(x, sd - 53);
    hide Pow2, ShiftRight, LowBits;
    QuotientRange(x, ShiftRight(x, sd - 53), Pow2(sd - 53), LowBits(x, sd - 53), T52, T53);
  }

  lemma QuotientRange(x: nat, q: nat, p: nat, r: nat, low: nat, high: nat)
    requires x == q * p + r && r < p && low * p <= x < high * p
    ensures low <= q < high
  {
    if q >= high { MulMonotone(high, q, p); }
    if q < low {
      assert (q + 1) * p == q * p + p;
      MulMonotone(q + 1, low, p);
    }
  }

  lemma MulMonotone(a: nat, b: nat, c: nat)
    requires a <= b
    ensures a * c <= b * c
  {
    assert (b - a) * c >= 0;
  }

  lemma GuardBits(x: nat, sd: nat, a: nat)
    requires 53 < sd <= 128
    requires a == if sd == 54 then 2 * x else if sd == 55 then x
                  else OrBit(ShiftRight(x, sd - 55), LowBits(x, sd - 55) != 0)
    ensures (OrBit(a, a / 4 % 2 == 1) + 1) / 4 == ShiftRight(x, sd - 53) + if RoundsUp(x, sd - 53) then 1 else 0
  {
    if sd == 54 {
      assert ShiftRight(x, 1) == x / 2 && LowBits(x, 1) == x % 2 && Pow2(1) == 2;
    } else {
      Shifted(x, sd - 55);
    }
    RoundBits(ShiftRight(x, sd - 53), Guard(LowBits(x, sd - 53), Pow2(sd - 53)));
  }

  /** Dropping k digits rounds up above half, and at half if what is left is odd. */
  ghost predicate RoundsUp(x: nat, k: nat) { Guard(LowBits(x, k), Pow2(k)) + ShiftRight(x, k) % 2 >= 3 }

  /** Oring P into R, adding one and dropping two bits rounds up exactly above half, and at half
      from an odd significand. */
  lemma RoundBits(q: nat, g: nat)
    requires g <= 3
    ensures var a := 4 * q + g;
            (OrBit(a, a / 4 % 2 == 1) + 1) / 4 == q + if g + q % 2 >= 3 then 1 else 0
  {
    var a := 4 * q + g;
    Quarter(a, q);
    Parity(q, g);
    var b := OrBit(a, q % 2 == 1) + 1;
    hide OrBit;
    Quarter(b, if g + q % 2 >= 3 then q + 1 else q);
  }

  lemma Quarter(y: nat, x: nat)
    requires 4 * x <= y < 4 * x + 4
    ensures y / 4 == x
  {
  }

  lemma Parity(q: nat, g: nat)
    requires g <= 3
    ensures var b := OrBit(4 * q + g, q % 2 == 1) + 1;
            if g + q % 2 >= 3 then b == 4 * q + 4 else 4 * q < b < 4 * q + 4
  {
    Half(4 * q + g, if g < 2 then 2 * q else 2 * q + 1, if g < 2 then g else g - 2);
    Half(q, q / 2, q % 2);
  }

  lemma Half(y: nat, x: nat, r: nat)
    requires y == 2 * x + r && r < 2
    ensures y % 2 == r
  {
  }

  /** The double whose significand is the upper 53 digits of x, or the next one, whichever the other
      digits call for. */
  lemma RoundedNearest(x: nat, sd: nat, a: nat)
    requires 53 < sd <= 128 && Pow2(sd - 1) <= x < Pow2(sd)
    requires a == ShiftRight(x, sd - 53) + if RoundsUp(x, sd - 53) then 1 else 0
    ensures T52 <= a <= T53
    ensures a < T53 ==> NearestEven(x * Pow2(SCALE), Packed(a, sd - 1))
    ensures a == T53 ==> NearestEven(x * Pow2(SCALE), Packed(T52, sd))
  {
    hide Pow2, NearestEven, ShiftRight, RoundsUp, Packed;
    var q := ShiftRight(x, sd - 53);
    SplitTop(x, sd);
    NearestRank(x, sd, q);
    PackedNext(q, sd - 1);
  }

  lemma PackedNext(q: int, e: int)
    ensures Packed(q + 1, e) == Packed(q, e) + 1 && (q + 1 == T53 ==> Packed(T52, e + 1) == Packed(q, e) + 1)
  {
  }

  lemma NearestRank(x: nat, sd: nat, q: nat)
    requires 53 < sd <= 128 && q == ShiftRight(x, sd - 53) && T52 <= q < T53
    ensures NearestEven(x * Pow2(SCALE), Packed(q, sd - 1) + if RoundsUp(x, sd - 53) then 1 else 0)
  {
    hide Pow2, Value, NearestEven, ShiftRight, LowBits, Packed;
    var r, p, s, n := LowBits(x, sd - 53), Pow2(sd - 53), Pow2(SCALE), Packed(q, sd - 1);
    ShiftSplit(x, sd - 53);
    PackedFields(q, sd - 1);
    NeighbourValues(q, sd);
    PowPositive(SCALE);
    Spread(q, p, r, s);
    assert x * s == Value(n) + r * s && Value(n + 1) - x * s == p * s - r * s;
    NearestOfTwo(x * s, n, RoundsUp(x, sd - 53));
  }

  lemma NeighbourValues(q: nat, sd: nat)
    requires 53 < sd <= 128 && T52 <= q < T53
    ensures var p, s, n := Pow2(sd - 53), Pow2(SCALE), Packed(q, sd - 1);
            Value(n) == q * (p * s) && Value(n + 1) == q * (p * s) + p * s
  {
    hide Pow2, Packed, Significand, Exponent;
    PackedFields(q, sd - 1);
    MagnitudeStep(Packed(q, sd - 1));
    PowAdd(sd - 53, SCALE);
  }

  lemma Spread(q: nat, p: nat, r: nat, s: nat)
    requires s > 0 && r < p
    ensures (q * p + r) * s == q * (p * s) + r * s && 0 <= r * s < p * s
    ensures 2 * r < p <==> r * s < p * s - r * s
    ensures 2 * r == p <==> r * s == p * s - r * s
  {
    Distribute(q, p, r, s);
    Compare(r, p, s);
    Compare(2 * r, p, s);
    assert 2 * r * s == r * s + r * s;
  }

  lemma Distribute(q: nat, p: nat, r: nat, s: nat)
    ensures (q * p + r) * s == q * (p * s) + r * s
  {
    assert (q * p + r) * s == (q * p) * s + r * s;
    Associate(q, p, s);
  }

  lemma Associate(a: nat, b: nat, c: nat)
    ensures (a * b) * c == a * (b * c)
  {
  }

  lemma Compare(a: int, b: int, s: nat)
    requires s > 0
    ensures a < b <==> a * s < b * s
    ensures a == b <==> a * s == b * s
  {
    assert (b - a) * s == b * s - a * s;
    if a < b { ProductPositive(b - a, s); }
    if a > b { ProductPositive(a - b, s); }
  }

  lemma ProductPositive(a: nat, b: nat)
    requires a > 0 && b > 0
    ensures a * b > 0
  {
  }

  lemma ExactNearest(x: nat, sd: nat)
    requires 0 < sd <= 53 && Pow2(sd - 1) <= x < Pow2(sd)
    ensures var a := x * Pow2(53 - sd);
            T52 <= a < T53 && NearestEven(x * Pow2(SCALE), Packed(a, sd - 1))
  {
    hide Pow2, NearestEven, Packed, Value;
    var a, f := x * Pow2(53 - sd), Pow2(53 - sd);
    Powers();
    PowAdd(sd - 1, 53 - sd);
    PowAdd(sd, 53 - sd);
    PowPositive(53 - sd);
    MulMonotone(Pow2(sd - 1), x, f);
    Compare(x, Pow2(sd), f);
    ExactValue(x, sd, a);
    NearestExact(x * Pow2(SCALE), Packed(a, sd - 1));
  }

  lemma ExactValue(x: nat, sd: nat, a: nat)
    requires 0 < sd <= 53 && a == x * Pow2(53 - sd) && T52 <= a < T53
    ensures Finite(Packed(a, sd - 1)) && Value(Packed(a, sd - 1)) == x * Pow2(SCALE)
  {
    hide Pow2, Packed, Significand, Exponent;
    PackedFields(a, sd - 1);
    PowAdd(53 - sd, sd + 1021);
    assert Value(Packed(a, sd - 1)) == a * Pow2(sd + 1021);
    Associate(x, Pow2(53 - sd), Pow2(sd + 1021));
  }

  // ---------------------------------------------------------------- the conversions

  /** Two 32-bit words as a double. */
  function FromWords(high: nat, low: nat): Bits {
    Bits(high / 0x8000_0000 == 1, high % 0x8000_0000 * T32 + low)
  }

  /** Sign, exponent and the mantissa without its leading bit, in two 32-bit words. */
  method Pack(negative: bool, a: nat, e: nat) returns (b: Bits)
    requires T52 <= a < T53 && e <= 128
    ensures b.negative == negative && b.magnitude == Packed(a, e)
  {
    var high := (if negative then 0x8000_0000 else 0) + (e + 1023) * 0x10_0000 + a / 0x1_0000_0000 % 0x10_0000;
    var low := a % 0x1_0000_0000;
    b := FromWords(high, low);
  }

  method FloatUnsigned(x: nat) returns (b: Bits)
    requires x < T128
    ensures !b.negative && NearestEven(x * Pow2(SCALE), Rank(b))
  {
    hide NearestEven, Pow2;
    if x == 0 {
      ZeroNearest();
      return Bits(false, 0);
    }
    var a, e := Round(x);
    b := Pack(false, a, e);
  }

  /** The most negative input is no exception: its negation wraps to the same 128 bits, which read as
      an unsigned number are its absolute value. */
  method FloatSigned(x: int) returns (b: Bits)
    requires -0x8000_0000_0000_0000_0000_0000_0000_0000 <= x < 0x8000_0000_0000_0000_0000_0000_0000_0000
    ensures NearestEven(x * Pow2(SCALE), Rank(b))
  {
    hide NearestEven, Pow2;
    if x == 0 {
      ZeroNearest();
      return Bits(false, 0);
    }
    var s := if x < 0 then -1 else 0;
    var u := ((if s == -1 then -x - 1 else x) - s) % 0x1_0000_0000_0000_0000_0000_0000_0000_0000;
    assert u == Abs(x);
    var a, e := Round(u);
    b := Pack(s == -1, a, e);
    if s == -1 {
      NearestNegated(u * Pow2(SCALE), Packed(a, e));
      assert x * Pow2(SCALE) == -(u * Pow2(SCALE));
    }
  }

  lemma ZeroNearest()
    ensures NearestEven(0 * Pow2(SCALE), 0)
  {
    NearestExact(0, 0);
  }

  lemma NearestNegated(x: int, r: int)
    requires NearestEven(x, r)
    ensures NearestEven(-x, -r)
  {
    forall q | Finite(q) ensures Value(-q) == -Value(q) && Finite(-q) { ValueOdd(q); }
    hide Value;
    assert Abs(Value(-r) + x) == Abs(Value(r) - x);
    forall q | Finite(q)
      ensures Abs(Value(-r) + x) <= Abs(Value(q) + x)
      ensures q != -r && Abs(Value(q) + x) == Abs(Value(-r) + x) ==> -r % 2 == 0
    {
      assert Abs(Value(q) + x) == Abs(Value(-q) - x);
    }
  }

  lemma ValueOdd(q: int)
    ensures Value(-q) == -Value(q)
  {
    ZeroMagnitude();
  }

  // ---------------------------------------------------------------- and back

  /** ___fixunsdfti on the bits of a double, infinities and NaNs included. */
  function FixUnsigned(b: Bits): nat {
    var exponent: int := ExponentField(b.magnitude) - 1023;
    var significand := T52 + Fraction(b.magnitude);
    if b.negative || exponent < 0 then 0
    else if exponent >= 128 then T128 - 1
    else if exponent < 52 then ShiftRight(significand, 52 - exponent)
    else significand * Pow2(exponent - 52)
  }

  /** It truncates; what does not fit saturates, and a negative double gives zero. */
  lemma FixTruncates(b: Bits)
    ensures b.negative ==> FixUnsigned(b) == 0
    ensures !b.negative ==>
              var m, s, f := Magnitude(b.magnitude), Pow2(SCALE), FixUnsigned(b);
              if m >= T128 * s then f == T128 - 1 else f < T128 && f * s <= m < (f + 1) * s
  {
    if !b.negative { FixPositive(b); }
  }

  lemma FixPositive(b: Bits)
    requires !b.negative
    ensures var m, s, f := Magnitude(b.magnitude), Pow2(SCALE), FixUnsigned(b);
            if m >= T128 * s then f == T128 - 1 else f < T128 && f * s <= m < (f + 1) * s
  {
    hide Pow2, ShiftRight, Magnitude;
    var n := b.magnitude;
    var e := ExponentField(n) - 1023;
    if e < 0 {
      SmallMagnitude(n);
    } else if e >= 128 {
      LargeMagnitude(n);
    } else if e < 52 {
      FractionDropped(n, e);
      Compare(FixUnsigned(b) + 1, T128, Pow2(SCALE));
    } else {
      Integral(n, e);
      Compare(FixUnsigned(b), T128, Pow2(SCALE));
      PowPositive(SCALE);
      assert (FixUnsigned(b) + 1) * Pow2(SCALE) == FixUnsigned(b) * Pow2(SCALE) + Pow2(SCALE);
    }
  }

  lemma SmallMagnitude(n: nat)
    requires ExponentField(n) < 1023
    ensures 0 <= Magnitude(n) < Pow2(SCALE) < T128 * Pow2(SCALE)
  {
    hide Pow2;
    Powers();
    PowAdd(53, 1021);
    PowMonotone(Exponent(n), 1021);
    PowPositive(Exponent(n));
    PowPositive(SCALE);
    Compare(Significand(n), T53, Pow2(Exponent(n)));
    Commuted(Pow2(Exponent(n)), Pow2(1021), T53);
  }

  lemma Commuted(a: nat, b: nat, c: nat)
    requires a <= b
    ensures c * a <= c * b
  {
    MulMonotone(a, b, c);
  }

  lemma LargeMagnitude(n: nat)
    requires ExponentField(n) >= 1151
    ensures Magnitude(n) >= T128 * Pow2(SCALE)
  {
    hide Pow2;
    Powers();
    PowAdd(128, SCALE);
    PowAdd(52, 1150);
    PowMonotone(1150, Exponent(n));
    MulMonotone(T52, Significand(n), Pow2(Exponent(n)));
    Commuted(Pow2(1150), Pow2(Exponent(n)), T52);
  }

  lemma FractionDropped(n: nat, e: nat)
    requires ExponentField(n) == e + 1023 && e < 52
    ensures var f, s := ShiftRight(T52 + Fraction(n), 52 - e), Pow2(SCALE);
            f + 1 < T128 && f * s <= Magnitude(n) < (f + 1) * s && s > 0
  {
    var sig, k, u := T52 + Fraction(n), 52 - e, Pow2(e + 1022);
    assert Magnitude(n) == sig * u;
    hide Pow2, ShiftRight, LowBits, Magnitude;
    ShiftSplit(sig, k);
    PowAdd(k, e + 1022);
    PowPositive(e + 1022);
    PowPositive(k);
    Truncated(ShiftRight(sig, k), Pow2(k), LowBits(sig, k), u);
  }

  lemma Truncated(f: nat, p: nat, r: nat, u: nat)
    requires u > 0 && r < p
    ensures f * (p * u) <= (f * p + r) * u < (f + 1) * (p * u) && f <= f * p && p * u > 0
  {
    Distribute(f, p, r, u);
    Compare(r, p, u);
    ProductPositive(p, u);
    assert (f + 1) * (p * u) == f * (p * u) + p * u;
    Commuted(1, p, f);
  }

  lemma Integral(n: nat, e: nat)
    requires ExponentField(n) == e + 1023 && 52 <= e < 128
    ensures Magnitude(n) == (T52 + Fraction(n)) * Pow2(e - 52) * Pow2(SCALE)
    ensures (T52 + Fraction(n)) * Pow2(e - 52) < T128 && Pow2(SCALE) > 0
  {
    Powers();
    PowAdd(e - 52, SCALE);
    PowAdd(53, 75);
    PowMonotone(e - 52, 75);
    PowPositive(e - 52);
    PowPositive(SCALE);
    var sig := T52 + Fraction(n);
    assert Magnitude(n) == sig * Pow2(e + 1022);
    hide Pow2, Magnitude;
    Associate(sig, Pow2(e - 52), Pow2(SCALE));
    Compare(sig, T53, Pow2(e - 52));
    Commuted(Pow2(e - 52), Pow2(75), T53);
  }

  ghost predicate Representable(x: int) { exists r :: Finite(r) && Value(r) == x * Pow2(SCALE) }

  /** Every number with at most 53 significant digits is a double. */
  lemma FewDigits(m: nat, j: nat)
    requires m < T53 && m * Pow2(j) < T128
    ensures Representable(m * Pow2(j))
  {
    hide Pow2, Packed, Value, Digits;
    if m == 0 {
      assert Value(0) == 0 by { ZeroValue(); }
    } else {
      var sd := Digits(m);
      TopDigit(m, j);
      var a := m * Pow2(53 - sd);
      ShiftedValue(m, sd, j, a);
    }
  }

  lemma ZeroValue()
    ensures Value(0) == 0
  {
  }

  lemma TopDigit(m: nat, j: nat)
    requires 0 < m < T53 && m * Pow2(j) < T128
    ensures var sd := Digits(m); 0 < sd <= 53 && sd - 1 + j < 128 && T52 <= m * Pow2(53 - sd) < T53
  {
    hide Pow2, Digits;
    Powers();
    DigitsBound(m);
    var sd := Digits(m);
    if sd > 53 { PowMonotone(53, sd - 1); }
    PowAdd(sd - 1, j);
    MulMonotone(Pow2(sd - 1), m, Pow2(j));
    if sd - 1 + j >= 128 { PowMonotone(128, sd - 1 + j); }
    PowAdd(sd - 1, 53 - sd);
    PowAdd(sd, 53 - sd);
    PowPositive(53 - sd);
    MulMonotone(Pow2(sd - 1), m, Pow2(53 - sd));
    Compare(m, Pow2(sd), Pow2(53 - sd));
  }

  lemma ShiftedValue(m: nat, sd: nat, j: nat, a: nat)
    requires 0 < sd <= 53 && sd - 1 + j < 128 && a == m * Pow2(53 - sd) && T52 <= a < T53
    ensures var n := Packed(a, sd - 1 + j); Finite(n) && Value(n) == m * Pow2(j) * Pow2(SCALE)
  {
    hide Pow2, Packed, Significand, Exponent;
    PackedFields(a, sd - 1 + j);
    PowAdd(53 - sd, sd + j + 1021);
    PowAdd(j, SCALE);
    Associate(m, Pow2(53 - sd), Pow2(sd + j + 1021));
    Associate(m, Pow2(j), Pow2(SCALE));
  }

  /** Converting to double and back gives the same number exactly for the numbers that are doubles, that
      is, have at most 53 significant digits, and for the largest one, which rounds up to 2^128 and
      saturates. */
  lemma RoundTrip(x: nat, b: Bits)
    requires x < T128 && !b.negative && NearestEven(x * Pow2(SCALE), Rank(b))
    ensures FixUnsigned(b) == x <==> Representable(x) || x == T128 - 1
    ensures FixUnsigned(b) == x <==> Short(x) || x == T128 - 1
  {
    assert Finite(Rank(b));
    hide FixUnsigned, Pow2, Representable, NearestEven, Magnitude, Short;
    DoublesAreShort(x);
    if Representable(x) { ExactReturn(x, b); }
    if x == T128 - 1 { MaxReturn(b); }
    if FixUnsigned(b) == x && x < T128 - 1 { OnlyExact(x, b); }
  }

  lemma ExactReturn(x: nat, b: Bits)
    requires x < T128 && !b.negative && NearestEven(x * Pow2(SCALE), Rank(b)) && Representable(x)
    ensures FixUnsigned(b) == x
  {
    hide FixUnsigned, Pow2, Magnitude;
    var r :| Finite(r) && Value(r) == x * Pow2(SCALE);
    var s, f := Pow2(SCALE), FixUnsigned(b);
    assert Magnitude(b.magnitude) == x * s;
    FixTruncates(b);
    PowPositive(SCALE);
    hide NearestEven, Value;
    Compare(x, T128, s);
    Compare(x, f, s);
    Compare(x, f + 1, s);
  }

  lemma OnlyExact(x: nat, b: Bits)
    requires x < T128 - 1 && !b.negative && FixUnsigned(b) == x && Finite(Rank(b))
    ensures Representable(x)
  {
    hide Pow2, Magnitude, ShiftRight, Representable;
    var n := b.magnitude;
    var e := ExponentField(n) - 1023;
    assert Pow2(0) == 1 by { PowZero(); }
    if e < 52 {
      if e >= 0 { ShrinkBound(T52 + Fraction(n), 52 - e); }
      FewDigits(x, 0);
    } else {
      Integral(n, e);
      IsRepresentable(x, n);
    }
  }

  lemma PowZero()
    ensures Pow2(0) == 1
  {
  }

  lemma IsRepresentable(x: nat, n: nat)
    requires Finite(n) && Magnitude(n) == x * Pow2(SCALE)
    ensures Representable(x)
  {
    hide Magnitude, Pow2;
    assert Value(n) == x * Pow2(SCALE);
  }

  lemma {:induction false} ShrinkBound(x: nat, k: nat)
    ensures ShiftRight(x, k) <= x
  {
    if k > 0 { ShrinkBound(x / 2, k - 1); }
  }

  /** The largest number is one below 2^128, which is a double far nearer than any below it. */
  lemma MaxReturn(b: Bits)
    requires !b.negative && NearestEven((T128 - 1) * Pow2(SCALE), Rank(b))
    ensures FixUnsigned(b) == T128 - 1
  {
    hide Pow2, Magnitude, ShiftRight;
    var s, m := Pow2(SCALE), Magnitude(b.magnitude);
    TopDouble();
    PowPositive(SCALE);
    var top := Packed(T52, 128);
    assert Finite(top) && Value(top) == T128 * s;
    assert (T128 - 1) * s == T128 * s - s && (T128 - 2) * s == T128 * s - 2 * s;
    assert Abs(Value(Rank(b)) - (T128 - 1) * s) <= Abs(Value(top) - (T128 - 1) * s) == s;
    assert Value(Rank(b)) == m;
    hide NearestEven, Value;
    FixTruncates(b);
    if m < T128 * s && FixUnsigned(b) != T128 - 1 {
      Compare(T128 - 2, FixUnsigned(b) + 1, s);
      NoneBetween(b);
    }
  }

  lemma TopDouble()
    ensures Finite(Packed(T52, 128)) && Value(Packed(T52, 128)) == T128 * Pow2(SCALE)
  {
    hide Pow2, Packed, Significand, Exponent;
    PackedFields(T52, 128);
    Powers();
    PowAdd(52, 1150);
    PowAdd(128, SCALE);
  }

  /** Below 2^128 the largest double leaves a wide gap. */
  lemma NoneBetween(b: Bits)
    requires !b.negative && ExponentField(b.magnitude) - 1023 < 128
    ensures FixUnsigned(b) < T128 - 2
  {
    hide Pow2, ShiftRight;
    var e := ExponentField(b.magnitude) - 1023;
    var sig := T52 + Fraction(b.magnitude);
    if 0 <= e < 52 {
      ShrinkBound(sig, 52 - e);
    } else if e >= 52 {
      Powers();
      PowAdd(53, 75);
      PowMonotone(e - 52, 75);
      PowMonotone(53, 75);
      MulMonotone(sig, T53 - 1, Pow2(e - 52));
      Commuted(Pow2(e - 52), Pow2(75), T53 - 1);
      assert (T53 - 1) * Pow2(75) == T53 * Pow2(75) - Pow2(75);
    }
  }

  /** The largest number is no double, although it comes back. */
  lemma LargestIsNoDouble()
    ensures !Representable(T128 - 1)
  {
    if Representable(T128 - 1) {
      var r :| Finite(r) && Value(r) == (T128 - 1) * Pow2(SCALE);
      hide Representable, Value, Finite, Pow2, Magnitude, FixUnsigned;
      RankOf(r, T128 - 1);
      BelowLargest(Bits(false, r), T128 - 1);
    }
  }

  /** The rank of a positive number is positive. */
  lemma RankOf(r: int, x: nat)
    requires x > 0 && Value(r) == x * Pow2(SCALE)
    ensures r > 0 && Magnitude(r) == x * Pow2(SCALE)
  {
    PowPositive(SCALE);
    hide Pow2;
    ProductPositive(x, Pow2(SCALE));
    ZeroValue();
  }

  lemma BelowLargest(b: Bits, x: nat)
    requires !b.negative && x < T128 && Magnitude(b.magnitude) == x * Pow2(SCALE)
    ensures x < T128 - 2
  {
    hide Pow2, Magnitude, FixUnsigned;
    Returned(b, x);
    NoneBetween(b);
  }

  ghost predicate HasDigits(x: nat, m: nat, j: nat) { m < T53 && x == m * Pow2(j) }

  /** At most 53 significant binary digits, followed by zeros. */
  ghost predicate Short(x: nat) { exists m, j :: HasDigits(x, m, j) }

  /** The doubles among the 128-bit numbers are exactly those with at most 53 significant digits. */
  lemma DoublesAreShort(x: nat)
    requires x < T128
    ensures Representable(x) <==> Short(x)
  {
    if Short(x) {
      var m, j :| HasDigits(x, m, j);
      FewDigits(m, j);
    }
    if Representable(x) { DoubleIsShort(x); }
  }

  lemma DoubleIsShort(x: nat)
    requires x < T128 && Representable(x)
    ensures Short(x)
  {
    PowZero();
    var r :| Finite(r) && Value(r) == x * Pow2(SCALE);
    hide Pow2, FixUnsigned, Value, Magnitude;
    if x == 0 {
      assert HasDigits(x, 0, 0);
    } else {
      RankOf(r, x);
      Returned(Bits(false, r), x);
      DigitsOf(Bits(false, r), x);
    }
  }

  lemma Returned(b: Bits, x: nat)
    requires !b.negative && x < T128 && Magnitude(b.magnitude) == x * Pow2(SCALE)
    ensures FixUnsigned(b) == x && ExponentField(b.magnitude) - 1023 < 128
  {
    hide Pow2, Magnitude, FixUnsigned;
    var s, f := Pow2(SCALE), FixUnsigned(b);
    PowPositive(SCALE);
    Compare(x, T128, s);
    FixTruncates(b);
    if ExponentField(b.magnitude) - 1023 >= 128 { LargeMagnitude(b.magnitude); }
    Compare(f, x, s);
    Compare(x, f, s);
    Compare(x, f + 1, s);
    Compare(f + 1, x, s);
  }

  lemma DigitsOf(b: Bits, x: nat)
    requires !b.negative && FixUnsigned(b) == x && ExponentField(b.magnitude) - 1023 < 128
    ensures Short(x)
  {
    hide Pow2, ShiftRight;
    PowZero();
    var e, sig := ExponentField(b.magnitude) - 1023, T52 + Fraction(b.magnitude);
    if e < 52 {
      if e >= 0 { ShrinkBound(sig, 52 - e); }
      assert HasDigits(x, x, 0);
    } else {
      assert HasDigits(x, sig, e - 52);
    }
  }

  /** Two bit patterns as IEEE 754 writes them: 1.0 and 1.5. */
  lemma KnownPatterns()
    ensures Value(0x3FF0_0000_0000_0000) == Pow2(SCALE) && 2 * Value(0x3FF8_0000_0000_0000) == 3 * Pow2(SCALE)
    ensures FixUnsigned(Bits(false, 0x3FF0_0000_0000_0000)) == 1
  {
    hide Pow2, ShiftRight;
    Powers();
    PowAdd(52, 1022);
    var half := 0x18_0000_0000_0000;
    assert Magnitude(0x3FF0_0000_0000_0000) == T52 * Pow2(1022);
    assert Magnitude(0x3FF8_0000_0000_0000) == half * Pow2(1022) && 2 * half == 3 * T52;
    ShiftPower(52);
  }

  lemma {:induction false} ShiftPower(k: nat)
    ensures ShiftRight(Pow2(k), k) == 1
  {
    if k > 0 {
      ShiftPower(k - 1);
      assert Pow2(k) / 2 == Pow2(k - 1);
    }
  }

  /** Halfway cases: 2^53 + 1 lies between two doubles and goes down to 2^53, and 2^53 + 3 goes up to
      2^53 + 4; the bits of these are even. */
  lemma TiesToEven()
    ensures NearestEven((T53 + 1) * Pow2(SCALE), 0x4340_0000_0000_0000)
    ensures NearestEven((T53 + 3) * Pow2(SCALE), 0x4340_0000_0000_0002)
    ensures Value(0x4340_0000_0000_0000) == T53 * Pow2(SCALE)
    ensures Value(0x4340_0000_0000_0002) == (T53 + 4) * Pow2(SCALE)
  {
    hide Pow2, NearestEven;
    var s := Pow2(SCALE);
    PowStep(SCALE);
    PowPositive(SCALE);
    var r := 0x4340_0000_0000_0000;
    assert Magnitude(r) == T52 * Pow2(SCALE + 1) == T53 * s;
    assert Magnitude(r + 1) == (T52 + 1) * Pow2(SCALE + 1) == (T53 + 2) * s;
    assert Magnitude(r + 2) == (T52 + 2) * Pow2(SCALE + 1) == (T53 + 4) * s;
    hide Magnitude;
    NearestOfTwo((T53 + 1) * s, r, false);
    NearestOfTwo((T53 + 3) * s, r + 1, true);
  }
}
