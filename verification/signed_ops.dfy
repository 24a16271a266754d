/** `arith_impl<T, signed_type>` (checked/checked.h:179-313): the checked primitives for a
    signed kind. Three guards of the source do not say what they mean; each of those
    operations appears twice, `...AsWritten` following the source's guard and the plain
    name carrying the intended guard, which the dispatcher uses. Where the source's
    unguarded branch would be undefined behaviour (a shift by more than the width), the
    model reports failure. The bitwise operations `~ & | ^` do not exist for signed kinds:
    the source rejects them at compile time. */
module SignedOps {
  import opened IntMath
  import opened Kinds
  import opened Outcome

  /** `plus`: the guard fails exactly when the sum leaves the range. */
  function Plus(k: Kind, l: int, r: int): (res: Result<int>)
    requires IsSigned(k) && InRange(k, l) && InRange(k, r)
    ensures res.Ok? <==> InRange(k, l + r)
    ensures res.Ok? ==> res.value == l + r
  {
    if (l > 0 && Max(k) - l < r) || (l < 0 && Min(k) - l > r) then Overflow else Ok(l + r)
  }

  /** The conversion of an `int` value to a signed kind narrower than `int`: the value of the
      kind congruent to it modulo `2^bits` (two's complement wrap-around, [conv.integral] in
      C++20 and what GCC and Clang do before it). Where the value is in range nothing is lost. */
  function NarrowSigned(k: Kind, x: int): (v: int)
    requires IsSigned(k)
    ensures InRange(k, v)
    ensures (x - v) % Pow2(Bits(k)) == 0
    ensures InRange(k, x) ==> v == x
  {
    SignedSpan(k);
    WrapInto(Min(k), Pow2(Bits(k)), x);
    Min(k) + (x - Min(k)) % Pow2(Bits(k))
  }

  /** The value an as-written signed primitive returns for an exact result `x` that its guard
      let through. For a kind narrower than `int` the operands were promoted to `int`, where
      `x` is exact, and the `return` converts it back, wrapping. For `int` and wider the
      operation itself overflows, which is undefined; the model keeps the exact value. */
  function ReturnedAsWritten(k: Kind, x: int): (v: int)
    requires IsSigned(k)
    ensures Rank(k) < Rank(Int) ==> InRange(k, v) && (x - v) % Pow2(Bits(k)) == 0
    ensures Rank(k) >= Rank(Int) || InRange(k, x) ==> v == x
  {
    if Rank(k) < Rank(Int) then NarrowSigned(k, x) else x
  }

  /** `-min` is one above the maximum; returned as a narrow kind it wraps to `min`. */
  lemma ReturnedNegatedMinimum(k: Kind)
    requires IsSigned(k)
    ensures !InRange(k, -Min(k))
    ensures ReturnedAsWritten(k, -Min(k)) == if Rank(k) < Rank(Int) then Min(k) else -Min(k)
  {
    SignedSpan(k);
    if Rank(k) < Rank(Int) {
      var m := Pow2(Bits(k));
      assert -Min(k) - Min(k) == m && m % m == 0;
      assert NarrowSigned(k, -Min(k)) == Min(k);
    }
  }

  /** `minus` as written: only a negative `l` with a positive `r`, and a positive `l` with a
      negative `r`, are guarded. For `l == 0` no guard applies, yet `0 - min` is `max + 1`. */
  function MinusAsWritten(k: Kind, l: int, r: int): (res: Result<int>)
    requires IsSigned(k) && InRange(k, l) && InRange(k, r)
    ensures InRange(k, l - r) ==> res == Ok(l - r)
  {
    if (l < 0 && r > 0 && l < Min(k) + r) || (l > 0 && r < 0 && Max(k) + r < l) then Overflow
    else Ok(ReturnedAsWritten(k, l - r))
  }

  /** `minus` with the second test widened to `l >= 0`: fails exactly when the difference
      leaves the range. */
  function Minus(k: Kind, l: int, r: int): (res: Result<int>)
    requires IsSigned(k) && InRange(k, l) && InRange(k, r)
    ensures res.Ok? <==> InRange(k, l - r)
    ensures res.Ok? ==> res.value == l - r
  {
    if (l < 0 && r > 0 && l < Min(k) + r) || (l >= 0 && r < 0 && Max(k) + r < l) then Overflow
    else Ok(l - r)
  }

  /** As written, `minus` differs from the exact rule on one pair only, `0 - min`, which it
      lets through although `-min` is above the maximum. */
  lemma MinusAsWrittenMissesZeroMinusMin(k: Kind, l: int, r: int)
    requires IsSigned(k) && InRange(k, l) && InRange(k, r)
    ensures MinusAsWritten(k, l, r).Ok? <==> InRange(k, l - r) || (l == 0 && r == Min(k))
    ensures !(l == 0 && r == Min(k)) ==> MinusAsWritten(k, l, r) == Minus(k, l, r)
  {
    SignedBounds(k);
  }

  /** The pair `0 - min` that `minus` lets through as written: a `char`, `signed char` or
      `short` gets `min` back (`0 - (-128)` is -128); an `int` or wider kind gets the
      out-of-range `-min`, whose computation is a signed overflow. */
  lemma MinusAsWrittenZeroMinusMin(k: Kind)
    requires IsSigned(k)
    ensures !InRange(k, 0 - Min(k))
    ensures MinusAsWritten(k, 0, Min(k)) == Ok(if Rank(k) < Rank(Int) then Min(k) else 0 - Min(k))
  {
    ReturnedNegatedMinimum(k);
  }

  /** The guard of `multiply` as written, with C++ division truncating toward zero.
      The negative-times-negative test `max / r < l` compares in the wrong direction. */
  predicate MultiplyOverflowsAsWritten(k: Kind, l: int, r: int)
  {
    (l > 0 && r > 0 && TruncDiv(Max(k), l) < r) || (l < 0 && r < 0 && TruncDiv(Max(k), r) < l) ||
    (l > 0 && r < 0 && TruncDiv(Min(k), l) > r) || (l < 0 && r > 0 && TruncDiv(Min(k), r) > l)
  }

  /** The guard of `multiply` with the negative-times-negative test reversed to `l < max / r`. */
  predicate MultiplyOverflows(k: Kind, l: int, r: int)
  {
    (l > 0 && r > 0 && TruncDiv(Max(k), l) < r) || (l < 0 && r < 0 && l < TruncDiv(Max(k), r)) ||
    (l > 0 && r < 0 && TruncDiv(Min(k), l) > r) || (l < 0 && r > 0 && TruncDiv(Min(k), r) > l)
  }

  /** `multiply` as written; an admitted product is returned as `ReturnedAsWritten` says. */
  function MultiplyAsWritten(k: Kind, l: int, r: int): (res: Result<int>)
    requires IsSigned(k) && InRange(k, l) && InRange(k, r)
    ensures res.Ok? && InRange(k, l * r) ==> res.value == l * r
  {
    if MultiplyOverflowsAsWritten(k, l, r) then Overflow else Ok(ReturnedAsWritten(k, l * r))
  }

  /** `multiply` with the intended guard: fails exactly when the product leaves the range. */
  function Multiply(k: Kind, l: int, r: int): (res: Result<int>)
    requires IsSigned(k) && InRange(k, l) && InRange(k, r)
    ensures res.Ok? <==> InRange(k, l * r)
    ensures res.Ok? ==> res.value == l * r
  {
    MultiplyGuardExact(k, l, r);
    if MultiplyOverflows(k, l, r) then Overflow else Ok(l * r)
  }

  /** Each of the four division-based tests detects exactly the products beyond its bound. */
  lemma MultiplyGuardExact(k: Kind, l: int, r: int)
    requires IsSigned(k) && InRange(k, l) && InRange(k, r)
    ensures MultiplyOverflows(k, l, r) <==> !InRange(k, l * r)
  {
    SignedBounds(k);
    ProductTests(Max(k), Min(k), l, r);
  }

  /** The four tests over a two's complement range `[min, max]`. */
  lemma ProductTests(max: int, min: int, l: int, r: int)
    requires 0 < max && min == -max - 1 && min <= l <= max && min <= r <= max
    ensures ((l > 0 && r > 0 && TruncDiv(max, l) < r) || (l < 0 && r < 0 && l < TruncDiv(max, r)) ||
             (l > 0 && r < 0 && TruncDiv(min, l) > r) || (l < 0 && r > 0 && TruncDiv(min, r) > l))
            <==> !(min <= l * r <= max)
  {
    if l > 0 && r > 0 {
      PositiveProductTest(max, l, r);
    } else if l < 0 && r < 0 {
      NegativeFactorsTest(max, l, r);
    } else if l > 0 && r < 0 {
      NegativeProductTest(min, l, r);
    } else if l < 0 && r > 0 {
      NegativeProductTest(min, r, l);
      assert r * l == l * r;
    } else {
      assert l * r == 0;
    }
  }

  /** For negative factors: `l < max / r` exactly when `l * r > max`. */
  lemma NegativeFactorsTest(max: int, l: int, r: int)
    requires max >= 0 && l < 0 && r < 0
    ensures l < TruncDiv(max, r) <==> l * r > max
    ensures l * r > 0
  {
    var m := max / (-r);
    assert Abs(r) == -r;
    assert TruncDiv(max, r) == -m;
    DivBound(max, -r, -l);
    assert (-r) * (-l) == l * r;
    MulNonNegative(-l - 1, -r);
  }

  /** For positive factors: `max / a < b` exactly when `a * b > max`. */
  lemma PositiveProductTest(max: int, a: int, b: int)
    requires max >= 0 && a > 0 && b > 0
    ensures TruncDiv(max, a) < b <==> a * b > max
    ensures a * b > 0
  {
    DivBound(max, a, b);
    MulNonNegative(a - 1, b);
  }

  /** For a positive `a` and a negative `b`: `min / a > b` exactly when `a * b < min`. */
  lemma NegativeProductTest(min: int, a: int, b: int)
    requires min < 0 && a > 0 && b < 0
    ensures TruncDiv(min, a) > b <==> a * b < min
    ensures a * b < 0
  {
    DivBound(-min, a, -b);
    assert a * (-b) == -(a * b);
    MulNonNegative(a - 1, -b);
  }

  /** As written, a product of two negatives is refused exactly when `|l| < max / |r|`: the
      small products are refused and the large ones admitted. The other three sign cases
      agree with the exact rule. */
  lemma MultiplyAsWrittenNegativeTimesNegative(k: Kind, l: int, r: int)
    requires IsSigned(k) && InRange(k, l) && InRange(k, r)
    ensures l < 0 && r < 0 ==> (MultiplyAsWritten(k, l, r).Overflow? <==> -l < Max(k) / -r)
    ensures !(l < 0 && r < 0) ==> MultiplyAsWritten(k, l, r) == Multiply(k, l, r)
  {
    BoundsArePowers(k);
    if l < 0 && r < 0 {
      assert TruncDiv(Max(k), r) == -(Max(k) / -r);
    }
  }

  /** Two witnesses of the reversed test: `(-1) * (-2)` is refused although 2 fits every
      signed kind, and `min * (-1)` is admitted although `-min` is beyond the maximum: a
      `char`, `signed char` or `short` gets `min` back, an `int` or wider kind the out-of-range
      `-min`. */
  lemma MultiplyAsWrittenWitnesses(k: Kind)
    requires IsSigned(k)
    ensures MultiplyAsWritten(k, -1, -2) == Overflow && InRange(k, 2)
    ensures !InRange(k, Min(k) * -1)
    ensures MultiplyAsWritten(k, Min(k), -1) == Ok(if Rank(k) < Rank(Int) then Min(k) else Min(k) * -1)
  {
    SignedBounds(k);
    assert Max(k) >= 0x7F;
    ReturnedNegatedMinimum(k);
    assert Min(k) * -1 == -Min(k);
    MultiplyAsWrittenNegativeTimesNegative(k, -1, -2);
    MultiplyAsWrittenNegativeTimesNegative(k, Min(k), -1);
  }

  /** `divide`: fails exactly on a zero divisor and on `min / -1`; every other truncated
      quotient lies in the range. */
  function Divide(k: Kind, l: int, r: int): (res: Result<int>)
    requires IsSigned(k) && InRange(k, l) && InRange(k, r)
    ensures res.Ok? <==> r != 0 && !(r == -1 && l == Min(k))
    ensures res.Ok? ==> res.value == TruncDiv(l, r) && InRange(k, res.value)
  {
    if r == 0 || (r == -1 && l == Min(k)) then Overflow
    else
      SignedBounds(k);
      QuotientInRange(Max(k), Min(k), l, r);
      Ok(TruncDiv(l, r))
  }

  /** In a two's complement range every truncated quotient but `min / -1` is in range. */
  lemma QuotientInRange(max: int, min: int, l: int, r: int)
    requires 0 < max && min == -max - 1 && min <= l <= max && min <= r <= max
    requires r != 0 && !(r == -1 && l == min)
    ensures min <= TruncDiv(l, r) <= max
  {
    var q := TruncDiv(l, r);
    if l == min && r < -1 {
      assert Abs(r) * Abs(q) <= Abs(l);
      assert 2 * Abs(q) <= Abs(r) * Abs(q) by { MulNonNegative(Abs(r) - 2, Abs(q)); }
    }
  }

  /** `modulo`: the same failures as `divide`; the remainder is smaller than the divisor
      in magnitude and so lies in the range. */
  function Modulo(k: Kind, l: int, r: int): (res: Result<int>)
    requires IsSigned(k) && InRange(k, l) && InRange(k, r)
    ensures res.Ok? <==> r != 0 && !(r == -1 && l == Min(k))
    ensures res.Ok? ==> res.value == TruncMod(l, r) && InRange(k, res.value)
  {
    if r == 0 || (r == -1 && l == Min(k)) then Overflow
    else BoundsArePowers(k); Ok(TruncMod(l, r))
  }

  /** Quotient and remainder together rebuild the dividend: `(l / r) * r + l % r == l`. */
  lemma DivideModuloRebuild(k: Kind, l: int, r: int)
    requires IsSigned(k) && InRange(k, l) && InRange(k, r)
    ensures Divide(k, l, r).Ok? <==> Modulo(k, l, r).Ok?
    ensures Divide(k, l, r).Ok? ==> Divide(k, l, r).value * r + Modulo(k, l, r).value == l
  {
  }

  /** The width test of the signed shifts as written, `sizeof(T) * CHAR_BIT >= r`: it refuses
      every amount up to and including the width, the reverse of the unsigned table's test. */
  predicate WidthRefusedAsWritten(k: Kind, r: int)
  {
    Bits(k) >= r
  }

  /** `shift_left` as written: the guard refuses `l < 0` and every amount the width test
      refuses. */
  function ShiftLeftAsWritten(k: Kind, l: int, r: int): (res: Result<int>)
    requires IsSigned(k) && InRange(k, l) && InRange(SizeT, r)
    ensures l < 0 || WidthRefusedAsWritten(k, r) ==> res == Overflow
  {
    if l < 0 || WidthRefusedAsWritten(k, r) then Overflow
    // Past the guard the amount exceeds the width, where the guard's own `max >> r` and the
    // shift `l << r` are undefined behaviour; the model reports that as failure too.
    else Overflow
  }

  /** `shift_right` as written: the same reversed width test. */
  function ShiftRightAsWritten(k: Kind, l: int, r: int): (res: Result<int>)
    requires IsSigned(k) && InRange(k, l) && InRange(SizeT, r)
    ensures WidthRefusedAsWritten(k, r) ==> res == Overflow
  {
    if WidthRefusedAsWritten(k, r) then Overflow
    // Past the guard the amount exceeds the width, where `l >> r` is undefined behaviour;
    // the model reports that as failure too.
    else Overflow
  }

  /** As written, the width test lets through only amounts beyond the width (undefined), so
      neither signed shift ever yields a value, not even `1 << 1` or `2 >> 1`. */
  lemma SignedShiftsAsWrittenNeverSucceed(k: Kind, l: int, r: int)
    requires IsSigned(k) && InRange(k, l) && InRange(SizeT, r)
    ensures !WidthRefusedAsWritten(k, r) <==> r > Bits(k)
    ensures WidthRefusedAsWritten(k, 1) && WidthRefusedAsWritten(k, Bits(k))
    ensures ShiftLeftAsWritten(k, l, r) == Overflow
    ensures ShiftRightAsWritten(k, l, r) == Overflow
    ensures ShiftLeftAsWritten(k, 1, 1) == Overflow && ShiftLeft(k, 1, 1) == Ok(2)
    ensures ShiftRightAsWritten(k, 2, 1) == Overflow && ShiftRight(k, 2, 1) == Ok(1)
  {
    assert Max(k) >= 0x7F && Min(k) < 0 && Bits(k) >= 8;
    assert Pow2(1) == 2;
    assert InRange(SizeT, 1);
  }

  /** `shift_left` with the width test `width <= r`: fails exactly when `l` is negative, the
      amount reaches the width, or a set bit would reach the sign bit (`(max >> r) < l`);
      otherwise the result is exactly `l * 2^r`. */
  function ShiftLeft(k: Kind, l: int, r: int): (res: Result<int>)
    requires IsSigned(k) && InRange(k, l) && InRange(SizeT, r)
    ensures res.Ok? <==> l >= 0 && r < Bits(k) && l * Pow2(r) <= Max(k)
    ensures res.Ok? ==> res.value == l * Pow2(r) && InRange(k, res.value)
  {
    if l < 0 || Bits(k) <= r then Overflow
    else
      BoundsArePowers(k);
      DivBound(Max(k), Pow2(r), l);
      MulNonNegative(l, Pow2(r));
      if Max(k) / Pow2(r) < l then Overflow else Ok(l * Pow2(r))
  }

  /** `shift_right` with the width test `width <= r`: fails exactly when the amount reaches the
      width; otherwise the result is `l / 2^r` rounded toward negative infinity (arithmetic
      shift), which stays in the range. */
  function ShiftRight(k: Kind, l: int, r: int): (res: Result<int>)
    requires IsSigned(k) && InRange(k, l) && InRange(SizeT, r)
    ensures res.Ok? <==> r < Bits(k)
    ensures res.Ok? ==> InRange(k, res.value)
    ensures res.Ok? ==> res.value * Pow2(r) <= l < (res.value + 1) * Pow2(r)
  {
    if Bits(k) <= r then Overflow
    else FloorDivRange(l, Pow2(r)); Ok(l / Pow2(r))
  }
}
