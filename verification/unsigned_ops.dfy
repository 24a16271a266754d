/** `arith_impl<T, unsigned_type>` (checked/checked.h:55-177): the checked primitives for an
    unsigned kind. Each operation tests its guard first and only then computes the native
    result, which is the exact result converted to the kind. */
module UnsignedOps {
  import opened IntMath
  import opened Kinds
  import opened Outcome

  /** The conversion of an integer result to an unsigned kind: reduction modulo 2^bits
      ([conv.integral]), or "non-zero" for `bool` ([conv.bool]). Where the exact result is
      in range nothing is lost. */
  function Narrow(k: Kind, x: int): (v: int)
    requires IsUnsigned(k)
    ensures InRange(k, v)
    ensures InRange(k, x) ==> v == x
    ensures k != Bool ==> v == x % Pow2(Bits(k))
    ensures k == Bool ==> (v == 1 <==> x != 0)
  {
    BoundsArePowers(k);
    if k == Bool then (if x == 0 then 0 else 1) else x % (Max(k) + 1)
  }

  /** `plus`: fails exactly when the sum exceeds the maximum. */
  function Plus(k: Kind, l: int, r: int): (res: Result<int>)
    requires IsUnsigned(k) && InRange(k, l) && InRange(k, r)
    ensures res.Ok? <==> InRange(k, l + r)
    ensures res.Ok? ==> res.value == l + r
  {
    if Max(k) - l < r then Overflow else Ok(Narrow(k, l + r))
  }

  /** `minus`: fails exactly when the difference would be negative. */
  function Minus(k: Kind, l: int, r: int): (res: Result<int>)
    requires IsUnsigned(k) && InRange(k, l) && InRange(k, r)
    ensures res.Ok? <==> InRange(k, l - r)
    ensures res.Ok? ==> res.value == l - r
  {
    if l < r then Overflow else Ok(Narrow(k, l - r))
  }

  /** `multiply`: the guard `max / r < l` fails exactly when the product exceeds the maximum.
      The source raises with `return overflow();`, which is ill-formed since `overflow()` is
      `void` (`Arith.AvailableAsWritten`); this is the evident intent, a plain `overflow();`. */
  function Multiply(k: Kind, l: int, r: int): (res: Result<int>)
    requires IsUnsigned(k) && InRange(k, l) && InRange(k, r)
    ensures res.Ok? <==> InRange(k, l * r)
    ensures res.Ok? ==> res.value == l * r
  {
    MulNonNegative(l, r);
    if r != 0 then DivBound(Max(k), r, l); (if Max(k) / r < l then Overflow else Ok(Narrow(k, l * r)))
    else Ok(Narrow(k, l * r))
  }

  /** `divide`: fails exactly on a zero divisor; the quotient never leaves the range. */
  function Divide(k: Kind, l: int, r: int): (res: Result<int>)
    requires IsUnsigned(k) && InRange(k, l) && InRange(k, r)
    ensures res.Ok? <==> r != 0
    ensures res.Ok? ==> res.value == TruncDiv(l, r) && InRange(k, res.value)
  {
    if r == 0 then Overflow
    else DivideNat(l, r); Ok(Narrow(k, l / r))
  }

  /** `modulo`: fails exactly on a zero divisor; the remainder is below the divisor. */
  function Modulo(k: Kind, l: int, r: int): (res: Result<int>)
    requires IsUnsigned(k) && InRange(k, l) && InRange(k, r)
    ensures res.Ok? <==> r != 0
    ensures res.Ok? ==> res.value == TruncMod(l, r) && 0 <= res.value < r
  {
    if r == 0 then Overflow else Ok(Narrow(k, l % r))
  }

  /** `shift_left`: fails exactly when the amount reaches the width `sizeof(T) * CHAR_BIT`;
      otherwise the result is `l * 2^r` reduced modulo `2^width`, so it equals `l * 2^r`
      whenever that fits. */
  function ShiftLeft(k: Kind, l: int, r: int): (res: Result<int>)
    requires IsUnsigned(k) && InRange(k, l) && InRange(SizeT, r)
    ensures res.Ok? <==> r < Bits(k)
    ensures res.Ok? ==> InRange(k, res.value)
    ensures res.Ok? && InRange(k, l * Pow2(r)) ==> res.value == l * Pow2(r)
    ensures res.Ok? && k != Bool ==> res.value == (l * Pow2(r)) % Pow2(Bits(k))
  {
    if Bits(k) <= r then Overflow else Ok(Narrow(k, l * Pow2(r)))
  }

  /** `shift_right`: fails exactly when the amount reaches the width; otherwise the result
      is `l` divided by `2^r`, rounded down. */
  function ShiftRight(k: Kind, l: int, r: int): (res: Result<int>)
    requires IsUnsigned(k) && InRange(k, l) && InRange(SizeT, r)
    ensures res.Ok? <==> r < Bits(k)
    ensures res.Ok? ==> InRange(k, res.value) && res.value <= l
    ensures res.Ok? ==> res.value * Pow2(r) <= l < (res.value + 1) * Pow2(r)
  {
    if Bits(k) <= r then Overflow
    else FloorDivRange(l, Pow2(r)); Ok(Narrow(k, l / Pow2(r)))
  }

  /** `bitwise_and` (noexcept): the and of two values of the kind is a value of the kind. */
  function BitwiseAnd(k: Kind, l: int, r: int): (v: int)
    requires IsUnsigned(k) && InRange(k, l) && InRange(k, r)
    ensures v == And(l, r) && InRange(k, v)
  {
    Narrow(k, And(l, r))
  }

  /** `bitwise_or` (noexcept): no bit beyond the kind's value bits is ever set. */
  function BitwiseOr(k: Kind, l: int, r: int): (v: int)
    requires IsUnsigned(k) && InRange(k, l) && InRange(k, r)
    ensures v == Or(l, r) && InRange(k, v)
  {
    BoundsArePowers(k);
    OrBelow(l, r, Digits(k));
    Narrow(k, Or(l, r))
  }

  /** `exclusive_or` (noexcept): no bit beyond the kind's value bits is ever set. */
  function ExclusiveOr(k: Kind, l: int, r: int): (v: int)
    requires IsUnsigned(k) && InRange(k, l) && InRange(k, r)
    ensures v == Xor(l, r) && InRange(k, v)
  {
    BoundsArePowers(k);
    XorBelow(l, r, Digits(k));
    Narrow(k, Xor(l, r))
  }

  /** `inverse` (noexcept): `~l` is `-l - 1` in two's complement, converted back to the kind.
      It is `max - l` for every kind but `bool`, for which the non-zero `~l` always reads `true`. */
  function Inverse(k: Kind, l: int): (v: int)
    requires IsUnsigned(k) && InRange(k, l)
    ensures k != Bool ==> v == Max(k) - l
    ensures k == Bool ==> v == 1
  {
    BoundsArePowers(k);
    var v := Narrow(k, -l - 1);
    assert k != Bool ==> v == Max(k) - l by {
      if k != Bool {
        var m := Max(k) + 1;
        assert -l - 1 == m * -1 + (m - l - 1);
      }
    }
    v
  }

  /** `~` flips every value bit: it is the exclusive or with the all-ones value, and
      applying it twice gives back the operand. */
  lemma InverseFlipsAllBits(k: Kind, l: int)
    requires IsUnsigned(k) && k != Bool && InRange(k, l)
    ensures Inverse(k, l) == Xor(l, Max(k))
    ensures Inverse(k, Inverse(k, l)) == l
  {
    BoundsArePowers(k);
    XorAllOnes(l, Digits(k));
  }
}
