/** The conversion safety oracle: the run-time range check `arith_impl<T>::cast_to<U>`
    and the compile-time judgment of whether that check can ever fail. */
module Conversion {
  import opened IntMath
  import opened Kinds
  import opened Outcome

  /** `arith_impl<T>::cast_to<U>(r)`: one branch per pair of signedness tags. Each branch
      tests only the bounds that a value of the source signedness can cross. */
  function CastTo(src: Kind, dst: Kind, v: int): (res: Result<int>)
    requires InRange(src, v)
    ensures res.Ok? <==> InRange(dst, v)
    ensures res.Ok? ==> res.value == v
  {
    match (Sign(src), Sign(dst))
    case (Unsigned, Unsigned) => if v > Max(dst) then Overflow else Ok(v)
    case (Unsigned, Signed) => if v > Max(dst) then Overflow else Ok(v)
    // `static_cast<std::make_unsigned_t<T>>(r)` is the identity once `r < 0` is ruled out
    case (Signed, Unsigned) => if v < 0 || v > Max(dst) then Overflow else Ok(v)
    case (Signed, Signed) => if v > Max(dst) || v < Min(dst) then Overflow else Ok(v)
  }

  /** `is_noexcept_convertible<T, U>` as written: the `noexcept` condition of the `cast_to`
      branch that the pair selects. Widths are compared through `sizeof`; a signed source
      is never judged safe for an unsigned destination. */
  predicate NoexceptConvertible(src: Kind, dst: Kind)
  {
    match (Sign(src), Sign(dst))
    case (Unsigned, Unsigned) => Size(dst) >= Size(src)
    case (Unsigned, Signed) => Bits(dst) >= Bits(src) + 1
    case (Signed, Unsigned) => false
    case (Signed, Signed) => Size(dst) >= Size(src)
  }

  /** `is_no_overflow_convertible<T, U>`, the judgment that selects implicit construction and
      unwrapping. It is `NoexceptConvertible` restricted to integral kinds (all kinds here are
      integral), with widths compared by value bits instead of `sizeof`, so that `bool`, one
      value bit in a whole byte, is judged by its range. */
  predicate NoOverflowConvertible(src: Kind, dst: Kind)
  {
    match (Sign(src), Sign(dst))
    case (Unsigned, Unsigned) => Digits(dst) >= Digits(src)
    case (Unsigned, Signed) => Digits(dst) >= Digits(src)
    case (Signed, Unsigned) => false
    case (Signed, Signed) => Digits(dst) >= Digits(src)
  }

  /** `all_bool_or_all_not<T, U>`: `bool` interoperates only with `bool`, so the judgment
      holds exactly when both kinds or neither are `bool`. */
  predicate AllBoolOrAllNot(t: Kind, u: Kind)
    ensures AllBoolOrAllNot(t, u) <==> (t == Bool <==> u == Bool)
  {
    (t == u && t == Bool) || (t != Bool && u != Bool)
  }

  /** The lossless judgment is exact: it holds precisely when every value of the source is a
      value of the destination. In particular signed to unsigned is never lossless. */
  lemma NoOverflowConvertibleExact(src: Kind, dst: Kind)
    ensures NoOverflowConvertible(src, dst) <==> RangeIncluded(src, dst)
  {
    RangeIncludedByDigits(src, dst);
  }

  /** A conversion judged lossless never fails, and converting back restores the value. */
  lemma LosslessRoundTrip(src: Kind, dst: Kind, v: int)
    requires NoOverflowConvertible(src, dst) && InRange(src, v)
    ensures CastTo(src, dst, v) == Ok(v)
    ensures CastTo(dst, src, CastTo(src, dst, v).value) == Ok(v)
  {
    NoOverflowConvertibleExact(src, dst);
  }

  /** The `noexcept` judgment as written is sound for every destination except `bool`,
      and agrees with the lossless judgment whenever neither kind is `bool`. */
  lemma NoexceptSoundAwayFromBool(src: Kind, dst: Kind)
    requires dst != Bool
    ensures NoexceptConvertible(src, dst) ==> RangeIncluded(src, dst)
    ensures src != Bool ==> (NoexceptConvertible(src, dst) <==> NoOverflowConvertible(src, dst))
  {
    NoexceptByDigits(src, dst);
    NoOverflowConvertibleExact(src, dst);
  }

  /** Away from a `bool` destination, the `sizeof` comparisons of the `noexcept` judgment
      imply the value-bit comparisons of the lossless one, and match them when the source
      is not `bool` either. */
  lemma NoexceptByDigits(src: Kind, dst: Kind)
    requires dst != Bool
    ensures NoexceptConvertible(src, dst) ==> NoOverflowConvertible(src, dst)
    ensures src != Bool ==> (NoexceptConvertible(src, dst) <==> NoOverflowConvertible(src, dst))
  {
    DigitsBySize(src);
    DigitsBySize(dst);
  }

  /** As written, `unsigned char` to `bool` is judged unable to fail (both have size 1),
      yet the range check rejects 2. Two members of `checked<bool>` rely on the judgment:
      `operator=(unsigned char)` (checked/checked.h:470-475) is declared `noexcept` by it, so
      assigning 2 throws out of a `noexcept` function and terminates the program; and the
      implicit constructor (checked/checked.h:446-450) is the one it selects, which stores
      `true` for 2 without any check. */
  lemma NoexceptAdmitsNarrowingToBool()
    ensures NoexceptConvertible(UChar, Bool)
    ensures CastTo(UChar, Bool, 2) == Overflow
    ensures !NoOverflowConvertible(UChar, Bool)
  {
  }
}
