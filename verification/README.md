# checked — an overflow-checked integer wrapper, modelled in Dafny

`mq::checked<T>` (header `checked/checked.h`) wraps an integer of kind `T`. Its arithmetic
operations, comparisons, conversions and assignments either produce the mathematically
exact result or raise `std::overflow_error`. Mixed-kind operations first convert both
operands to `std::common_type_t<T, U>`, with a range check. There are two exceptions:

- Unsigned `<<` checks only the shift amount, and by design keeps the low `width` bits of
  `l * 2^r`.
- Copy-initialisation from a raw value of another kind, such as `checked<short> s = 100000;`,
  narrows implicitly before the wrapper sees the value. That belongs to overload selection,
  which is not modelled.

This project models that header:

- `intmath.dfy`: powers of two, C++ truncating `/` and `%`, and bitwise and/or/xor on
  naturals (module `IntMath`). Module `Outcome` holds the single failure value `Overflow`,
  which stands for the exception.
- `kinds.dfy` (module `Kinds`): the integer kinds of the LP64 data model and their bounds,
  the signedness classifier `signness_t`, integer promotion `promoted_type`, and the common
  kind `std::common_type_t` (the usual arithmetic conversions).
- `conversion.dfy` (module `Conversion`): the run-time range check `cast_to`, and the
  compile-time judgments `is_noexcept_convertible`, `is_no_overflow_convertible` and
  `all_bool_or_all_not`.
- `unsigned_ops.dfy` and `signed_ops.dfy` (modules `UnsignedOps` and `SignedOps`): the two
  `arith_impl` tables of checked primitives.
- `arith.dfy` (module `Arith`): the dispatcher `arith<T, U>`. It holds one `BinOp` per
  operator family and one `CmpOp` per comparison.
- `checked.dfy` (module `CheckedValue`): class `Checked` models `checked<T>`. It has a
  constant `kind` (the template argument) and a mutable `val` (`_val`). The module also
  holds the free operators and the compound assignments. A free operator takes an `Operand`
  that is either a raw integer or a wrapped object, which covers its three overloads.

The data model is LP64 (x86-64 System V):

| kind | bits |
|---|---|
| `char` | 8, signed |
| `short` | 16 |
| `int` | 32 |
| `long`, `long long` | 64 |

`size_t` is `unsigned long`. `bool` counts as unsigned, as `std::is_unsigned<bool>` says. It
occupies 8 bits for the width tests and holds only 0 and 1. A kind paired with itself is its
own common kind, without promotion, so `unsigned char + unsigned char` is checked in
`unsigned char`.

The header has seven defects, listed under "## Findings". Each is modelled twice: once as
written, with a lemma that exhibits it, and once as evidently intended. The dispatcher
`Arith` and the class module `CheckedValue` are built on the corrected operations, so the
properties stated for them are those of the intended library. As written, they differ in
these ways:

- Every shift whose `promote(T)` is signed raises. That covers every shift of `bool`, `char`,
  `signed char`, `unsigned char`, `short`, `unsigned short`, `int`, `long` and `long long`.
- Every `*` and `*=` whose common kind is unsigned fails to compile. That covers `bool`,
  `unsigned char` and `unsigned short` paired with themselves, and every pairing whose common
  kind is `unsigned` or wider.
- `0 - min` (in any signed common kind) is admitted. It overflows for `int` and wider kinds,
  and gives `min` back for `char`, `signed char` and `short`.
- `(-1) * (-2)` raises. `min * (-1)` is admitted, with the same outcome as `0 - min`.
- A failing `cast_to`, explicit `checked(checked<U>)`, `operator=(checked<U>)` or compound
  assignment whose reverse conversion is judged safe ends the program instead of raising.
- `unsigned char` to `bool` is judged lossless.
- The implicit `checked(checked<U>)` never compiles. Its `static_cast<T>(u)` finds both
  `operator U()` and the rejecting `explicit operator U()` viable, and the call is
  ambiguous. A `static_cast` of a `checked<T>` to any other kind fails the same way.

## Model

| member | source | states |
|---|---|---|
| `IntMath.TruncDiv` | checked/checked.h:114 | C++ `/` truncates toward zero: `abs(b)*abs(q) <= abs(a) < abs(b)*abs(q) + abs(b)`, a non-zero quotient is positive iff the operands share a sign, and the quotient's magnitude is at most the dividend's. |
| `IntMath.TruncMod` | checked/checked.h:123 | C++ `%`: `(a / b) * b + a % b == a`, the remainder is smaller than the divisor in magnitude and has the dividend's sign. |
| `Kinds.Sign` | checked/checked.h:36-41 | `signness_t`: `bool` and the unsigned kinds are unsigned, the others signed. A kind is unsigned exactly when its minimum is 0. |
| `Kinds.Max` | checked/checked.h:58-60 | `numeric_limits<T>::max()` of the LP64 kinds, at least 1. `Kinds.BoundsArePowers` gives it as `2^digits - 1`. |
| `Kinds.Min` | checked/checked.h:182-184 | `numeric_limits<T>::min()`: never positive, and a negative minimum is `-max - 1`. |
| `Kinds.BoundsArePowers` | checked/checked.h:58-60 | `max` is `2^digits - 1`; `min` is `0` for unsigned kinds and `-2^digits` for signed ones. |
| `Kinds.SignedBounds` | checked/checked.h:182-184 | A signed range has `min < 0 < max` and `min == -max - 1` (two's complement). |
| `Kinds.Promote` | checked/checked.h:27-34 | A kind ranked below `int` promotes to `int` if `int` holds all its values and to `unsigned int` otherwise. Kinds of `int` rank and above are unchanged. Promotion loses no value and yields at least `int` rank and width. |
| `Kinds.PromoteIdempotent` | checked/checked.h:343 | Promoting twice is promoting once, and every value of a kind fits its promoted kind. |
| `Kinds.CommonSymmetric` | checked/checked.h:350 | `common_type_t<T, U>` is the same kind as `common_type_t<U, T>`. |
| `Kinds.ArithmeticFacts` | checked/checked.h:350 | Between promoted kinds, the usual arithmetic conversions are symmetric and yield a promoted kind as wide as the wider operand. The result is unsigned iff an unsigned operand reaches that width, and a signed result holds every value of both operands. |
| `Kinds.CommonWiderWins` | checked/checked.h:350 | For two distinct kinds: the wider promoted kind wins, and at equal width the unsigned one wins. |
| `Kinds.Arithmetic` | checked/checked.h:350 | The usual arithmetic conversions between two promoted kinds. The result ranks at least as high as both operands. |
| `Kinds.Common` | checked/checked.h:350 | `common_type_t<T, U>`: a kind with itself, else the usual arithmetic conversions of the promoted kinds. The result ranks at least as high as both kinds. |
| `Kinds.CommonHoldsOperand` | checked/checked.h:345-350 | Converting an operand into the common kind fails only for a negative value against an unsigned common kind. |
| `Conversion.CastTo` | checked/checked.h:146-170 | `cast_to<U>` (unsigned sources here, signed sources at lines 254-278) succeeds iff the value lies in `U`'s range, and then keeps the value. |
| `Conversion.NoOverflowConvertibleExact` | checked/checked.h:324-330 | The lossless judgment holds iff every value of the source kind is a value of the destination kind. In particular, signed to unsigned is never lossless. |
| `Conversion.LosslessRoundTrip` | checked/checked.h:146-170 | A conversion judged lossless never fails, and converting back gives the original value. |
| `Conversion.NoexceptSoundAwayFromBool` | checked/checked.h:315-319 | The `noexcept` judgment as written (`sizeof` for U→U and S→S, `bits + 1` for U→S, never S→U) is sound for every destination but `bool`. Away from `bool` it coincides with the lossless judgment. |
| `Conversion.NoexceptAdmitsNarrowingToBool` | checked/checked.h:147 | As written, `unsigned char → bool` is judged unable to fail, yet the range check rejects 2. |
| `Conversion.NoexceptConvertible` | checked/checked.h:315-319 | `is_noexcept_convertible<T, U>` as the `cast_to` branch decides it: `sizeof` for unsigned→unsigned and signed→signed, `bits(U) >= bits(T) + 1` for unsigned→signed, never signed→unsigned. Its meaning is stated by `Conversion.NoexceptSoundAwayFromBool`. |
| `Conversion.NoOverflowConvertible` | checked/checked.h:324-330 | `is_no_overflow_convertible<T, U>`, compared by value digits. `Conversion.NoOverflowConvertibleExact` proves it is exactly range inclusion. |
| `Conversion.AllBoolOrAllNot` | checked/checked.h:412-414 | `all_bool_or_all_not<T, U>` holds exactly when both kinds or neither are `bool`. |
| `UnsignedOps.Narrow` | checked/checked.h:87 | Conversion of an exact result to an unsigned kind: reduction modulo `2^bits` (non-zero test for `bool`). It is the identity on in-range values. |
| `UnsignedOps.Plus` | checked/checked.h:81-88 | `max - l < r` fails exactly when `l + r` exceeds the range; otherwise the result is the exact sum. |
| `UnsignedOps.Minus` | checked/checked.h:90-97 | `l < r` fails exactly when `l - r` is negative; otherwise the result is the exact difference. |
| `UnsignedOps.Multiply` | checked/checked.h:99-106 | With `overflow();` in place of the ill-formed `return overflow();`: `r != 0 && max / r < l` fails exactly when `l * r` exceeds the maximum; otherwise the result is the exact product. |
| `UnsignedOps.Divide` | checked/checked.h:108-115 | Fails iff `r == 0`; otherwise the truncated quotient, always in range. |
| `UnsignedOps.Modulo` | checked/checked.h:117-124 | Fails iff `r == 0`; otherwise the truncated remainder, in `[0, r)`. |
| `UnsignedOps.ShiftLeft` | checked/checked.h:63-70 | Fails iff the amount reaches the width; otherwise `(l * 2^r) mod 2^width`, which is `l * 2^r` whenever that fits. |
| `UnsignedOps.ShiftRight` | checked/checked.h:72-79 | Fails iff the amount reaches the width; otherwise `floor(l / 2^r)`. |
| `UnsignedOps.BitwiseAnd` | checked/checked.h:126-129 | Never fails; the bitwise and, within range. |
| `UnsignedOps.BitwiseOr` | checked/checked.h:131-134 | Never fails; the bitwise or, within range. |
| `UnsignedOps.ExclusiveOr` | checked/checked.h:141-144 | Never fails; the bitwise exclusive or, within range. |
| `UnsignedOps.Inverse` | checked/checked.h:136-139 | `~l` is `max - l`; for `bool` it is always `true`. |
| `UnsignedOps.InverseFlipsAllBits` | checked/checked.h:136-139 | `~l` is the exclusive or with the all-ones value, and `~~l == l`. |
| `SignedOps.Plus` | checked/checked.h:208-215 | The two-sided guard fails exactly when `l + r` leaves `[min, max]`; otherwise the result is the exact sum. |
| `SignedOps.Minus` | checked/checked.h:217-224 | With the second test widened to `l >= 0`: fails exactly when `l - r` leaves the range; otherwise the result is the exact difference. |
| `SignedOps.NarrowSigned` | checked/checked.h:223 | Converting an `int` value back to a signed kind narrower than `int` gives the value of the kind congruent to it modulo `2^bits`, and keeps a value already in range. |
| `SignedOps.ReturnedAsWritten` | checked/checked.h:223-233 | What an as-written `minus` or `multiply` returns for an admitted exact result. For `char`, `signed char` and `short` it is the wrapped value, in range and congruent modulo `2^bits`. For `int` and wider it is the exact value. An in-range result is always kept. |
| `SignedOps.ReturnedNegatedMinimum` | checked/checked.h:223-233 | `-min` is beyond `max`. Returned as `char`, `signed char` or `short` it becomes `min`. |
| `SignedOps.MinusAsWritten` | checked/checked.h:217-224 | `minus` with its guards as written. Every in-range difference comes through exactly. |
| `SignedOps.MinusAsWrittenMissesZeroMinusMin` | checked/checked.h:217-224 | As written, `minus` admits exactly the in-range differences plus the single pair `0 - min`. Every other pair agrees with the corrected `minus`. |
| `SignedOps.MinusAsWrittenZeroMinusMin` | checked/checked.h:217-224 | The admitted pair `0 - min` has `-min` beyond `max`. It gives `min` for a kind narrower than `int` and the overflowing `-min` otherwise. |
| `SignedOps.Multiply` | checked/checked.h:226-234 | With the negative×negative test reversed: fails exactly when `l * r` leaves the range; otherwise the result is the exact product. |
| `SignedOps.MultiplyGuardExact` | checked/checked.h:228-229 | The four division-based tests (with C++ truncation) together detect exactly the out-of-range products. |
| `SignedOps.ProductTests` | checked/checked.h:228-229 | The same four tests over any two's complement range `[min, max]`. |
| `SignedOps.PositiveProductTest` | checked/checked.h:228 | `max / l < r` iff `l * r > max`, for positive factors. |
| `SignedOps.NegativeFactorsTest` | checked/checked.h:228 | `l < max / r` iff `l * r > max`, for negative factors. |
| `SignedOps.NegativeProductTest` | checked/checked.h:229 | `min / l > r` iff `l * r < min`, for factors of opposite signs. |
| `SignedOps.MultiplyAsWrittenNegativeTimesNegative` | checked/checked.h:228 | As written, a product of two negatives is refused iff `-l < max / -r`. The other three sign cases agree with the exact rule. |
| `SignedOps.MultiplyAsWritten` | checked/checked.h:226-234 | `multiply` with its guards as written. An admitted product that lies in range is exact. |
| `SignedOps.MultiplyAsWrittenWitnesses` | checked/checked.h:226-234 | As written, `(-1) * (-2)` is refused although 2 fits. `min * (-1)` is admitted although `-min` is beyond `max`; it gives `min` for a kind narrower than `int` and the overflowing `-min` otherwise. |
| `SignedOps.Divide` | checked/checked.h:236-243 | Fails iff `r == 0` or `min / -1`; otherwise the truncated quotient, which is in range. |
| `SignedOps.Modulo` | checked/checked.h:245-252 | Fails iff `r == 0` or `min % -1`; otherwise the truncated remainder, in range. |
| `SignedOps.DivideModuloRebuild` | checked/checked.h:236-252 | `divide` and `modulo` fail together, and `(l / r) * r + l % r == l`. |
| `SignedOps.ShiftLeftAsWritten` | checked/checked.h:187-197 | `shift_left` as written: its guard refuses `l < 0` and every amount up to the width. |
| `SignedOps.ShiftRightAsWritten` | checked/checked.h:199-206 | `shift_right` as written: its guard refuses every amount up to the width. |
| `SignedOps.SignedShiftsAsWrittenNeverSucceed` | checked/checked.h:187-206 | As written, the width test passes only amounts beyond the width, where the shift is undefined, so no signed shift ever yields a value. The corrected shifts give `1 << 1 == 2` and `2 >> 1 == 1`. |
| `SignedOps.ShiftLeft` | checked/checked.h:187-197 | With the width test `width <= r`: fails iff `l < 0`, the amount reaches the width, or `l * 2^r > max`; otherwise the result is exactly `l * 2^r`. |
| `SignedOps.ShiftRight` | checked/checked.h:199-206 | With the width test `width <= r`: fails iff the amount reaches the width; otherwise `floor(l / 2^r)`, in range. |
| `Arith.ResultKind` | checked/checked.h:350-355 | The kind of a result: `promote(T)` for shifts, the common kind otherwise. It ranks at least as high as `T`, and as `U` when it is not a shift. |
| `Arith.Available` | checked/checked.h:280-306 | An operation exists unless it is a bitwise one whose common kind is signed. |
| `Arith.AvailableAsWritten` | checked/checked.h:99-106 | As written, `*` whose common kind is unsigned is missing as well. `Arith.UnsignedMultiplyRejectedAsWritten` states the difference. |
| `Arith.Cast` | checked/checked.h:345-346 | `arith<T, U>::cast` succeeds iff the value lies in `U`'s range, and keeps it. |
| `Arith.Primitive` | checked/checked.h:352-353 | The primitive of the kind's signedness yields a value of that kind. |
| `Arith.Apply` | checked/checked.h:360-388 | Every result of a binary operation is a value of its result kind: `promote(T)` for shifts, `common_type_t<T, U>` otherwise. The signed operations are the corrected ones of "## Findings". |
| `Arith.Inv` | checked/checked.h:390-391 | `inv(l)` is `max - l` in `promote(T)`. |
| `Arith.ArithmeticIsExact` | checked/checked.h:360-367 | Over the corrected signed `minus` and `multiply`: `add`, `sub`, `mul` succeed iff both operands and the exact result lie in the common kind's range, and then give the exact result. |
| `Arith.DivisionIsTruncated` | checked/checked.h:369-373 | `div` and `mod` succeed iff both operands fit the common kind, the divisor is non-zero, and it is not `min / -1` in a signed common kind. |
| `Arith.DivisionValue` | checked/checked.h:369-373 | A successful `div` or `mod` had a non-zero divisor and gives the quotient truncated toward zero, or the matching remainder. |
| `Arith.ShiftAmount` | checked/checked.h:375-379 | The shift amount's conversion to `size_t` fails exactly for a negative amount. |
| `Arith.ShiftLeftMeaning` | checked/checked.h:375-376 | Over the corrected signed shift: `shl` fails iff the amount is negative or reaches the width of `promote(T)`, or, for a signed promoted kind, `l < 0` or `l * 2^r > max`. |
| `Arith.ShiftLeftSignedValue` | checked/checked.h:375-376 | A `shl` of a signed promoted kind that passes those tests gives exactly `l * 2^r`. |
| `Arith.ShiftLeftUnsignedValue` | checked/checked.h:375-376 | A `shl` of an unsigned promoted kind with an amount below the width gives `(l * 2^r) mod 2^width`: the high bits are dropped without a raise. This is `l * 2^r` itself when that fits. |
| `Arith.ShiftRightMeaning` | checked/checked.h:378-379 | Over the corrected signed shift: `shr` fails iff the amount is negative or reaches the width of `promote(T)`. |
| `Arith.ShiftRightValue` | checked/checked.h:378-379 | A `shr` with an amount below the width gives `floor(l / 2^r)`, for both signednesses. |
| `Arith.BitwiseFailsOnlyInCast` | checked/checked.h:381-388 | The bitwise and, or and exclusive or fail iff an operand is negative. |
| `Arith.BitwiseValues` | checked/checked.h:381-388 | For non-negative operands they give the bit-by-bit and, or and exclusive or of the two values. |
| `Arith.Compare` | checked/checked.h:393-409 | `eq`, `gt`, `lt` compare the operands cast into the common kind; `ne`, `le`, `ge` negate them. Its meaning is stated by `Arith.CompareMeaning`. |
| `Arith.CompareMeaning` | checked/checked.h:393-409 | A comparison fails iff an operand is negative and the common kind is unsigned. Otherwise it answers the mathematical relation, with `ne`, `le`, `ge` the negations of `eq`, `gt`, `lt`. |
| `Arith.OperandsIntoCommon` | checked/checked.h:393-394 | Both operands reach the common kind unless one is negative and the common kind is unsigned. |
| `Arith.CompareSwapped` | checked/checked.h:393-406 | Swapping the operands keeps `eq` and exchanges `lt` with `gt`. |
| `Arith.Scenarios` | checked/checked.h:360-373 | Concrete cases within one kind:<br>- `INT_MAX + 1` raises;<br>- `uchar 200 + uchar 100` raises;<br>- `5u / 0u` raises;<br>- `int -1 → unsigned short` raises;<br>- `schar -128 / -1` raises. |
| `Arith.MixedScenarios` | checked/checked.h:360-373 | Concrete mixed-kind cases:<br>- `int 10 + long 20` is the `long` 30;<br>- `1u - 10` raises;<br>- `1u + -1` raises. |
| `Arith.UnsignedMultiplyRejectedAsWritten` | checked/checked.h:99-106 | As written, `*` exists exactly when the common kind is signed, because unsigned `multiply` returns the `void` call `overflow()`, which is ill-formed. Every other operation exists exactly as in the intended library. |
| `Arith.UnsignedMultiplyWitnesses` | checked/checked.h:103 | As written, `bool * bool`, `uchar * uchar`, `unsigned * int` and `unsigned long long * long` do not compile. |
| `Arith.SignedCommonMultiplyCompiles` | checked/checked.h:99-106 | As written, `uchar * ushort` (promoted to `int`) and `unsigned * long` compile, since their common kind is signed. |
| `Arith.UnsignedMultiplyIntended` | checked/checked.h:99-106 | With the intended `overflow();`, `2u * 3u` gives 6 and `0x10000u * 0x10000u` raises. |
| `CheckedValue.Checked.constructor` | checked/checked.h:441-444 | `checked(T v)` stores `v`, which is a value of `T`. |
| `CheckedValue.Checked.Widen` | checked/checked.h:446-450 | The implicit constructor from a raw `U` exists only when every value of `U` fits. It stores the value unchanged. |
| `CheckedValue.Checked.WidenFrom` | checked/checked.h:458-462 | Under the corrected overload set, the implicit constructor from `checked<U>` stores the other object's value unchanged. |
| `CheckedValue.Checked.Narrow` | checked/checked.h:452-456 | The explicit constructor from a raw `U` raises iff the value is out of `T`'s range, and otherwise stores it. |
| `CheckedValue.Checked.NarrowFrom` | checked/checked.h:464-468 | The explicit constructor from `checked<U>` raises iff the value is out of `T`'s range, and otherwise stores it. |
| `CheckedValue.Checked.Assign` | checked/checked.h:470-475 | `operator=(U)` writes `_val` iff the value fits `T`. On failure `_val` is unchanged. |
| `CheckedValue.Checked.AssignFrom` | checked/checked.h:477-482 | `operator=(checked<U>)` writes `_val` iff the other value fits `T`. On failure `_val` is unchanged, and self-assignment keeps the value. |
| `CheckedValue.Checked.Get` | checked/checked.h:484-488 | The implicit unwrap yields `_val`, which is always a value of the target kind. |
| `CheckedValue.Checked.CastTo` | checked/checked.h:504-508 | `cast_to<U>()` raises iff the value is out of `U`'s range (under the corrected `noexcept`); otherwise it gives a new `checked<U>` holding the value. |
| `CheckedValue.CastToNoexcept` | checked/checked.h:505 | The evidently intended `noexcept` of `cast_to<U>()`: the judgment of the `T`→`U` conversion it performs. |
| `CheckedValue.CastToNoexceptAsWritten` | checked/checked.h:505 | The `noexcept` as written: the judgment of the reverse conversion `U`→`T`. |
| `CheckedValue.CastToNoexceptSound` | checked/checked.h:504-508 | With the intended `noexcept` (the judgment of the `T`→`U` conversion actually performed), a `cast_to` to a non-`bool` kind that is declared unable to fail never fails. |
| `CheckedValue.CastToNoexceptAsWrittenTerminates` | checked/checked.h:505 | As written, the `noexcept` asks about `U`→`T`. So `int`→`unsigned char` and `int`→`short` are declared unable to fail, yet 256 and 40000 fail them, and `checked<unsigned char>(255) += 1` reaches the first. |
| `CheckedValue.UnwrapEnabled` | checked/checked.h:484 | `operator U()` exists for a lossless conversion that pairs `bool` only with `bool`. |
| `CheckedValue.RejectingUnwrapEnabledAsWritten` | checked/checked.h:490 | As written, the rejecting `explicit operator U()` exists for every other kind the `bool` rule allows, lossless ones included. |
| `CheckedValue.RejectingUnwrapEnabled` | checked/checked.h:490-493 | With the condition its `static_assert` message implies, the rejecting overload exists only for conversions that are not lossless. |
| `CheckedValue.BoolUnwrapEnabled` | checked/checked.h:497 | The rejecting `explicit operator bool()` exists for every non-`bool` kind. |
| `CheckedValue.WidenFromNeverCompilesAsWritten` | checked/checked.h:458-462 | As written, the implicit `checked(checked<U>)` compiles for no pair of kinds. Wherever its condition and the `bool` rule admit a pair, two conversion functions are viable. |
| `CheckedValue.WidenFromCompilesExactly` | checked/checked.h:458-462 | Corrected, it compiles exactly for distinct lossless pairs that keep `bool` with `bool`, which is `Checked.WidenFrom`'s precondition. A `bool` source into a numeric kind never compiles. |
| `CheckedValue.WidenFromWitnesses` | checked/checked.h:460 | `checked<long>` from `checked<int>` fails as written and compiles when corrected. `checked<int>` from `checked<bool>` passes the constructor's condition but compiles neither way. |
| `CheckedValue.MakeChecked` | checked/checked.h:598-602 | `make_checked(t)` is a new object of `t`'s kind holding `t`. |
| `CheckedValue.CheckedCast` | checked/checked.h:610-612 | `checked_cast<T>(u)`, for distinct non-`bool` kinds, raises iff `u`'s value is out of `T`'s range; otherwise it gives a new `checked<T>` holding it. |
| `CheckedValue.Binary` | checked/checked.h:511-521 | `t op u`, for each of the three overloads, over the corrected signed operations: it raises iff the dispatcher fails; otherwise it gives a new object of the result kind holding the dispatcher's value. |
| `CheckedValue.Comparison` | checked/checked.h:565-594 | `t op u` for the six comparisons gives a `checked<bool>` holding the dispatcher's answer, or raises with it. |
| `CheckedValue.CompoundResult` | checked/checked.h:523-529 | `t op= u` succeeds iff the operation succeeds and its result lies in `T`'s range, and it then stores that result. |
| `CheckedValue.CompoundArithmeticIsExact` | checked/checked.h:523-529 | Over the corrected signed operations, `t += u`, `t -= u`, `t *= u` succeed iff both operands fit the common kind and the exact result fits both the common kind and `T`. They then store the exact result. |
| `CheckedValue.CompoundAssign` | checked/checked.h:545-551 | `t op= u` is `t = t op u`: `t` changes iff both the operation and the conversion back into `T` succeed. On failure `t` keeps its value. |
| `CheckedValue.DemonstrationValues` | checked/main.cpp:16-22 | The dispatcher's answers for `a + b` and `1u - a`: `10 + 11ll` is the `long long` 21, and `1u - 10` raises. |
| `CheckedValue.DemonstrationUnsignedValues` | checked/main.cpp:28-31 | `1ull / 10` is the `unsigned long long` 0, and `10 - 1u` is the `unsigned` 9. |
| `CheckedValue.DemonstrationCompoundValues` | checked/main.cpp:35-36 | `a += 1` and then `a -= 1u` store 11 and then 10. |
| `CheckedValue.DemonstrationOpening` | checked/main.cpp:14-36 | Run on objects: `a + b` is the `checked<long long>` 21, `1u - a` raises, `1ull / a` is the `checked<unsigned long long>` 0, `a - 1u` is the `checked<unsigned>` 9, and after `a += 1; a -= 1u;` `a` holds 10. |

## Left out

- `checked/main.cpp` is a demonstration driver; only lines 14-36 appear, as a concrete case, and only the operations listed there. It also uses `++`, `--` and unary `+`/`-`, which the header never defines.
- `operator<<` (checked/checked.h:604-608) is stream output, and it calls a `get()` that the class does not have.
- The interplay with the host library is not modelled: `std::chrono::duration` over checked values, specialisations of `std::common_type` and conditional-expression type unification.
- Overload selection is not modelled:
  - `enable_if` constraints and `static_assert(always_false…)` rejections are compile-time machinery. They become preconditions instead:
    - `Arith.Available`: the signed `~ & | ^` at checked/checked.h:280-306. The ill-formed unsigned `*` at checked/checked.h:103 is recorded separately, in `Arith.AvailableAsWritten`, and `Apply` gives it the intended meaning;
    - `IsUnsigned(Promote(t))` on `Arith.Inv`;
    - distinct non-`bool` kinds on `CheckedCast`.
  - The rejecting `explicit operator U()` overloads (checked/checked.h:490-502) and the rejecting `checked_cast` overloads (checked/checked.h:614-626) have no counterpart. The second of these has a condition that can never hold.
- `std::overflow_error` is a single failure:
  - `Overflow` in the functions;
  - `null` or `false` in the methods.
- A `noexcept` specification has a run-time effect. An exception that leaves a `noexcept` function calls `std::terminate`. The model keeps only the judgment (`NoexceptConvertible`, `CastToNoexcept`). It treats every failure as the raise the intended `noexcept` gives, and the termination that the as-written one causes is recorded under "## Findings" (checked/checked.h:505 and 147).
- CheckedValue.Checked.CastTo: `null` also stands for the `std::terminate` of the as-written `noexcept` (checked/checked.h:505), which applies when the reverse conversion is judged safe (for example `checked<int>(40000).cast_to<short>()`).
- CheckedValue.Checked.NarrowFrom: `null` also stands for the termination through `cast_to` (checked/checked.h:466, 505), for example `checked<short>` built explicitly from `checked<int>(40000)`.
- CheckedValue.Checked.AssignFrom: `false` also stands for the termination through `cast_to` (checked/checked.h:480, 505). The object is not left in any state then.
- CheckedValue.CompoundAssign: `false` also stands for that termination when the result kind differs from `T`, the conversion from `T` to the result kind is judged safe, and the result does not fit back, for example `checked<unsigned char> x = 255; x += 1;`.
- CheckedValue.Checked.Assign: `false` also stands for the termination of `operator=(unsigned char)` on `checked<bool>` for values above 1, whose `noexcept` is the as-written `unsigned char`→`bool` judgment (checked/checked.h:147, 471).
- The uninitialised default constructor (checked/checked.h:435) is not modelled: an indeterminate value has no meaning here.
- The defaulted copy and move operations (checked/checked.h:436-439) are not modelled. Objects are references in the model. Operators read their operands once, before any write, so aliasing (`x += x`) behaves like the C++ copy.
- `Arith` and `CheckedValue` use the corrected signed `shift_left`, `shift_right`, `minus` and `multiply`, the corrected unsigned `multiply`, and the corrected lossless judgment. The as-written differences at this level are listed at the top of this file. The as-written primitives are modelled only in `SignedOps` and `Conversion`.
- Undefined behaviour has no C++ meaning, so the model fixes one for each case:
  - An as-written signed shift by more than the width counts as failure.
  - SignedOps.ShiftRight and Arith.ShiftRightValue give `floor(l / 2^r)` for a negative `l`. Before C++20, `>>` of a negative value is implementation-defined. The model follows GCC and Clang, whose shift is arithmetic.
  - The as-written signed `minus` and `multiply` can admit an out-of-range result. For `int` and wider kinds that overflow is undefined, and the model returns the exact value. For `char`, `signed char` and `short` the arithmetic runs in `int` and the `return` converts back, so the model wraps (`SignedOps.NarrowSigned`). That conversion is modular in C++20, and implementation-defined before it; the model follows GCC and Clang.
- The kinds `wchar_t`, `char8_t`, `char16_t` and `char32_t` are not modelled, and neither are other data models (ILP32, LLP64).
- `signness_t`'s third outcome `unspecified_sign` is not modelled: it only arises for non-integral types.
- CheckedValue.Checked.WidenFrom: models the constructor under the corrected overload set, since as written it never compiles (see "## Findings"). Its precondition also demands that `bool` meet only `bool`. The constructor's own condition admits `checked<int>` from `checked<bool>`, but no unwrap is usable there even once corrected. The demonstration's `false ? a : b` (checked/main.cpp:82) depends on this constructor and is not modelled.
- Conversion.NoOverflowConvertible: compares value digits, so it also judges `bool` to `char` and `signed char` lossless. The source's test (`bits(U) >= bits(T) + 1`, checked/checked.h:157) treats those two as explicit, but it already calls `bool` to `short` and wider signed kinds lossless. The stored value is the same either way, and only the choice between the implicit and the explicit constructor differs.

## Findings

| source | as written | input that shows it | evidently intended | confidence | as-written member | corrected member |
|---|---|---|---|---|---|---|
| checked/checked.h:190 | `sizeof(T) * char_bit >= r` refuses every signed left shift by at most the width | `checked<int>(1) << 1` raises instead of giving 2 | `sizeof(T) * char_bit <= r`, as in the unsigned table at line 65 | high, not executed | `SignedOps.SignedShiftsAsWrittenNeverSucceed` | `SignedOps.ShiftLeft` |
| checked/checked.h:201 | `sizeof(T) * char_bit >= r` refuses every signed right shift by at most the width | `checked<int>(2) >> 1` raises instead of giving 1 | `sizeof(T) * char_bit <= r`, as in the unsigned table at line 74 | high, not executed | `SignedOps.SignedShiftsAsWrittenNeverSucceed` | `SignedOps.ShiftRight` |
| checked/checked.h:228 | `max / r < l` for two negative factors | `(-1) * (-2)` raises, while `INT_MIN * (-1)` is admitted and overflows; `checked<short>(-32768) * checked<short>(-1)` gives -32768 | `l < max / r` | high, not executed | `SignedOps.MultiplyAsWrittenWitnesses` | `SignedOps.Multiply` |
| checked/checked.h:219 | the test for a negative `r` requires `l > 0` | `0 - INT_MIN` is admitted and overflows; `checked<signed char>(0) - checked<signed char>(-128)` gives -128 | `l >= 0 && r < 0 && max + r < l` | high, not executed | `SignedOps.MinusAsWrittenZeroMinusMin` | `SignedOps.Minus` |
| checked/checked.h:103 | `return overflow();` in unsigned `multiply`, where `overflow()` returns `void` and `multiply` returns `T` | `checked<unsigned>(2) * 3u` is ill-formed and does not compile, and neither does any `*` or `*=` whose common kind is unsigned | `overflow();`, as in the other primitives | high, not executed | `Arith.UnsignedMultiplyWitnesses` | `UnsignedOps.Multiply` |
| checked/checked.h:490 | the rejecting `explicit operator U()` is enabled for lossless conversions too | `checked<long> x = checked<int>(1);` is ambiguous inside `static_cast<T>(u)` at line 460, so the implicit `checked(checked<U>)` never compiles | add `!is_no_overflow_convertible_v<T, U>` to its condition, as its `static_assert` message says | high, not executed | `CheckedValue.WidenFromNeverCompilesAsWritten` | `CheckedValue.WidenFromCompilesExactly` |
| checked/checked.h:147 | `noexcept(sizeof(U) >= sizeof(T))` calls `unsigned char → bool` lossless, which enables the unchecked implicit constructor | `checked<bool>` built from `(unsigned char)2` stores `true` with no check | compare value bits (`digits`) rather than `sizeof` | medium, not executed | `Conversion.NoexceptAdmitsNarrowingToBool` | `Conversion.NoOverflowConvertibleExact` |
| checked/checked.h:505 | `cast_to<U>()` is `noexcept(is_noexcept_convertible_v<U, T>)`: the judgment of the reverse conversion | `checked<unsigned char> x = 255; x += 1;` throws out of `checked<int>::cast_to<unsigned char>()`, which is declared `noexcept`, so the program terminates instead of raising | `noexcept(is_noexcept_convertible_v<T, U>)` | high, not executed | `CheckedValue.CastToNoexceptAsWrittenTerminates` | `CheckedValue.CastToNoexceptSound` |
