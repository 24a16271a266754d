/** `arith<T, U>` (checked/checked.h:339-410): a binary operation between a value of kind
    `t` and a value of kind `u`. Both operands are converted, with the range check, to the
    common kind, and the primitive of that kind's signedness runs there. Shifts run in
    `promote(t)` with the amount converted to `size_t`. The operator families of the
    wrapper (`+ - * / % << >> & | ^`) are one `BinOp` each. */
module Arith {
  import opened IntMath
  import opened Kinds
  import opened Outcome
  import opened Conversion
  import UnsignedOps
  import SignedOps

  datatype BinOp = Add | Sub | Mul | Div | Mod | Shl | Shr | BitAnd | BitOr | BitXor

  datatype CmpOp = Eq | Ne | Gt | Le | Lt | Ge

  /** `arith<T, U>::cast`: the value is promoted (losslessly) and then range-checked into `u`. */
  function Cast(t: Kind, u: Kind, v: int): (res: Result<int>)
    requires InRange(t, v)
    ensures res.Ok? <==> InRange(u, v)
    ensures res.Ok? ==> res.value == v
  {
    PromoteIdempotent(t);
    CastTo(Promote(t), u, v)
  }

  /** The kind of the result: `promote(t)` for shifts, `common_type_t<T, U>` otherwise. */
  function ResultKind(op: BinOp, t: Kind, u: Kind): (k: Kind)
    ensures Rank(k) >= Rank(t)
    ensures !(op.Shl? || op.Shr?) ==> Rank(k) >= Rank(u)
  {
    if op.Shl? || op.Shr? then Promote(t) else Common(t, u)
  }

  predicate IsBitwise(op: BinOp)
  {
    op.BitAnd? || op.BitOr? || op.BitXor?
  }

  /** Whether the operation exists at all: the bitwise operations of a signed kind are
      rejected at compile time (`static_assert`), so they are not available. */
  predicate Available(op: BinOp, t: Kind, u: Kind)
  {
    IsBitwise(op) ==> IsUnsigned(Common(t, u))
  }

  /** Whether the operation compiles as written. Unsigned `multiply` (checked/checked.h:99-106)
      returns the call `overflow()`, whose type is `void`, from a function returning `T`, which
      is ill-formed; so every `*` and `*=` whose common kind is unsigned is rejected once it
      is instantiated. The model's `Apply` gives it the meaning of the evident intent. */
  predicate AvailableAsWritten(op: BinOp, t: Kind, u: Kind)
  {
    Available(op, t, u) && !(op.Mul? && IsUnsigned(Common(t, u)))
  }

  /** As written, `*` exists exactly for a signed common kind; the other operations are
      unaffected. */
  lemma UnsignedMultiplyRejectedAsWritten(op: BinOp, t: Kind, u: Kind)
    ensures AvailableAsWritten(Mul, t, u) <==> IsSigned(Common(t, u))
    ensures !op.Mul? ==> (AvailableAsWritten(op, t, u) <==> Available(op, t, u))
  {
  }

  /** `bool`, `unsigned char` and `unsigned short` multiplied by themselves, and every pairing
      whose common kind is `unsigned` or wider, do not compile as written. */
  lemma UnsignedMultiplyWitnesses()
    ensures !AvailableAsWritten(Mul, Bool, Bool) && !AvailableAsWritten(Mul, UChar, UChar)
    ensures !AvailableAsWritten(Mul, UInt, Int) && !AvailableAsWritten(Mul, ULongLong, Long)
  {
    UnsignedMultiplyRejectedAsWritten(Mul, Bool, Bool);
    UnsignedMultiplyRejectedAsWritten(Mul, UChar, UChar);
    UnsignedMultiplyRejectedAsWritten(Mul, UInt, Int);
    UnsignedMultiplyRejectedAsWritten(Mul, ULongLong, Long);
  }

  /** Mixed narrow unsigned kinds promote to `int`, and `unsigned` with `long` converts to
      `long`, so those products compile as written. */
  lemma SignedCommonMultiplyCompiles()
    ensures AvailableAsWritten(Mul, UChar, UShort) && AvailableAsWritten(Mul, UInt, Long)
  {
    UnsignedMultiplyRejectedAsWritten(Mul, UChar, UShort);
    UnsignedMultiplyRejectedAsWritten(Mul, UInt, Long);
  }

  /** With the intended `overflow();`, `2u * 3u` compiles and gives 6, and `0x10000u * 0x10000u`
      overflows. */
  lemma UnsignedMultiplyIntended()
    ensures Available(Mul, UInt, UInt) && Apply(Mul, UInt, 2, UInt, 3) == Ok(6)
    ensures Apply(Mul, UInt, 0x1_0000, UInt, 0x1_0000) == Overflow
  {
  }

  /** `arith_impl<k>::op(a, b)`: the table selected by `signness_t<k>`. */
  function Primitive(op: BinOp, k: Kind, a: int, b: int): (res: Result<int>)
    requires !op.Shl? && !op.Shr?
    requires InRange(k, a) && InRange(k, b)
    requires IsBitwise(op) ==> IsUnsigned(k)
    ensures res.Ok? ==> InRange(k, res.value)
  {
    if IsUnsigned(k) then
      match op
      case Add => UnsignedOps.Plus(k, a, b)
      case Sub => UnsignedOps.Minus(k, a, b)
      case Mul => UnsignedOps.Multiply(k, a, b)
      case Div => UnsignedOps.Divide(k, a, b)
      case Mod => UnsignedOps.Modulo(k, a, b)
      case BitAnd => Ok(UnsignedOps.BitwiseAnd(k, a, b))
      case BitOr => Ok(UnsignedOps.BitwiseOr(k, a, b))
      case BitXor => Ok(UnsignedOps.ExclusiveOr(k, a, b))
    else
      match op
      case Add => SignedOps.Plus(k, a, b)
      case Sub => SignedOps.Minus(k, a, b)
      case Mul => SignedOps.Multiply(k, a, b)
      case Div => SignedOps.Divide(k, a, b)
      case Mod => SignedOps.Modulo(k, a, b)
  }

  /** The operation `l op r` for `l` of kind `t` and `r` of kind `u`. */
  function Apply(op: BinOp, t: Kind, l: int, u: Kind, r: int): (res: Result<int>)
    requires InRange(t, l) && InRange(u, r) && Available(op, t, u)
    ensures res.Ok? ==> InRange(ResultKind(op, t, u), res.value)
  {
    if op.Shl? || op.Shr? then
      var amount :- Cast(u, SizeT, r);
      var k := Promote(t);
      if op.Shl? then
        (if IsUnsigned(k) then UnsignedOps.ShiftLeft(k, l, amount) else SignedOps.ShiftLeft(k, l, amount))
      else
        (if IsUnsigned(k) then UnsignedOps.ShiftRight(k, l, amount) else SignedOps.ShiftRight(k, l, amount))
    else
      var k := Common(t, u);
      var a :- Cast(t, k, l);
      var b :- Cast(u, k, r);
      Primitive(op, k, a, b)
  }

  /** `arith<T, U>::inv`: `~l` runs in `promote(t)`, which must be unsigned (a signed
      promoted kind is rejected at compile time); it flips every bit of the promoted value. */
  function Inv(t: Kind, l: int): (v: int)
    requires InRange(t, l) && IsUnsigned(Promote(t))
    ensures v == Max(Promote(t)) - l && InRange(Promote(t), v)
  {
    PromoteIdempotent(t);
    UnsignedOps.Inverse(Promote(t), l)
  }

  /** The exact mathematical result of `+`, `-`, `*`. */
  function Exact(op: BinOp, l: int, r: int): int
    requires op.Add? || op.Sub? || op.Mul?
  {
    match op
    case Add => l + r
    case Sub => l - r
    case Mul => l * r
  }

  /** `+`, `-`, `*` fail exactly when an operand does not fit the common kind or the exact
      result leaves that kind's range; otherwise the result is the exact one. */
  lemma ArithmeticIsExact(op: BinOp, t: Kind, l: int, u: Kind, r: int)
    requires op.Add? || op.Sub? || op.Mul?
    requires InRange(t, l) && InRange(u, r)
    ensures Apply(op, t, l, u, r).Ok? <==>
              InRange(Common(t, u), l) && InRange(Common(t, u), r) && InRange(Common(t, u), Exact(op, l, r))
    ensures Apply(op, t, l, u, r).Ok? ==> Apply(op, t, l, u, r).value == Exact(op, l, r)
  {
  }

  /** `/` and `%` fail exactly when an operand does not fit the common kind, the divisor is
      zero, or a signed common kind divides its minimum by -1. */
  lemma DivisionIsTruncated(op: BinOp, t: Kind, l: int, u: Kind, r: int)
    requires op.Div? || op.Mod?
    requires InRange(t, l) && InRange(u, r)
    ensures Apply(op, t, l, u, r).Ok? <==>
              InRange(Common(t, u), l) && InRange(Common(t, u), r) && r != 0 &&
              !(IsSigned(Common(t, u)) && r == -1 && l == Min(Common(t, u)))
  {
    UnsignedAndSignedBounds(Common(t, u));
  }

  /** A successful `/` or `%` gives the quotient truncated toward zero, or the remainder that
      goes with it. */
  lemma DivisionValue(op: BinOp, t: Kind, l: int, u: Kind, r: int)
    requires op.Div? || op.Mod?
    requires InRange(t, l) && InRange(u, r) && Apply(op, t, l, u, r).Ok?
    ensures r != 0
    ensures Apply(op, t, l, u, r).value == if op.Div? then TruncDiv(l, r) else TruncMod(l, r)
  {
    var k := Common(t, u);
    assert InRange(k, l) && InRange(k, r);
    assert Apply(op, t, l, u, r) == Primitive(op, k, l, r);
  }

  lemma UnsignedAndSignedBounds(k: Kind)
    ensures IsUnsigned(k) ==> Min(k) == 0
    ensures IsSigned(k) ==> Min(k) < -1
  {
  }

  /** `<<` fails exactly when the amount is negative (the conversion to `size_t`), reaches
      the width of `promote(t)`, or, for a signed promoted kind, when `l` is negative or
      `l * 2^r` exceeds the maximum. */
  lemma ShiftLeftMeaning(t: Kind, l: int, u: Kind, r: int)
    requires InRange(t, l) && InRange(u, r)
    ensures Apply(Shl, t, l, u, r).Ok? <==>
              0 <= r < Bits(Promote(t)) &&
              (IsSigned(Promote(t)) ==> l >= 0 && l * Pow2(r) <= Max(Promote(t)))
  {
    ShiftAmount(u, r);
  }

  /** A `<<` of a signed promoted kind that passes its checks is exact. */
  lemma ShiftLeftSignedValue(t: Kind, l: int, u: Kind, r: int)
    requires InRange(t, l) && InRange(u, r) && IsSigned(Promote(t))
    requires 0 <= l && 0 <= r < Bits(Promote(t)) && l * Pow2(r) <= Max(Promote(t))
    ensures Apply(Shl, t, l, u, r) == Ok(l * Pow2(r))
  {
    ShiftAmount(u, r);
  }

  /** A `<<` of an unsigned promoted kind checks only the amount and keeps the low `width`
      bits of `l * 2^r`, which is `l * 2^r` itself when that fits. */
  lemma ShiftLeftUnsignedValue(t: Kind, l: int, u: Kind, r: int)
    requires InRange(t, l) && InRange(u, r) && IsUnsigned(Promote(t))
    requires 0 <= r < Bits(Promote(t))
    ensures Apply(Shl, t, l, u, r) == Ok((l * Pow2(r)) % Pow2(Bits(Promote(t))))
    ensures InRange(Promote(t), l * Pow2(r)) ==> Apply(Shl, t, l, u, r) == Ok(l * Pow2(r))
  {
    ShiftAmount(u, r);
    var k := Promote(t);
    assert k != Bool && InRange(k, l);
    assert Apply(Shl, t, l, u, r) == UnsignedOps.ShiftLeft(k, l, r);
  }

  /** `>>` fails exactly when the amount is negative or reaches the width of `promote(t)`. */
  lemma ShiftRightMeaning(t: Kind, l: int, u: Kind, r: int)
    requires InRange(t, l) && InRange(u, r)
    ensures Apply(Shr, t, l, u, r).Ok? <==> 0 <= r < Bits(Promote(t))
  {
    ShiftAmount(u, r);
  }

  /** A `>>` with an amount below the width of `promote(t)` divides by `2^r`, rounding toward
      negative infinity (Dafny's `/` by a positive divisor), whatever the signedness. */
  lemma ShiftRightValue(t: Kind, l: int, u: Kind, r: int)
    requires InRange(t, l) && InRange(u, r) && 0 <= r < Bits(Promote(t))
    ensures Apply(Shr, t, l, u, r) == Ok(l / Pow2(r))
  {
    ShiftAmount(u, r);
    FloorDivRange(l, Pow2(r));
  }

  /** The conversion of a shift amount to `size_t` fails exactly on negative amounts;
      every amount below the width of a kind converts. */
  lemma ShiftAmount(u: Kind, r: int)
    requires InRange(u, r)
    ensures Cast(u, SizeT, r) == if r < 0 then Overflow else Ok(r)
  {
  }

  /** `&`, `|`, `^` fail only when an operand is negative (the common kind is unsigned). */
  lemma BitwiseFailsOnlyInCast(op: BinOp, t: Kind, l: int, u: Kind, r: int)
    requires IsBitwise(op) && InRange(t, l) && InRange(u, r) && Available(op, t, u)
    ensures Apply(op, t, l, u, r).Ok? <==> l >= 0 && r >= 0
  {
    CommonHoldsOperand(t, u, l);
    CommonHoldsOperand(u, t, r);
    CommonSymmetric(t, u);
  }

  /** On non-negative operands `&`, `|`, `^` give the bitwise and, or and exclusive or. */
  lemma BitwiseValues(op: BinOp, t: Kind, l: int, u: Kind, r: int)
    requires IsBitwise(op) && InRange(t, l) && InRange(u, r) && Available(op, t, u)
    requires l >= 0 && r >= 0
    ensures Apply(op, t, l, u, r) ==
              Ok(match op
                 case BitAnd => And(l, r)
                 case BitOr => Or(l, r)
                 case BitXor => Xor(l, r))
  {
    CommonHoldsOperand(t, u, l);
    CommonHoldsOperand(u, t, r);
    CommonSymmetric(t, u);
  }

  /** `eq`, `gt`, `lt` compare the two operands converted to the common kind; `ne`, `le`,
      `ge` negate `eq`, `gt`, `lt`. */
  function Compare(op: CmpOp, t: Kind, l: int, u: Kind, r: int): (res: Result<bool>)
    requires InRange(t, l) && InRange(u, r)
    decreases if op.Eq? || op.Gt? || op.Lt? then 0 else 1
  {
    match op
    case Eq =>
      var a :- Cast(t, Common(t, u), l);
      var b :- Cast(u, Common(t, u), r);
      Ok(a == b)
    case Gt =>
      var a :- Cast(t, Common(t, u), l);
      var b :- Cast(u, Common(t, u), r);
      Ok(a > b)
    case Lt =>
      var a :- Cast(t, Common(t, u), l);
      var b :- Cast(u, Common(t, u), r);
      Ok(a < b)
    case Ne => var e :- Compare(Eq, t, l, u, r); Ok(!e)
    case Le => var g :- Compare(Gt, t, l, u, r); Ok(!g)
    case Ge => var s :- Compare(Lt, t, l, u, r); Ok(!s)
  }

  /** The relation a comparison stands for, on mathematical integers. */
  predicate Holds(op: CmpOp, l: int, r: int)
  {
    match op
    case Eq => l == r
    case Ne => l != r
    case Gt => l > r
    case Le => l <= r
    case Lt => l < r
    case Ge => l >= r
  }

  /** A comparison never fails by itself: it fails exactly when an operand does not fit the
      common kind (a negative operand against an unsigned common kind), and otherwise it
      answers for the mathematical values, never for wrapped ones. */
  lemma {:induction false} CompareMeaning(op: CmpOp, t: Kind, l: int, u: Kind, r: int)
    requires InRange(t, l) && InRange(u, r)
    ensures Compare(op, t, l, u, r).Ok? <==> !((l < 0 || r < 0) && IsUnsigned(Common(t, u)))
    ensures Compare(op, t, l, u, r).Ok? ==> Compare(op, t, l, u, r).value == Holds(op, l, r)
    decreases if op.Eq? || op.Gt? || op.Lt? then 0 else 1
  {
    match op
    case Eq | Gt | Lt => OperandsIntoCommon(t, l, u, r);
    case Ne => CompareMeaning(Eq, t, l, u, r);
    case Le => CompareMeaning(Gt, t, l, u, r);
    case Ge => CompareMeaning(Lt, t, l, u, r);
  }

  /** Both operands reach the common kind unless one of them is negative and the common
      kind is unsigned. */
  lemma OperandsIntoCommon(t: Kind, l: int, u: Kind, r: int)
    requires InRange(t, l) && InRange(u, r)
    ensures Cast(t, Common(t, u), l).Ok? && Cast(u, Common(t, u), r).Ok? <==>
              !((l < 0 || r < 0) && IsUnsigned(Common(t, u)))
  {
    CommonHoldsOperand(t, u, l);
    CommonHoldsOperand(u, t, r);
    CommonSymmetric(t, u);
  }

  /** Swapping the operands of a comparison swaps `<` with `>` and keeps `==`. */
  lemma CompareSwapped(t: Kind, l: int, u: Kind, r: int)
    requires InRange(t, l) && InRange(u, r)
    ensures Compare(Eq, t, l, u, r) == Compare(Eq, u, r, t, l)
    ensures Compare(Lt, t, l, u, r) == Compare(Gt, u, r, t, l)
  {
    CommonSymmetric(t, u);
    CompareMeaning(Eq, t, l, u, r);
    CompareMeaning(Eq, u, r, t, l);
    CompareMeaning(Lt, t, l, u, r);
    CompareMeaning(Gt, u, r, t, l);
  }

  /** The cases listed for the wrapper within one kind. */
  lemma Scenarios()
    ensures Apply(Add, Int, 0x7FFF_FFFF, Int, 1) == Overflow
    ensures Apply(Add, UChar, 200, UChar, 100) == Overflow
    ensures Apply(Div, UInt, 5, UInt, 0) == Overflow
    ensures Cast(Int, UShort, -1) == Overflow
    ensures Apply(Div, SChar, -128, SChar, -1) == Overflow
  {
  }

  /** The mixed-kind cases listed for the wrapper, with the mixed subtraction of the
      demonstration program (checked/main.cpp:22). */
  lemma MixedScenarios()
    ensures ResultKind(Add, Int, Long) == Long && Apply(Add, Int, 10, Long, 20) == Ok(30)
    ensures Common(UInt, Int) == UInt && Apply(Sub, UInt, 1, Int, 10) == Overflow
    ensures Apply(Add, UInt, 1, Int, -1) == Overflow
  {
  }
}
