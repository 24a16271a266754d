/** The wrapper class `checked<T>` (checked/checked.h:427-509) and the free operators over it
    (checked/checked.h:511-612). An object holds one value `val` of the kind `kind`, the
    template argument `T`. Every operation that could leave the range of its kind either
    raises (here: yields `null` or `false`) or succeeds with the exact value, and the object
    is written only after the range check has passed. */
module CheckedValue {
  import opened Kinds
  import opened Outcome
  import opened Conversion
  import opened Arith

  class Checked {
    /** The template argument `T`. */
    const kind: Kind
    /** `_val`. */
    var val: int

    /** The stored value is a value of the kind. */
    predicate Valid()
      reads this
    {
      InRange(kind, val)
    }

    /** `checked(T v)`: wraps a value of the kind itself. */
    constructor (k: Kind, v: int)
      requires InRange(k, v)
      ensures kind == k && val == v
      ensures Valid()
    {
      kind := k;
      val := v;
    }

    /** The implicit `checked(U u)`, offered only when every value of `src` is a value of
        `k`: it stores the value without a check, and the judgment guarantees it fits. */
    constructor Widen(src: Kind, u: int, k: Kind)
      requires InRange(src, u) && NoOverflowConvertible(src, k)
      ensures kind == k && val == u
      ensures Valid()
    {
      LosslessRoundTrip(src, k, u);
      kind := k;
      val := u;
    }

    /** The implicit `checked(checked<U> u)` for a different kind `U` whose values all fit;
        the unwrap it goes through needs `bool` to meet only `bool`. As written this
        constructor never compiles (`WidenFromNeverCompilesAsWritten`); this is its meaning
        under the intended overload set (`WidenFromCompiles`). */
    constructor WidenFrom(other: Checked, k: Kind)
      requires other.Valid() && other.kind != k
      requires NoOverflowConvertible(other.kind, k) && AllBoolOrAllNot(other.kind, k)
      ensures kind == k && val == old(other.val)
      ensures Valid()
    {
      var u := other.Get(k);
      kind := k;
      val := u;
    }

    /** The explicit `checked(U u)`: the value is range-checked into the kind and the
        construction raises when it does not fit. */
    static method Narrow(src: Kind, u: int, k: Kind) returns (c: Checked?)
      requires InRange(src, u)
      ensures c != null <==> InRange(k, u)
      ensures c != null ==> fresh(c) && c.kind == k && c.val == u && c.Valid()
    {
      match Cast(src, k, u)
      case Ok(v) => c := new Checked(k, v);
      case Overflow => c := null;
    }

    /** The explicit `checked(checked<U> u)`, which forwards to `u.cast_to<T>()`. A failure
        is a raise under the corrected `noexcept` of `cast_to` (see `CastToNoexcept`). */
    static method NarrowFrom(other: Checked, k: Kind) returns (c: Checked?)
      requires other.Valid()
      ensures c != null <==> InRange(k, other.val)
      ensures c != null ==> fresh(c) && c.kind == k && c.val == other.val && c.Valid()
    {
      c := other.CastTo(k);
    }

    /** `operator=(U u)`: `_val` is overwritten only when the range-checked conversion of
        `u` succeeds; on failure the object keeps its value. */
    method Assign(src: Kind, u: int) returns (ok: bool)
      requires Valid() && InRange(src, u)
      modifies this
      ensures ok <==> InRange(kind, u)
      ensures val == if ok then u else old(val)
      ensures Valid()
    {
      match Cast(src, kind, u)
      case Ok(v) =>
        val := v;
        ok := true;
      case Overflow =>
        ok := false;
    }

    /** `operator=(checked<U> u)`: the same through `u.cast_to<T>()`. The source value is
        read before the write, so assigning an object to itself keeps it. A failure is a
        raise under the corrected `noexcept` of `cast_to` (see `CastToNoexcept`). */
    method AssignFrom(other: Checked) returns (ok: bool)
      requires Valid() && other.Valid()
      modifies this
      ensures ok <==> InRange(kind, old(other.val))
      ensures val == if ok then old(other.val) else old(val)
      ensures Valid()
    {
      ok := Assign(other.kind, other.val);
    }

    /** The implicit unwrap `operator U()`, offered only towards a kind that holds every
        value of this one (and `bool` only towards `bool`): the value always fits. */
    function Get(dst: Kind): (v: int)
      reads this
      requires Valid() && NoOverflowConvertible(kind, dst) && AllBoolOrAllNot(kind, dst)
      ensures v == val && InRange(dst, v)
    {
      LosslessRoundTrip(kind, dst, val);
      val
    }

    /** `cast_to<U>()`: a new object of kind `dst`, or a raise when the value does not fit.
        The raise is the behaviour under the corrected `noexcept` (`CastToNoexcept`); as
        written, a failure whose reverse conversion is judged safe terminates the program
        (`CastToNoexceptAsWritten`). */
    method CastTo(dst: Kind) returns (c: Checked?)
      requires Valid()
      ensures c != null <==> InRange(dst, val)
      ensures c != null ==> fresh(c) && c.kind == dst && c.val == val && c.Valid()
    {
      match Cast(kind, dst, val)
      case Ok(v) => c := new Checked(dst, v);
      case Overflow => c := null;
    }
  }

  /** An operand of a free operator: a raw integer of some kind, or a wrapped object. Each
      operator exists in three overloads, with at least one wrapped operand. */
  datatype Operand = Raw(rawKind: Kind, rawValue: int) | Wrapped(obj: Checked) {

    function OfKind(): Kind
    {
      if Raw? then rawKind else obj.kind
    }

    function Value(): int
      reads if Wrapped? then {obj} else {}
    {
      if Raw? then rawValue else obj.val
    }

    predicate Valid()
      reads if Wrapped? then {obj} else {}
    {
      InRange(OfKind(), Value())
    }
  }

  /** `make_checked(t)`: wraps a value in an object of its own kind. */
  method MakeChecked(k: Kind, v: int) returns (c: Checked)
    requires InRange(k, v)
    ensures fresh(c) && c.kind == k && c.val == v && c.Valid()
  {
    c := new Checked(k, v);
  }

  /** `checked_cast<T>(u)`: the value of `u` is constructed into kind `target` with the range
      check (or without it when every value fits), for two distinct kinds that are not `bool`. */
  method CheckedCast(target: Kind, u: Checked) returns (c: Checked?)
    requires u.Valid() && target != u.kind && AllBoolOrAllNot(target, u.kind)
    ensures c != null <==> InRange(target, u.val)
    ensures c != null ==> fresh(c) && c.kind == target && c.val == u.val && c.Valid()
  {
    var v := u.Get(u.kind);
    if NoOverflowConvertible(u.kind, target) {
      c := new Checked.Widen(u.kind, v, target);
      NoOverflowConvertibleExact(u.kind, target);
    } else {
      c := Checked.Narrow(u.kind, v, target);
    }
  }

  /** The `noexcept` of `cast_to<U>()` in `checked<T>` as written (checked/checked.h:505): it
      asks whether the REVERSE conversion, from `U` to `T`, can fail. When it says no and the
      range check throws, the exception leaves a `noexcept` function and the program ends in
      `std::terminate` instead of raising. */
  predicate CastToNoexceptAsWritten(src: Kind, dst: Kind)
  {
    NoexceptConvertible(dst, src)
  }

  /** The evidently intended `noexcept` of `cast_to<U>()`: the judgment of the conversion
      that is performed, from `T` to `U`, as the constructors and `operator=` use it. */
  predicate CastToNoexcept(src: Kind, dst: Kind)
  {
    NoexceptConvertible(src, dst)
  }

  /** With the intended `noexcept`, a `cast_to` declared unable to fail never fails (away
      from the `bool` destination of the sizeof finding), so no raise can escape it. */
  lemma CastToNoexceptSound(src: Kind, dst: Kind, v: int)
    requires dst != Bool && InRange(src, v) && CastToNoexcept(src, dst)
    ensures Cast(src, dst, v) == Ok(v)
  {
    NoexceptSoundAwayFromBool(src, dst);
  }

  /** As written, narrowing casts are the ones declared `noexcept`: `int` to `unsigned char`
      and `int` to `short` are, and 256 and 40000 fail them, so they terminate the program.
      `checked<unsigned char> x = 255; x += 1;` reaches the first through `operator=`: the
      sum is the `int` 256, which does not fit back. */
  lemma CastToNoexceptAsWrittenTerminates()
    ensures CastToNoexceptAsWritten(Int, UChar) && !CastToNoexcept(Int, UChar)
    ensures Cast(Int, UChar, 256) == Overflow
    ensures CastToNoexceptAsWritten(Int, Short) && !CastToNoexcept(Int, Short)
    ensures Cast(Int, Short, 40000) == Overflow
    ensures ResultKind(Add, UChar, Int) == Int && Apply(Add, UChar, 255, Int, 1) == Ok(256)
    ensures CompoundResult(Add, UChar, 255, Int, 1) == Overflow
  {
  }

  /** `operator U()` of `checked<T>` (checked/checked.h:484), taking `from` to `to`: enabled
      for a lossless conversion that pairs `bool` only with `bool`. */
  predicate UnwrapEnabled(from: Kind, to: Kind)
  {
    NoOverflowConvertible(from, to) && AllBoolOrAllNot(from, to)
  }

  /** The rejecting `explicit operator U()` (checked/checked.h:490) as written: enabled for
      every other kind that the `bool` rule allows, the lossless ones included. */
  predicate RejectingUnwrapEnabledAsWritten(from: Kind, to: Kind)
  {
    from != to && AllBoolOrAllNot(from, to)
  }

  /** The same overload with the condition its `static_assert` message implies: only for
      conversions that are not lossless. */
  predicate RejectingUnwrapEnabled(from: Kind, to: Kind)
  {
    from != to && AllBoolOrAllNot(from, to) && !NoOverflowConvertible(from, to)
  }

  /** The rejecting `explicit operator bool()` (checked/checked.h:497) of a non-`bool` kind. */
  predicate BoolUnwrapEnabled(from: Kind, to: Kind)
  {
    to == Bool && from != Bool
  }

  /** Whether the implicit `checked(checked<U>)` (checked/checked.h:458-462), from kind `u`
      into kind `t`, compiles as written. Its `static_cast<T>(u)` is a direct-initialisation,
      so the explicit conversion functions are candidates too. It compiles only when the
      non-rejecting `operator U()` is the single viable one. Two viable overloads are
      ambiguous, because the templates differ only in their `enable_if` parameter and
      neither is more specialised. A chosen rejecting overload fails its `static_assert`. */
  predicate WidenFromCompilesAsWritten(u: Kind, t: Kind)
  {
    u != t && NoOverflowConvertible(u, t) &&
    UnwrapEnabled(u, t) && !RejectingUnwrapEnabledAsWritten(u, t) && !BoolUnwrapEnabled(u, t)
  }

  /** The same, with the intended condition on the rejecting `explicit operator U()`. */
  predicate WidenFromCompiles(u: Kind, t: Kind)
  {
    u != t && NoOverflowConvertible(u, t) &&
    UnwrapEnabled(u, t) && !RejectingUnwrapEnabled(u, t) && !BoolUnwrapEnabled(u, t)
  }

  /** As written, the implicit `checked(checked<U>)` compiles for no pair of kinds. Wherever
      its own condition and the `bool` rule admit the pair, both `operator U()` and the
      rejecting `explicit operator U()` are viable. */
  lemma WidenFromNeverCompilesAsWritten(u: Kind, t: Kind)
    ensures !WidenFromCompilesAsWritten(u, t)
    ensures u != t && NoOverflowConvertible(u, t) && AllBoolOrAllNot(u, t) ==>
              UnwrapEnabled(u, t) && RejectingUnwrapEnabledAsWritten(u, t)
  {
  }

  /** With the intended condition, the implicit `checked(checked<U>)` compiles exactly for
      the distinct lossless pairs that keep `bool` with `bool`, the precondition of
      `Checked.WidenFrom`. A `bool` source into a wider numeric kind passes the
      constructor's own condition but still has no usable unwrap. */
  lemma WidenFromCompilesExactly(u: Kind, t: Kind)
    ensures WidenFromCompiles(u, t) <==> u != t && NoOverflowConvertible(u, t) && AllBoolOrAllNot(u, t)
    ensures u == Bool && t != Bool ==> !WidenFromCompiles(u, t)
  {
  }

  /** `checked<long> x = checked<int>(1);` does not compile as written and does once
      corrected; `checked<int>` from `checked<bool>` passes the constructor's condition but
      does not compile either way. */
  lemma WidenFromWitnesses()
    ensures !WidenFromCompilesAsWritten(Int, Long) && WidenFromCompiles(Int, Long)
    ensures NoOverflowConvertible(Bool, Int) && !WidenFromCompiles(Bool, Int)
  {
  }

  /** `t op u` for the operators `+ - * / % << >> & | ^`: `make_checked` of the dispatcher's
      result, which has the result kind of the operation; a raise when the dispatcher fails. */
  method Binary(op: BinOp, a: Operand, b: Operand) returns (c: Checked?)
    requires a.Wrapped? || b.Wrapped?
    requires a.Valid() && b.Valid() && Available(op, a.OfKind(), b.OfKind())
    ensures c != null <==> Apply(op, a.OfKind(), a.Value(), b.OfKind(), b.Value()).Ok?
    ensures c != null ==>
              fresh(c) && c.kind == ResultKind(op, a.OfKind(), b.OfKind()) &&
              c.val == Apply(op, a.OfKind(), a.Value(), b.OfKind(), b.Value()).value && c.Valid()
  {
    match Apply(op, a.OfKind(), a.Value(), b.OfKind(), b.Value())
    case Ok(v) => c := MakeChecked(ResultKind(op, a.OfKind(), b.OfKind()), v);
    case Overflow => c := null;
  }

  /** `t op u` for `== != > <= < >=`: a `checked<bool>` holding the answer. */
  method Comparison(op: CmpOp, a: Operand, b: Operand) returns (c: Checked?)
    requires a.Wrapped? || b.Wrapped?
    requires a.Valid() && b.Valid()
    ensures c != null <==> Compare(op, a.OfKind(), a.Value(), b.OfKind(), b.Value()).Ok?
    ensures c != null ==>
              fresh(c) && c.kind == Bool && c.Valid() &&
              (c.val == 1 <==> Compare(op, a.OfKind(), a.Value(), b.OfKind(), b.Value()).value)
  {
    match Compare(op, a.OfKind(), a.Value(), b.OfKind(), b.Value())
    case Ok(answer) => c := MakeChecked(Bool, if answer then 1 else 0);
    case Overflow => c := null;
  }

  /** The value `t op= u` leaves in `t`: the operation in the result kind, then the range-checked
      conversion back into the kind of `t`. */
  function CompoundResult(op: BinOp, t: Kind, l: int, u: Kind, r: int): (res: Result<int>)
    requires InRange(t, l) && InRange(u, r) && Available(op, t, u)
    ensures res.Ok? <==> Apply(op, t, l, u, r).Ok? && InRange(t, Apply(op, t, l, u, r).value)
    ensures res.Ok? ==> InRange(t, res.value)
    ensures res.Ok? ==> Apply(op, t, l, u, r) == Ok(res.value)
  {
    var s :- Apply(op, t, l, u, r);
    if InRange(t, s) then Ok(s) else Overflow
  }

  /** `t op= u` for `+`, `-`, `*`: it succeeds exactly when both operands fit the common kind
      and the exact result fits both the common kind and the kind of `t`, and it then stores
      the exact result. */
  lemma CompoundArithmeticIsExact(op: BinOp, t: Kind, l: int, u: Kind, r: int)
    requires op.Add? || op.Sub? || op.Mul?
    requires InRange(t, l) && InRange(u, r)
    ensures CompoundResult(op, t, l, u, r).Ok? <==>
              InRange(Common(t, u), l) && InRange(Common(t, u), r) &&
              InRange(Common(t, u), Exact(op, l, r)) && InRange(t, Exact(op, l, r))
    ensures CompoundResult(op, t, l, u, r).Ok? ==> CompoundResult(op, t, l, u, r).value == Exact(op, l, r)
  {
    ArithmeticIsExact(op, t, l, u, r);
  }

  /** `t op= u`, that is `t = t op u`: the object is overwritten only when both the operation
      and the conversion back into its kind succeed; otherwise it keeps its value. */
  method CompoundAssign(op: BinOp, t: Checked, b: Operand) returns (ok: bool)
    requires t.Valid() && b.Valid() && Available(op, t.kind, b.OfKind())
    modifies t
    ensures ok <==> CompoundResult(op, t.kind, old(t.val), b.OfKind(), old(b.Value())).Ok?
    ensures t.val == if ok then CompoundResult(op, t.kind, old(t.val), b.OfKind(), old(b.Value())).value
                     else old(t.val)
    ensures t.Valid()
  {
    var s := Binary(op, Wrapped(t), b);
    if s == null {
      ok := false;
    } else {
      ok := t.AssignFrom(s);
    }
  }

  /** The dispatcher's answers for `a + b` and `1u - a` with `a` holding 10 and `b` holding
      `11ll` (checked/main.cpp:16-22). */
  lemma DemonstrationValues()
    ensures ResultKind(Add, Int, LongLong) == LongLong && Apply(Add, Int, 10, LongLong, 11) == Ok(21)
    ensures Apply(Sub, UInt, 1, Int, 10) == Overflow
  {
  }

  /** The dispatcher's answers for `1ull / a` and `a - 1u` with `a` holding 10
      (checked/main.cpp:28-31). */
  lemma DemonstrationUnsignedValues()
    ensures ResultKind(Div, ULongLong, Int) == ULongLong && Apply(Div, ULongLong, 1, Int, 10) == Ok(0)
    ensures ResultKind(Sub, Int, UInt) == UInt && Apply(Sub, Int, 10, UInt, 1) == Ok(9)
  {
  }

  /** The dispatcher's answers for `a += 1` and then `a -= 1u` with `a` a `checked<int>`
      holding 10 (checked/main.cpp:35-36): 11, and then 10 again. */
  lemma DemonstrationCompoundValues()
    ensures CompoundResult(Add, Int, 10, Int, 1) == Ok(11)
    ensures CompoundResult(Sub, Int, 11, UInt, 1) == Ok(10)
  {
  }

  /** The opening lines of the demonstration program (checked/main.cpp:14-36), with `a` a
      `checked<int>` holding 10 and `b` a `checked<long long>` holding 11:
      - `a + b` is a `checked<long long>` holding 21 (line 16);
      - `1u - a` raises, since the difference is negative in the common kind `unsigned int`
        (line 22);
      - `1ull / a` is a `checked<unsigned long long>` holding 0 (line 28);
      - `a - 1u` is a `checked<unsigned int>` holding 9 (line 31);
      - `a += 1` and then `a -= 1u` both succeed and leave 10 in `a` (lines 35-36). */
  method DemonstrationOpening() returns (sum: Checked?, diff: Checked?, quot: Checked?,
                                         less: Checked?, added: bool, subtracted: bool, a: Checked)
    ensures sum != null && sum.kind == LongLong && sum.val == 21
    ensures diff == null
    ensures quot != null && quot.kind == ULongLong && quot.val == 0
    ensures less != null && less.kind == UInt && less.val == 9
    ensures added && subtracted && a.kind == Int && a.val == 10
  {
    DemonstrationValues();
    DemonstrationUnsignedValues();
    DemonstrationCompoundValues();
    a := MakeChecked(Int, 10);
    var b := MakeChecked(LongLong, 11);
    sum := Binary(Add, Wrapped(a), Wrapped(b));
    diff := Binary(Sub, Raw(UInt, 1), Wrapped(a));
    quot := Binary(Div, Raw(ULongLong, 1), Wrapped(a));
    less := Binary(Sub, Wrapped(a), Raw(UInt, 1));
    added := CompoundAssign(Add, a, Raw(Int, 1));
    subtracted := CompoundAssign(Sub, a, Raw(UInt, 1));
  }
}
