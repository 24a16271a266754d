/** The integer kinds of the host language and the type-level rules over them:
    the signedness classifier, integer promotion and the common kind of two
    operands (the C++ "usual arithmetic conversions", [expr.arith.conv]).
    The data model is LP64 (x86-64 System V): 8-bit `char` (signed), 16-bit
    `short`, 32-bit `int`, 64-bit `long` and `long long`, `size_t` = `unsigned long`. */
module Kinds {
  import opened IntMath

  /** `CHAR_BIT`: sizes are counted in bytes of this many bits. */
  const CharBit: nat := 8

  datatype Signedness = Unsigned | Signed

  datatype Kind =
    | Bool
    | Char | SChar | UChar
    | Short | UShort
    | Int | UInt
    | Long | ULong
    | LongLong | ULongLong

  /** `size_t`, the type every shift amount is converted to. */
  const SizeT: Kind := ULong

  /** `sizeof(k)` in bytes. */
  function Size(k: Kind): nat
  {
    match k
    case Bool | Char | SChar | UChar => 1
    case Short | UShort => 2
    case Int | UInt => 4
    case Long | ULong | LongLong | ULongLong => 8
  }

  /** `sizeof(k) * CHAR_BIT`, the width the source uses for shift and size checks. */
  function Bits(k: Kind): nat
  {
    Size(k) * CharBit
  }

  /** The signedness classifier. `bool` counts as unsigned, as `std::is_unsigned<bool>` holds;
      the unsigned kinds are exactly those without negative values. */
  function Sign(k: Kind): (s: Signedness)
    ensures s == Unsigned <==> Min(k) == 0
  {
    match k
    case Bool | UChar | UShort | UInt | ULong | ULongLong => Unsigned
    case Char | SChar | Short | Int | Long | LongLong => Signed
  }

  predicate IsUnsigned(k: Kind)
  {
    Sign(k) == Unsigned
  }

  predicate IsSigned(k: Kind)
  {
    Sign(k) == Signed
  }

  /** Number of value bits (`std::numeric_limits<k>::digits`): the sign bit is not counted,
      and `bool` has a single value bit although it occupies a whole byte. */
  function Digits(k: Kind): nat
  {
    if k == Bool then 1 else if IsSigned(k) then Bits(k) - 1 else Bits(k)
  }

  /** `std::numeric_limits<k>::max()`. */
  function Max(k: Kind): (m: int)
    ensures m >= 1
  {
    match k
    case Bool => 1
    case Char | SChar => 0x7F
    case UChar => 0xFF
    case Short => 0x7FFF
    case UShort => 0xFFFF
    case Int => 0x7FFF_FFFF
    case UInt => 0xFFFF_FFFF
    case Long | LongLong => 0x7FFF_FFFF_FFFF_FFFF
    case ULong | ULongLong => 0xFFFF_FFFF_FFFF_FFFF
  }

  /** `std::numeric_limits<k>::min()`: zero for unsigned kinds, two's complement otherwise. */
  function Min(k: Kind): (m: int)
    ensures m <= 0
    ensures m < 0 ==> m == -Max(k) - 1
  {
    match k
    case Bool | UChar | UShort | UInt | ULong | ULongLong => 0
    case Char | SChar => -0x80
    case Short => -0x8000
    case Int => -0x8000_0000
    case Long | LongLong => -0x8000_0000_0000_0000
  }

  /** The values a variable of kind `k` can hold. */
  predicate InRange(k: Kind, v: int)
  {
    Min(k) <= v <= Max(k)
  }

  /** Every value of `src` is a value of `dst`. */
  predicate RangeIncluded(src: Kind, dst: Kind)
  {
    Min(dst) <= Min(src) && Max(src) <= Max(dst)
  }

  /** Integer conversion rank ([conv.rank]); signed and unsigned kinds of one size share a rank. */
  function Rank(k: Kind): nat
  {
    match k
    case Bool => 0
    case Char | SChar | UChar => 1
    case Short | UShort => 2
    case Int | UInt => 3
    case Long | ULong => 4
    case LongLong | ULongLong => 5
  }

  /** Integer promotion (`decltype(+t)`, [conv.prom]): a kind ranked below `int` becomes
      `int` when `int` can hold all its values, `unsigned int` otherwise (in this data model
      `int` always can); the others stay as they are. */
  function Promote(k: Kind): (p: Kind)
    ensures RangeIncluded(k, p)
    ensures Rank(p) >= Rank(Int) && Bits(p) >= Bits(Int)
    ensures Rank(k) < Rank(Int) ==> p == (if RangeIncluded(k, Int) then Int else UInt)
    ensures Rank(k) >= Rank(Int) ==> p == k
  {
    if Rank(k) < Rank(Int) then Int else k
  }

  /** The unsigned kind with the same rank as a signed one. */
  function ToUnsigned(k: Kind): (u: Kind)
    requires IsSigned(k)
    ensures IsUnsigned(u) && Rank(u) == Rank(k) && Bits(u) == Bits(k)
  {
    match k
    case Char | SChar => UChar
    case Short => UShort
    case Int => UInt
    case Long => ULong
    case LongLong => ULongLong
  }

  /** The usual arithmetic conversions between two promoted kinds: same signedness, the
      higher rank wins; otherwise the unsigned kind wins unless the signed kind has the higher
      rank, in which case the signed kind wins if it can hold every value of the unsigned one,
      and its unsigned counterpart is used if it cannot. */
  function Arithmetic(p: Kind, q: Kind): (r: Kind)
    ensures Rank(r) >= Rank(p) && Rank(r) >= Rank(q)
  {
    if p == q then p
    else if Sign(p) == Sign(q) then (if Rank(p) >= Rank(q) then p else q)
    else
      var (s, n) := if IsSigned(p) then (p, q) else (q, p);
      if Rank(n) >= Rank(s) then n
      else if Bits(s) > Bits(n) then s
      else ToUnsigned(s)
  }

  /** `std::common_type_t<T, U>` for integer kinds: a kind paired with itself stays itself
      (no promotion); otherwise both are promoted and the usual arithmetic conversions decide. */
  function Common(t: Kind, u: Kind): (c: Kind)
    ensures Rank(c) >= Rank(t) && Rank(c) >= Rank(u)
  {
    if t == u then t else Arithmetic(Promote(t), Promote(u))
  }

  function MaxNat(a: nat, b: nat): nat
  {
    if a >= b then a else b
  }

  /** The powers of two that bound the kinds of this data model. */
  lemma KindPowers()
    ensures Pow2(1) == 2 && Pow2(7) == 0x80 && Pow2(8) == 0x100
    ensures Pow2(15) == 0x8000 && Pow2(16) == 0x1_0000
    ensures Pow2(31) == 0x8000_0000 && Pow2(32) == 0x1_0000_0000
    ensures Pow2(63) == 0x8000_0000_0000_0000 && Pow2(64) == 0x1_0000_0000_0000_0000
  {
    assert Pow2(7) == 0x80 && Pow2(8) == 0x100;
    Pow2Add(7, 8);
    Pow2Add(8, 8);
    Pow2Add(15, 16);
    Pow2Add(16, 16);
    Pow2Add(31, 32);
    Pow2Add(32, 32);
  }

  /** `Max` is one below the power of two of the value bits. */
  lemma MaxIsPower(k: Kind)
    ensures Max(k) + 1 == Pow2(Digits(k))
  {
    match k
    case Bool => assert Pow2(1) == 2;
    case Char | SChar | Short | Int | Long | LongLong => SignedMaxIsPower(k);
    case UChar | UShort | UInt | ULong | ULongLong => UnsignedMaxIsPower(k);
  }

  /** `MaxIsPower` for the signed kinds. */
  lemma SignedMaxIsPower(k: Kind)
    requires IsSigned(k)
    ensures Max(k) + 1 == Pow2(Digits(k))
  {
    KindPowers();
  }

  /** `MaxIsPower` for the unsigned kinds other than `bool`. */
  lemma UnsignedMaxIsPower(k: Kind)
    requires IsUnsigned(k) && k != Bool
    ensures Max(k) + 1 == Pow2(Digits(k))
  {
    KindPowers();
  }

  /** `Max` and `Min` are the two's complement bounds of `Digits` value bits. */
  lemma BoundsArePowers(k: Kind)
    ensures Max(k) == Pow2(Digits(k)) - 1
    ensures Min(k) == if IsSigned(k) then -(Pow2(Digits(k)) as int) else 0
  {
    MaxIsPower(k);
  }

  /** One range includes another exactly when it has at least as many value bits and is
      signed if the other is. */
  lemma RangeIncludedByDigits(src: Kind, dst: Kind)
    ensures RangeIncluded(src, dst) <==> (IsSigned(src) ==> IsSigned(dst)) && Digits(src) <= Digits(dst)
  {
    BoundsArePowers(src);
    BoundsArePowers(dst);
    Pow2Monotone(Digits(dst), Digits(src));
    Pow2Monotone(Digits(src), Digits(dst));
  }

  /** Value bits in terms of `sizeof`. */
  lemma DigitsBySize(k: Kind)
    ensures Size(k) >= 1 && Bits(k) == CharBit * Size(k)
    ensures Digits(k) == if k == Bool then 1 else if IsSigned(k) then Bits(k) - 1 else Bits(k)
  {
  }

  /** A signed range holds `2^bits` values, half of them negative. */
  lemma SignedSpan(k: Kind)
    requires IsSigned(k)
    ensures Max(k) - Min(k) + 1 == Pow2(Bits(k)) && Min(k) + Pow2(Bits(k)) == -Min(k)
  {
    BoundsArePowers(k);
    assert Bits(k) == Digits(k) + 1;
  }

  /** A signed range is two's complement: one more negative value than positive ones. */
  lemma SignedBounds(k: Kind)
    requires IsSigned(k)
    ensures Min(k) < 0 < Max(k) && Min(k) == -Max(k) - 1
  {
  }

  /** Promotion is lossless and idempotent: the source's own sanity check
      `is_no_overflow_convertible<T, promoted_type_t<T>>` (checked/checked.h:343). */
  lemma PromoteIdempotent(k: Kind)
    ensures Promote(Promote(k)) == Promote(k)
    ensures forall v :: InRange(k, v) ==> InRange(Promote(k), v)
  {
  }

  /** The common kind does not depend on operand order. */
  lemma CommonSymmetric(t: Kind, u: Kind)
    ensures Common(t, u) == Common(u, t)
  {
    if t != u {
      ArithmeticFacts(Promote(t), Promote(u));
    }
  }

  /** The rules between promoted kinds, checked kind by kind. */
  lemma ArithmeticFacts(p: Kind, q: Kind)
    requires Promote(p) == p && Promote(q) == q
    ensures Arithmetic(p, q) == Arithmetic(q, p)
    ensures Promote(Arithmetic(p, q)) == Arithmetic(p, q)
    ensures Bits(Arithmetic(p, q)) == MaxNat(Bits(p), Bits(q))
    ensures IsUnsigned(Arithmetic(p, q)) <==>
              (IsUnsigned(p) && Bits(p) == Bits(Arithmetic(p, q))) ||
              (IsUnsigned(q) && Bits(q) == Bits(Arithmetic(p, q)))
    ensures IsSigned(Arithmetic(p, q)) ==> RangeIncluded(p, Arithmetic(p, q))
    ensures Max(p) <= Max(Arithmetic(p, q))
  {
    match p
    case Int =>
    case UInt =>
    case Long =>
    case ULong =>
    case LongLong =>
    case ULongLong =>
  }

  /** For two distinct kinds, the common kind is a promoted kind, as wide as the wider promoted
      operand, and unsigned exactly when an unsigned operand reaches that width:
      "the wider kind wins; at equal width the unsigned one wins". */
  lemma CommonWiderWins(t: Kind, u: Kind)
    requires t != u
    ensures Promote(Common(t, u)) == Common(t, u)
    ensures Bits(Common(t, u)) == MaxNat(Bits(Promote(t)), Bits(Promote(u)))
    ensures IsUnsigned(Common(t, u)) <==>
              (IsUnsigned(Promote(t)) && Bits(Promote(t)) == Bits(Common(t, u))) ||
              (IsUnsigned(Promote(u)) && Bits(Promote(u)) == Bits(Common(t, u)))
  {
    ArithmeticFacts(Promote(t), Promote(u));
  }

  /** Converting an operand into the common kind can only lose a negative value
      to an unsigned common kind: every other value of the operand fits. */
  lemma CommonHoldsOperand(t: Kind, u: Kind, v: int)
    requires InRange(t, v)
    ensures InRange(Common(t, u), v) <==> !(v < 0 && IsUnsigned(Common(t, u)))
  {
    if t != u {
      ArithmeticFacts(Promote(t), Promote(u));
    }
  }
}
