/** Mathematical integer operations the C++ operators are defined by:
    powers of two (shifts), division truncating toward zero (C++ `/` and `%`),
    and bitwise and/or/xor on non-negative integers (unsigned `&`, `|`, `^`). */
module IntMath {

  function Pow2(n: nat): (p: nat)
    ensures p >= 1
  {
    if n == 0 then 1 else 2 * Pow2(n - 1)
  }

  /** Powers of two add exponents. */
  lemma {:induction false} Pow2Add(a: nat, b: nat)
    ensures Pow2(a + b) == Pow2(a) * Pow2(b)
  {
    if a > 0 {
      Pow2Add(a - 1, b);
    }
  }

  function Abs(x: int): nat
  {
    if x < 0 then -x else x
  }

  /** Powers of two grow strictly with the exponent. */
  lemma {:induction false} Pow2Monotone(a: nat, b: nat)
    ensures a < b ==> Pow2(a) < Pow2(b)
  {
    if a < b - 1 {
      Pow2Monotone(a, b - 1);
    }
  }

  /** Reduction of `x` into the `m` values from `lo`: the result is in that window, differs
      from `x` by a multiple of `m`, and is `x` itself when `x` is already there. */
  lemma WrapInto(lo: int, m: int, x: int)
    requires m > 0
    ensures lo <= lo + (x - lo) % m < lo + m
    ensures (x - (lo + (x - lo) % m)) % m == 0
    ensures lo <= x < lo + m ==> lo + (x - lo) % m == x
  {
    assert x - (lo + (x - lo) % m) == m * ((x - lo) / m);
    MultipleMod(m, (x - lo) / m);
  }

  /** A multiple of `m` leaves no remainder. */
  lemma MultipleMod(m: int, q: int)
    requires m > 0
    ensures (m * q) % m == 0
  {
    var d := (m * q) / m;
    var r := (m * q) % m;
    assert r == m * (q - d);
    if q - d >= 1 {
      assert m * (q - d) == m * (q - d - 1) + m;
      MulNonNegative(m, q - d - 1);
    } else if q - d <= -1 {
      assert m * (d - q) == m * (d - q - 1) + m;
      MulNonNegative(m, d - q - 1);
    }
  }

  /** Floor-division bound: for a positive divisor, `c <= a / b` exactly when `b * c <= a`.
      This is how every division-based overflow guard in the source avoids the multiplication. */
  lemma DivBound(a: int, b: int, c: int)
    requires a >= 0 && b > 0
    ensures c <= a / b <==> b * c <= a
  {
    var q := a / b;
    assert a == b * q + a % b && 0 <= a % b < b;
    if c <= q {
      assert b * q - b * c == b * (q - c);
      MulNonNegative(b, q - c);
    } else {
      assert b * c - b * (q + 1) == b * (c - q - 1);
      MulNonNegative(b, c - q - 1);
    }
  }

  lemma MulNonNegative(x: int, y: int)
    requires x >= 0 && y >= 0
    ensures x * y >= 0
  {
  }

  /** Euclid's division on naturals, spelled out for the solver. */
  lemma DivideNat(a: nat, b: nat)
    requires b > 0
    ensures b * (a / b) <= a < b * (a / b) + b
    ensures a / b <= a
  {
    var q := a / b;
    assert a == b * q + a % b;
    MulNonNegative(b - 1, q);
  }

  /** Division by a positive number rounds toward negative infinity, which is what an
      arithmetic right shift does; the quotient lies between the dividend and zero. */
  lemma FloorDivRange(a: int, p: int)
    requires p >= 1
    ensures (a / p) * p <= a < (a / p + 1) * p
    ensures a >= 0 ==> 0 <= a / p <= a
    ensures a < 0 ==> a <= a / p < 0
  {
    var q := a / p;
    assert a == p * q + a % p;
    if a >= 0 {
      DivideNat(a, p);
    } else {
      assert q < 0 by {
        if q >= 0 { MulNonNegative(p, q); }
      }
      assert p * (q + 1) <= q + 1 by { MulNonNegative(p - 1, -(q + 1)); }
    }
  }

  /** C++ `a / b` (since C++11): the quotient truncated toward zero. */
  function TruncDiv(a: int, b: int): (q: int)
    requires b != 0
    ensures Abs(b) * Abs(q) <= Abs(a) < Abs(b) * Abs(q) + Abs(b)
    ensures q != 0 ==> (q > 0 <==> (a > 0) == (b > 0))
    ensures Abs(q) <= Abs(a)
  {
    var m := Abs(a) / Abs(b);
    DivideNat(Abs(a), Abs(b));
    if (a < 0) == (b < 0) then m else -m
  }

  /** C++ `a % b`: the remainder takes the sign of the dividend. */
  function TruncMod(a: int, b: int): (m: int)
    requires b != 0
    ensures TruncDiv(a, b) * b + m == a
    ensures Abs(m) < Abs(b)
    ensures m != 0 ==> (m > 0 <==> a > 0)
  {
    var q := Abs(a) / Abs(b);
    var s := Abs(a) % Abs(b);
    assert Abs(a) == Abs(b) * q + s;
    TruncProduct(a, b);
    if a < 0 then -s else s
  }

  /** The truncated quotient times the divisor is the magnitude's multiple, signed as `a`. */
  lemma TruncProduct(a: int, b: int)
    requires b != 0
    ensures TruncDiv(a, b) * b == if a < 0 then -(Abs(b) * (Abs(a) / Abs(b))) else Abs(b) * (Abs(a) / Abs(b))
  {
    var q := Abs(a) / Abs(b);
    if b < 0 {
      assert q * b == -(Abs(b) * q) && (-q) * b == Abs(b) * q;
    } else {
      assert q * b == Abs(b) * q && (-q) * b == -(Abs(b) * q);
    }
  }

  /** Bitwise and of two non-negative integers, bit by bit from the least significant. */
  function And(a: nat, b: nat): (r: nat)
    ensures r <= a && r <= b
  {
    if a == 0 || b == 0 then 0
    else 2 * And(a / 2, b / 2) + (if a % 2 == 1 && b % 2 == 1 then 1 else 0)
  }

  /** Bitwise inclusive or of two non-negative integers. */
  function Or(a: nat, b: nat): (r: nat)
    ensures r >= a && r >= b
  {
    if a == 0 then b
    else if b == 0 then a
    else 2 * Or(a / 2, b / 2) + (if a % 2 == 1 || b % 2 == 1 then 1 else 0)
  }

  /** Bitwise exclusive or of two non-negative integers. */
  function Xor(a: nat, b: nat): (r: nat)
  {
    if a == 0 then b
    else if b == 0 then a
    else 2 * Xor(a / 2, b / 2) + (if a % 2 != b % 2 then 1 else 0)
  }

  /** Or of two n-bit values is an n-bit value. */
  lemma {:induction false} OrBelow(a: nat, b: nat, n: nat)
    requires a < Pow2(n) && b < Pow2(n)
    ensures Or(a, b) < Pow2(n)
  {
    if a != 0 && b != 0 {
      OrBelow(a / 2, b / 2, n - 1);
    }
  }

  /** Xor of two n-bit values is an n-bit value. */
  lemma {:induction false} XorBelow(a: nat, b: nat, n: nat)
    requires a < Pow2(n) && b < Pow2(n)
    ensures Xor(a, b) < Pow2(n)
  {
    if a != 0 && b != 0 {
      XorBelow(a / 2, b / 2, n - 1);
    }
  }

  /** Xor of a value with itself clears every bit. */
  lemma {:induction false} XorSelf(a: nat)
    ensures Xor(a, a) == 0
  {
    if a != 0 {
      XorSelf(a / 2);
    }
  }

  /** Xor with a fixed mask undoes itself. */
  lemma {:induction false} XorInvolution(a: nat, b: nat)
    ensures Xor(Xor(a, b), b) == a
  {
    if a == 0 {
      XorSelf(b);
    } else if b != 0 {
      XorInvolution(a / 2, b / 2);
      var x := Xor(a / 2, b / 2);
      var bit := if a % 2 != b % 2 then 1 else 0;
      assert Xor(a, b) == 2 * x + bit;
      if 2 * x + bit == 0 {
        assert x == 0 && a % 2 == b % 2;
        assert a / 2 == b / 2;
      } else {
        assert (2 * x + bit) / 2 == x && (2 * x + bit) % 2 == bit;
        assert Xor(2 * x + bit, b) == 2 * Xor(x, b / 2) + (if bit != b % 2 then 1 else 0);
      }
    }
  }

  /** Xor with the all-ones n-bit mask flips every one of the n bits: it is `2^n - 1 - a`. */
  lemma {:induction false} XorAllOnes(a: nat, n: nat)
    requires a < Pow2(n)
    ensures Xor(a, Pow2(n) - 1) == Pow2(n) - 1 - a
  {
    if a != 0 && n > 0 {
      var m := Pow2(n) - 1;
      assert m / 2 == Pow2(n - 1) - 1 && m % 2 == 1;
      if m != 0 {
        XorAllOnes(a / 2, n - 1);
      }
    }
  }
}

/** The single failure channel of the library: every refused operation is `Overflow`. */
module Outcome {

  datatype Result<+T> = Ok(value: T) | Overflow {

    predicate IsFailure() {
      Overflow?
    }

    function PropagateFailure<U>(): Result<U>
      requires Overflow?
    {
      Overflow
    }

    function Extract(): T
      requires Ok?
    {
      value
    }
  }
}
