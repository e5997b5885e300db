/**
  The fragment of Java's integer semantics the NeoTime classes rely on:
  the ranges of `long` and `int`, the overflow-checked `Math.addExact`,
  `Math.subtractExact` and `Math.multiplyExact`, `Math.floorDiv` and
  `Math.floorMod` with a positive divisor, and the built-in `/`, which
  truncates toward zero.

  Integers are Dafny's unbounded `int`; a Java `long` or `int` is an `int`
  for which `IsLong` or `IsInt` holds. A thrown `ArithmeticException` is the
  failure value of `Exact`.
 */
module JavaMath {

  const LONG_MIN: int := -0x8000_0000_0000_0000
  const LONG_MAX: int := 0x7FFF_FFFF_FFFF_FFFF
  const INT_MIN: int := -0x8000_0000
  const INT_MAX: int := 0x7FFF_FFFF

  predicate IsLong(x: int) { LONG_MIN <= x <= LONG_MAX }
  predicate IsInt(x: int) { INT_MIN <= x <= INT_MAX }

  function Abs(x: int): nat { if x < 0 then -x else x }

  /** The result of a Java computation that may throw `ArithmeticException`. */
  datatype Exact<+T> = Ok(value: T) | ArithmeticException {
    predicate IsFailure() { ArithmeticException? }

    function PropagateFailure<U>(): Exact<U>
      requires ArithmeticException?
    {
      ArithmeticException
    }

    function Extract(): T
      requires Ok?
    {
      value
    }
  }

  /** `Math.addExact(long, long)`: throws exactly when the sum leaves the `long` range. */
  function AddExact(a: int, b: int): (r: Exact<int>)
    requires IsLong(a) && IsLong(b)
    ensures r.Ok? <==> IsLong(a + b)
    ensures r.Ok? ==> r.value == a + b
  {
    if IsLong(a + b) then Ok(a + b) else ArithmeticException
  }

  /** `Math.addExact(int, int)`: throws exactly when the sum leaves the `int` range. */
  function AddExactInt(a: int, b: int): (r: Exact<int>)
    requires IsInt(a) && IsInt(b)
    ensures r.Ok? <==> IsInt(a + b)
    ensures r.Ok? ==> r.value == a + b
  {
    if IsInt(a + b) then Ok(a + b) else ArithmeticException
  }

  /** `Math.subtractExact(long, long)`. */
  function SubtractExact(a: int, b: int): (r: Exact<int>)
    requires IsLong(a) && IsLong(b)
    ensures r.Ok? <==> IsLong(a - b)
    ensures r.Ok? ==> r.value == a - b
  {
    if IsLong(a - b) then Ok(a - b) else ArithmeticException
  }

  /** `Math.multiplyExact(long, long)`. */
  function MultiplyExact(a: int, b: int): (r: Exact<int>)
    requires IsLong(a) && IsLong(b)
    ensures r.Ok? <==> IsLong(a * b)
    ensures r.Ok? ==> r.value == a * b
  {
    if IsLong(a * b) then Ok(a * b) else ArithmeticException
  }

  /**
    `Math.floorDiv(a, b)` for a positive divisor: the largest `q` with
    `q * b <= a`. Dafny's `/` is Euclidean, which agrees with flooring
    whenever the divisor is positive.
   */
  function FloorDiv(a: int, b: int): (q: int)
    requires b > 0
    ensures q * b <= a < q * b + b
  {
    a / b
  }

  /** `Math.floorMod(a, b)` for a positive divisor: the remainder that goes with `FloorDiv`. */
  function FloorMod(a: int, b: int): (m: int)
    requires b > 0
    ensures 0 <= m < b
    ensures FloorDiv(a, b) * b + m == a
  {
    a % b
  }

  /**
    Java's integer `/`: the quotient truncated toward zero, so its magnitude
    is the floor of the magnitudes' quotient and its sign is the product of
    the operands' signs (`-7 / 2 == -3`, where `Math.floorDiv` gives `-4`).
   */
  function TruncDiv(a: int, b: int): (q: int)
    requires b != 0
    ensures Abs(q) * Abs(b) <= Abs(a) < Abs(q) * Abs(b) + Abs(b)
    ensures q > 0 ==> (a > 0) == (b > 0)
    ensures q < 0 ==> (a > 0) != (b > 0)
  {
    var m := Abs(a) / Abs(b);
    var q := if (a >= 0) == (b > 0) then m else -m;
    assert Abs(q) == m;
    q
  }

  /** `FloorDiv` is the only quotient that brackets the dividend. */
  lemma FloorDivUnique(a: int, b: int, q: int)
    requires b > 0 && q * b <= a < q * b + b
    ensures FloorDiv(a, b) == q
  {
    var p := FloorDiv(a, b);
    if p > q {
      MulMonotone(q + 1, p, b);
      assert false;
    } else if p < q {
      MulMonotone(p + 1, q, b);
      assert false;
    }
  }

  /** Adding whole multiples of the divisor moves the floor quotient by that many and leaves the remainder. */
  lemma FloorDivShift(k: int, x: int, b: int)
    requires b > 0
    ensures FloorDiv(k * b + x, b) == k + FloorDiv(x, b)
    ensures FloorMod(k * b + x, b) == FloorMod(x, b)
  {
    var q := FloorDiv(x, b);
    assert (k + q) * b == k * b + q * b;
    FloorDivUnique(k * b + x, b, k + q);
  }

  /** Truncating division by a positive divisor is monotone. */
  lemma TruncDivMonotone(a: int, c: int, b: int)
    requires a <= c && b > 0
    ensures TruncDiv(a, b) <= TruncDiv(c, b)
  {
    if 0 <= a {
      DivMonotone(a, c, b);
    } else if c < 0 {
      DivMonotone(-c, -a, b);
    }
  }

  /** Truncating division commutes with negating the dividend. */
  lemma TruncDivNegate(a: int, b: int)
    requires b > 0
    ensures TruncDiv(-a, b) == -TruncDiv(a, b)
  {
  }

  lemma DivMonotone(a: nat, c: nat, b: int)
    requires a <= c && b > 0
    ensures a / b <= c / b
  {
    var qa, qc := a / b, c / b;
    assert qa * b <= a && c < qc * b + b;
    if qc < qa {
      MulMonotone(qc + 1, qa, b);
      assert false;
    }
  }

  lemma MulMonotone(x: int, y: int, b: nat)
    requires x <= y
    ensures x * b <= y * b
  {
  }
}
