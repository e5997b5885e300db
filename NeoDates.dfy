/**
  `NeoDate`: a mutable holder of one `long`, a time in neomilliseconds.
  The constructor and `setTime` write the field; every other member only
  reads it, and ordering, equality and hashing depend on that value alone.
 */
module NeoDates {
  import opened JavaMath

  function Pow2(n: nat): (p: nat)
    ensures p > 0
  {
    if n == 0 then 1 else 2 * Pow2(n - 1)
  }

  /** Bitwise XOR of the low `n` bits of two non-negative numbers. */
  function Xor(a: nat, b: nat, n: nat): (r: nat)
    ensures r < Pow2(n)
  {
    if n == 0 then 0
    else (if a % 2 == b % 2 then 0 else 1) + 2 * Xor(a / 2, b / 2, n - 1)
  }

  /** XOR with 0 keeps every bit. */
  lemma {:induction false} XorZero(a: nat, n: nat)
    requires a < Pow2(n)
    ensures Xor(a, 0, n) == a
  {
    if n > 0 {
      XorZero(a / 2, n - 1);
    }
  }

  /** XOR with all ones flips every bit. */
  lemma {:induction false} XorOnes(a: nat, n: nat)
    requires a < Pow2(n)
    ensures Xor(a, Pow2(n) - 1, n) == Pow2(n) - 1 - a
  {
    if n > 0 {
      assert (Pow2(n) - 1) % 2 == 1 && (Pow2(n) - 1) / 2 == Pow2(n - 1) - 1;
      XorOnes(a / 2, n - 1);
    }
  }

  /** XOR is symmetric. */
  lemma {:induction false} XorSym(a: nat, b: nat, n: nat)
    ensures Xor(a, b, n) == Xor(b, a, n)
  {
    if n > 0 {
      XorSym(a / 2, b / 2, n - 1);
    }
  }

  const TWO_32: int := 0x1_0000_0000

  lemma {:induction false} Pow2Add(m: nat, n: nat)
    ensures Pow2(m + n) == Pow2(m) * Pow2(n)
  {
    if n > 0 {
      Pow2Add(m, n - 1);
    }
  }

  lemma Pow2Of32()
    ensures Pow2(32) == TWO_32
  {
    assert Pow2(8) == 0x100;
    Pow2Add(8, 8);
    Pow2Add(16, 16);
  }

  /** A Java `int` read back from its 32 two's-complement bits, given as an unsigned value. */
  function IntOfBits(u: nat): (r: int)
    requires u < TWO_32
    ensures IsInt(r)
  {
    if u < 0x8000_0000 then u else u - TWO_32
  }

  /**
    `(int) ht ^ (int) (ht >> 32)`: the low 32 bits of the `long` XOR its high
    32 bits, read as an `int`. Dafny's `%` is never negative, so
    `x % 2^32` is the unsigned value of the low 32 bits of the two's
    complement, and `(x / 2^32) % 2^32` that of the high 32 bits, which is
    what the cast keeps of Java's sign-extending `ht >> 32`.
   */
  function LongHash(x: int): (h: int)
    requires IsLong(x)
    ensures IsInt(h)
  {
    Pow2Of32();
    IntOfBits(Xor(x % TWO_32, (x / TWO_32) % TWO_32, 32))
  }

  /** A non-negative time that fits in an `int` is its own hash. */
  lemma LongHashOfSmallNonNegative(x: int)
    requires 0 <= x <= INT_MAX
    ensures LongHash(x) == x
  {
    Pow2Of32();
    assert x / TWO_32 == 0 && x % TWO_32 == x;
    XorZero(x, 32);
    assert Xor(x % TWO_32, (x / TWO_32) % TWO_32, 32) == x;
  }

  /** A negative time that fits in an `int` hashes to its bitwise complement, `-x - 1`. */
  lemma LongHashOfSmallNegative(x: int)
    requires INT_MIN <= x < 0
    ensures LongHash(x) == -x - 1
  {
    Pow2Of32();
    assert x % TWO_32 == x + TWO_32 && (x / TWO_32) % TWO_32 == TWO_32 - 1;
    XorOnes(x + TWO_32, 32);
  }

  /**
    The hash of a `long` given by its two 32-bit halves: `hi` is its high
    half as a signed `int`, `lo` its low half as an unsigned value.
   */
  lemma LongHashOfHalves(x: int, hi: int, lo: int)
    requires IsLong(x) && IsInt(hi) && 0 <= lo < TWO_32 && x == hi * TWO_32 + lo
    ensures Pow2(32) == TWO_32 && LongHash(x) == IntOfBits(Xor(lo, if hi < 0 then hi + TWO_32 else hi, 32))
  {
    Pow2Of32();
    FloorDivUnique(x, TWO_32, hi);
    if hi < 0 {
      FloorDivUnique(hi, TWO_32, -1);
    } else {
      FloorDivUnique(hi, TWO_32, 0);
    }
  }

  /** A `long` whose low half is zero hashes to its high half. */
  lemma LongHashOfHighHalf(k: int)
    requires 0 < k <= INT_MAX
    ensures LongHash(k * TWO_32) == k
  {
    Pow2Of32();
    LongHashOfHalves(k * TWO_32, k, 0);
    XorSym(0, k, 32);
    XorZero(k, 32);
  }

  /** `Long.MIN_VALUE` and `Long.MAX_VALUE` both hash to `Integer.MIN_VALUE`. */
  lemma LongHashOfExtremes()
    ensures LongHash(LONG_MIN) == INT_MIN
    ensures LongHash(LONG_MAX) == INT_MIN
  {
    Pow2Of32();
    var top, ones := 0x8000_0000, TWO_32 - 1;
    LongHashOfHalves(LONG_MIN, INT_MIN, 0);
    XorSym(0, top, 32);
    XorZero(top, 32);
    LongHashOfHalves(LONG_MAX, INT_MAX, ones);
    XorSym(ones, INT_MAX, 32);
    XorOnes(INT_MAX, 32);
  }

  class NeoDate {
    var milliseconds: int

    /** The field holds a Java `long`. */
    ghost predicate Valid()
      reads this
    {
      IsLong(milliseconds)
    }

    /** `NeoDate(long)`: a date holding the given time. */
    constructor (milliseconds: int)
      requires IsLong(milliseconds)
      ensures Valid() && GetTime() == milliseconds
    {
      this.milliseconds := milliseconds;
    }

    /** `clone()`: a new, distinct date with the same time. */
    method Clone() returns (c: NeoDate)
      requires Valid()
      ensures fresh(c) && c.Valid() && c.GetTime() == GetTime()
    {
      c := new NeoDate(milliseconds);
    }

    /** `getTime()`. */
    function GetTime(): (t: int)
      reads this
      requires Valid()
      ensures IsLong(t)
    {
      milliseconds
    }

    /** `setTime(long)`: replaces the time and nothing else. */
    method SetTime(time: int)
      requires IsLong(time)
      modifies this
      ensures Valid() && GetTime() == time
    {
      milliseconds := time;
    }

    /** `before(NeoDate)`: a strict order, so no date is before itself. */
    predicate Before(when: NeoDate)
      reads this, when
      ensures Before(when) ==> when != this
    {
      milliseconds < when.milliseconds
    }

    /** `after(NeoDate)`: a strict order, so no date is after itself. */
    predicate After(when: NeoDate)
      reads this, when
      ensures After(when) ==> when != this
    {
      milliseconds > when.milliseconds
    }

    /** `equals(Object)`: another `NeoDate` with the same time; equal dates hash alike. */
    predicate Equals(obj: object?)
      reads this, obj
      requires Valid()
      requires obj is NeoDate ==> (obj as NeoDate).Valid()
      ensures Equals(obj) ==> obj is NeoDate && HashCode() == (obj as NeoDate).HashCode()
    {
      if obj is NeoDate then (obj as NeoDate).milliseconds == milliseconds else false
    }

    /**
      `compareTo(NeoDate)`: -1, 0 or 1; -1 exactly when this date is before
      the other and 1 exactly when it is after.
     */
    function CompareTo(anotherDate: NeoDate): (r: int)
      reads this, anotherDate
      requires Valid() && anotherDate.Valid()
      ensures -1 <= r <= 1
      ensures r == -1 <==> Before(anotherDate)
      ensures r == 1 <==> After(anotherDate)
    {
      var thisTime, otherTime := GetTime(), anotherDate.GetTime();
      if thisTime < otherTime then -1 else if thisTime == otherTime then 0 else 1
    }

    /** `hashCode()`: the `long` hash of the time. */
    function HashCode(): (h: int)
      reads this
      requires Valid()
      ensures IsInt(h)
    {
      LongHash(GetTime())
    }
  }

  /** `before` and `after` are each other's mirror image and never both hold. */
  lemma BeforeAfterMirror(a: NeoDate, b: NeoDate)
    requires a.Valid() && b.Valid()
    ensures a.Before(b) <==> b.After(a)
    ensures !(a.Before(b) && a.After(b))
    ensures a.Before(b) || a.After(b) || a.Equals(b)
  {
  }

  /** `compareTo` is antisymmetric, and it is 0 exactly for equal dates. */
  lemma CompareToAntisymmetric(a: NeoDate, b: NeoDate)
    requires a.Valid() && b.Valid()
    ensures a.CompareTo(b) == -b.CompareTo(a)
    ensures a.CompareTo(b) == 0 <==> a.Equals(b)
  {
  }

  /**
    A clone and its original are independent: after setting a time on
    each, each holds its own.
   */
  method CloneIsIndependent(d: NeoDate, t: int, u: int) returns (c: NeoDate)
    requires d.Valid() && IsLong(t) && IsLong(u)
    modifies d
    ensures fresh(c) && c != d && c.Valid() && d.Valid()
    ensures c.GetTime() == t && d.GetTime() == u
  {
    c := d.Clone();
    c.SetTime(t);
    d.SetTime(u);
  }
}
