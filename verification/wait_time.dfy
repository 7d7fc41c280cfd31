/**
  The backoff schedule of `Retry`: the `Backoff` enum and `GetWaitTime`.

  `GetWaitTime` is modelled twice. `GetWaitTime` is the code as written, whose
  exponent is C#'s `^` operator, a bitwise exclusive or. `IntendedWaitTime` is
  the schedule the comments beside each case describe, with true powers. The
  lemmas at the end show that, for a non-zero initial delay, the two never
  agree for Quadratic and Cubic.
*/
module WaitTime {
  import opened Wrappers

  /** The `Backoff` enum. A C# enum variable may hold any value of its
      underlying `int`; `Linear`, `Quadratic` and `Cubic` are 0, 1 and 2, and
      `Unnamed(value)` stands for every other value, so a well-formed
      `Unnamed` never carries 0, 1 or 2 (see `WellFormed`). */
  datatype Backoff = Linear | Quadratic | Cubic | Unnamed(value: int)

  predicate WellFormed(b: Backoff)
  {
    b.Unnamed? ==> !(0 <= b.value <= 2)
  }

  /** The underlying `int` of an enum value. */
  function Ordinal(b: Backoff): (n: int)
    ensures b.Unnamed? ==> n == b.value
    ensures !b.Unnamed? ==> 0 <= n <= 2
  {
    match b
    case Linear => 0
    case Quadratic => 1
    case Cubic => 2
    case Unnamed(n) => n
  }

  /** The enum value with underlying `int` `n`, as the cast `(Backoff)n`
      gives it: the named member for 0, 1 and 2, an unnamed value otherwise. */
  function FromOrdinal(n: int): (b: Backoff)
    ensures WellFormed(b)
    ensures Ordinal(b) == n
    ensures b.Unnamed? <==> !(0 <= n <= 2)
  {
    if n == 0 then Linear
    else if n == 1 then Quadratic
    else if n == 2 then Cubic
    else Unnamed(n)
  }

  /** Every well-formed enum value is the cast of its own ordinal, so the
      two readings of an enum value (member or integer) agree. */
  lemma OrdinalRoundTrip(b: Backoff)
    requires WellFormed(b)
    ensures FromOrdinal(Ordinal(b)) == b
  {
  }

  function Abs(x: int): nat
  {
    if x < 0 then -x else x
  }

  /** Bitwise exclusive or, C#'s `^` on integers, in two's complement of
      unbounded width (division by 2 rounds down, so `-1` is all ones): bit
      by bit, equal bits give 0 and different bits give 1.
      `XorAgreesWithBitwiseOnSchedule` checks it against the 32-bit operator
      on the operands the schedule uses for the first attempts. */
  function Xor(a: int, b: int): int
    decreases Abs(a) + Abs(b)
  {
    if (a == 0 || a == -1) && (b == 0 || b == -1) then
      (if a == b then 0 else -1)
    else
      2 * Xor(a / 2, b / 2) + (if a % 2 == b % 2 then 0 else 1)
  }

  function Pow(base: nat, e: nat): (r: nat)
    ensures base >= 1 ==> r >= 1
  {
    if e == 0 then 1 else base * Pow(base, e - 1)
  }

  /** `GetWaitTime` as written: an unnamed backoff value is an error
      (`NotImplementedException`), and the Quadratic and Cubic factors are
      `2 ^ (attempt - 1)` and `3 ^ (attempt - 1)` with `^` the exclusive or. */
  function GetWaitTime(attempt: int, initialDelay: int, kind: Backoff): (r: Option<int>)
    ensures r.None? <==> kind.Unnamed?
  {
    match kind
    case Linear => Some(initialDelay * attempt)
    case Quadratic => Some(initialDelay * Xor(2, attempt - 1))
    case Cubic => Some(initialDelay * Xor(3, attempt - 1))
    case Unnamed(_) => None
  }

  /** The schedule the comments promise: `initialDelay` times `attempt`,
      `2` to the power `attempt - 1`, or `3` to the power `attempt - 1`. */
  function IntendedWaitTime(attempt: int, initialDelay: int, kind: Backoff): (r: Option<int>)
    requires attempt >= 1
    ensures r.None? <==> kind.Unnamed?
  {
    match kind
    case Linear => Some(initialDelay * attempt)
    case Quadratic => Some(initialDelay * Pow(2, attempt - 1))
    case Cubic => Some(initialDelay * Pow(3, attempt - 1))
    case Unnamed(_) => None
  }

  // ---------------------------------------------------------------------
  // The intended schedule

  /** The intended schedule starts at `initialDelay` and then grows by
      `initialDelay` (Linear), doubles (Quadratic) or triples (Cubic) from one
      attempt to the next. Together these determine the schedule. */
  lemma IntendedRecurrence(attempt: int, initialDelay: int, kind: Backoff)
    requires attempt >= 1
    requires !kind.Unnamed?
    ensures IntendedWaitTime(1, initialDelay, kind) == Some(initialDelay)
    ensures kind == Linear ==>
      IntendedWaitTime(attempt + 1, initialDelay, kind).value
        == IntendedWaitTime(attempt, initialDelay, kind).value + initialDelay
    ensures kind == Quadratic ==>
      IntendedWaitTime(attempt + 1, initialDelay, kind).value
        == 2 * IntendedWaitTime(attempt, initialDelay, kind).value
    ensures kind == Cubic ==>
      IntendedWaitTime(attempt + 1, initialDelay, kind).value
        == 3 * IntendedWaitTime(attempt, initialDelay, kind).value
  {
    var p2 := Pow(2, attempt - 1);
    var p3 := Pow(3, attempt - 1);
    assert Pow(2, attempt) == 2 * p2;
    assert Pow(3, attempt) == 3 * p3;
    assert initialDelay * (2 * p2) == 2 * (initialDelay * p2);
    assert initialDelay * (3 * p3) == 3 * (initialDelay * p3);
  }

  /** The example sequences written beside each case, for `initialDelay = 50`. */
  lemma IntendedMatchesDocumentedExamples()
    ensures IntendedWaitTime(1, 50, Linear) == Some(50)
    ensures IntendedWaitTime(2, 50, Linear) == Some(100)
    ensures IntendedWaitTime(3, 50, Linear) == Some(150)
    ensures IntendedWaitTime(4, 50, Linear) == Some(200)
    ensures IntendedWaitTime(1, 50, Quadratic) == Some(50)
    ensures IntendedWaitTime(2, 50, Quadratic) == Some(100)
    ensures IntendedWaitTime(3, 50, Quadratic) == Some(200)
    ensures IntendedWaitTime(4, 50, Quadratic) == Some(400)
    ensures IntendedWaitTime(1, 50, Cubic) == Some(50)
    ensures IntendedWaitTime(2, 50, Cubic) == Some(150)
    ensures IntendedWaitTime(3, 50, Cubic) == Some(450)
    ensures IntendedWaitTime(4, 50, Cubic) == Some(1350)
  {
  }

  /** With a non-negative initial delay the intended wait never shrinks
      from one attempt to a later one, whatever the backoff. */
  lemma {:induction false} IntendedNonDecreasing(a: int, b: int, initialDelay: int, kind: Backoff)
    requires 1 <= a <= b
    requires initialDelay >= 0
    requires !kind.Unnamed?
    ensures IntendedWaitTime(a, initialDelay, kind).value <= IntendedWaitTime(b, initialDelay, kind).value
    decreases b - a
  {
    if a < b {
      IntendedNonDecreasing(a, b - 1, initialDelay, kind);
      IntendedRecurrence(b - 1, initialDelay, kind);
      var w := IntendedWaitTime(b - 1, initialDelay, kind).value;
      assert w >= 0 by {
        match kind
        case Linear =>
        case Quadratic =>
        case Cubic =>
      }
    }
  }

  // ---------------------------------------------------------------------
  // The schedule as written

  /** Linear backoff is the same in both readings and, for a non-negative
      initial delay, never shrinks as the attempt number grows. */
  lemma LinearNonDecreasing(a: int, b: int, initialDelay: int)
    requires a <= b
    requires initialDelay >= 0
    ensures GetWaitTime(a, initialDelay, Linear).value <= GetWaitTime(b, initialDelay, Linear).value
    ensures a >= 1 ==> GetWaitTime(a, initialDelay, Linear) == IntendedWaitTime(a, initialDelay, Linear)
  {
    assert initialDelay * b - initialDelay * a == initialDelay * (b - a);
  }

  lemma {:induction false} XorOfNonNegativesIsBounded(a: int, b: int)
    requires a >= 0 && b >= 0
    ensures 0 <= Xor(a, b) <= a + b
    decreases a + b
  {
    if !((a == 0 || a == -1) && (b == 0 || b == -1)) {
      XorOfNonNegativesIsBounded(a / 2, b / 2);
    }
  }

  /** On the operands of the first four Quadratic and Cubic waits, `Xor`
      gives what the 32-bit operator `^` gives. */
  lemma XorAgreesWithBitwiseOnSchedule()
    ensures forall k :: 0 <= k < 4 ==> Xor(2, k) == ((2 as bv32) ^ (k as bv32)) as int
    ensures forall k :: 0 <= k < 4 ==> Xor(3, k) == ((3 as bv32) ^ (k as bv32)) as int
  {
    assert (Xor(2, 0), Xor(2, 1), Xor(2, 2), Xor(2, 3)) == (2, 3, 0, 1);
    assert (Xor(3, 0), Xor(3, 1), Xor(3, 2), Xor(3, 3)) == (3, 2, 1, 0);
  }

  /** What the code as written waits for `initialDelay = 50`: Quadratic gives
      100, 150, 0, 50 and Cubic gives 150, 100, 50, 0 for attempts 1 to 4. */
  lemma AsWrittenExamples()
    ensures GetWaitTime(1, 50, Quadratic) == Some(100)
    ensures GetWaitTime(2, 50, Quadratic) == Some(150)
    ensures GetWaitTime(3, 50, Quadratic) == Some(0)
    ensures GetWaitTime(4, 50, Quadratic) == Some(50)
    ensures GetWaitTime(1, 50, Cubic) == Some(150)
    ensures GetWaitTime(2, 50, Cubic) == Some(100)
    ensures GetWaitTime(3, 50, Cubic) == Some(50)
    ensures GetWaitTime(4, 50, Cubic) == Some(0)
  {
  }

  /** For a non-negative initial delay, the waits as written stay between 0
      and `initialDelay * (attempt + 2)`: they grow at most linearly. */
  lemma AsWrittenGrowsAtMostLinearly(attempt: int, initialDelay: int, kind: Backoff)
    requires attempt >= 1
    requires initialDelay >= 0
    requires !kind.Unnamed?
    ensures 0 <= GetWaitTime(attempt, initialDelay, kind).value <= initialDelay * (attempt + 2)
  {
    var x := Factor(attempt, kind);
    if kind == Quadratic {
      XorOfNonNegativesIsBounded(2, attempt - 1);
    } else if kind == Cubic {
      XorOfNonNegativesIsBounded(3, attempt - 1);
    }
    MulMonotone(initialDelay, 0, x);
    MulMonotone(initialDelay, x, attempt + 2);
  }

  /** The multiplier of `initialDelay` in `GetWaitTime` as written. */
  function Factor(attempt: int, kind: Backoff): (x: int)
    requires !kind.Unnamed?
    ensures GetWaitTime(attempt, 1, kind).value == x
    ensures forall d :: GetWaitTime(attempt, d, kind).value == d * x
  {
    match kind
    case Linear => attempt
    case Quadratic => Xor(2, attempt - 1)
    case Cubic => Xor(3, attempt - 1)
  }

  lemma MulMonotone(d: int, x: int, y: int)
    requires d >= 0 && x <= y
    ensures d * x <= d * y
  {
    assert d * y - d * x == d * (y - x);
  }

  lemma MulCancel(d: int, x: int, y: int)
    requires d != 0 && x != y
    ensures d * x != d * y
  {
    assert d * x - d * y == d * (x - y);
  }

  lemma {:induction false} PowOutgrowsLinear(base: nat, e: nat)
    requires base >= 2 && e >= 3
    ensures Pow(base, e) > e + base
    decreases e
  {
    if e == 3 {
      assert Pow(base, 1) == base;
      assert Pow(base, 2) == base * base;
      assert Pow(base, 3) == base * (base * base);
      MulMonotone(base, 2, base);
      MulMonotone(base, 2 * base, base * base);
    } else {
      PowOutgrowsLinear(base, e - 1);
      var q := Pow(base, e - 1);
      assert Pow(base, e) == base * q;
      MulMonotone(q, 2, base);
      assert base * q >= 2 * q;
    }
  }

  /** For any attempt and any non-zero initial delay, Quadratic and Cubic
      backoff as written wait for a different time than the comments promise. */
  lemma AsWrittenNeverMatchesIntended(attempt: int, initialDelay: int, kind: Backoff)
    requires attempt >= 1
    requires initialDelay != 0
    requires kind == Quadratic || kind == Cubic
    ensures GetWaitTime(attempt, initialDelay, kind) != IntendedWaitTime(attempt, initialDelay, kind)
  {
    var n := attempt - 1;
    var base: nat := if kind == Quadratic then 2 else 3;
    var x := Xor(base, n);
    var p := Pow(base, n);
    if n < 3 {
      assert x != p by {
        if base == 2 {
          assert (Xor(2, 0), Xor(2, 1), Xor(2, 2)) == (2, 3, 0);
          assert (Pow(2, 0), Pow(2, 1), Pow(2, 2)) == (1, 2, 4);
        } else {
          assert (Xor(3, 0), Xor(3, 1), Xor(3, 2)) == (3, 2, 1);
          assert (Pow(3, 0), Pow(3, 1), Pow(3, 2)) == (1, 3, 9);
        }
      }
    } else {
      XorOfNonNegativesIsBounded(base, n);
      PowOutgrowsLinear(base, n);
    }
    MulCancel(initialDelay, x, p);
    assert GetWaitTime(attempt, initialDelay, kind).value == initialDelay * x;
  }
}
