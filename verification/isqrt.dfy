/**
 * Integer square root (`isqrt`, rasterizer_ilum.c): Newton's iteration on
 * `int32_t`, returning the floor of the square root and 0 for n <= 0.
 */
module IntSqrt {
  import opened CInt

  /**
   * The specification: the floor of the square root of `n`, 0 for n <= 0,
   * built digit by digit from the root of n / 4 (independently of Newton's
   * iteration).
   */
  function FloorSqrt(n: int): (r: nat)
    ensures n <= 0 ==> r == 0
    ensures n >= 0 ==> r * r <= n < (r + 1) * (r + 1)
    decreases n
  {
    if n <= 0 then 0
    else
      var h := FloorSqrt(n / 4);
      var s := 2 * h;
      DoubledRoot(n, h, s);
      if (s + 1) * (s + 1) <= n then s + 1 else s
  }

  /** If h is the root of n / 4 then n lies in [s^2, (s + 2)^2) for s = 2h. */
  lemma DoubledRoot(n: int, h: nat, s: nat)
    requires n >= 1 && h * h <= n / 4 < (h + 1) * (h + 1) && s == 2 * h
    ensures s * s <= n < (s + 2) * (s + 2)
  {
    var q := n / 4;
    assert n == 4 * q + n % 4;
    assert s * s == 4 * (h * h);
    assert (s + 2) * (s + 2) == 4 * ((h + 1) * (h + 1));
  }

  /** Squaring is monotonic on naturals. */
  lemma SquareMonotonic(a: nat, b: nat)
    requires a <= b
    ensures a * a <= b * b
  {
    assert a * a <= a * b <= b * b;
  }

  /** The bracketing r*r <= n < (r+1)*(r+1) determines r. */
  lemma {:induction false} FloorSqrtUnique(n: int, r: nat)
    requires r * r <= n < (r + 1) * (r + 1)
    ensures FloorSqrt(n) == r
  {
    var s := FloorSqrt(n);
    if s < r {
      SquareMonotonic(s + 1, r);
    } else if r < s {
      SquareMonotonic(r + 1, s);
    }
  }

  /** isqrt(k*k) == k. */
  lemma FloorSqrtOfSquare(k: nat)
    ensures FloorSqrt(k * k) == k
  {
    FloorSqrtUnique(k * k, k);
  }

  /** A value whose square is at most n is at most the root of n. */
  lemma BelowFloorSqrt(c: int, n: int)
    requires c * c <= n
    ensures Abs(c) <= FloorSqrt(n)
  {
    BelowRoot(c, n, FloorSqrt(n));
  }

  lemma BelowRoot(c: int, n: int, r: nat)
    requires c * c <= n < (r + 1) * (r + 1)
    ensures Abs(c) <= r
  {
    assert Abs(c) * Abs(c) == c * c;
    if r < Abs(c) {
      SquareMonotonic(r + 1, Abs(c));
    }
  }

  /**
   * One Newton step never undershoots the root: for any x >= 1,
   * (x + n / x) / 2 >= FloorSqrt(n).
   */
  lemma NewtonStepAboveRoot(n: int, x: int)
    requires n >= 1 && x >= 1
    ensures (x + n / x) / 2 >= FloorSqrt(n)
  {
    NewtonStepAbove(n, x, FloorSqrt(n));
  }

  /** The same for any r with r * r <= n. */
  lemma NewtonStepAbove(n: int, x: int, r: nat)
    requires n >= 1 && x >= 1 && r * r <= n
    ensures (x + n / x) / 2 >= r
  {
    var q := n / x;
    assert n < x * (q + 1) by {
      assert n == x * q + n % x;
      assert x * (q + 1) == x * q + x;
    }
    ArithmeticGeometric(n, x, q, r);
  }

  /** If n < x * (q + 1) and r * r <= n then x + q >= 2r. */
  lemma ArithmeticGeometric(n: int, x: int, q: int, r: nat)
    requires x >= 1 && n < x * (q + 1) && r * r <= n
    ensures x + q >= 2 * r
  {
    if x + q < 2 * r {
      // n < x * (q + 1) <= x * (2r - x) = r*r - (r - x)^2 <= r*r
      var k := 2 * r - x;
      MultiplyMonotonic(x, q + 1, k);
      assert x * k == r * r - (r - x) * (r - x);
      SquareFacts(r - x);
      assert false;
    }
  }

  /** When a Newton step fails to decrease x, x is at most the root. */
  lemma NewtonStopBelowRoot(n: int, x: int)
    requires n >= 1 && x >= 1
    requires (x + n / x) / 2 >= x
    ensures x <= FloorSqrt(n)
  {
    var q := n / x;
    assert q >= x;
    MultiplyMonotonic(x, x, q);
    assert x * q <= n;
    BelowRoot(x, n, FloorSqrt(n));
  }

  /** The root of a positive n is at most n. */
  lemma BelowSelf(n: int)
    requires n >= 1
    ensures FloorSqrt(n) <= n
  {
    RootBelowSelf(n, FloorSqrt(n));
  }

  lemma RootBelowSelf(n: int, r: nat)
    requires n >= 1 && r * r <= n
    ensures r <= n
  {
    if r >= 1 {
      MultiplyMonotonic(r, 1, r);
    }
  }

  /** Below n + 1 whenever 1 <= x <= n, so `x + n / x` fits in `int32_t`. */
  lemma NewtonSumBound(n: int, x: int)
    requires 1 <= x <= n
    ensures x + n / x <= n + 1
  {
    var q := n / x;
    assert n == x * q + n % x;
    assert q >= 1;
    MultiplyMonotonic(x - 1, 0, q - 1);
    assert (x - 1) * (q - 1) == x * q - x - q + 1;
  }

  /**
   * isqrt: 0 for n <= 0, otherwise the floor of the square root, computed by
   * Newton's iteration started at x = n.  The loop stops as soon as the next
   * estimate y is not smaller than x; x strictly decreases and stays >= 1,
   * so `n / x` never divides by zero.  `>> 1` on the non-negative sum is a
   * division by 2.
   */
  method Isqrt(n: int) returns (r: int)
    requires n < INT32_MAX
    ensures r == FloorSqrt(n)
  {
    if n <= 0 {
      return 0;
    }
    ghost var root := FloorSqrt(n);
    var x := n;
    BelowSelf(n);
    assert n / x == 1;
    NewtonStepAboveRoot(n, x);
    var y := (x + 1) / 2;
    while y < x
      invariant 1 <= x <= n
      invariant root <= x && root <= y
      invariant y == (x + n / x) / 2
      decreases x
    {
      x := y;
      NewtonSumBound(n, x);
      assert x + n / x <= INT32_MAX;
      NewtonStepAboveRoot(n, x);
      y := (x + n / x) / 2;
    }
    NewtonStopBelowRoot(n, x);
    r := x;
  }
}
