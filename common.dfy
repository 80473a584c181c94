/** Shared values of the attention engine: optional values, integer and real
    image points, Python's truncating `int(...)` conversion, and the exact
    integer arithmetic that stands in for `sqrt` when a point is projected
    along a unit vector. */
module Common {

  datatype Option<T> = None | Some(value: T)

  /** A pixel position: x is the column, y the row (image coordinates, y grows downward). */
  datatype Point = Point(x: int, y: int)

  /** A position with real coordinates, as produced by averaging joints. */
  datatype RPoint = RPoint(x: real, y: real)

  /** Python's `int(r)` on a float: truncation toward zero. */
  function TruncReal(r: real): (t: int)
    ensures r >= 0.0 ==> t as real <= r < t as real + 1.0
    ensures r < 0.0 ==> t as real - 1.0 < r <= t as real
  {
    if r >= 0.0 then r.Floor else -((-r).Floor)
  }

  function TruncPoint(p: RPoint): Point
  {
    Point(TruncReal(p.x), TruncReal(p.y))
  }

  /** Integer square root: the largest r with r*r <= n. */
  function ISqrt(n: nat): (r: nat)
    ensures r * r <= n < (r + 1) * (r + 1)
    decreases n
  {
    if n < 4 then (if n == 0 then 0 else 1)
    else
      var h := ISqrt(n / 4);
      QuarterRootStep(n, h);
      if (2 * h + 1) * (2 * h + 1) <= n then 2 * h + 1 else 2 * h
  }

  /** From the root h of n / 4, both candidates 2h and 2h+1 bracket n. */
  lemma QuarterRootStep(n: nat, h: nat)
    requires h * h <= n / 4 < (h + 1) * (h + 1)
    ensures (2 * h) * (2 * h) <= n < (2 * h + 2) * (2 * h + 2)
  {
    var q := n / 4;
    assert 4 * q <= n < 4 * q + 4;
    assert (2 * h) * (2 * h) == 4 * (h * h);
    assert (h + 1) * (h + 1) >= q + 1;
    assert (2 * h + 2) * (2 * h + 2) == 4 * ((h + 1) * (h + 1));
  }

  function Square(c: int): (r: nat)
    ensures r == c * c
  {
    if c >= 0 then MulLe(0, c, c); c * c
    else MulLe(0, -c, -c); (-c) * (-c)
  }

  lemma SquarePositive(c: int)
    requires c != 0
    ensures Square(c) > 0
  {
    if c > 0 { MulLe(1, c, c); } else { MulLe(1, -c, -c); }
  }

  /** The integer square root is the only r with r*r <= n < (r+1)*(r+1). */
  lemma ISqrtUnique(n: nat, r: nat)
    requires r * r <= n < (r + 1) * (r + 1)
    ensures ISqrt(n) == r
  {
    var k := ISqrt(n);
    SquareStep(k, r);
    SquareStep(r, k);
  }

  lemma SquareStep(a: nat, b: nat)
    ensures a < b ==> (a + 1) * (a + 1) <= b * b
  {
    if a < b {
      MulLe(a + 1, b, a + 1);
      MulLe(a + 1, b, b);
    }
  }

  /** Euclidean quotient of a non-negative numerator, with its defining bounds. */
  function Quot(a: nat, n: int): (q: nat)
    requires n > 0
    ensures q * n <= a < q * n + n
  {
    DivBounds(a, n);
    a / n
  }

  lemma MulLe(x: int, y: int, n: nat)
    requires x <= y
    ensures x * n <= y * n
  {
    assert y * n - x * n == (y - x) * n;
  }

  lemma DivBounds(a: int, n: int)
    requires n > 0
    ensures (a / n) * n <= a < (a / n) * n + n
    ensures a >= 0 ==> a / n >= 0
  {
    assert a == (a / n) * n + a % n;
  }

  /** f is floor(c / sqrt(n)), stated in the integers: f*sqrt(n) <= c < (f+1)*sqrt(n),
      squared on the side where both members have one sign. */
  predicate RootBracket(f: int, c: int, n: int)
  {
    && (c >= 0 ==> 0 <= f && f * f * n <= c * c < (f + 1) * (f + 1) * n)
    && (c < 0 ==> f < 0 && c * c <= f * f * n && (f + 1) * (f + 1) * n < c * c)
  }

  /** floor(c / sqrt(n)), computed without leaving the integers. */
  function FloorRoot(c: int, n: int): (f: int)
    requires n > 0
    ensures RootBracket(f, c, n)
  {
    var c2 := Square(c);
    var q := Quot(c2, n);
    var k := ISqrt(q);
    ScaleRootBracket(c2, n, k, q);
    if c >= 0 then k
    else
      NegativeRootBracket(c, n, k);
      if k * k * n == c2 then -(k as int) else -(k as int) - 1
  }

  /** For c < 0 the floor is minus the ceiling of |c| / sqrt(n): -k when the root
      k of c*c / n is exact, -k-1 otherwise. */
  lemma NegativeRootBracket(c: int, n: int, k: nat)
    requires c < 0 && n > 0 && k * k * n <= c * c < (k + 1) * (k + 1) * n
    ensures RootBracket(if k * k * n == c * c then -(k as int) else -(k as int) - 1, c, n)
  {
    assert c * c > 0 by {
      MulLe(1, -c, -c);
    }
    var f := if k * k * n == c * c then -(k as int) else -(k as int) - 1;
    if k * k * n == c * c {
      ExactRootBelow(c * c, n, k);
      assert f * f == k * k && (f + 1) * (f + 1) == (k - 1) * (k - 1);
    } else {
      assert f * f == (k + 1) * (k + 1) && (f + 1) * (f + 1) == k * k;
    }
  }

  /** Scaling the root bracket of q = c2 / n by n brackets c2. */
  lemma ScaleRootBracket(c2: nat, n: int, k: nat, q: nat)
    requires n > 0
    requires k * k <= q < (k + 1) * (k + 1)
    requires q * n <= c2 < q * n + n
    ensures k * k * n <= c2 < (k + 1) * (k + 1) * n
  {
    MulLe(k * k, q, n);
    MulLe(q + 1, (k + 1) * (k + 1), n);
    assert (q + 1) * n == q * n + n;
  }

  /** An exact positive root k has k >= 1, and k - 1 falls strictly short. */
  lemma ExactRootBelow(c2: nat, n: int, k: nat)
    requires n > 0 && k * k * n == c2
    ensures c2 > 0 ==> k >= 1 && (k - 1) * (k - 1) * n < c2
  {
    if k >= 1 {
      assert k * k - (k - 1) * (k - 1) == 2 * k - 1;
      MulLe((k - 1) * (k - 1) + 1, k * k, n);
      assert ((k - 1) * (k - 1) + 1) * n == (k - 1) * (k - 1) * n + n;
    }
  }

  /** Python's `int(m + c / sqrt(n))` for an integer m, computed exactly. */
  function TruncShift(m: int, c: int, n: int): int
    requires n > 0
  {
    var f := FloorRoot(c, n);
    if m + f >= 0 then m + f else m - FloorRoot(-c, n)
  }

  /** Squaring is monotone on the non-negative reals. */
  lemma SquareMono(a: real, b: real)
    requires a >= 0.0 && b >= 0.0
    ensures a >= b ==> a * a >= b * b
    ensures a > b ==> a * a > b * b
  {
    if a >= b {
      assert a * a - a * b == a * (a - b) >= 0.0;
      assert a * b - b * b == b * (a - b) >= 0.0;
    }
    if a > b {
      assert a * a - a * b == a * (a - b) > 0.0;
    }
  }

  /** An integer k times a root s of n squares to k*k*n. */
  lemma ScaledRootSquare(k: int, n: int, s: real)
    requires s * s == n as real
    ensures (k as real * s) * (k as real * s) == (k * k * n) as real
  {
    calc {
      (k as real * s) * (k as real * s);
      (k as real * k as real) * (s * s);
      (k * k) as real * n as real;
    }
  }

  /** Comparing k*k*n with c*c compares k*s with c, for the positive root s of n. */
  lemma RootCompare(k: nat, c: nat, n: int, s: real)
    requires s > 0.0 && s * s == n as real
    ensures k * k * n <= c * c ==> k as real * s <= c as real
    ensures k * k * n < c * c ==> k as real * s < c as real
    ensures k * k * n >= c * c ==> k as real * s >= c as real
    ensures k * k * n > c * c ==> k as real * s > c as real
  {
    ScaledRootSquare(k, n, s);
    assert (c as real) * (c as real) == (c * c) as real;
    SquareMono(k as real * s, c as real);
    SquareMono(c as real, k as real * s);
  }

  /** The integer bracket is the real one: f*s <= c < (f+1)*s for the positive root s of n. */
  lemma BracketToReal(f: int, c: int, n: int, s: real)
    requires s > 0.0 && s * s == n as real && RootBracket(f, c, n)
    ensures f as real * s <= c as real < (f + 1) as real * s
  {
    if c >= 0 {
      RootCompare(f, c, n, s);
      RootCompare(f + 1, c, n, s);
    } else {
      NegativeBracketToReal(-f, -c, n, s);
      assert f as real * s == -((-f) as real * s);
      assert (f + 1) as real * s == -((-f - 1) as real * s);
    }
  }

  lemma NegativeBracketToReal(k: nat, d: nat, n: int, s: real)
    requires k >= 1 && s > 0.0 && s * s == n as real
    requires d * d <= k * k * n && (k - 1) * (k - 1) * n < d * d
    ensures -(k as real * s) <= -(d as real) < -((k - 1) as real * s)
  {
    RootCompare(k, d, n, s);
    RootCompare(k - 1, d, n, s);
  }

  /** A positive factor does not change the sign of a product. */
  lemma PositiveFactor(x: real, s: real)
    requires s > 0.0
    ensures x * s <= 0.0 ==> x <= 0.0
    ensures x * s < 0.0 ==> x < 0.0
  {
    if x > 0.0 { assert x * s > 0.0; }
    if x >= 0.0 { assert x * s >= 0.0; }
  }

  /** Dividing a bracket f*s <= c < (f+1)*s by the positive s. */
  lemma DivideBracket(f: int, c: int, s: real)
    requires s > 0.0 && f as real * s <= c as real < (f + 1) as real * s
    ensures f as real <= c as real / s < f as real + 1.0
  {
    var x := c as real / s;
    assert x * s == c as real;
    assert (f as real - x) * s == f as real * s - x * s;
    PositiveFactor(f as real - x, s);
    assert (x - f as real - 1.0) * s == x * s - (f + 1) as real * s;
    PositiveFactor(x - f as real - 1.0, s);
  }

  /** The integer FloorRoot really is floor(c / s) for the positive root s of n. */
  lemma FloorRootBounds(c: int, n: int, s: real)
    requires n > 0 && s > 0.0 && s * s == n as real
    ensures FloorRoot(c, n) as real <= c as real / s < FloorRoot(c, n) as real + 1.0
  {
    var f := FloorRoot(c, n);
    assert f as real * s <= c as real < (f + 1) as real * s by {
      BracketToReal(f, c, n, s);
    }
    DivideBracket(f, c, s);
  }

  lemma NegatedQuotient(c: real, s: real)
    requires s > 0.0
    ensures (-c) / s == -(c / s)
  {
    var y := c / s;
    assert y * s == c;
    assert (-y) * s == -c;
  }

  /** TruncShift(m, c, n) is exactly int(m + c / s) for the positive root s of n. */
  lemma TruncShiftExact(m: int, c: int, n: int, s: real)
    requires n > 0 && s > 0.0 && s * s == n as real
    ensures TruncShift(m, c, n) == TruncReal(m as real + c as real / s)
  {
    var x := c as real / s;
    var f := FloorRoot(c, n);
    assert f as real <= x < f as real + 1.0 by {
      FloorRootBounds(c, n, s);
    }
    if m + f < 0 {
      var g := FloorRoot(-c, n);
      assert g as real <= -x < g as real + 1.0 by {
        FloorRootBounds(-c, n, s);
        NegatedQuotient(c as real, s);
      }
      assert TruncShift(m, c, n) == m - g;
    } else {
      assert TruncShift(m, c, n) == m + f;
    }
  }

  /** Shifting by a non-negative amount never moves the truncated result below m. */
  lemma TruncShiftNotBelow(m: int, c: int, n: int)
    requires n > 0 && c >= 0
    ensures TruncShift(m, c, n) >= m
  {
    assert FloorRoot(c, n) >= 0;
    assert FloorRoot(-c, n) <= 0;
  }
}
