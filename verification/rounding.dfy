/** The three rounding policies a user can pick for split points
    (`down`, `nearest`, `up`). The program applies Python's `int`, `round`
    and `math.ceil` to the quotient `tick * align / precision`; here that
    quotient is the exact rational n / d with d > 0. */
module Rounding {

  datatype Mode = Down | Nearest | Up

  /** Largest integer not above n / d. */
  function Floor(n: int, d: int): (r: int)
    requires d > 0
    ensures r * d <= n < r * d + d
  {
    n / d
  }

  /** Smallest integer not below n / d. */
  function Ceil(n: int, d: int): (r: int)
    requires d > 0
    ensures r * d - d < n <= r * d
  {
    -((-n) / d)
  }

  /** Python's `int` on a number: truncation toward zero. For a negative
      quotient this rounds up, not down. */
  function Trunc(n: int, d: int): (r: int)
    requires d > 0
    ensures n >= 0 ==> r == Floor(n, d)
    ensures n < 0 ==> r == Ceil(n, d)
  {
    if n >= 0 then n / d else -((-n) / d)
  }

  /** Python's `round` on a number: the nearest integer, ties going to
      the even neighbour. */
  function HalfEven(n: int, d: int): (r: int)
    requires d > 0
    ensures Floor(n, d) <= r <= Floor(n, d) + 1
  {
    var f := n / d;
    var rem := n % d;
    if 2 * rem < d then f
    else if 2 * rem > d then f + 1
    else if f % 2 == 0 then f
    else f + 1
  }

  /** `round` gives a nearest integer: n / d lies within half a unit of
      it, and on a tie it is the even one. */
  lemma HalfEvenNearest(n: int, d: int)
    requires d > 0
    ensures var r := HalfEven(n, d);
            && -d <= 2 * (n - r * d) <= d
            && (2 * (n - r * d) == d || 2 * (n - r * d) == -d ==> r % 2 == 0)
  {
    var f, rem := n / d, n % d;
    assert n == f * d + rem;
    assert (f + 1) * d == f * d + d;
    var r := HalfEven(n, d);
    if r == f {
      assert n - r * d == rem;
    } else {
      assert n - r * d == rem - d;
    }
  }

  /** The rounder a mode selects. */
  function Round(mode: Mode, n: int, d: int): (r: int)
    requires d > 0
    ensures Floor(n, d) <= r <= Ceil(n, d)
  {
    CeilIsFloorOrNext(n, d);
    match mode
    case Down => Trunc(n, d)
    case Nearest => HalfEven(n, d)
    case Up => Ceil(n, d)
  }

  lemma MulLe(a: int, b: int, d: int)
    requires d > 0 && a <= b
    ensures a * d <= b * d
    decreases b - a
  {
    if a < b {
      assert (b - 1) * d + d == b * d;
      MulLe(a, b - 1, d);
    }
  }

  /** The floor is the only integer q with q * d <= n < q * d + d. */
  lemma FloorUnique(n: int, d: int, q: int)
    requires d > 0 && q * d <= n < q * d + d
    ensures Floor(n, d) == q
  {
    var f := Floor(n, d);
    assert (f + 1) * d == f * d + d;
    assert (q + 1) * d == q * d + d;
    if f < q {
      MulLe(f + 1, q, d);
    } else if f > q {
      MulLe(q + 1, f, d);
    }
  }

  /** The ceiling is the only integer q with q * d - d < n <= q * d. */
  lemma CeilUnique(n: int, d: int, q: int)
    requires d > 0 && q * d - d < n <= q * d
    ensures Ceil(n, d) == q
  {
    assert (-q) * d == -(q * d);
    FloorUnique(-n, d, -q);
  }

  /** The ceiling is the floor, or the next integer when d does not
      divide n. */
  lemma CeilIsFloorOrNext(n: int, d: int)
    requires d > 0
    ensures Ceil(n, d) == Floor(n, d) + (if n % d == 0 then 0 else 1)
  {
    var f := n / d;
    assert n == f * d + n % d;
    assert (-f) * d == -(f * d);
    assert (-f - 1) * d == -(f * d) - d;
    if n % d == 0 {
      FloorUnique(-n, d, -f);
    } else {
      FloorUnique(-n, d, -f - 1);
    }
  }

  /** When d divides n every mode gives the exact quotient. */
  lemma ExactQuotient(mode: Mode, k: int, d: int)
    requires d > 0
    ensures Round(mode, k * d, d) == k
  {
    FloorUnique(k * d, d, k);
    CeilIsFloorOrNext(k * d, d);
    assert (k * d) % d == 0 by {
      assert k * d == (k * d) / d * d + (k * d) % d;
    }
  }

  /** For a non-negative quotient the modes are ordered:
      down <= nearest <= up. */
  lemma ModesOrdered(n: int, d: int)
    requires d > 0 && n >= 0
    ensures Round(Down, n, d) <= Round(Nearest, n, d) <= Round(Up, n, d)
  {
  }

  /** For a negative quotient that is not a whole number, `down` gives the
      same block as `up`: truncation toward zero. */
  lemma DownRoundsNegativeUp(n: int, d: int)
    requires d > 0 && n < 0 && n % d != 0
    ensures Round(Down, n, d) == Round(Up, n, d) == Floor(n, d) + 1
  {
    CeilIsFloorOrNext(n, d);
  }

  lemma FloorMonotone(n1: int, n2: int, d: int)
    requires d > 0 && n1 <= n2
    ensures Floor(n1, d) <= Floor(n2, d)
  {
    var f1, f2 := Floor(n1, d), Floor(n2, d);
    assert (f2 + 1) * d == f2 * d + d;
    if f1 > f2 {
      MulLe(f2 + 1, f1, d);
    }
  }

  lemma CeilMonotone(n1: int, n2: int, d: int)
    requires d > 0 && n1 <= n2
    ensures Ceil(n1, d) <= Ceil(n2, d)
  {
    CeilIsFloorOrNext(n1, d);
    CeilIsFloorOrNext(n2, d);
    FloorMonotone(n1, n2, d);
    var f1, f2 := Floor(n1, d), Floor(n2, d);
    if f1 == f2 && n1 % d != 0 {
      assert n1 == f1 * d + n1 % d && n2 == f2 * d + n2 % d;
    }
  }

  lemma TruncMonotone(n1: int, n2: int, d: int)
    requires d > 0 && n1 <= n2
    ensures Trunc(n1, d) <= Trunc(n2, d)
  {
    if n1 >= 0 {
      FloorMonotone(n1, n2, d);
    } else if n2 < 0 {
      CeilMonotone(n1, n2, d);
    } else {
      var c, f := Ceil(n1, d), Floor(n2, d);
      assert c <= 0 by {
        if c > 0 { MulLe(1, c, d); }
      }
      assert f >= 0 by {
        if f < 0 { MulLe(f, -1, d); }
      }
    }
  }

  lemma HalfEvenMonotone(n1: int, n2: int, d: int)
    requires d > 0 && n1 <= n2
    ensures HalfEven(n1, d) <= HalfEven(n2, d)
  {
    FloorMonotone(n1, n2, d);
    var f1, f2 := n1 / d, n2 / d;
    if f1 == f2 {
      assert n1 % d <= n2 % d by {
        assert n1 == d * f1 + n1 % d && n2 == d * f2 + n2 % d;
      }
    } else {
      assert HalfEven(n1, d) <= f1 + 1;
    }
  }

  /** A fixed rounder never reorders two quotients. */
  lemma RoundMonotone(mode: Mode, n1: int, n2: int, d: int)
    requires d > 0 && n1 <= n2
    ensures Round(mode, n1, d) <= Round(mode, n2, d)
  {
    match mode
    case Down => TruncMonotone(n1, n2, d);
    case Nearest => HalfEvenMonotone(n1, n2, d);
    case Up => CeilMonotone(n1, n2, d);
  }
}
