/**
 When the int arithmetic of gfx_line overflows: exactly which lines it draws.
 The loop visits every multiple of the greatest common divisor of the two sides
 that is near zero, so the largest and the smallest of them decide.
 */
module LineRange {
  import opened Line

  predicate Fits(value: int) {
    0 - INT_MAX - 1 <= value <= INT_MAX
  }

  /** Every int computed in the round at deviation `d` fits. */
  ghost predicate RoundFits(a: nat, b: nat, d: int) {
    var error := d + a - b;
    var stepped := if 2 * error + b >= 0 then error - b else error;
    Fits(2 * error) && Fits(stepped) && (2 * error <= a ==> Fits(stepped + a))
  }

  /** The deviation at point `p`. */
  ghost function Off(from: Point, to: Point, p: Point): int {
    Deviation(Abs(to.x - from.x), Abs(to.y - from.y), Abs(p.x - from.x), Abs(p.y - from.y))
  }

  /** Every int the call computes fits: the differences, their absolute values, and every round. */
  ghost predicate NoOverflow(from: Point, to: Point, points: seq<Point>) {
    var a, b := Abs(to.x - from.x), Abs(to.y - from.y);
    && Fits(to.x - from.x) && Fits(to.y - from.y) && Fits(a) && Fits(b)
    && forall k: nat :: k + 1 < |points| ==> RoundFits(a, b, Off(from, to, points[k]))
  }

  /** The points of a call of Draw. */
  ghost predicate Drawn(from: Point, to: Point, points: seq<Point>) {
    && |points| == Max(Abs(to.x - from.x), Abs(to.y - from.y)) + 1
    && forall k: nat :: k < |points| ==> Reached(from, to, points[k], k)
  }

  /** The differences and their absolute values fit exactly when neither side is longer than INT_MAX. */
  lemma DifferencesFit(from: Point, to: Point)
    ensures Fits(to.x - from.x) && Fits(Abs(to.x - from.x)) && Fits(to.y - from.y) && Fits(Abs(to.y - from.y)) <==>
      Max(Abs(to.x - from.x), Abs(to.y - from.y)) <= INT_MAX
  {
  }

  // ----- common divisors

  function Gcd(a: nat, b: nat): (g: nat)
    ensures g == 0 <==> a == 0 && b == 0
    decreases b
  {
    if b == 0 then a else Gcd(b, a % b)
  }

  /** The greatest common divisor divides both. */
  lemma {:induction false} GcdDivides(a: nat, b: nat) returns (p: nat, q: nat)
    ensures a == Gcd(a, b) * p && b == Gcd(a, b) * q
    decreases b
  {
    if b == 0 {
      p, q := 1, 0;
    } else {
      var p', q' := GcdDivides(b, a % b);
      p, q := a / b * p' + q', p';
      Assemble(a, b, Gcd(a, b), p', q');
    }
  }

  lemma Assemble(a: nat, b: nat, g: nat, p: nat, q: nat)
    requires b > 0 && b == g * p && a % b == g * q
    ensures a == g * (a / b * p + q)
  {
    assert a == a / b * b + a % b;
    assert a / b * (g * p) == g * (a / b * p);
  }

  /** It is a combination of both. */
  lemma {:induction false} Bezout(a: nat, b: nat) returns (x: int, y: int)
    ensures a * x + b * y == Gcd(a, b)
    decreases b
  {
    if b == 0 {
      x, y := 1, 0;
    } else {
      var x', y' := Bezout(b, a % b);
      x, y := y', x' - a / b * y';
      Combine(a, b, x', y');
    }
  }

  lemma Combine(a: nat, b: nat, x: int, y: int)
    requires b > 0
    ensures a * y + b * (x - a / b * y) == b * x + a % b * y
  {
    var q := a / b;
    assert a == q * b + a % b;
    assert a * y == q * b * y + a % b * y;
    assert b * (q * y) == q * b * y;
    assert b * (x - q * y) == b * x - b * (q * y);
  }

  /** Multiples of `c` reach every multiple of the divisor, modulo `n`. */
  lemma Hit(n: nat, c: nat, m: int) returns (k: nat, t: int)
    requires n > 0
    ensures k < n && c * k == Gcd(n, c) * m + n * t
  {
    var x, y := Bezout(n, c);
    var q := m * y / n;
    k, t := m * y % n, 0 - x * m - c * q;
    HitSum(n, c, m, x, y, q, k);
  }

  lemma HitSum(n: nat, c: nat, m: int, x: int, y: int, q: int, k: nat)
    requires m * y == q * n + k
    ensures c * k == (n * x + c * y) * m + n * (0 - x * m - c * q)
  {
    var nx, cy, cq, cm := n * x, c * y, c * q, c * m;
    assert (nx + cy) * m == nx * m + cy * m && nx * m == n * (x * m);
    assert n * (0 - x * m - cq) == 0 - n * (x * m) - n * cq;
    assert c * (m * y) == c * (q * n) + c * k;
    assert c * (m * y) == cy * m by {
      assert c * (m * y) == cm * y && cy * m == cm * y;
    }
    assert c * (q * n) == n * cq;
  }

  // ----- the deviations a line meets

  lemma {:induction false} Ordered(g: nat, m: int, q: int)
    ensures (m <= q ==> g * m <= g * q) && (m > q ==> g * m >= g * q + g)
    decreases Abs(m - q)
  {
    if m < q {
      Ordered(g, m, q - 1);
      assert g * q == g * (q - 1) + g;
    } else if m > q {
      Ordered(g, m - 1, q);
      assert g * m == g * (m - 1) + g;
    }
  }

  /** Two near deviations that differ by whole lengths of the longer side are the same. */
  lemma Once(a: nat, b: nat, d: int, v: int, t: int)
    requires Near(a, b, d) && Near(a, b, v) && Max(a, b) > 0 && d == v + Max(a, b) * t
    ensures d == v
  {
    FarApart(Max(a, b), t);
  }

  lemma FarApart(n: nat, t: int)
    ensures (t > 0 ==> n * t >= n) && (t < 0 ==> n * t <= 0 - n)
  {
    Ordered(n, t, 0);
    Ordered(n, 0, t);
  }

  /** Every near multiple of the divisor is the deviation at some point before the last. */
  lemma Met(from: Point, to: Point, points: seq<Point>, m: int) returns (k: nat)
    requires Drawn(from, to, points) && from != to
    requires var a, b := Abs(to.x - from.x), Abs(to.y - from.y); Near(a, b, Gcd(a, b) * m)
    ensures k + 1 < |points| && Off(from, to, points[k]) == Gcd(Abs(to.x - from.x), Abs(to.y - from.y)) * m
  {
    hide Gcd, Near, Deviation;
    var a, b := Abs(to.x - from.x), Abs(to.y - from.y);
    var t;
    if a >= b {
      k, t := Hit(a, b, 0 - m);
    } else {
      GcdSwaps(a, b);
      k, t := Hit(b, a, m);
    }
    var p := points[k];
    assert Reached(from, to, p, k);
    var i, j := Abs(p.x - from.x), Abs(p.y - from.y);
    WholeLengths(a, b, i, j, Gcd(a, b), m, t);
    Once(a, b, Deviation(a, b, i, j), Gcd(a, b) * m, if a >= b then j - t else t - i);
  }

  lemma GcdSwaps(a: nat, b: nat)
    requires a < b
    ensures Gcd(a, b) == Gcd(b, a)
  {
    assert a % b == a;
  }

  lemma WholeLengths(a: nat, b: nat, i: nat, j: nat, g: nat, m: int, t: int)
    requires if a >= b then b * i == g * (0 - m) + a * t else a * j == g * m + b * t
    ensures Deviation(a, b, i, j) == g * m + Max(a, b) * (if a >= b then j - t else t - i)
  {
    assert g * (0 - m) == 0 - g * m;
    if a >= b {
      assert a * (j - t) == a * j - a * t;
    } else {
      assert b * (t - i) == b * t - b * i;
    }
  }

  /** Every deviation of a line is a multiple of the divisor. */
  lemma Multiple(a: nat, b: nat, i: nat, j: nat) returns (m: int)
    ensures Deviation(a, b, i, j) == Gcd(a, b) * m
  {
    hide Gcd;
    var g := Gcd(a, b);
    var p, q := GcdDivides(a, b);
    m := p * j - q * i;
    assert g * p * j == g * (p * j) && g * q * i == g * (q * i);
    assert g * m == g * (p * j) - g * (q * i);
  }

  /** All near multiples of the divisor make rounds that fit. */
  ghost predicate MultiplesFit(a: nat, b: nat) {
    forall m: int {:trigger Near(a, b, Gcd(a, b) * m)} :: Near(a, b, Gcd(a, b) * m) ==> RoundFits(a, b, Gcd(a, b) * m)
  }

  /** The rounds of a line are those of the near multiples. */
  lemma RoundsAreMultiples(from: Point, to: Point, points: seq<Point>)
    requires Drawn(from, to, points) && from != to
    ensures var a, b := Abs(to.x - from.x), Abs(to.y - from.y);
      NoOverflow(from, to, points) <==> a <= INT_MAX && b <= INT_MAX && MultiplesFit(a, b)
  {
    hide Gcd, Near, RoundFits, Deviation;
    var a, b := Abs(to.x - from.x), Abs(to.y - from.y);
    if NoOverflow(from, to, points) {
      forall m: int | Near(a, b, Gcd(a, b) * m) ensures RoundFits(a, b, Gcd(a, b) * m) {
        var k := Met(from, to, points, m);
      }
    }
    if MultiplesFit(a, b) {
      forall k: nat | k + 1 < |points| ensures RoundFits(a, b, Off(from, to, points[k])) {
        assert Reached(from, to, points[k], k);
        var m := Multiple(a, b, Abs(points[k].x - from.x), Abs(points[k].y - from.y));
      }
    }
  }

  // ----- the largest and the smallest

  /** The largest multiple of `g` whose double is at most `n`. */
  function Top(g: nat, n: int): int
    requires g > 0
  {
    g * (n / (2 * g))
  }

  lemma TopIs(g: nat, n: int, m: int)
    requires g > 0
    ensures 2 * Top(g, n) <= n < 2 * Top(g, n) + 2 * g
    ensures 2 * (g * m) <= n ==> g * m <= Top(g, n)
  {
    var q := n / (2 * g);
    assert n == 2 * g * q + n % (2 * g) && 2 * g * q == 2 * (g * q);
    Ordered(g, m, q);
  }

  /** What decides whether a line with sides `a` and `b` can be drawn in int. */
  predicate Drawable(a: nat, b: nat)
    requires a > 0 || b > 0
  {
    var g := Gcd(a, b);
    && a <= INT_MAX && b <= INT_MAX
    && if a >= b then 2 * (Top(g, a) + a - b) <= INT_MAX && Top(g, a - 1) - a + 2 * b <= INT_MAX + 1
       else 2 * (Top(g, b) + b - a) <= INT_MAX + 1 && Top(g, 2 * a - b) - a + 2 * b <= INT_MAX + 1
  }

  lemma FitsWide(a: nat, b: nat, g: nat, m: int, next: int)
    requires b <= a <= INT_MAX && g > 0 && Near(a, b, g * m)
    requires 2 * (Top(g, a) + a - b) <= INT_MAX && Top(g, a - 1) - a + 2 * b <= INT_MAX + 1
    requires g * next == g * m + a - b
    ensures RoundFits(a, b, g * m)
  {
    hide Top;
    TopIs(g, a, m);
    TopIs(g, a, next);
    assert g * (0 - m) == 0 - g * m;
    TopIs(g, a - 1, 0 - m);
    TopIs(g, a, 0);
    TopIs(g, a - 1, 0);
  }

  lemma FitsSteep(a: nat, b: nat, g: nat, m: int)
    requires a < b <= INT_MAX && g > 0 && Near(a, b, g * m)
    requires 2 * (Top(g, b) + b - a) <= INT_MAX + 1 && Top(g, 2 * a - b) - a + 2 * b <= INT_MAX + 1
    ensures RoundFits(a, b, g * m)
  {
    hide Top;
    assert g * (0 - m) == 0 - g * m;
    TopIs(g, b, 0 - m);
    TopIs(g, 2 * a - b, 0 - m);
    TopIs(g, b, 0);
  }

  /** A wide line whose multiples all fit has room for the two extreme ones. */
  lemma WideNeeds(a: nat, b: nat)
    requires a > 0 && b <= a <= INT_MAX && MultiplesFit(a, b)
    ensures Drawable(a, b)
  {
    hide Gcd, Near, MultiplesFit, RoundFits, Top;
    var g := Gcd(a, b);
    TopNear(a, b, g);
    HighestFits(a, b);
    TopFits(a, b, a - 1);
    RoundNeeds(a, b, Top(g, a));
    RoundNeeds(a, b, 0 - Top(g, a - 1));
  }

  lemma HighestFits(a: nat, b: nat)
    requires (a > 0 || b > 0) && MultiplesFit(a, b) && Near(a, b, Top(Gcd(a, b), a))
    ensures RoundFits(a, b, Top(Gcd(a, b), a))
  {
    hide Gcd, Near, RoundFits;
    var g := Gcd(a, b);
    assert Near(a, b, g * (a / (2 * g)));
  }

  lemma RoundNeeds(a: nat, b: nat, v: int)
    ensures RoundFits(a, b, v) ==> Fits(2 * (v + a - b))
    ensures RoundFits(a, b, v) && 2 * (v + a - b) + b >= 0 ==> v + a - 2 * b >= 0 - INT_MAX - 1
  {
  }

  lemma TopNear(a: nat, b: nat, g: nat)
    requires g > 0 && a > 0 && b <= a
    ensures Near(a, b, Top(g, a)) && Near(a, b, 0 - Top(g, a - 1))
    ensures 2 * (0 - Top(g, a - 1) + a - b) + b >= 0
  {
    hide Top;
    TopIs(g, a, 0);
    TopIs(g, a - 1, 0);
  }

  /** A steep line whose multiples all fit has room for the lowest one and for the lowest that steps sideways. */
  lemma SteepNeeds(a: nat, b: nat)
    requires a < b <= INT_MAX && MultiplesFit(a, b)
    ensures Drawable(a, b)
  {
    hide Gcd, Near, MultiplesFit, RoundFits, Top;
    var g := Gcd(a, b);
    var p, q := GcdDivides(a, b);
    SteepNear(a, b, g, p);
    TopFits(a, b, b);
    if a > 0 {
      TopFits(a, b, 2 * a - b);
    } else {
      Upright(b);
    }
    RoundNeeds(a, b, 0 - Top(g, b));
    RoundNeeds(a, b, 0 - Top(g, 2 * a - b));
  }

  /** In a vertical line only zero is near. */
  lemma Upright(b: nat)
    requires b > 0
    ensures Gcd(0, b) == b && Top(b, 0 - b) <= 0 - b
  {
    assert Gcd(0, b) == Gcd(b, 0);
    TopIs(b, 0 - b, 0);
    var q := (0 - b) / (2 * b);
    Ordered(b, q, 0 - 1);
    Ordered(b, 0, q);
  }

  lemma TopFits(a: nat, b: nat, n: int)
    requires (a > 0 || b > 0) && MultiplesFit(a, b) && Near(a, b, 0 - Top(Gcd(a, b), n))
    ensures RoundFits(a, b, 0 - Top(Gcd(a, b), n))
  {
    hide Gcd, Near, RoundFits;
    var g := Gcd(a, b);
    var m := 0 - n / (2 * g);
    assert g * m == 0 - Top(g, n);
    assert Near(a, b, g * m);
  }


  lemma SteepNear(a: nat, b: nat, g: nat, p: nat)
    requires a < b && g > 0 && a == g * p
    ensures Near(a, b, 0 - Top(g, b))
    ensures a > 0 ==> Near(a, b, 0 - Top(g, 2 * a - b)) && 2 * (0 - Top(g, 2 * a - b) + a - b) + b >= 0
  {
    hide Top;
    TopIs(g, b, 0);
    TopIs(g, 2 * a - b, 0);
    if a > 0 {
      Ordered(g, p, 0);
    }
  }

  lemma MultiplesExactly(a: nat, b: nat)
    requires (a > 0 || b > 0) && a <= INT_MAX && b <= INT_MAX
    ensures MultiplesFit(a, b) <==> Drawable(a, b)
  {
    hide Gcd, Near, RoundFits, Top;
    var g := Gcd(a, b);
    if MultiplesFit(a, b) {
      if a >= b {
        WideNeeds(a, b);
      } else {
        SteepNeeds(a, b);
      }
    }
    if Drawable(a, b) {
      var p, q := GcdDivides(a, b);
      forall m: int | Near(a, b, g * m) ensures RoundFits(a, b, g * m) {
        if a >= b {
          assert g * (m + p - q) == g * m + g * p - g * q;
          FitsWide(a, b, g, m, m + p - q);
        } else {
          FitsSteep(a, b, g, m);
        }
      }
    }
  }

  /** For every two points, gfx_line stays within int exactly when the line between them is drawable. */
  lemma OverflowExactly(from: Point, to: Point, points: seq<Point>)
    requires Drawn(from, to, points) && from != to
    ensures NoOverflow(from, to, points) <==> Drawable(Abs(to.x - from.x), Abs(to.y - from.y))
  {
    hide Gcd, NoOverflow, Drawn, MultiplesFit, Top;
    var a, b := Abs(to.x - from.x), Abs(to.y - from.y);
    RoundsAreMultiples(from, to, points);
    if a <= INT_MAX && b <= INT_MAX {
      MultiplesExactly(a, b);
    }
  }

  /** Among the terms a wide line doubles, the largest is reached and no other exceeds it. */
  lemma BoundIsMet(from: Point, to: Point, points: seq<Point>) returns (k: nat)
    requires Drawn(from, to, points) && from != to && Abs(to.x - from.x) >= Abs(to.y - from.y)
    ensures var a, b := Abs(to.x - from.x), Abs(to.y - from.y);
      var most := 2 * (Top(Gcd(a, b), a) + a - b);
      && k + 1 < |points| && Doubled(from, to, points[k]) == most
      && forall l: nat :: l < |points| ==> Doubled(from, to, points[l]) <= most
  {
    hide Gcd, Deviation;
    var a, b := Abs(to.x - from.x), Abs(to.y - from.y);
    var g := Gcd(a, b);
    TopNear(a, b, g);
    k := Met(from, to, points, a / (2 * g));
    forall l: nat | l < |points| ensures Doubled(from, to, points[l]) <= 2 * (Top(g, a) + a - b) {
      assert Reached(from, to, points[l], l);
      var m := Multiple(a, b, Abs(points[l].x - from.x), Abs(points[l].y - from.y));
      TopIs(g, a, m);
    }
  }

  /** A line from a point to itself computes nothing that could overflow. */
  lemma NoLine(from: Point, points: seq<Point>)
    requires Drawn(from, from, points)
    ensures NoOverflow(from, from, points)
  {
  }

  /** Lines one pixel high, horizontal lines, and lines at most a third of INT_MAX long. */
  lemma CommonLines(a: nat, b: nat)
    requires a > 0 || b > 0
    ensures a >= 2 && b == 1 ==> (Drawable(a, b) <==> 3 * a - 2 - a % 2 <= INT_MAX)
    ensures b == 0 ==> (Drawable(a, b) <==> 2 * a <= INT_MAX)
    ensures 3 * Max(a, b) <= INT_MAX ==> Drawable(a, b)
  {
    hide Top;
    var g := Gcd(a, b);
    TopIs(g, a, 0);
    TopIs(g, a - 1, 0);
    TopIs(g, b, 0);
    TopIs(g, 2 * a - b, 0);
    if b == 1 {
      assert Gcd(a, 1) == 1;
    } else if b == 0 {
      ZeroTop(a);
    }
  }

  lemma OnlyZero(a: nat, q: int)
    ensures 0 - a < a * q < a ==> a * q == 0
  {
    Ordered(a, q, 0);
    Ordered(a, 0, q);
  }

  lemma ZeroTop(a: nat)
    requires a > 0
    ensures Top(a, a) == 0 && Top(a, a - 1) == 0
  {
    OnlyZero(a, a / (2 * a));
    OnlyZero(a, (a - 1) / (2 * a));
    TopIs(a, a, 0);
    TopIs(a, a - 1, 0);
  }

  /** A line between two int points, 715827884 wide and one high, that the int arithmetic does not draw. */
  method TooWide() returns (points: seq<Point>)
    ensures Fits(715827884) && |points| == 715827885 && !NoOverflow(Point(0, 0), Point(715827884, 1), points)
  {
    hide Reached, NoOverflow, Doubled, Deviation, Near, Drawable;
    ghost var doubled;
    points, doubled := Draw(Point(0, 0), Point(715827884, 1));
    OverflowExactly(Point(0, 0), Point(715827884, 1), points);
    CommonLines(715827884, 1);
  }

  /** A nearly diagonal one whose doubled terms all fit, while stepping the error term does not. */
  lemma NearlyDiagonal()
    ensures var a, b := 2000000000, 1999999999;
      && 2 * (Top(Gcd(a, b), a) + a - b) <= INT_MAX && Top(Gcd(a, b), a - 1) - a + 2 * b > INT_MAX + 1
      && !Drawable(a, b)
  {
    assert Gcd(2000000000, 1999999999) == 1;
  }
}
