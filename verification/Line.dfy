/** The all-octant line of graphics/graphics.c. */
module Line {

  const INT_MAX := 0x7FFF_FFFF

  datatype Point = Point(x: int, y: int)

  function Abs(value: int): nat {
    if value < 0 then -value else value
  }

  function Max(a: nat, b: nat): nat {
    if a >= b then a else b
  }

  /** The coordinate `steps` places from `from` in the direction of `to`. */
  function Along(from: int, to: int, steps: nat): int {
    if from < to then from + steps else from - steps
  }

  /**
   How far the point `i` steps along a side of `a` and `j` along a side of `b`
   is from the ideal line, scaled by the longer side.
   */
  ghost function Deviation(a: nat, b: nat, i: nat, j: nat): int {
    a * j - b * i
  }

  /** At most half a pixel off, with ties going the way the loop decides them: no two points of a step qualify. */
  ghost predicate Near(a: nat, b: nat, deviation: int) {
    if a >= b then 2 * deviation <= a && (0 - a < 2 * deviation || deviation == 0)
    else 0 - b <= 2 * deviation < b
  }

  /** Point `k` of the line: `i` steps in x, `j` in y, `k` along the longer side, at most half a pixel off. */
  ghost predicate Reached(from: Point, to: Point, p: Point, k: nat) {
    var a, b := Abs(to.x - from.x), Abs(to.y - from.y);
    var i, j := Abs(p.x - from.x), Abs(p.y - from.y);
    && p == Point(Along(from.x, to.x, i), Along(from.y, to.y, j))
    && i <= a && j <= b && Near(a, b, Deviation(a, b, i, j)) && k == if a >= b then i else j
  }

  /** Before the end is reached, the longer side has steps left and the shorter one is not passed. */
  lemma Unfinished(a: nat, b: nat, i: nat, j: nat)
    requires i <= a && Near(a, b, Deviation(a, b, i, j)) && a >= b && a > 0
    ensures j <= b && (i == a ==> j == b)
  {
    hide Near;
    NearBounds(a, b, Deviation(a, b, i, j));
    Monotone(b, i, a);
    if j > b {
      Larger(a, b + 1, j);
    } else if i == a && j < b {
      Larger(a, j + 1, b);
    }
  }

  lemma NearBounds(a: nat, b: nat, d: int)
    requires Near(a, b, d)
    ensures 2 * d <= Max(a, b) && 0 - Max(a, b) <= 2 * d
  {
  }

  lemma Monotone(b: nat, i: nat, a: nat)
    requires i <= a
    ensures b * i <= a * b && (i == a ==> b * i == a * b)
  {
    assert a * b == b * i + b * (a - i);
  }

  lemma Larger(a: nat, j: nat, k: nat)
    requires j <= k
    ensures a * j <= a * k && a * (j - 1) == a * j - a
  {
    assert a * k == a * j + a * (k - j);
  }

  lemma Steps(a: nat, b: nat, i: nat, j: nat)
    ensures Deviation(a, b, i + 1, j) == Deviation(a, b, i, j) - b
    ensures Deviation(a, b, i, j + 1) == Deviation(a, b, i, j) + a
    ensures Deviation(a, b, i + 1, j + 1) == Deviation(a, b, i, j) + a - b
    ensures Deviation(a, b, j, i) == 0 - Deviation(b, a, i, j)
  {
  }

  /** One round from deviation `d`: the longer side advances, and the result is near again. */
  lemma Round(a: nat, b: nat, d: int)
    requires Near(a, b, d)
    ensures var twice := 2 * (d + a - b);
      var d' := d - (if twice + b >= 0 then b else 0) + (if twice <= a then a else 0);
      Near(a, b, d') && (a >= b ==> twice + b >= 0) && (a < b ==> twice <= a)
  {
  }

  /**
   gfx_line: one point per step of the longer side and one more, from end to
   end, each within half a pixel of the ideal line.  `doubled` is what the loop
   compares at every point but the last.
   */
  method Draw(from: Point, to: Point) returns (points: seq<Point>, ghost doubled: seq<int>)
    ensures |points| == Max(Abs(to.x - from.x), Abs(to.y - from.y)) + 1
    ensures points[0] == from && points[|points| - 1] == to
    ensures forall k: nat :: k < |points| ==> Reached(from, to, points[k], k)
    ensures |doubled| == |points| - 1 && forall k: nat :: k < |doubled| ==> doubled[k] == Doubled(from, to, points[k])
  {
    hide Deviation, Near, Reached, Doubled;
    var a, b := Abs(to.x - from.x), Abs(to.y - from.y);
    var sx, sy := (if from.x < to.x then 1 else -1), (if from.y < to.y then 1 else -1);
    var dx: int := a;
    var dy: int := -(b as int);
    var error := dx + dy;
    var x, y := from.x, from.y;
    points, doubled := [], [];
    ghost var i, j := 0, 0;
    Start(a, b);
    while true
      invariant i <= a && j <= b && Near(a, b, Deviation(a, b, i, j))
      invariant error == Deviation(a, b, i, j) + a - b
      invariant x == Along(from.x, to.x, i) && y == Along(from.y, to.y, j) && |points| == if a >= b then i else j
      invariant |points| > 0 ==> points[0] == from
      invariant |points| == 0 ==> i == 0 && j == 0
      invariant forall k: nat :: k < |points| ==> Reached(from, to, points[k], k)
      invariant |doubled| == |points| && forall k: nat :: k < |doubled| ==> doubled[k] == Doubled(from, to, points[k])
      decreases Max(a, b) - |points|
    {
      points := points + [Point(x, y)];
      Arrived(from, to, i, j);
      if x == to.x && y == to.y {
        break;
      }
      NotThere(a, b, i, j);
      Round(a, b, Deviation(a, b, i, j));
      Steps(a, b, i, j);
      var twice := error * 2;
      DoubledIs(from, to, i, j);
      doubled := doubled + [twice];
      if twice >= dy {
        error, x, i := error + dy, x + sx, i + 1;
      }
      if twice <= dx {
        error, y, j := error + dx, y + sy, j + 1;
      }
      StillInside(a, b, i, j);
    }
  }

  /** What the loop compares at point `p`. */
  ghost function Doubled(from: Point, to: Point, p: Point): int {
    var a, b := Abs(to.x - from.x), Abs(to.y - from.y);
    2 * (Deviation(a, b, Abs(p.x - from.x), Abs(p.y - from.y)) + a - b)
  }

  lemma DoubledIs(from: Point, to: Point, i: nat, j: nat)
    requires i <= Abs(to.x - from.x) && j <= Abs(to.y - from.y)
    ensures var a, b := Abs(to.x - from.x), Abs(to.y - from.y);
      Doubled(from, to, Point(Along(from.x, to.x, i), Along(from.y, to.y, j))) == 2 * (Deviation(a, b, i, j) + a - b)
  {
    hide Deviation;
  }

  lemma Start(a: nat, b: nat)
    ensures Deviation(a, b, 0, 0) == 0 && Near(a, b, 0)
  {
  }

  lemma Arrived(from: Point, to: Point, i: nat, j: nat)
    requires i <= Abs(to.x - from.x) && j <= Abs(to.y - from.y)
    requires var a, b := Abs(to.x - from.x), Abs(to.y - from.y); Near(a, b, Deviation(a, b, i, j))
    ensures Along(from.x, to.x, i) == to.x <==> i == Abs(to.x - from.x)
    ensures Along(from.y, to.y, j) == to.y <==> j == Abs(to.y - from.y)
    ensures Reached(from, to, Point(Along(from.x, to.x, i), Along(from.y, to.y, j)),
                    if Abs(to.x - from.x) >= Abs(to.y - from.y) then i else j)
  {
    hide Deviation, Near;
  }

  /** Away from the end the longer side has a step left. */
  lemma NotThere(a: nat, b: nat, i: nat, j: nat)
    requires i <= a && j <= b && Near(a, b, Deviation(a, b, i, j)) && (i < a || j < b)
    ensures (a >= b ==> i < a) && (a < b ==> j < b)
  {
    if a >= b {
      Unfinished(a, b, i, j);
    } else {
      Steps(a, b, j, i);
      assert Deviation(a, b, i, j) == 0 - Deviation(b, a, j, i);
      Unfinished(b, a, j, i);
    }
  }

  /** A near point whose longer side has not passed the end has not passed it on the shorter side either. */
  lemma StillInside(a: nat, b: nat, i: nat, j: nat)
    requires Near(a, b, Deviation(a, b, i, j)) && (a >= b ==> i <= a && a > 0) && (a < b ==> j <= b)
    ensures i <= a && j <= b
  {
    if a >= b {
      Unfinished(a, b, i, j);
    } else {
      assert Deviation(a, b, i, j) == 0 - Deviation(b, a, j, i);
      Unfinished(b, a, j, i);
    }
  }

  /** What the loop doubles stays within three times the longer side. */
  lemma TwiceBound(a: nat, b: nat, d: int)
    requires Near(a, b, d)
    ensures a >= b ==> 0 - a <= 2 * (d + a - b) <= 3 * a - 2 * b
    ensures a < b ==> 2 * a - 3 * b <= 2 * (d + a - b) <= b
    ensures 3 * Max(a, b) <= INT_MAX ==> Abs(2 * (d + a - b)) <= INT_MAX
  {
  }
}
