/** On which side of a line a point lies, and which of two points comes first in a direction.

Points are taken to lie in general position: no three on a line. What can be said about a few such points is then
a matter of signs only, and every argument about four or five of them follows from three facts: a point inside a
triangle is on one side of all its edges (`Four`), the lines through one point cannot separate four others in just
any way (`Five`), and no more can they when one of the others is infinitely far away (`Fan`).
*/
module Sides {
  import opened Polygon

  predicate Free(a: Point, b: Point, c: Point) {
    Cross(a, b, c) != 0.0
  }

  /** `c` is on the left of the line from `a` to `b`. */
  predicate Left(a: Point, b: Point, c: Point) {
    Cross(a, b, c) > 0.0
  }

  lemma Three(a: Point, b: Point, c: Point)
    requires Free(a, b, c)
    ensures Free(b, c, a) && Free(c, a, b) && Free(b, a, c) && Free(a, c, b) && Free(c, b, a)
    ensures Left(a, b, c) == Left(b, c, a) == Left(c, a, b)
    ensures Left(b, a, c) == Left(a, c, b) == Left(c, b, a) == !Left(a, b, c)
    ensures a != b && b != c && a != c
  {
  }

  ghost predicate FreeFour(a: Point, b: Point, c: Point, p: Point) {
    Free(a, b, c) && Free(a, b, p) && Free(a, c, p) && Free(b, c, p)
  }

  /** A point on one side of all three edges is inside. */
  lemma Four(a: Point, b: Point, c: Point, p: Point)
    requires FreeFour(a, b, c, p)
    ensures Left(a, b, p) == Left(b, c, p) == !Left(a, c, p) ==> Left(a, b, c) == Left(a, b, p)
  {
    assert Cross(a, b, c) == Cross(a, b, p) + Cross(b, c, p) - Cross(a, c, p);
  }

  lemma Product(x: real, y: real) returns (p: real)
    ensures p == x * y && (x == 0.0 || y == 0.0 ==> p == 0.0)
    ensures x != 0.0 && y != 0.0 ==> p != 0.0 && (p > 0.0 <==> ((x > 0.0) == (y > 0.0)))
  {
    p := x * y;
    if x > 0.0 && y > 0.0 {
      assert x * y > 0.0;
    } else if x > 0.0 && y < 0.0 {
      assert x * (-y) > 0.0;
    } else if x < 0.0 && y > 0.0 {
      assert (-x) * y > 0.0;
    } else if x < 0.0 && y < 0.0 {
      assert (-x) * (-y) > 0.0;
    }
  }

  lemma Signs(x: real, y: real)
    requires x != 0.0 && y != 0.0
    ensures x * y != 0.0 && (x * y > 0.0 <==> ((x > 0.0) == (y > 0.0)))
  {
    var p := Product(x, y);
  }

  lemma FiveSum(o: Point, a: Point, b: Point, p: Point, q: Point)
    ensures Cross(o, a, b) * Cross(o, p, q) - Cross(o, a, p) * Cross(o, b, q) + Cross(o, a, q) * Cross(o, b, p) == 0.0
  {
    var ax, ay, bx, by_ := a.x - o.x, a.y - o.y, b.x - o.x, b.y - o.y;
    var px, py, qx, qy := p.x - o.x, p.y - o.y, q.x - o.x, q.y - o.y;
    assert (ax * by_ - ay * bx) * (px * qy - py * qx) - (ax * py - ay * px) * (bx * qy - by_ * qx)
           + (ax * qy - ay * qx) * (bx * py - by_ * px) == 0.0;
  }

  ghost predicate FreeAround(o: Point, a: Point, b: Point, p: Point, q: Point) {
    Free(o, a, b) && Free(o, a, p) && Free(o, a, q) && Free(o, b, p) && Free(o, b, q) && Free(o, p, q)
  }

  /** How four points can lie around a fifth. */
  lemma Five(o: Point, a: Point, b: Point, p: Point, q: Point)
    requires FreeAround(o, a, b, p, q)
    ensures !((Left(o, a, b) == Left(o, p, q)) && (Left(o, a, p) != Left(o, b, q)) && (Left(o, a, q) == Left(o, b, p)))
    ensures (Left(o, a, b) == Left(o, p, q)) || (Left(o, a, p) != Left(o, b, q)) || (Left(o, a, q) == Left(o, b, p))
  {
    FiveSum(o, a, b, p, q);
    Signs(Cross(o, a, b), Cross(o, p, q));
    Signs(Cross(o, a, p), Cross(o, b, q));
    Signs(Cross(o, a, q), Cross(o, b, p));
    hide Cross;
  }

  // ----- Four and five points -----

  ghost predicate FreeFive(a: Point, b: Point, c: Point, p: Point, q: Point) {
    FreeAround(a, b, c, p, q) && FreeFour(b, c, p, q)
  }

  /** What `Five` says of the lines through one point. */
  predicate Around(ab: bool, ap: bool, aq: bool, bp: bool, bq: bool, pq: bool) {
    !(ab == pq && ap != bq && aq == bp) && !(ab != pq && ap == bq && aq != bp)
  }

  /** What `Four` says of four points. */
  predicate Within(abc: bool, abp: bool, acp: bool, bcp: bool) {
    abp == bcp == !acp ==> abc == abp
  }

  ghost predicate Cyclic(a: Point, b: Point, c: Point) {
    && Left(a, b, c) == Left(b, c, a) == Left(c, a, b)
    && Left(b, a, c) == Left(a, c, b) == Left(c, b, a) == !Left(a, b, c)
  }

  /** All there is to say about five points. */
  lemma Facts(a: Point, b: Point, c: Point, p: Point, q: Point)
    requires FreeFive(a, b, c, p, q)
    ensures Around(Left(a, b, c), Left(a, b, p), Left(a, b, q), Left(a, c, p), Left(a, c, q), Left(a, p, q))
    ensures Around(!Left(a, b, c), !Left(a, b, p), !Left(a, b, q), Left(b, c, p), Left(b, c, q), Left(b, p, q))
    ensures Around(Left(a, b, c), !Left(a, c, p), !Left(a, c, q), !Left(b, c, p), !Left(b, c, q), Left(c, p, q))
    ensures Around(Left(a, b, p), Left(a, c, p), !Left(a, p, q), Left(b, c, p), !Left(b, p, q), !Left(c, p, q))
    ensures Around(Left(a, b, q), Left(a, c, q), Left(a, p, q), Left(b, c, q), Left(b, p, q), Left(c, p, q))
    ensures Within(Left(a, b, c), Left(a, b, p), Left(a, c, p), Left(b, c, p))
    ensures Within(Left(a, b, c), Left(a, b, q), Left(a, c, q), Left(b, c, q))
    ensures Within(Left(a, b, p), Left(a, b, q), Left(a, p, q), Left(b, p, q))
    ensures Within(Left(a, c, p), Left(a, c, q), Left(a, p, q), Left(c, p, q))
    ensures Within(Left(b, c, p), Left(b, c, q), Left(b, p, q), Left(c, p, q))
    ensures Cyclic(a, b, c) && Cyclic(a, b, p) && Cyclic(a, b, q) && Cyclic(a, c, p) && Cyclic(a, c, q)
    ensures Cyclic(a, p, q) && Cyclic(b, c, p) && Cyclic(b, c, q) && Cyclic(b, p, q) && Cyclic(c, p, q)
  {
    Three(a, b, c); Three(a, b, p); Three(a, b, q); Three(a, c, p); Three(a, c, q);
    Three(a, p, q); Three(b, c, p); Three(b, c, q); Three(b, p, q); Three(c, p, q);
    hide Free, Left;
    Five(a, b, c, p, q); Five(b, a, c, p, q); Five(c, a, b, p, q); Five(p, a, b, c, q); Five(q, a, b, c, p);
    Four(a, b, c, p); Four(a, b, c, q); Four(a, b, p, q); Four(a, c, p, q); Four(b, c, p, q);
  }

  // ----- Before and after -----

  /** `d` is a direction. */
  predicate Directed(d: Point) { d.x != 0.0 || d.y != 0.0 }

  /** The direction a quarter turn to the left. */
  function Quarter(d: Point): Point { Point(-d.y, d.x) }

  function Opposite(d: Point): Point { Point(-d.x, -d.y) }

  /** `p` comes before `q` in direction `d`; points side by side are ordered from right to left. */
  predicate Before(d: Point, p: Point, q: Point) {
    Along(d, p) < Along(d, q) || (Along(d, p) == Along(d, q) && Along(Quarter(d), p) < Along(Quarter(d), q))
  }

  lemma SquaresAdd(x: real, y: real) returns (n: real)
    requires x != 0.0 || y != 0.0
    ensures n == x * x + y * y && n > 0.0
  {
    var p := Product(x, x);
    var q := Product(y, y);
    n := p + q;
  }

  lemma NoVector(a: real, b: real, x: real, y: real)
    requires (a != 0.0 || b != 0.0) && a * x + b * y == 0.0 && a * y - b * x == 0.0
    ensures x == 0.0 && y == 0.0
  {
    var n := SquaresAdd(a, b);
    assert a * (a * x + b * y) - b * (a * y - b * x) == n * x;
    assert b * (a * x + b * y) + a * (a * y - b * x) == n * y;
    var nx := Product(n, x);
    var ny := Product(n, y);
  }

  lemma BothAlong(d: Point, p: Point, q: Point)
    requires Directed(d) && Along(d, p) == Along(d, q) && Along(Quarter(d), p) == Along(Quarter(d), q)
    ensures p == q
  {
    NoVector(d.x, d.y, p.x - q.x, p.y - q.y);
  }

  lemma Order(d: Point, p: Point, q: Point)
    requires Directed(d) && p != q
    ensures Before(d, p, q) == !Before(d, q, p)
  {
    if !Before(d, p, q) && !Before(d, q, p) { BothAlong(d, p, q); }
  }

  lemma OrderOn(d: Point, p: Point, q: Point, r: Point)
    requires Before(d, p, q) && Before(d, q, r)
    ensures Before(d, p, r)
  {
    hide Along;
  }

  lemma OppositeOrder(d: Point, p: Point, q: Point)
    ensures Before(Opposite(d), p, q) == Before(d, q, p)
  {
    assert Along(Opposite(d), p) == -Along(d, p) && Along(Opposite(d), q) == -Along(d, q);
    assert Along(Quarter(Opposite(d)), p) == -Along(Quarter(d), p);
    assert Along(Quarter(Opposite(d)), q) == -Along(Quarter(d), q);
  }

  lemma FanSum(d: Point, o: Point, a: Point, b: Point, c: Point)
    ensures Cross(o, a, b) * (Along(d, c) - Along(d, o)) - Cross(o, a, c) * (Along(d, b) - Along(d, o))
            + Cross(o, b, c) * (Along(d, a) - Along(d, o)) == 0.0
  {
  }

  /** The sign of a pair of numbers, the second one counting only if the first is zero. */
  function Sign(f: real, g: real): int {
    if f > 0.0 || (f == 0.0 && g > 0.0) then 1 else if f == 0.0 && g == 0.0 then 0 else -1
  }

  lemma SignTimes(x: real, f: real, g: real)
    requires x != 0.0
    ensures Sign(x * f, x * g) == if x > 0.0 then Sign(f, g) else -Sign(f, g)
  {
    if f != 0.0 { Signs(x, f); }
    if g != 0.0 { Signs(x, g); }
  }

  lemma BeforeIsSign(d: Point, p: Point, q: Point)
    requires Directed(d) && p != q
    ensures Sign(Along(d, q) - Along(d, p), Along(Quarter(d), q) - Along(Quarter(d), p)) ==
            if Before(d, p, q) then 1 else -1
  {
    Order(d, p, q);
    hide Along;
  }

  lemma SignsCancel(f0: real, g0: real, f1: real, g1: real, f2: real, g2: real)
    requires f0 - f1 + f2 == 0.0 && g0 - g1 + g2 == 0.0
    ensures !(Sign(f0, g0) == 1 && Sign(f1, g1) == -1 && Sign(f2, g2) == 1)
    ensures !(Sign(f0, g0) == -1 && Sign(f1, g1) == 1 && Sign(f2, g2) == -1)
  {
  }

  lemma FanSigns(x0: real, x1: real, x2: real, f0: real, g0: real, f1: real, g1: real, f2: real, g2: real)
    requires x0 != 0.0 && x1 != 0.0 && x2 != 0.0
    requires x0 * f0 - x1 * f1 + x2 * f2 == 0.0 && x0 * g0 - x1 * g1 + x2 * g2 == 0.0
    requires Sign(f0, g0) != 0 && Sign(f1, g1) != 0 && Sign(f2, g2) != 0
    ensures Around(x0 > 0.0, x1 > 0.0, Sign(f2, g2) == 1, x2 > 0.0, Sign(f1, g1) == 1, Sign(f0, g0) == 1)
  {
    SignTimes(x0, f0, g0); SignTimes(x1, f1, g1); SignTimes(x2, f2, g2);
    SignsCancel(x0 * f0, x0 * g0, x1 * f1, x1 * g1, x2 * f2, x2 * g2);
  }

  /** `Five` with one of the points infinitely far to the left of direction `d`. */
  lemma Fan(d: Point, o: Point, a: Point, b: Point, c: Point)
    requires Directed(d) && Free(o, a, b) && Free(o, a, c) && Free(o, b, c)
    ensures Around(Left(o, a, b), Left(o, a, c), Before(d, o, a), Left(o, b, c), Before(d, o, b), Before(d, o, c))
  {
    Three(o, a, b); Three(o, a, c);
    FanSum(d, o, a, b, c);
    FanSum(Quarter(d), o, a, b, c);
    BeforeIsSign(d, o, a); BeforeIsSign(d, o, b); BeforeIsSign(d, o, c);
    hide Cross, Along, Quarter, Before, Sign;
    var e := Quarter(d);
    FanSigns(Cross(o, a, b), Cross(o, a, c), Cross(o, b, c),
      Along(d, c) - Along(d, o), Along(e, c) - Along(e, o), Along(d, b) - Along(d, o), Along(e, b) - Along(e, o),
      Along(d, a) - Along(d, o), Along(e, a) - Along(e, o));
  }

  ghost predicate Lined(d: Point, p: Point, q: Point) {
    Before(d, p, q) == !Before(d, q, p)
  }

  /** Three points come in some order. */
  ghost predicate Chained(d: Point, p: Point, q: Point, r: Point) {
    !(Before(d, p, q) == Before(d, q, r) == Before(d, r, p))
  }

  lemma OrdersChained(d: Point, p: Point, q: Point, r: Point)
    requires Directed(d) && p != q && q != r && p != r
    ensures Chained(d, p, q, r)
  {
    Order(d, p, q); Order(d, q, r); Order(d, p, r);
    hide Before;
    if Before(d, p, q) && Before(d, q, r) { OrderOn(d, p, q, r); }
    if Before(d, r, q) && Before(d, q, p) { OrderOn(d, r, q, p); }
  }

  /** All there is to say about four points and their order. */
  lemma Ordered(d: Point, a: Point, b: Point, c: Point, p: Point)
    requires Directed(d) && FreeFour(a, b, c, p)
    ensures Around(Left(a, b, c), Left(a, b, p), Before(d, a, b), Left(a, c, p), Before(d, a, c), Before(d, a, p))
    ensures Around(!Left(a, b, c), !Left(a, b, p), Before(d, b, a), Left(b, c, p), Before(d, b, c), Before(d, b, p))
    ensures Around(Left(a, b, c), !Left(a, c, p), Before(d, c, a), !Left(b, c, p), Before(d, c, b), Before(d, c, p))
    ensures Around(Left(a, b, p), Left(a, c, p), Before(d, p, a), Left(b, c, p), Before(d, p, b), Before(d, p, c))
    ensures Within(Left(a, b, c), Left(a, b, p), Left(a, c, p), Left(b, c, p))
    ensures Cyclic(a, b, c) && Cyclic(a, b, p) && Cyclic(a, c, p) && Cyclic(b, c, p)
    ensures Lined(d, a, b) && Lined(d, a, c) && Lined(d, a, p) && Lined(d, b, c) && Lined(d, b, p) && Lined(d, c, p)
    ensures Chained(d, a, b, c) && Chained(d, a, b, p) && Chained(d, a, c, p) && Chained(d, b, c, p)
  {
    Three(a, b, c); Three(a, b, p); Three(a, c, p); Three(b, c, p);
    Order(d, a, b); Order(d, a, c); Order(d, a, p); Order(d, b, c); Order(d, b, p); Order(d, c, p);
    OrdersChained(d, a, b, c); OrdersChained(d, a, b, p); OrdersChained(d, a, c, p); OrdersChained(d, b, c, p);
    hide Free, Left, Before;
    Fan(d, a, b, c, p); Fan(d, b, a, c, p); Fan(d, c, a, b, p); Fan(d, p, a, b, c);
    Four(a, b, c, p);
  }

  // ----- Crossings -----

  /** The segments from `a` to `b` and from `p` to `q` cross. */
  predicate Crossing(a: Point, b: Point, p: Point, q: Point) {
    Left(a, b, p) != Left(a, b, q) && Left(p, q, a) != Left(p, q, b)
  }

  predicate In(a: Point, b: Point, c: Point, p: Point) {
    Left(a, b, p) && Left(b, c, p) && Left(c, a, p)
  }

  /** A segment that ends outside a triangle and crosses two of its sides at most at the corners does not cross
      the third. */
  lemma EarClear(a: Point, b: Point, c: Point, p: Point, q: Point)
    requires FreeFive(a, b, c, p, q) && Left(a, b, c) && !In(a, b, c, p) && !In(a, b, c, q)
    requires !Crossing(a, b, p, q) && !Crossing(b, c, p, q)
    ensures !Crossing(a, c, p, q)
  {
    Facts(a, b, c, p, q);
    hide Left, Free;
  }

  lemma CrossingTurned(a: Point, b: Point, p: Point, q: Point)
    requires FreeFour(a, b, p, q)
    ensures Crossing(a, b, p, q) == Crossing(b, a, p, q) == Crossing(a, b, q, p) == Crossing(p, q, a, b)
  {
    Three(a, b, p); Three(a, b, q); Three(a, p, q); Three(b, p, q);
  }

  /** The segments from `a` to `b` and from `p` to `q` have a point in common between their ends. */
  predicate Shares(a: Point, b: Point, p: Point, q: Point, u: real, v: real) {
    && 0.0 < u < 1.0 && 0.0 < v < 1.0
    && a.x + u * (b.x - a.x) == p.x + v * (q.x - p.x) && a.y + u * (b.y - a.y) == p.y + v * (q.y - p.y)
  }

  lemma SharedSides(a: Point, b: Point, p: Point, q: Point, u: real, v: real)
    requires Shares(a, b, p, q, u, v)
    ensures (1.0 - u) * Cross(p, q, a) + u * Cross(p, q, b) == 0.0
  {
    var x, y := q.x - p.x, q.y - p.y;
    var mx, my := v * x, v * y;
    assert a.x + u * (b.x - a.x) - p.x == mx && a.y + u * (b.y - a.y) - p.y == my;
    assert x * my - y * mx == 0.0;
    assert (1.0 - u) * Cross(p, q, a) + u * Cross(p, q, b) ==
      x * (a.y + u * (b.y - a.y) - p.y) - y * (a.x + u * (b.x - a.x) - p.x);
  }

  lemma OppositeSigns(u: real, x: real, y: real)
    requires 0.0 < u < 1.0 && (1.0 - u) * x + u * y == 0.0 && x != 0.0 && y != 0.0
    ensures (x > 0.0) != (y > 0.0)
  {
    Signs(1.0 - u, x);
    Signs(u, y);
  }

  lemma Between(x: real, y: real) returns (u: real)
    requires x != 0.0 && y != 0.0 && (x > 0.0) != (y > 0.0)
    ensures 0.0 < u < 1.0 && u * (x - y) == x
  {
    u := x / (x - y);
    assert u * (x - y) == x;
    if x > 0.0 {
      assert u <= 0.0 ==> u * (x - y) <= 0.0;
      assert u >= 1.0 ==> (u - 1.0) * (x - y) >= 0.0;
    } else {
      assert u <= 0.0 ==> u * (x - y) >= 0.0;
      assert u >= 1.0 ==> (u - 1.0) * (x - y) <= 0.0;
    }
  }

  lemma MeetsAt(a: Point, b: Point, p: Point, q: Point, d: real, u: real, v: real)
    requires d != 0.0 && d == (b.x - a.x) * (q.y - p.y) - (b.y - a.y) * (q.x - p.x)
    requires u * d == Cross(p, q, a) && v * d == -Cross(a, b, p)
    ensures a.x + u * (b.x - a.x) == p.x + v * (q.x - p.x) && a.y + u * (b.y - a.y) == p.y + v * (q.y - p.y)
  {
    var x, y := b.x - a.x, b.y - a.y;
    var z, w := q.x - p.x, q.y - p.y;
    assert d * (a.x - p.x) + Cross(p, q, a) * x + Cross(a, b, p) * z == 0.0;
    assert d * (a.y - p.y) + Cross(p, q, a) * y + Cross(a, b, p) * w == 0.0;
    var ex, ey := a.x + u * x - (p.x + v * z), a.y + u * y - (p.y + v * w);
    assert d * ex == d * (a.x - p.x) + (u * d) * x - (v * d) * z;
    assert d * ey == d * (a.y - p.y) + (u * d) * y - (v * d) * w;
    var dx := Product(d, ex);
    var dy := Product(d, ey);
  }

  lemma Meeting(a: Point, b: Point, p: Point, q: Point) returns (u: real, v: real)
    requires FreeFour(a, b, p, q) && Crossing(a, b, p, q)
    ensures Shares(a, b, p, q, u, v)
  {
    Three(a, p, q);
    Three(b, p, q);
    u := Between(Cross(p, q, a), Cross(p, q, b));
    v := Between(Cross(a, b, p), Cross(a, b, q));
    var d := Cross(p, q, a) - Cross(p, q, b);
    assert d == (b.x - a.x) * (q.y - p.y) - (b.y - a.y) * (q.x - p.x);
    assert Cross(a, b, p) - Cross(a, b, q) == -d;
    assert v * d == -Cross(a, b, p) by { assert v * (-d) == -(v * d); }
    MeetsAt(a, b, p, q, d, u, v);
  }

  /** Two segments cross exactly when they have a point in common. */
  lemma CrossingIff(a: Point, b: Point, p: Point, q: Point)
    requires FreeFour(a, b, p, q)
    ensures Crossing(a, b, p, q) <==> exists u, v :: Shares(a, b, p, q, u, v)
  {
    if Crossing(a, b, p, q) {
      var u, v := Meeting(a, b, p, q);
    }
    if u, v :| Shares(a, b, p, q, u, v) {
      Three(a, p, q);
      Three(b, p, q);
      SharedSides(a, b, p, q, u, v);
      OppositeSigns(u, Cross(p, q, a), Cross(p, q, b));
      assert Shares(p, q, a, b, v, u);
      SharedSides(p, q, a, b, v, u);
      OppositeSigns(v, Cross(a, b, p), Cross(a, b, q));
    }
  }

  /** Around the corner `w` of a triangle its other corner `v` is nearer to `z` than to `p`. */
  lemma NearestOn(w: Point, u: Point, p: Point, z: Point, z': Point)
    requires FreeAround(w, u, p, z, z') && Left(w, u, p) && Left(w, u, z) && Left(w, u, z')
    requires Left(w, p, z) && Left(w, z, z')
    ensures Left(w, p, z')
  {
    Five(w, u, p, z, z');
  }

  /** `p` is not in the part of triangle `u`, `v`, `w` that is nearer to `v` than `z` is. */
  predicate NotNearer(u: Point, v: Point, w: Point, z: Point, p: Point) {
    !In(u, v, w, p) || Left(w, p, z)
  }

  ghost predicate FreeSix(u: Point, v: Point, w: Point, z: Point, p: Point, q: Point) {
    && FreeFive(u, v, w, z, p) && FreeFive(u, v, w, z, q) && FreeFive(u, v, w, p, q) && FreeFive(u, v, z, p, q)
    && FreeFive(u, w, z, p, q) && FreeFive(v, w, z, p, q)
  }

  /** The segment from a corner to the nearest point in the triangle is not crossed by segments that cross
      neither side at the corner. */
  lemma ChordClear(u: Point, v: Point, w: Point, z: Point, p: Point, q: Point)
    requires FreeSix(u, v, w, z, p, q) && Left(u, v, w) && In(u, v, w, z)
    requires NotNearer(u, v, w, z, p) && NotNearer(u, v, w, z, q)
    requires !Crossing(u, v, p, q) && !Crossing(v, w, p, q)
    ensures !Crossing(v, z, p, q)
  {
    Facts(u, v, w, z, p); Facts(u, v, w, z, q); Facts(u, v, w, p, q);
    Facts(u, v, z, p, q); Facts(u, w, z, p, q); Facts(v, w, z, p, q);
    hide Left, Free;
  }

  lemma ChordClearFrom(u: Point, v: Point, w: Point, z: Point, q: Point)
    requires FreeFive(u, v, w, z, q) && Left(u, v, w) && In(u, v, w, z) && NotNearer(u, v, w, z, q)
    ensures !Crossing(v, w, u, q) ==> !Crossing(v, z, u, q)
    ensures !Crossing(u, v, w, q) ==> !Crossing(v, z, w, q)
  {
    Facts(u, v, w, z, q);
    hide Left, Free;
  }

  /** A point before three others is outside their triangle. */
  lemma FirstOutside(d: Point, v: Point, a: Point, b: Point, c: Point)
    requires Directed(d) && FreeFour(v, a, b, c) && Before(d, v, a) && Before(d, v, b) && Before(d, v, c)
    ensures !In(a, b, c, v) && !In(c, b, a, v)
  {
    Ordered(d, v, a, b, c);
    hide Left, Free, Before;
  }

  /** When the first of four vertices is an ear, the other three run the same way around. */
  lemma LastThree(d: Point, v: Point, w: Point, t: Point, u: Point)
    requires Directed(d) && FreeFour(v, w, t, u) && Before(d, v, w) && Before(d, v, t) && Before(d, v, u)
    requires Left(u, v, w) && !In(u, v, w, t) && !Crossing(v, w, t, u) && !Crossing(w, t, u, v)
    ensures Left(w, t, u)
  {
    Ordered(d, v, w, t, u);
    hide Left, Free, Before;
  }

  /** Clipping a neighbour of the first vertex does not change the way the first vertex turns. */
  lemma StillTurns(d: Point, v: Point, w: Point, x: Point, u: Point)
    requires Directed(d) && FreeFour(v, w, x, u) && Before(d, v, w) && Before(d, v, x) && Before(d, v, u)
    requires Left(u, v, w)
    ensures Left(v, w, x) && !In(v, w, x, u) && !Crossing(u, v, w, x) ==> Left(u, v, x)
    ensures Left(x, u, v) && !In(x, u, v, w) && !Crossing(v, w, x, u) ==> Left(x, v, w)
  {
    Ordered(d, v, w, x, u);
    hide Left, Free, Before;
  }

  // ----- Rays -----

  /** How often, and which way around, the edge from `a` to `b` passes the ray that starts at `q` and points to the
      left of direction `d`: 1 for counter-clockwise. */
  function Hit(d: Point, q: Point, a: Point, b: Point): int {
    if Before(d, a, q) && Before(d, q, b) && !Left(a, b, q) then -1
    else if Before(d, b, q) && Before(d, q, a) && Left(a, b, q) then 1
    else 0
  }

  lemma HitTurned(d: Point, q: Point, a: Point, b: Point)
    requires Directed(d) && Free(a, b, q)
    ensures Hit(d, q, b, a) == -Hit(d, q, a, b)
  {
    Three(a, b, q);
    Order(d, a, q); Order(d, b, q); Order(d, a, b);
    hide Left, Before;
  }

  /** `v` lies on the left of the segment from `p` to `q`. */
  function Above(d: Point, p: Point, q: Point, v: Point): int {
    if Before(d, p, v) && Before(d, v, q) && Left(p, q, v) then 1 else 0
  }

  /** The rays from both ends of a segment are passed alike by an edge that does not cross the segment, but for
      the ends of the edge that lie between them. */
  lemma HitMoves(d: Point, a: Point, b: Point, p: Point, q: Point)
    requires Directed(d) && FreeFour(a, b, p, q) && Before(d, p, q) && !Crossing(a, b, p, q)
    ensures Hit(d, q, a, b) - Hit(d, p, a, b) == Above(d, p, q, b) - Above(d, p, q, a)
  {
    Ordered(d, a, b, p, q);
    hide Left, Free, Before;
  }

  /** The edges of a triangle pass the ray from a point inside once. */
  lemma HitTriangle(d: Point, a: Point, b: Point, c: Point, q: Point)
    requires Directed(d) && FreeFour(a, b, c, q) && Left(a, b, c)
    ensures Hit(d, q, a, b) + Hit(d, q, b, c) + Hit(d, q, c, a) == if In(a, b, c, q) then 1 else 0
  {
    Ordered(d, a, b, c, q);
    hide Left, Free, Before;
  }

  /** A point outside the angle at the first vertex `v`: the two edges at `v`, and the ends of the others that lie
      between, cancel out. */
  lemma HitOutside(d: Point, v: Point, a: Point, b: Point, q: Point)
    requires Directed(d) && FreeFour(v, a, b, q) && Before(d, v, a) && Before(d, v, b) && Before(d, v, q)
    requires Left(v, a, b) && (Left(v, b, q) || Left(v, q, a))
    ensures Hit(d, q, b, v) + Hit(d, q, v, a) + Above(d, v, q, b) - Above(d, v, q, a) == 0
  {
    Ordered(d, v, a, b, q);
    hide Left, Free, Before;
  }

  lemma HitFirst(d: Point, v: Point, a: Point, b: Point)
    requires Directed(d) && Free(v, a, b) && Before(d, v, a) && Before(d, v, b)
    ensures Hit(d, v, a, b) == 0
  {
    Three(v, a, b);
    Order(d, v, a); Order(d, v, b);
  }
}
