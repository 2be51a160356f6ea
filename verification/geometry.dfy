/**
  Plane geometry used by the bouncing simulation: points (also used as
  displacement vectors), the dot product, and reflection of a velocity about
  the normal of a boundary edge.

  Coordinates are exact reals; the program works in single-precision floats,
  whose rounding is not modelled.
 */
module Geometry {

  /** A point of the plane, or a displacement between two points. */
  datatype Point = Point(x: real, y: real)

  const Origin: Point := Point(0.0, 0.0)

  /** p moved by v. */
  function Add(p: Point, v: Point): Point {
    Point(p.x + v.x, p.y + v.y)
  }

  /** v stretched by the factor k. */
  function Scale(k: real, v: Point): Point {
    Point(k * v.x, k * v.y)
  }

  function Dot(u: Point, v: Point): real {
    u.x * v.x + u.y * v.y
  }

  /** Squared length of a vector: zero exactly for the zero vector. */
  function NormSq(v: Point): (r: real)
    ensures r >= 0.0
    ensures r == 0.0 <==> v == Origin
  {
    SquareIs(v.x);
    SquareIs(v.y);
    assert Dot(v, v) == Square(v.x) + Square(v.y);
    Dot(v, v)
  }

  /*
    The solver's arithmetic is incomplete on a product of a term with itself,
    so squares go through Mul, which hides the repeated factor until needed.
   */
  function Mul(a: real, b: real): real {
    a * b
  }

  lemma MulPositive(a: real, b: real)
    requires (a > 0.0 && b > 0.0) || (a < 0.0 && b < 0.0)
    ensures Mul(a, b) > 0.0
  {
    if a < 0.0 {
      assert a * b == (-a) * (-b);
    }
  }

  function Square(a: real): (r: real)
    ensures r >= 0.0
    ensures a != 0.0 ==> r > 0.0
  {
    if a != 0.0 then MulPositive(a, a); Mul(a, a) else 0.0
  }

  lemma SquareIs(a: real)
    ensures Square(a) == a * a
  {
  }

  /** Cross product: zero exactly when the two vectors are parallel. */
  function Cross(u: Point, v: Point): real {
    u.x * v.y - u.y * v.x
  }

  /**
    The (unnormalised) normal of the segment from p1 to p2: the segment's
    direction turned a quarter turn clockwise.
   */
  function EdgeNormal(p1: Point, p2: Point): (m: Point)
    ensures m == Origin <==> p1 == p2
  {
    Point(p2.y - p1.y, -(p2.x - p1.x))
  }

  /** The normal is perpendicular to the segment and as long as it. */
  lemma EdgeNormalPerpendicular(p1: Point, p2: Point)
    ensures Dot(EdgeNormal(p1, p2), Point(p2.x - p1.x, p2.y - p1.y)) == 0.0
    ensures NormSq(EdgeNormal(p1, p2)) == NormSq(Point(p2.x - p1.x, p2.y - p1.y))
  {
    var d := Point(p2.x - p1.x, p2.y - p1.y);
    assert EdgeNormal(p1, p2) == Point(d.y, -d.x);
    assert Dot(Point(d.y, -d.x), d) == d.y * d.x - d.x * d.y;
  }

  /**
    Reflection of v about the line whose normal is m, written without a
    square root: v - 2 (v.m)/(m.m) m.
   */
  function Reflect(v: Point, m: Point): (r: Point)
    requires m != Origin
    ensures Dot(v, m) == 0.0 ==> r == v
  {
    var k := 2.0 * Dot(v, m) / NormSq(m);
    Point(v.x - k * m.x, v.y - k * m.y)
  }

  /**
    The reflection exactly as the program computes it: normalise m with its
    length len, take the dot product with the unit normal n, and subtract
    2 (v.n) n. The length is a parameter because reals have no square root
    here; any positive len whose square is m.m is the square root.
   */
  function SourceReflect(v: Point, m: Point, len: real): (r: Point)
    requires len > 0.0
    ensures Dot(v, m) == 0.0 ==> r == v
  {
    DotDivide(v, m, len);
    var n := Point(m.x / len, m.y / len);
    var d := v.x * n.x + v.y * n.y;
    Point(v.x - 2.0 * d * n.x, v.y - 2.0 * d * n.y)
  }

  /** Dividing both factors of a product by l divides the product by l * l. */
  lemma DivideBoth(a: real, b: real, l: real)
    requires l != 0.0
    ensures (a / l) * (b / l) == (a * b) / Square(l)
  {
    var x, y := a / l, b / l;
    assert a == x * l;
    assert b == y * l;
    var s := Square(l);
    assert s == l * l;
    assert a * b == (x * y) * s;
  }

  /** Dividing a dot product's second argument by l divides the product by l. */
  lemma DotDivide(v: Point, m: Point, l: real)
    requires l != 0.0
    ensures Dot(v, Point(m.x / l, m.y / l)) == Dot(v, m) / l
  {
    var a, b := m.x / l, m.y / l;
    assert m.x == a * l && m.y == b * l;
    assert Dot(v, m) == (v.x * a + v.y * b) * l;
  }

  /** The normalised correction term 2 (d/l)(a/l) is the sqrt-free one, 2 d / l^2 times a. */
  lemma TwiceDivided(d: real, a: real, l: real)
    requires l != 0.0
    ensures 2.0 * (d / l) * (a / l) == 2.0 * d / Square(l) * a
  {
    DivideBoth(d, a, l);
    var q := Square(l);
    assert (d * a) / q == (d / q) * a;
  }

  /** The sqrt-free reflection equals the program's normalised one. */
  lemma SourceReflectAgrees(v: Point, m: Point, len: real)
    requires len > 0.0 && Square(len) == NormSq(m)
    ensures m != Origin
    ensures SourceReflect(v, m, len) == Reflect(v, m)
  {
    var n := Point(m.x / len, m.y / len);
    var d := v.x * n.x + v.y * n.y;
    DotDivide(v, m, len);
    assert d == Dot(v, m) / len;
    TwiceDivided(Dot(v, m), m.x, len);
    TwiceDivided(Dot(v, m), m.y, len);
  }

  /** The dot product is linear in its first argument. */
  lemma DotSubScale(v: Point, m: Point, w: Point, k: real)
    ensures Dot(Point(v.x - k * m.x, v.y - k * m.y), w) == Dot(v, w) - k * Dot(m, w)
  {
  }

  /** The dot product scales with its first argument. */
  lemma DotScale(k: real, u: Point, w: Point)
    ensures Dot(Scale(k, u), w) == k * Dot(u, w)
  {
  }

  lemma DotSymmetric(u: Point, v: Point)
    ensures Dot(u, v) == Dot(v, u)
  {
  }

  /** Reflection reverses the component of the velocity along the normal. */
  lemma ReflectReversesNormal(v: Point, m: Point)
    requires m != Origin
    ensures Dot(Reflect(v, m), m) == -Dot(v, m)
  {
    var q := NormSq(m);
    var k := 2.0 * Dot(v, m) / q;
    DotSubScale(v, m, m, k);
    assert k * q == 2.0 * Dot(v, m);
  }

  /** Reflection keeps the tangential component (along the edge direction). */
  lemma ReflectKeepsTangent(v: Point, m: Point)
    requires m != Origin
    ensures Cross(Reflect(v, m), m) == Cross(v, m)
  {
    var k := 2.0 * Dot(v, m) / NormSq(m);
    assert Cross(Reflect(v, m), m) == Cross(v, m) - k * Cross(m, m);
  }

  /** Reflection preserves the speed: |v'|^2 == |v|^2. */
  lemma ReflectPreservesNormSq(v: Point, m: Point)
    requires m != Origin
    ensures NormSq(Reflect(v, m)) == NormSq(v)
  {
    var d := Dot(v, m);
    var k := 2.0 * d / NormSq(m);
    var r := Reflect(v, m);
    ReflectReversesNormal(v, m);
    DotSubScale(v, m, r, k);
    DotSymmetric(v, r);
    DotSubScale(v, m, v, k);
    DotSymmetric(m, v);
  }

  /** Reflecting twice about the same normal gives back the original velocity. */
  lemma ReflectInvolution(v: Point, m: Point)
    requires m != Origin
    ensures Reflect(Reflect(v, m), m) == v
  {
    var q := NormSq(m);
    var k := 2.0 * Dot(v, m) / q;
    var r := Reflect(v, m);
    ReflectReversesNormal(v, m);
    var k' := 2.0 * Dot(r, m) / q;
    assert k' == -k;
  }
}
