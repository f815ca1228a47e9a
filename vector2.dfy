/** The `Vector2` value type of bouncierApp.cpp, over exact reals. The in-place
    `+=` and `-=` of the source are assignments of `Add` and `Sub` here: a
    `Vector2` is a plain value, so updating one in place and replacing it
    are the same thing. */
module Vectors {

  datatype Vector2 = Vector2(x: real, y: real)

  function Add(a: Vector2, b: Vector2): Vector2 { Vector2(a.x + b.x, a.y + b.y) }

  function Sub(a: Vector2, b: Vector2): Vector2 { Vector2(a.x - b.x, a.y - b.y) }

  /** `operator*(const Vector2&)`: the dot product. */
  function Dot(a: Vector2, b: Vector2): real { a.x * b.x + a.y * b.y }

  /** Both `v * s` and `s * v`: they compute the same vector. */
  function Scale(s: real, v: Vector2): Vector2 { Vector2(s * v.x, s * v.y) }

  function Neg(v: Vector2): Vector2 { Vector2(-v.x, -v.y) }

  /** Rotation by a quarter turn counter-clockwise. */
  function Perp(v: Vector2): Vector2 { Vector2(-v.y, v.x) }

  function SqMag(v: Vector2): (m: real)
    ensures m >= 0.0
  {
    v.x * v.x + v.y * v.y
  }

  ghost predicate Unit(d: Vector2) { SqMag(d) == 1.0 }

  /** Below this magnitude `normalize` leaves its vector alone. */
  const NormalizeEpsilon: real := 0.00001

  /** `normalize`, with the magnitude `m` (the source's `mag()`, a square root)
      given by the caller. */
  function Normalize(v: Vector2, m: real): (r: Vector2)
    requires 0.0 <= m && m * m == SqMag(v)
    ensures m < NormalizeEpsilon ==> r == v
    ensures NormalizeEpsilon <= m ==> Unit(r) && r == Scale(1.0 / m, v)
  {
    if m < NormalizeEpsilon then v
    else
      var d := 1.0 / m;
      Vector2(v.x * d, v.y * d)
  }

  /** `reflect`: specular reflection of `incident` in the line whose normal is `normal`. */
  function Reflect(incident: Vector2, normal: Vector2): Vector2
  {
    Add(incident, Scale(Dot(incident, normal) * -2.0, normal))
  }

  /** The quarter turn is orthogonal to its argument, keeps its length, and
      two of them negate. */
  lemma PerpProperties(v: Vector2)
    ensures Dot(v, Perp(v)) == 0.0
    ensures SqMag(Perp(v)) == SqMag(v)
    ensures Perp(Perp(v)) == Neg(v)
  {
  }

  /** Reflecting in a unit normal negates the normal component, keeps the
      tangential one, keeps the length and undoes itself. */
  lemma {:induction false} ReflectProperties(v: Vector2, n: Vector2)
    requires Unit(n)
    ensures Dot(Reflect(v, n), n) == -Dot(v, n)
    ensures Dot(Reflect(v, n), Perp(n)) == Dot(v, Perp(n))
    ensures SqMag(Reflect(v, n)) == SqMag(v)
    ensures Reflect(Reflect(v, n), n) == v
  {
    var a := Dot(v, n);
    var r := Reflect(v, n);
    AlongNormal(v, a * -2.0, n);
    ReflectScalars(a, SqMag(v), SqMag(n));
    assert Dot(r, n) == -a;
    var r2 := Reflect(r, n);
    assert r2 == Add(r, Scale(a * 2.0, n));
    UndoShift(v.x, a, n.x);
    UndoShift(v.y, a, n.y);
  }

  lemma ReflectScalars(a: real, s: real, k: real)
    requires k == 1.0
    ensures a + (a * -2.0) * k == -a
    ensures s + 2.0 * (a * -2.0) * a + (a * -2.0) * (a * -2.0) * k == s
  {
  }

  lemma UndoShift(v: real, a: real, n: real)
    ensures (v + (a * -2.0) * n) + (a * 2.0) * n == v
  {
  }

  /** Moving `v` by `t` along `d`: what happens to its coordinates along `d`
      and across it, and to its squared length. */
  lemma {:induction false} AlongNormal(v: Vector2, t: real, d: Vector2)
    ensures Dot(Add(v, Scale(t, d)), d) == Dot(v, d) + t * SqMag(d)
    ensures Dot(Add(v, Scale(t, d)), Perp(d)) == Dot(v, Perp(d))
    ensures SqMag(Add(v, Scale(t, d))) == SqMag(v) + 2.0 * t * Dot(v, d) + t * t * SqMag(d)
  {
    var vx, vy, dx, dy := v.x, v.y, d.x, d.y;
    assert Add(v, Scale(t, d)) == Vector2(vx + t * dx, vy + t * dy);
    ShiftAlong(vx, vy, t, dx, dy);
    ShiftAcross(vx, vy, t, dx, dy);
    ShiftLength(vx, vy, t, dx, dy);
  }

  lemma ShiftAlong(vx: real, vy: real, t: real, dx: real, dy: real)
    ensures (vx + t * dx) * dx + (vy + t * dy) * dy == (vx * dx + vy * dy) + t * (dx * dx + dy * dy)
  {
  }

  lemma ShiftAcross(vx: real, vy: real, t: real, dx: real, dy: real)
    ensures (vx + t * dx) * -dy + (vy + t * dy) * dx == vx * -dy + vy * dx
  {
  }

  lemma ShiftLength(vx: real, vy: real, t: real, dx: real, dy: real)
    ensures (vx + t * dx) * (vx + t * dx) + (vy + t * dy) * (vy + t * dy)
         == (vx * vx + vy * vy) + 2.0 * t * (vx * dx + vy * dy) + t * t * (dx * dx + dy * dy)
  {
  }
}
