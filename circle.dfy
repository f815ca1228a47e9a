/** The `Circle` body of bouncierApp.cpp and the per-body physics of
    `bouncierApp::update`: the wall step and the resolution of one
    overlapping pair. */
module Bodies {
  import opened Vectors

  datatype Circle = Circle(center: Vector2, vel: Vector2, radius: real)

  /** `Circle::mass` of a circle of the given radius: the disc's area plus
      one, with the source's literal for pi. */
  function Mass(radius: real): real
  {
    radius * radius * 3.14159265358979323846264338327 + 1.0
  }

  lemma SquareMonotone(x: real, y: real)
    requires 0.0 <= x < y
    ensures x * x < y * y
  {
    var p := x * y;
    assert x * x <= p;
    assert p < y * y;
  }

  /** No body is massless: the mass is at least one, and more than one
      unless the radius is zero. */
  lemma {:induction false} MassAtLeastOne(radius: real)
    ensures Mass(radius) >= 1.0
    ensures radius != 0.0 ==> Mass(radius) > 1.0
  {
    var a := if radius < 0.0 then -radius else radius;
    assert a * a == radius * radius;
    if radius != 0.0 { SquareMonotone(0.0, a); }
  }

  /** Mass grows strictly with the radius. */
  lemma {:induction false} MassIncreasing(r1: real, r2: real)
    requires 0.0 <= r1 < r2
    ensures Mass(r1) < Mass(r2)
  {
    SquareMonotone(r1, r2);
  }

  // ---------------------------------------------------------------------
  // Wall step (one axis at a time; both axes use the same code)
  // ---------------------------------------------------------------------

  /** The leading edge of a body at `pos` touches or crosses a wall of `[0, extent]`. */
  predicate Touches(pos: real, radius: real, extent: real)
  {
    pos - radius <= 0.0 || pos + radius >= extent
  }

  /** One axis of the wall step: the new position and velocity component. The
      low edge is tested first, so a body touching both is put against it. */
  function WallAxis(pos: real, vel: real, radius: real, extent: real): (r: (real, real))
    ensures 2.0 * radius <= extent ==> radius <= r.0 <= extent - radius
    ensures pos - radius <= 0.0 ==> r == (radius, -vel)
    ensures 0.0 < pos - radius && extent <= pos + radius ==> r == (extent - radius, -vel)
    ensures !Touches(pos, radius, extent) ==> r == (pos, vel)
  {
    if pos - radius <= 0.0 then (radius, vel * -1.0)
    else if pos + radius >= extent then (extent - radius, vel * -1.0)
    else (pos, vel)
  }

  /** The wall step of `update`: the y axis against `height`, then the x axis
      against `width`. */
  function WallStep(c: Circle, width: real, height: real): (r: Circle)
    ensures r.radius == c.radius
    ensures 2.0 * c.radius <= height ==> c.radius <= r.center.y <= height - c.radius
    ensures 2.0 * c.radius <= width ==> c.radius <= r.center.x <= width - c.radius
    ensures r.vel.y == (if Touches(c.center.y, c.radius, height) then -c.vel.y else c.vel.y)
    ensures r.vel.x == (if Touches(c.center.x, c.radius, width) then -c.vel.x else c.vel.x)
    ensures !Touches(c.center.y, c.radius, height) ==> r.center.y == c.center.y
    ensures !Touches(c.center.x, c.radius, width) ==> r.center.x == c.center.x
    // A body touching a wall is put against the wall it touched, the low one first.
    ensures c.center.y - c.radius <= 0.0 ==> r.center.y == c.radius
    ensures 0.0 < c.center.y - c.radius && height <= c.center.y + c.radius ==> r.center.y == height - c.radius
    ensures c.center.x - c.radius <= 0.0 ==> r.center.x == c.radius
    ensures 0.0 < c.center.x - c.radius && width <= c.center.x + c.radius ==> r.center.x == width - c.radius
  {
    var (py, vy) := WallAxis(c.center.y, c.vel.y, c.radius, height);
    var (px, vx) := WallAxis(c.center.x, c.vel.x, c.radius, width);
    Circle(Vector2(px, py), Vector2(vx, vy), c.radius)
  }

  // ---------------------------------------------------------------------
  // Pair resolution
  // ---------------------------------------------------------------------

  /** The new velocities `(of c, of o)` after the elastic exchange along the
      normal `d`, with masses `cm` and `om`. */
  function Exchange(cVel: Vector2, cm: real, oVel: Vector2, om: real, d: Vector2): (r: (Vector2, Vector2))
    requires cm >= 1.0 && om >= 1.0
  {
    var oPrime := Scale(Dot(oVel, d), d);
    var cPrime := Scale(Dot(cVel, d), d);
    var invTotalMass := 1.0 / (om + cm);
    var newO := Add(Add(Sub(oVel, oPrime), Scale((om - cm) * invTotalMass, oPrime)),
                    Scale(2.0 * cm * invTotalMass, cPrime));
    var newC := Add(Add(Sub(cVel, cPrime), Scale((cm - om) * invTotalMass, cPrime)),
                    Scale(2.0 * om * invTotalMass, oPrime));
    (newC, newO)
  }

  /** The one-dimensional elastic collision: the along-normal speed of the
      first body afterwards, given both masses and both speeds before. */
  function Elastic1D(m1: real, u1: real, m2: real, u2: real): real
    requires m1 + m2 > 0.0
  {
    ((m1 - m2) * u1 + 2.0 * m2 * u2) / (m1 + m2)
  }

  /** The one-dimensional exchange conserves momentum and kinetic energy and
      reverses the relative speed; equal masses swap their speeds. `v1` and
      `v2` are the speeds afterwards. */
  lemma {:induction false} Elastic1DProperties(m1: real, u1: real, m2: real, u2: real, v1: real, v2: real)
    requires m1 >= 1.0 && m2 >= 1.0
    requires v1 == Elastic1D(m1, u1, m2, u2) && v2 == Elastic1D(m2, u2, m1, u1)
    ensures m1 * v1 + m2 * v2 == m1 * u1 + m2 * u2
    ensures v1 - v2 == -(u1 - u2)
    ensures m1 * v1 * v1 + m2 * v2 * v2 == m1 * u1 * u1 + m2 * u2 * u2
    ensures m1 == m2 ==> v1 == u2 && v2 == u1
  {
    var M := m1 + m2;
    var A := (m1 - m2) * u1 + 2.0 * m2 * u2;
    var B := (m2 - m1) * u2 + 2.0 * m1 * u1;
    assert v1 == A / M && v2 == B / M;
    assert v1 * M == A && v2 * M == B;
    // momentum
    assert m1 * A + m2 * B == M * (m1 * u1 + m2 * u2);
    assert (m1 * v1 + m2 * v2) * M == (m1 * u1 + m2 * u2) * M;
    // restitution
    assert A - B == -(u1 - u2) * M;
    assert (v1 - v2) * M == -(u1 - u2) * M;
    // energy
    assert m1 * A * A + m2 * B * B == M * M * (m1 * u1 * u1 + m2 * u2 * u2);
    assert (m1 * v1 * v1 + m2 * v2 * v2) * (M * M) == m1 * A * A + m2 * B * B;
  }

  /** The exchange moves each velocity along `d` only, by the change of its
      one-dimensional along-normal speed. */
  lemma {:induction false} ExchangeAlongNormal(cVel: Vector2, cm: real, oVel: Vector2, om: real, d: Vector2)
    requires cm >= 1.0 && om >= 1.0
    ensures var a, b := Dot(oVel, d), Dot(cVel, d);
      && Exchange(cVel, cm, oVel, om, d).1 == Add(oVel, Scale(Elastic1D(om, a, cm, b) - a, d))
      && Exchange(cVel, cm, oVel, om, d).0 == Add(cVel, Scale(Elastic1D(cm, b, om, a) - b, d))
  {
    var a, b := Dot(oVel, d), Dot(cVel, d);
    var inv := 1.0 / (om + cm);
    assert 1.0 / (cm + om) == inv;
    Combine(oVel, a, b, d, (om - cm) * inv, 2.0 * cm * inv);
    Combine(cVel, b, a, d, (cm - om) * inv, 2.0 * om * inv);
    ElasticSplit(om, a, cm, b);
    ElasticSplit(cm, b, om, a);
  }

  /** The shape of `Exchange`'s sums: drop the own projection, add two
      multiples of projections on `d`. */
  lemma Combine(v: Vector2, a: real, b: real, d: Vector2, p: real, q: real)
    ensures Add(Add(Sub(v, Scale(a, d)), Scale(p, Scale(a, d))), Scale(q, Scale(b, d)))
         == Add(v, Scale(p * a + q * b - a, d))
  {
    CombineCoordinate(v.x, a, b, d.x, p, q);
    CombineCoordinate(v.y, a, b, d.y, p, q);
  }

  lemma CombineCoordinate(v: real, a: real, b: real, dd: real, p: real, q: real)
    ensures (v - a * dd) + p * (a * dd) + q * (b * dd) == v + (p * a + q * b - a) * dd
  {
  }

  /** `Exchange` multiplies by the inverse total mass where `Elastic1D` divides. */
  lemma ElasticSplit(m1: real, u1: real, m2: real, u2: real)
    requires m1 >= 1.0 && m2 >= 1.0
    ensures ((m1 - m2) * (1.0 / (m1 + m2))) * u1 + (2.0 * m2 * (1.0 / (m1 + m2))) * u2
         == Elastic1D(m1, u1, m2, u2)
  {
  }

  /** The collision block of `update`, for the moving body `c` and an
      overlapping candidate `o`, given the unit normal `d` from c's centre to
      o's and the distance `mag` between the centres. The velocities are
      exchanged elastically along `d`; then each centre is pushed half the
      overlap along `d`, apart. Returns the new `(c, o)`. */
  function Resolve(c: Circle, o: Circle, d: Vector2, mag: real): (r: (Circle, Circle))
    ensures r.0.radius == c.radius && r.1.radius == o.radius
  {
    MassAtLeastOne(c.radius);
    MassAtLeastOne(o.radius);
    var (newC, newO) := Exchange(c.vel, Mass(c.radius), o.vel, Mass(o.radius), d);
    var w := (c.radius + o.radius - mag) * 0.5;
    (Circle(Sub(c.center, Scale(w, d)), newC, c.radius),
     Circle(Add(o.center, Scale(w, d)), newO, o.radius))
  }

  /** The new velocities of `Resolve` in the form of `ExchangeAlongNormal`. */
  lemma {:induction false} ResolveVelocities(c: Circle, o: Circle, d: Vector2, mag: real)
    ensures var mc, mo := Mass(c.radius), Mass(o.radius);
      var a, b := Dot(o.vel, d), Dot(c.vel, d);
      && mc >= 1.0 && mo >= 1.0
      && Resolve(c, o, d, mag).1.vel == Add(o.vel, Scale(Elastic1D(mo, a, mc, b) - a, d))
      && Resolve(c, o, d, mag).0.vel == Add(c.vel, Scale(Elastic1D(mc, b, mo, a) - b, d))
  {
    MassAtLeastOne(c.radius);
    MassAtLeastOne(o.radius);
    ExchangeAlongNormal(c.vel, Mass(c.radius), o.vel, Mass(o.radius), d);
  }

  /** The pair resolution conserves momentum, whatever the normal. */
  lemma {:induction false} ResolveConservesMomentum(c: Circle, o: Circle, d: Vector2, mag: real)
    ensures var (c2, o2) := Resolve(c, o, d, mag);
      var mc, mo := Mass(c.radius), Mass(o.radius);
      Add(Scale(mo, o2.vel), Scale(mc, c2.vel)) == Add(Scale(mo, o.vel), Scale(mc, c.vel))
  {
    var mc, mo := Mass(c.radius), Mass(o.radius);
    var a, b := Dot(o.vel, d), Dot(c.vel, d);
    ResolveVelocities(c, o, d, mag);
    var eo, ec := Elastic1D(mo, a, mc, b), Elastic1D(mc, b, mo, a);
    Elastic1DProperties(mo, a, mc, b, eo, ec);
    MomentumBalance(mo, a, eo, mc, b, ec);
    MomentumVector(mo, o.vel, eo - a, mc, c.vel, ec - b, d);
  }

  lemma MomentumBalance(m1: real, u1: real, v1: real, m2: real, u2: real, v2: real)
    requires m1 * v1 + m2 * v2 == m1 * u1 + m2 * u2
    ensures m1 * (v1 - u1) + m2 * (v2 - u2) == 0.0
  {
  }

  lemma MomentumVector(m1: real, v1: Vector2, p1: real, m2: real, v2: Vector2, p2: real, d: Vector2)
    requires m1 * p1 + m2 * p2 == 0.0
    ensures Add(Scale(m1, Add(v1, Scale(p1, d))), Scale(m2, Add(v2, Scale(p2, d))))
         == Add(Scale(m1, v1), Scale(m2, v2))
  {
    var lhs := Add(Scale(m1, Add(v1, Scale(p1, d))), Scale(m2, Add(v2, Scale(p2, d))));
    assert lhs.x == m1 * (v1.x + p1 * d.x) + m2 * (v2.x + p2 * d.x);
    assert lhs.y == m1 * (v1.y + p1 * d.y) + m2 * (v2.y + p2 * d.y);
    MomentumCoordinate(m1, v1.x, p1, m2, v2.x, p2, d.x);
    MomentumCoordinate(m1, v1.y, p1, m2, v2.y, p2, d.y);
    assert lhs == Vector2(m1 * v1.x + m2 * v2.x, m1 * v1.y + m2 * v2.y);
  }

  lemma MomentumCoordinate(m1: real, v1: real, p1: real, m2: real, v2: real, p2: real, dd: real)
    requires m1 * p1 + m2 * p2 == 0.0
    ensures m1 * (v1 + p1 * dd) + m2 * (v2 + p2 * dd) == m1 * v1 + m2 * v2
  {
    assert m1 * (v1 + p1 * dd) + m2 * (v2 + p2 * dd) == m1 * v1 + m2 * v2 + (m1 * p1 + m2 * p2) * dd;
  }

  /** Across the normal nothing changes: both tangential velocity components
      are kept, whatever the normal. */
  lemma {:induction false} ResolveKeepsTangential(c: Circle, o: Circle, d: Vector2, mag: real)
    ensures var (c2, o2) := Resolve(c, o, d, mag);
      Dot(o2.vel, Perp(d)) == Dot(o.vel, Perp(d)) && Dot(c2.vel, Perp(d)) == Dot(c.vel, Perp(d))
  {
    var mc, mo := Mass(c.radius), Mass(o.radius);
    var a, b := Dot(o.vel, d), Dot(c.vel, d);
    ResolveVelocities(c, o, d, mag);
    AlongNormal(o.vel, Elastic1D(mo, a, mc, b) - a, d);
    AlongNormal(c.vel, Elastic1D(mc, b, mo, a) - b, d);
  }

  /** Along a unit normal each body leaves with the one-dimensional elastic
      speed: the relative speed is reversed, and equal masses swap speeds. */
  lemma {:induction false} ResolveAlongUnitNormal(c: Circle, o: Circle, d: Vector2, mag: real)
    requires Unit(d)
    ensures var (c2, o2) := Resolve(c, o, d, mag);
      && Dot(o2.vel, d) - Dot(c2.vel, d) == -(Dot(o.vel, d) - Dot(c.vel, d))
      && (Mass(c.radius) == Mass(o.radius) ==> Dot(o2.vel, d) == Dot(c.vel, d) && Dot(c2.vel, d) == Dot(o.vel, d))
  {
    var mc, mo := Mass(c.radius), Mass(o.radius);
    var a, b := Dot(o.vel, d), Dot(c.vel, d);
    ResolveVelocities(c, o, d, mag);
    var eo, ec := Elastic1D(mo, a, mc, b), Elastic1D(mc, b, mo, a);
    AlongNormal(o.vel, eo - a, d);
    AlongNormal(c.vel, ec - b, d);
    Elastic1DProperties(mo, a, mc, b, eo, ec);
  }

  /** Along a unit normal the resolution conserves kinetic energy. */
  lemma {:induction false} ResolveConservesEnergy(c: Circle, o: Circle, d: Vector2, mag: real)
    requires Unit(d)
    ensures var (c2, o2) := Resolve(c, o, d, mag);
      var mc, mo := Mass(c.radius), Mass(o.radius);
      mo * SqMag(o2.vel) + mc * SqMag(c2.vel) == mo * SqMag(o.vel) + mc * SqMag(c.vel)
  {
    var mc, mo := Mass(c.radius), Mass(o.radius);
    var a, b := Dot(o.vel, d), Dot(c.vel, d);
    ResolveVelocities(c, o, d, mag);
    var eo, ec := Elastic1D(mo, a, mc, b), Elastic1D(mc, b, mo, a);
    var (c2, o2) := Resolve(c, o, d, mag);
    AlongNormal(o.vel, eo - a, d);
    AlongNormal(c.vel, ec - b, d);
    Elastic1DProperties(mo, a, mc, b, eo, ec);
    EnergyBalance(mo, SqMag(o2.vel), SqMag(o.vel), a, eo, mc, SqMag(c2.vel), SqMag(c.vel), b, ec, SqMag(d));
  }

  lemma EnergyBalance(m1: real, e1: real, s1: real, u1: real, v1: real,
                      m2: real, e2: real, s2: real, u2: real, v2: real, k: real)
    requires k == 1.0
    requires m1 * v1 * v1 + m2 * v2 * v2 == m1 * u1 * u1 + m2 * u2 * u2
    requires e1 == s1 + 2.0 * (v1 - u1) * u1 + (v1 - u1) * (v1 - u1) * k
    requires e2 == s2 + 2.0 * (v2 - u2) * u2 + (v2 - u2) * (v2 - u2) * k
    ensures m1 * e1 + m2 * e2 == m1 * s1 + m2 * s2
  {
    assert e1 == s1 + v1 * v1 - u1 * u1;
    assert e2 == s2 + v2 * v2 - u2 * u2;
  }

  /** The positional correction moves the two centres by opposite amounts, so
      their midpoint stays where it was. */
  lemma {:induction false} ResolveKeepsMidpoint(c: Circle, o: Circle, d: Vector2, mag: real)
    ensures var (c2, o2) := Resolve(c, o, d, mag);
      Add(c2.center, o2.center) == Add(c.center, o.center)
  {
  }

  /** When `d` is the normalised centre difference and `mag` its length, the
      positional correction leaves the two circles exactly touching: their
      centres end `c.radius + o.radius` apart (squared here, since the model
      has no square root). */
  lemma {:induction false} ResolveMakesTangent(c: Circle, o: Circle, d: Vector2, mag: real)
    requires 0.0 < mag && mag * mag == SqMag(Sub(o.center, c.center))
    requires d == Vector2((o.center.x - c.center.x) / mag, (o.center.y - c.center.y) / mag)
    ensures Unit(d)
    ensures var (c2, o2) := Resolve(c, o, d, mag);
      SqMag(Sub(o2.center, c2.center)) == (c.radius + o.radius) * (c.radius + o.radius)
  {
    var w := (c.radius + o.radius - mag) * 0.5;
    var rsum := c.radius + o.radius;
    NormalisedIsUnit(Sub(o.center, c.center), mag, d);
    var (c2, o2) := Resolve(c, o, d, mag);
    assert Sub(o2.center, c2.center) == Scale(rsum, d) by {
      GapCoordinate(o.center.x, c.center.x, mag, w, d.x, rsum);
      GapCoordinate(o.center.y, c.center.y, mag, w, d.y, rsum);
    }
    ScaledUnitLength(rsum, d);
  }

  /** A vector divided by its length is a unit vector. */
  lemma NormalisedIsUnit(diff: Vector2, mag: real, d: Vector2)
    requires 0.0 < mag && mag * mag == SqMag(diff)
    requires d == Vector2(diff.x / mag, diff.y / mag)
    ensures Unit(d) && diff == Scale(mag, d)
  {
    assert diff == Scale(mag, d) by {
      DivideBack(diff.x, mag);
      DivideBack(diff.y, mag);
    }
    var mm, k := mag * mag, SqMag(d);
    ScaleLength(mag, d.x, d.y);
    assert SqMag(diff) == mm * k;
    SquareMonotone(0.0, mag);
    UnitFromLength(mm, k);
  }

  lemma ScaledUnitLength(s: real, d: Vector2)
    requires Unit(d)
    ensures SqMag(Scale(s, d)) == s * s
  {
    ScaleLength(s, d.x, d.y);
    var k, ss := SqMag(d), s * s;
    assert SqMag(Scale(s, d)) == ss * k;
    assert ss * k == ss;
  }

  lemma DivideBack(x: real, m: real)
    requires m != 0.0
    ensures m * (x / m) == x
  {
  }

  lemma ScaleLength(s: real, x: real, y: real)
    ensures (s * x) * (s * x) + (s * y) * (s * y) == s * s * (x * x + y * y)
  {
  }

  lemma UnitFromLength(mm: real, k: real)
    requires 0.0 < mm && mm == mm * k
    ensures k == 1.0
  {
    calc {
      k;
      (mm * k) / mm;
      mm / mm;
    }
  }

  lemma GapCoordinate(oc: real, cc: real, mag: real, w: real, dd: real, rsum: real)
    requires oc - cc == mag * dd && w == (rsum - mag) * 0.5
    ensures (oc + w * dd) - (cc - w * dd) == rsum * dd
  {
  }

  /** `sqrt` is a square root on the non-negative reals. */
  ghost predicate IsSqrt(sqrt: real -> real)
  {
    forall x :: 0.0 <= x ==> 0.0 <= sqrt(x) && sqrt(x) * sqrt(x) == x
  }

  /** Two circles whose centres are distinct and no farther apart than the
      sum of their radii. */
  predicate Overlapping(c: Circle, o: Circle)
  {
    var dsq := SqMag(Sub(o.center, c.center));
    0.0 < dsq <= (c.radius + o.radius) * (c.radius + o.radius)
  }

  /** The candidate loop body of `update` on values: the overlap test on squared
      distances, the normal `d` divided by the distance `sqrt(dsq)`, and the
      resolution. Returns the new `(c, o)`. Where the centres coincide the
      source divides by zero; here the pair is left alone (the test on
      `mag` only matters for a `sqrt` that is not a square root). */
  function Contact(c: Circle, o: Circle, sqrt: real -> real): (r: (Circle, Circle))
    ensures r.0.radius == c.radius && r.1.radius == o.radius
    ensures !Overlapping(c, o) ==> r == (c, o)
  {
    var d := Sub(o.center, c.center);
    var dsq := SqMag(d);
    if 0.0 < dsq <= (c.radius + o.radius) * (c.radius + o.radius) then
      var mag := sqrt(dsq);
      if mag != 0.0 then Resolve(c, o, Vector2(d.x / mag, d.y / mag), mag) else (c, o)
    else (c, o)
  }

  /** A contact of overlapping circles conserves momentum and kinetic energy,
      keeps the midpoint of the two centres, and leaves the circles exactly
      touching. */
  lemma {:induction false} ContactOverlapping(c: Circle, o: Circle, sqrt: real -> real)
    requires IsSqrt(sqrt) && Overlapping(c, o)
    ensures var (c2, o2) := Contact(c, o, sqrt);
      var mc, mo := Mass(c.radius), Mass(o.radius);
      && Add(Scale(mo, o2.vel), Scale(mc, c2.vel)) == Add(Scale(mo, o.vel), Scale(mc, c.vel))
      && mo * SqMag(o2.vel) + mc * SqMag(c2.vel) == mo * SqMag(o.vel) + mc * SqMag(c.vel)
      && Add(c2.center, o2.center) == Add(c.center, o.center)
      && SqMag(Sub(o2.center, c2.center)) == (c.radius + o.radius) * (c.radius + o.radius)
  {
    var diff := Sub(o.center, c.center);
    var dsq := SqMag(diff);
    var mag := sqrt(dsq);
    assert 0.0 <= mag && mag * mag == dsq;
    SquareSign(mag);
    assert Contact(c, o, sqrt) == Resolve(c, o, Vector2(diff.x / mag, diff.y / mag), mag);
    ContactResolves(c, o, mag);
  }

  /** For overlapping circles, with `mag` their distance, the contact is the
      resolution along the normalised centre difference and has its
      properties. */
  lemma ContactResolves(c: Circle, o: Circle, mag: real)
    requires Overlapping(c, o) && 0.0 < mag && mag * mag == SqMag(Sub(o.center, c.center))
    ensures var diff := Sub(o.center, c.center);
      var (c2, o2) := Resolve(c, o, Vector2(diff.x / mag, diff.y / mag), mag);
      var mc, mo := Mass(c.radius), Mass(o.radius);
      && Add(Scale(mo, o2.vel), Scale(mc, c2.vel)) == Add(Scale(mo, o.vel), Scale(mc, c.vel))
      && mo * SqMag(o2.vel) + mc * SqMag(c2.vel) == mo * SqMag(o.vel) + mc * SqMag(c.vel)
      && Add(c2.center, o2.center) == Add(c.center, o.center)
      && SqMag(Sub(o2.center, c2.center)) == (c.radius + o.radius) * (c.radius + o.radius)
  {
    var diff := Sub(o.center, c.center);
    var d := Vector2(diff.x / mag, diff.y / mag);
    ResolveMakesTangent(c, o, d, mag);
    ResolveConservesMomentum(c, o, d, mag);
    ResolveConservesEnergy(c, o, d, mag);
    ResolveKeepsMidpoint(c, o, d, mag);
  }

  lemma SquareSign(m: real)
    ensures m != 0.0 ==> m * m > 0.0
    ensures m == 0.0 ==> m * m == 0.0
  {
    if m > 0.0 {
      assert m * m > 0.0;
    } else if m < 0.0 {
      assert (-m) * (-m) > 0.0;
    }
  }
}
