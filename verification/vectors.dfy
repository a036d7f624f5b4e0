/**
 The 2D vector type of the simulation and the central-force acceleration law
 (server.go: `Vector2`, the simulation constants and `gravitationalAccel`).

 Components are `real`: the model states the shape of the computation, not
 float64 rounding. The square root is not computed; `GravitationalAccel` is
 handed the magnitude of the position together with the fact that it is one.
 */
module Vectors {

  datatype Vector2 = Vector2(x: real, y: real)

  const Zero: Vector2 := Vector2(0.0, 0.0)

  /** Gravitational constant, tuned for the simulation. */
  const G: real := 0.0001
  /** Mass of the central star. */
  const StarMass: real := 1000000.0
  /** Fixed integration step, about one sixtieth of a time unit. */
  const TimeStep: real := 0.016
  /** Floor applied to the distance before the inverse-square term. */
  const SofteningRadius: real := 0.1

  function Add(a: Vector2, b: Vector2): Vector2 {
    Vector2(a.x + b.x, a.y + b.y)
  }

  function Scale(k: real, a: Vector2): Vector2 {
    Vector2(k * a.x, k * a.y)
  }

  function Dot(a: Vector2, b: Vector2): real {
    a.x * b.x + a.y * b.y
  }

  /** The z component of the 3D cross product; zero exactly when `a` and `b` are collinear. */
  function Cross(a: Vector2, b: Vector2): real {
    a.x * b.y - a.y * b.x
  }

  function NormSquared(a: Vector2): real {
    Dot(a, a)
  }

  /** `r` is the Euclidean length of `a` (what `math.Sqrt(x*x + y*y)` computes). */
  predicate IsNorm(a: Vector2, r: real) {
    r >= 0.0 && r * r == NormSquared(a)
  }

  /** The radius fed into the inverse-square term: the distance, floored at 0.1. */
  function ClampedRadius(r: real): (c: real)
    ensures c >= SofteningRadius && c >= r
    ensures c == r || c == SofteningRadius
  {
    if r < SofteningRadius then SofteningRadius else r
  }

  /**
   Acceleration due to the central star at `pos`, given `norm`, the length of
   `pos`. The force magnitude is G * StarMass / r^2 with r the clamped radius,
   and the "unit" vector is `pos / r` with that same clamped r.
   */
  function GravitationalAccel(pos: Vector2, norm: real): (a: Vector2)
    requires IsNorm(pos, norm)
    ensures Cross(a, pos) == 0.0
    ensures Dot(a, pos) <= 0.0
    ensures pos != Zero ==> Dot(a, pos) < 0.0
  {
    var r := ClampedRadius(norm);
    var force := -G * StarMass / (r * r);
    var a := Vector2(force * (pos.x / r), force * (pos.y / r));
    AccelIsScaledPosition(pos, r, force, a);
    a
  }

  /** The acceleration vector is `pos` scaled by `force / r`. */
  lemma AccelIsScaledPosition(pos: Vector2, r: real, force: real, a: Vector2)
    requires r > 0.0 && force < 0.0
    requires a == Vector2(force * (pos.x / r), force * (pos.y / r))
    ensures a == Scale(force / r, pos)
    ensures Cross(a, pos) == 0.0
    ensures Dot(a, pos) == (force / r) * NormSquared(pos)
    ensures Dot(a, pos) <= 0.0
    ensures pos != Zero ==> Dot(a, pos) < 0.0
  {
    var k := force / r;
    assert force * (pos.x / r) == k * pos.x;
    assert force * (pos.y / r) == k * pos.y;
    assert k < 0.0;
    if pos != Zero {
      assert pos.x * pos.x > 0.0 || pos.y * pos.y > 0.0;
      assert NormSquared(pos) > 0.0;
    }
  }

  /**
   Outside the softening radius the law is the plain inverse square:
   |a| = G * StarMass / |pos|^2, stated on squares.
   */
  lemma AccelInverseSquare(pos: Vector2, norm: real)
    requires IsNorm(pos, norm) && norm >= SofteningRadius
    ensures var m := G * StarMass / (norm * norm);
      NormSquared(GravitationalAccel(pos, norm)) == m * m
  {
    var r := norm;
    var force := -G * StarMass / (r * r);
    var a := GravitationalAccel(pos, norm);
    AccelIsScaledPosition(pos, r, force, a);
    ScaledNormSquared(force / r, pos);
    QuotientSquared(force, r);
  }

  /** (f / r)^2 * r^2 == f^2 for r > 0. */
  lemma QuotientSquared(f: real, r: real)
    requires r > 0.0
    ensures (f / r) * (f / r) * (r * r) == f * f
  {
    var k := f / r;
    assert k * r == f;
    assert k * k * (r * r) == (k * r) * (k * r);
  }

  /**
   Inside the softening radius the position is divided by the floor 0.1 and
   not by its own length, so the acceleration is `pos` scaled by the fixed
   factor -G * StarMass / 0.1^3: it shrinks linearly towards the origin.
   */
  lemma AccelSoftened(pos: Vector2, norm: real)
    requires IsNorm(pos, norm) && norm < SofteningRadius
    ensures GravitationalAccel(pos, norm) == Scale(-100000.0, pos)
  {
    var r := SofteningRadius;
    var force := -G * StarMass / (r * r);
    assert force == -10000.0;
    AccelIsScaledPosition(pos, r, force, GravitationalAccel(pos, norm));
  }

  /**
   The clamp bounds the acceleration everywhere: |a| never exceeds
   G * StarMass / 0.1^2, the value of the inverse-square law at the floor.
   */
  lemma AccelBounded(pos: Vector2, norm: real)
    requires IsNorm(pos, norm)
    ensures NormSquared(GravitationalAccel(pos, norm)) <= 10000.0 * 10000.0
  {
    if norm < SofteningRadius {
      AccelBoundedNear(pos, norm);
    } else {
      AccelBoundedFar(pos, norm);
    }
  }

  lemma AccelBoundedNear(pos: Vector2, norm: real)
    requires IsNorm(pos, norm) && norm < SofteningRadius
    ensures NormSquared(GravitationalAccel(pos, norm)) <= 10000.0 * 10000.0
  {
    AccelSoftened(pos, norm);
    SmallSquare(norm);
    SoftenedBound(pos);
  }

  lemma SoftenedBound(v: Vector2)
    requires NormSquared(v) <= 0.01
    ensures NormSquared(Scale(-100000.0, v)) <= 10000.0 * 10000.0
  {
    ScaledNormSquared(-100000.0, v);
  }

  lemma AccelBoundedFar(pos: Vector2, norm: real)
    requires IsNorm(pos, norm) && norm >= SofteningRadius
    ensures NormSquared(GravitationalAccel(pos, norm)) <= 10000.0 * 10000.0
  {
    AccelInverseSquare(pos, norm);
    InverseSquareAtMost(norm);
  }

  lemma ScaledNormSquared(k: real, v: Vector2)
    ensures NormSquared(Scale(k, v)) == k * k * NormSquared(v)
  {
  }

  lemma SmallSquare(norm: real)
    requires 0.0 <= norm < SofteningRadius
    ensures norm * norm <= 0.01
  {
    assert norm * norm <= norm * 0.1;
  }

  lemma InverseSquareAtMost(norm: real)
    requires norm >= SofteningRadius
    ensures var m := G * StarMass / (norm * norm); 0.0 < m <= 10000.0 && m * m <= 10000.0 * 10000.0
  {
    var n2 := norm * norm;
    assert n2 >= norm * 0.1 >= 0.01;
    var m := 100.0 / n2;
    assert G * StarMass / n2 == m;
    assert m * n2 == 100.0;
    assert m * 0.01 <= 100.0;
    assert 0.0 < m <= 10000.0;
    assert m * m <= m * 10000.0;
  }

  /** At distance 10 on the x axis the law gives (-1, 0): -100 / 10^2 times the unit vector. */
  lemma AccelAtTen()
    ensures GravitationalAccel(Vector2(10.0, 0.0), 10.0) == Vector2(-1.0, 0.0)
  {
  }
}
