/**
 * Scene objects and their ray tests. The shape set is closed (Sphere, Plane),
 * so the abstract SceneObject class becomes a two-variant datatype; an
 * intersection records the object that was hit, the ray, and the distance
 * along the ray. "No hit" is None, never a sentinel distance.
 */
module Geometry {
  import opened Float32
  import FastMath
  import opened Vectors
  import Surfaces

  datatype Option<T> = None | Some(value: T)

  /** A ray: a start point and a (normalised by the caller) direction. */
  datatype Ray = Ray(Start: Vector, Dir: Vector)

  /** Radius is carried but never read by the ray test: Radius2 is what counts. */
  datatype SceneObject =
    | Sphere(Center: Vector, Radius: real, Radius2: real, Surface: Surfaces.Surface)
    | Plane(Norm: Vector, Offset: real, Surface: Surfaces.Surface)

  datatype Intersection = Intersection(Thing: SceneObject, Ray: Ray, Dist: real)

  /** The point Start + Dist * Dir that Shade computes from an intersection. */
  function HitPoint(ray: Ray, dist: real): (p: Vector)
    ensures p == Plus(Times(dist, ray.Dir), ray.Start)
  {
    Plus(Times(dist, ray.Dir), ray.Start)
  }

  /** `v`: the projection of the start-to-centre vector on the ray direction. */
  function Projection(thing: SceneObject, ray: Ray): (v: real)
    requires thing.Sphere?
  {
    Dot(Minus(thing.Center, ray.Start), ray.Dir)
  }

  /** `disc = Radius2 - (|eo|^2 - v^2)`: squared half-chord; negative when the ray misses. */
  function Discriminant(thing: SceneObject, ray: Ray): (disc: real)
    requires thing.Sphere?
  {
    var eo := Minus(thing.Center, ray.Start);
    var v := Projection(thing, ray);
    thing.Radius2 - (Dot(eo, eo) - v * v)
  }

  /** Sphere.Intersect: near root only; rejects spheres behind the start and missed spheres. */
  function SphereIntersect(thing: SceneObject, ray: Ray): (r: Option<Intersection>)
    requires thing.Sphere?
    ensures r.None? <==> Projection(thing, ray) < 0.0 || Discriminant(thing, ray) < 0.0
    ensures r.Some? ==> r.value == Intersection(thing, ray,
                          Projection(thing, ray) - FastMath.Sqrt(Discriminant(thing, ray)))
  {
    var v := Projection(thing, ray);
    if v < 0.0 then None
    else
      var disc := Discriminant(thing, ray);
      if disc < 0.0 then None
      else Some(Intersection(thing, ray, v - FastMath.Sqrt(disc)))
  }

  /** Plane.Intersect: one-sided; a zero denominator is not rejected. */
  function PlaneIntersect(thing: SceneObject, ray: Ray): (r: Option<Intersection>)
    requires thing.Plane?
    ensures var denom := Dot(thing.Norm, ray.Dir);
            && (r.None? <==> denom > 0.0)
            && (r.Some? ==> r.value.Thing == thing && r.value.Ray == ray)
            && (r.Some? && denom != 0.0 ==>
                  r.value.Dist == (Dot(thing.Norm, ray.Start) + thing.Offset) / (-denom))
  {
    var denom := Dot(thing.Norm, ray.Dir);
    if denom > 0.0 then None
    else
      var num := Dot(thing.Norm, ray.Start) + thing.Offset;
      Some(Intersection(thing, ray, if denom == 0.0 then ZeroDivide(num) else num / (-denom)))
  }

  /** SceneObject.Intersect, dispatched on the shape. */
  function Intersect(thing: SceneObject, ray: Ray): (r: Option<Intersection>)
    ensures r.Some? ==> r.value.Thing == thing && r.value.Ray == ray
  {
    match thing
    case Sphere(_, _, _, _) => SphereIntersect(thing, ray)
    case Plane(_, _, _) => PlaneIntersect(thing, ray)
  }

  /** Sphere.Normal: the normalised offset from the centre (components scaled by InvSqrt). */
  function SphereNormal(thing: SceneObject, pos: Vector): (n: Vector)
    requires thing.Sphere?
  {
    var v := Minus(pos, thing.Center);
    var invLength := FastMath.InvSqrt(SqrLength(v));
    Vector(v.X * invLength, v.Y * invLength, v.Z * invLength)
  }

  /** SceneObject.Normal, dispatched on the shape. */
  function Normal(thing: SceneObject, pos: Vector): (n: Vector)
    ensures thing.Plane? ==> n == thing.Norm
  {
    match thing
    case Sphere(_, _, _, _) => SphereNormal(thing, pos)
    case Plane(norm, _, _) => norm
  }

  /** The sphere normal is exactly Vector.Norm of the offset from the centre. */
  lemma SphereNormalIsNorm(thing: SceneObject, pos: Vector)
    requires thing.Sphere?
    ensures Normal(thing, pos) == Norm(Minus(pos, thing.Center))
  {
    assert Normal(thing, pos) == SphereNormal(thing, pos);
  }

  /** The plane normal does not depend on the point. */
  lemma PlaneNormalConstant(thing: SceneObject, p: Vector, q: Vector)
    requires thing.Plane?
    ensures Normal(thing, p) == Normal(thing, q)
  {
  }

  /** Only Radius2 matters: two spheres differing in Radius alone give the same answer. */
  lemma SphereIgnoresRadius(c: Vector, r1: real, r2: real, sq: real, s: Surfaces.Surface, ray: Ray)
    ensures var a := Intersect(Sphere(c, r1, sq, s), ray);
            var b := Intersect(Sphere(c, r2, sq, s), ray);
            a.Some? == b.Some? && (a.Some? ==> a.value.Dist == b.value.Dist)
  {
    var a, b := Sphere(c, r1, sq, s), Sphere(c, r2, sq, s);
    assert Projection(a, ray) == Projection(b, ray);
    assert Discriminant(a, ray) == Discriminant(b, ray);
  }

  /** A plane facing away from the ray (positive denominator) is never hit. */
  lemma PlaneOneSided(thing: SceneObject, ray: Ray)
    requires thing.Plane? && Dot(thing.Norm, ray.Dir) > 0.0
    ensures Intersect(thing, ray) == None
  {
  }

  /** A plane hit with a nonzero denominator lies on the plane Norm . P + Offset = 0. */
  lemma PlaneHitOnPlane(thing: SceneObject, ray: Ray)
    requires thing.Plane? && Dot(thing.Norm, ray.Dir) < 0.0
    ensures Intersect(thing, ray).Some?
    ensures var p := HitPoint(ray, Intersect(thing, ray).value.Dist);
            Dot(thing.Norm, p) + thing.Offset == 0.0
  {
    var n, d, s := thing.Norm, ray.Dir, ray.Start;
    var denom := Dot(n, d);
    var t := (Dot(n, s) + thing.Offset) / (-denom);
    assert Intersect(thing, ray) == PlaneIntersect(thing, ray);
    assert Intersect(thing, ray).value.Dist == t;
    calc {
      Dot(n, HitPoint(ray, t));
      { DotSymmetric(n, HitPoint(ray, t)); DotLinear(t, d, n, s); DotSymmetric(d, n); DotSymmetric(s, n); }
      t * denom + Dot(n, s);
      -(Dot(n, s) + thing.Offset) + Dot(n, s);
    }
  }

  /**
   * A sphere hit lies on the sphere, provided the ray direction has unit
   * length and the approximate square root of the discriminant is exact.
   */
  lemma SphereHitOnSphere(thing: SceneObject, ray: Ray)
    requires thing.Sphere? && Intersect(thing, ray).Some?
    requires Dot(ray.Dir, ray.Dir) == 1.0
    requires FastMath.Sqrt(Discriminant(thing, ray)) * FastMath.Sqrt(Discriminant(thing, ray))
             == Discriminant(thing, ray)
    ensures var p := HitPoint(ray, Intersect(thing, ray).value.Dist);
            Dot(Minus(p, thing.Center), Minus(p, thing.Center)) == thing.Radius2
  {
    var t := Intersect(thing, ray).value.Dist;
    assert t == Projection(thing, ray) - FastMath.Sqrt(Discriminant(thing, ray));
    NearRootOnSphere(thing, ray, t, FastMath.Sqrt(Discriminant(thing, ray)));
  }

  /**
   * The algebra behind SphereHitOnSphere, for any exact root of the
   * discriminant: with |d| = 1 the point at t = v - root lies on the sphere.
   */
  lemma NearRootOnSphere(thing: SceneObject, ray: Ray, t: real, root: real)
    requires thing.Sphere? && Dot(ray.Dir, ray.Dir) == 1.0
    requires t == Projection(thing, ray) - root
    requires root * root == Discriminant(thing, ray)
    ensures var p := HitPoint(ray, t);
            Dot(Minus(p, thing.Center), Minus(p, thing.Center)) == thing.Radius2
  {
    var d, eo := ray.Dir, Minus(thing.Center, ray.Start);
    var v := Dot(eo, d);
    assert Minus(HitPoint(ray, t), thing.Center) == Minus(Times(t, d), eo);
    SquaredDistance(t, d, eo);
    assert t * t - 2.0 * t * v == root * root - v * v;
  }

  /** |t d - e|^2 expanded. */
  lemma SquaredDistance(t: real, d: Vector, e: Vector)
    ensures var w := Minus(Times(t, d), e);
            Dot(w, w) == t * t * Dot(d, d) - 2.0 * t * Dot(e, d) + Dot(e, e)
  {
    var w := Minus(Times(t, d), e);
    assert w.X * w.X == t * t * (d.X * d.X) - 2.0 * t * (e.X * d.X) + e.X * e.X;
    assert w.Y * w.Y == t * t * (d.Y * d.Y) - 2.0 * t * (e.Y * d.Y) + e.Y * e.Y;
    assert w.Z * w.Z == t * t * (d.Z * d.Z) - 2.0 * t * (e.Z * d.Z) + e.Z * e.Z;
  }

  /**
   * A ray from outside aimed at the centre meets the sphere at its distance
   * from the centre minus the (approximate) radius.
   */
  lemma SphereHeadOn(thing: SceneObject, ray: Ray, d: real)
    requires thing.Sphere? && thing.Radius2 >= 0.0 && d > 0.0
    requires d * d == Dot(Minus(thing.Center, ray.Start), Minus(thing.Center, ray.Start))
    requires ray.Dir == Times(1.0 / d, Minus(thing.Center, ray.Start))
    ensures Intersect(thing, ray) == Some(Intersection(thing, ray, d - FastMath.Sqrt(thing.Radius2)))
  {
    var eo := Minus(thing.Center, ray.Start);
    assert Projection(thing, ray) == d by {
      calc {
        Dot(eo, ray.Dir);
        { DotSymmetric(eo, Times(1.0 / d, eo)); DotLinear(1.0 / d, eo, eo, eo); }
        (1.0 / d) * Dot(eo, eo);
        (1.0 / d) * (d * d);
        d;
      }
    }
    assert Discriminant(thing, ray) == thing.Radius2;
  }
}
