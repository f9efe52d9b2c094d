/**
 * Vector: an immutable (X, Y, Z) triple. Every operation builds a new vector
 * from componentwise expressions; Mag and Norm go through the fast inverse
 * square root, so they are only as exact as it is.
 */
module Vectors {
  import FastMath

  datatype Vector = Vector(X: real, Y: real, Z: real)

  const Zero := Vector(0.0, 0.0, 0.0)

  function Times(n: real, v: Vector): (r: Vector)
    ensures r.X == v.X * n && r.Y == v.Y * n && r.Z == v.Z * n
  {
    Vector(v.X * n, v.Y * n, v.Z * n)
  }

  function Minus(v1: Vector, v2: Vector): (r: Vector)
    ensures r.X == v1.X - v2.X && r.Y == v1.Y - v2.Y && r.Z == v1.Z - v2.Z
  {
    Vector(v1.X - v2.X, v1.Y - v2.Y, v1.Z - v2.Z)
  }

  function Plus(v1: Vector, v2: Vector): (r: Vector)
    ensures r.X == v1.X + v2.X && r.Y == v1.Y + v2.Y && r.Z == v1.Z + v2.Z
  {
    Vector(v1.X + v2.X, v1.Y + v2.Y, v1.Z + v2.Z)
  }

  function Dot(v1: Vector, v2: Vector): (d: real)
  {
    (v1.X * v2.X) + (v1.Y * v2.Y) + (v1.Z * v2.Z)
  }

  function Mag(v: Vector): (m: real)
  {
    FastMath.Sqrt(Dot(v, v))
  }

  /** The squared length as Norm and Sphere.Normal spell it out, component by component. */
  function SqrLength(v: Vector): (s: real)
    ensures s == Dot(v, v)
    ensures s >= 0.0
  {
    v.X * v.X + v.Y * v.Y + v.Z * v.Z
  }

  /** Scales each component by the approximate inverse length; a zero vector is not guarded. */
  function Norm(v: Vector): (r: Vector)
  {
    var invLength := FastMath.InvSqrt(SqrLength(v));
    Vector(v.X * invLength, v.Y * invLength, v.Z * invLength)
  }

  function Cross(v1: Vector, v2: Vector): (r: Vector)
  {
    Vector((v1.Y * v2.Z) - (v1.Z * v2.Y),
           (v1.Z * v2.X) - (v1.X * v2.Z),
           (v1.X * v2.Y) - (v1.Y * v2.X))
  }

  /** Vector.Equals: componentwise equality of the three floats. */
  function Equals(v1: Vector, v2: Vector): (b: bool)
    ensures b <==> v1 == v2
  {
    (v1.X == v2.X) && (v1.Y == v2.Y) && (v1.Z == v2.Z)
  }

  /** Minus undoes Plus, and Plus undoes Minus. */
  lemma PlusMinusInverse(a: Vector, b: Vector)
    ensures Minus(Plus(a, b), b) == a
    ensures Plus(Minus(a, b), b) == a
  {
  }

  lemma DotSymmetric(a: Vector, b: Vector)
    ensures Dot(a, b) == Dot(b, a)
  {
  }

  /** Dot is linear in its first argument under Times and Plus. */
  lemma DotLinear(n: real, a: Vector, b: Vector, c: Vector)
    ensures Dot(Times(n, a), b) == n * Dot(a, b)
    ensures Dot(Plus(a, c), b) == Dot(a, b) + Dot(c, b)
  {
    calc {
      Dot(Times(n, a), b);
      (a.X * n) * b.X + (a.Y * n) * b.Y + (a.Z * n) * b.Z;
      n * (a.X * b.X) + n * (a.Y * b.Y) + n * (a.Z * b.Z);
      n * Dot(a, b);
    }
  }

  /** The cross product is anticommutative, so a vector crossed with itself is zero. */
  lemma CrossAntiCommutative(a: Vector, b: Vector)
    ensures Cross(a, b) == Times(-1.0, Cross(b, a))
    ensures Cross(a, a) == Zero
  {
  }

  /** The cross product is orthogonal to both of its factors. */
  lemma CrossOrthogonal(a: Vector, b: Vector)
    ensures Dot(Cross(a, b), a) == 0.0
    ensures Dot(Cross(a, b), b) == 0.0
  {
    calc {
      Dot(Cross(a, b), a);
      (a.Y * b.Z - a.Z * b.Y) * a.X + (a.Z * b.X - a.X * b.Z) * a.Y + (a.X * b.Y - a.Y * b.X) * a.Z;
      (a.X * a.Y * b.Z - a.X * a.Z * b.Y) + (a.Y * a.Z * b.X - a.X * a.Y * b.Z) + (a.X * a.Z * b.Y - a.Y * a.Z * b.X);
      0.0;
    }
    calc {
      Dot(Cross(a, b), b);
      (a.Y * b.Z - a.Z * b.Y) * b.X + (a.Z * b.X - a.X * b.Z) * b.Y + (a.X * b.Y - a.Y * b.X) * b.Z;
      (a.Y * b.X * b.Z - a.Z * b.X * b.Y) + (a.Z * b.X * b.Y - a.X * b.Y * b.Z) + (a.X * b.Y * b.Z - a.Y * b.X * b.Z);
      0.0;
    }
  }

  /** A scaled multiple of a scaled cross product is orthogonal to both factors. */
  lemma ScaledCrossOrthogonal(s: real, k: real, a: Vector, b: Vector)
    ensures Dot(Times(s, Times(k, Cross(a, b))), a) == 0.0
    ensures Dot(Times(s, Times(k, Cross(a, b))), b) == 0.0
  {
    var w := Times(k, Cross(a, b));
    CrossOrthogonal(a, b);
    DotLinear(k, Cross(a, b), a, a);
    DotLinear(k, Cross(a, b), b, b);
    assert Dot(w, a) == 0.0 && Dot(w, b) == 0.0;
    DotLinear(s, w, a, a);
    DotLinear(s, w, b, b);
  }

  /** Norm scales v by one common factor: the inverse square root of its squared length. */
  lemma NormScalesUniformly(v: Vector)
    ensures Norm(v) == Times(FastMath.InvSqrt(Dot(v, v)), v)
  {
  }

  /**
   * Because Mag and Norm share the same approximate inverse square root,
   * projecting v on its own direction gives back exactly its magnitude.
   */
  lemma DotNormIsMag(v: Vector)
    ensures Dot(v, Norm(v)) == Mag(v)
  {
    var k := FastMath.InvSqrt(Dot(v, v));
    NormScalesUniformly(v);
    DotSymmetric(v, Times(k, v));
    DotLinear(k, v, v, v);
  }

  /** With an exact inverse square root factor k, Times(k, v) has unit length. */
  lemma ExactScaleIsUnit(v: Vector, k: real)
    requires k * k * Dot(v, v) == 1.0
    ensures Dot(Times(k, v), Times(k, v)) == 1.0
  {
    calc {
      Dot(Times(k, v), Times(k, v));
      { DotLinear(k, v, Times(k, v), v); }
      k * Dot(v, Times(k, v));
      { DotSymmetric(v, Times(k, v)); DotLinear(k, v, v, v); }
      k * (k * Dot(v, v));
      k * k * Dot(v, v);
    }
  }
}
