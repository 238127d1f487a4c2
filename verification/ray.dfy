/** Rays: an origin and a direction, both homogeneous tuples. */
module Rays {
  import opened Tuples
  import opened Matrices
  import opened FourByFour
  import opened Transforms

  /** `Ray::new` stores both tuples unchanged; `origin` and `direction` read them back. */
  datatype Ray = Ray(origin: Tuple, direction: Tuple)

  /** `position`: the tuple reached after travelling t times the direction from the origin. */
  function Position(r: Ray, t: real): (p: Tuple)
    ensures Sub(p, r.origin) == Scale(r.direction, t)
    ensures IsPoint(r.origin) && IsVector(r.direction) ==> IsPoint(p)
  {
    Add(r.origin, Scale(r.direction, t))
  }

  /**
    Positions along a ray are affine in t: the origin sits at t = 0, and
    moving on by s from the position at t reaches the position at t + s.
   */
  lemma PositionAffine(r: Ray, t: real, s: real)
    ensures Position(r, 0.0) == r.origin
    ensures Position(r, t + s) == Add(Position(r, t), Scale(r.direction, s))
  {
  }

  /** The positions of the source's example ray (2, 3, 4) + t (1, 0, 0). */
  lemma PositionExamples(t: real)
    ensures Position(Ray(Point(2.0, 3.0, 4.0), Vector(1.0, 0.0, 0.0)), t) == Point(2.0 + t, 3.0, 4.0)
  {
  }

  /** `transform`: a new ray whose origin and direction are both multiplied by the matrix. */
  function Transform(r: Ray, m: Matrix): (r': Ray)
    requires m.height == 4 && m.width == 4
    ensures r'.origin.x == Dot(Row(m, 0), r.origin) && r'.direction.x == Dot(Row(m, 0), r.direction)
    ensures r'.origin.y == Dot(Row(m, 1), r.origin) && r'.direction.y == Dot(Row(m, 1), r.direction)
    ensures r'.origin.z == Dot(Row(m, 2), r.origin) && r'.direction.z == Dot(Row(m, 2), r.direction)
    ensures r'.origin.w == Dot(Row(m, 3), r.origin) && r'.direction.w == Dot(Row(m, 3), r.direction)
  {
    Ray(MulTuple(m, r.origin), MulTuple(m, r.direction))
  }

  /** Transforming commutes with taking a position: the matrix acts linearly. */
  lemma TransformPosition(r: Ray, m: Matrix, t: real)
    requires m.height == 4 && m.width == 4
    ensures Position(Transform(r, m), t) == MulTuple(m, Position(r, t))
  {
    MulTupleLinear(m, r.origin, r.direction, t);
  }

  /** Transforming by a product is transforming by the right factor, then by the left one. */
  lemma TransformCompose(r: Ray, a: Matrix, b: Matrix)
    requires a.height == 4 && a.width == 4 && b.height == 4 && b.width == 4
    ensures Transform(r, Mul(a, b)) == Transform(Transform(r, b), a)
  {
    MulTupleCompose(a, b, r.origin);
    MulTupleCompose(a, b, r.direction);
  }

  /** The identity leaves a ray as it is, and an invertible transform is undone by its inverse. */
  lemma TransformRoundTrip(r: Ray, m: Matrix)
    requires m.height == 4 && m.width == 4 && Det(m) != 0.0
    ensures Transform(r, Identity(4, 4)) == r
    ensures Transform(Transform(r, m), Inverse(m)) == r
  {
    MulTupleIdentity(r.origin);
    MulTupleIdentity(r.direction);
    MulTupleInverse(m, r.origin);
    MulTupleInverse(m, r.direction);
  }

  /** Translating a ray moves its origin and keeps its direction vector. */
  lemma TransformTranslation(r: Ray, x: real, y: real, z: real)
    requires IsPoint(r.origin) && IsVector(r.direction)
    ensures Transform(r, Translation(x, y, z)) == Ray(Add(r.origin, Vector(x, y, z)), r.direction)
  {
    TranslationMoves(x, y, z, r.origin);
    TranslationMoves(x, y, z, r.direction);
  }

  /** Scaling a ray scales its origin and its direction alike. */
  lemma TransformScaling(r: Ray, x: real, y: real, z: real)
    ensures Transform(r, Scaling(x, y, z)).origin == Tuple(x * r.origin.x, y * r.origin.y, z * r.origin.z, r.origin.w)
    ensures Transform(r, Scaling(x, y, z)).direction == Tuple(x * r.direction.x, y * r.direction.y, z * r.direction.z, r.direction.w)
  {
    ScalingScales(x, y, z, r.origin);
    ScalingScales(x, y, z, r.direction);
  }

  /** A ray is determined by its two tuples. */
  lemma RayFromParts(a: Ray, o: Tuple, d: Tuple)
    requires a.origin == o && a.direction == d
    ensures a == Ray(o, d)
  {
  }

  /** Scaling a ray by k in every direction, with the scaled tuples given. */
  lemma UniformScaling(k: real, r: Ray, o: Tuple, d: Tuple)
    requires o == Tuple(k * r.origin.x, k * r.origin.y, k * r.origin.z, r.origin.w)
    requires d == Tuple(k * r.direction.x, k * r.direction.y, k * r.direction.z, r.direction.w)
    ensures Transform(r, Scaling(k, k, k)) == Ray(o, d)
  {
    TransformScaling(r, k, k, k);
    RayFromParts(Transform(r, Scaling(k, k, k)), o, d);
  }

  /** The inverse of a scaling transforms a ray as the scaling by the reciprocal factors does. */
  lemma InverseScalingTransform(x: real, y: real, z: real, r: Ray)
    requires x != 0.0 && y != 0.0 && z != 0.0
    ensures Det(Scaling(x, y, z)) != 0.0
    ensures Transform(r, Inverse(Scaling(x, y, z))) == Transform(r, Scaling(1.0 / x, 1.0 / y, 1.0 / z))
  {
    ScalingInverse(x, y, z);
  }

  /** The inverse of a translation transforms a ray as the opposite translation does. */
  lemma InverseTranslationTransform(x: real, y: real, z: real, r: Ray)
    ensures Det(Translation(x, y, z)) != 0.0
    ensures Transform(r, Inverse(Translation(x, y, z))) == Transform(r, Translation(-x, -y, -z))
  {
    TranslationInverse(x, y, z);
  }

  /** Translating a ray by (-x, -y, -z) moves its origin back by the given vector `back`. */
  lemma MovedBack(r: Ray, x: real, y: real, z: real, back: Tuple)
    requires IsPoint(r.origin) && IsVector(r.direction)
    requires back == Vector(-x, -y, -z)
    ensures Transform(r, Translation(-x, -y, -z)) == Ray(Add(r.origin, back), r.direction)
  {
    TransformTranslation(r, -x, -y, -z);
  }

  /** The inverse of a translation by (x, y, z) moves a ray's origin back by that vector and keeps its direction. */
  lemma InverseTranslationMovesRay(x: real, y: real, z: real, r: Ray, back: Tuple)
    requires IsPoint(r.origin) && IsVector(r.direction)
    requires back == Vector(-x, -y, -z)
    ensures Det(Translation(x, y, z)) != 0.0
    ensures Transform(r, Inverse(Translation(x, y, z))) == Ray(Add(r.origin, back), r.direction)
  {
    InverseTranslationTransform(x, y, z, r);
    MovedBack(r, x, y, z, back);
  }
}
