/**
  The unit sphere at the origin, placed in the world by a transform, and the
  intersections of a ray with it. The world ray is carried into the sphere's
  own space by the inverse transform, where the hits are the roots of a
  quadratic in t.
 */
module Spheres {
  import opened Base
  import opened Tuples
  import opened Matrices
  import opened FourByFour
  import opened Transforms
  import opened Rays
  import opened Intersections

  /** A sphere is its transform; `transform` reads it back. */
  datatype Sphere = Sphere(transform: Matrix)

  /** `Sphere::default`: the identity transform, invertible and leaving every tuple as it is. */
  function Default(): (s: Sphere)
    ensures s.transform.height == 4 && s.transform.width == 4
    ensures Det(s.transform) == 1.0
    ensures forall t :: MulTuple(s.transform, t) == t
  {
    DetIdentity(4);
    IdentityRows();
    Sphere(Identity(4, 4))
  }

  /** `set_transform` replaces the transform; the sphere holds nothing else. */
  function SetTransform(s: Sphere, m: Matrix): Sphere
  {
    Sphere(m)
  }

  /** Reading back the transform that was set, and overwriting one setting with another. */
  lemma SetTransformLaws(s: Sphere, a: Matrix, b: Matrix)
    ensures SetTransform(s, a).transform == a
    ensures SetTransform(SetTransform(s, a), b) == SetTransform(s, b)
    ensures SetTransform(s, s.transform) == s
  {
  }

  // The quadratic of a ray against the unit sphere.

  /** The coefficients of a t^2 + b t + c = 0. */
  datatype Quadratic = Quadratic(a: real, b: real, c: real)

  /** The centre of every sphere in its own space. */
  const Origin: Tuple := Point(0.0, 0.0, 0.0)

  /** The vector from the sphere's centre to the ray's origin. */
  function SphereToRay(r: Ray): Tuple
  {
    Sub(r.origin, Origin)
  }

  /** The coefficients `intersects` computes from the ray in the sphere's own space. */
  function Coefficients(r: Ray): Quadratic
  {
    var v := SphereToRay(r);
    Quadratic(Dot(r.direction, r.direction), 2.0 * Dot(r.direction, v), Dot(v, v) - 1.0)
  }

  function Discriminant(q: Quadratic): real
  {
    q.b * q.b - 4.0 * q.a * q.c
  }

  /** A tuple at squared distance one from the point at the origin. */
  predicate OnUnitSphere(p: Tuple)
  {
    var v := Sub(p, Origin);
    Dot(v, v) == 1.0
  }

  /** If a product with a non-zero factor vanishes, the other factor does. */
  lemma ZeroFactor(x: real, y: real, p: real)
    requires p == x * y && p == 0.0 && x != 0.0
    ensures y == 0.0
  {
  }

  /** Dividing by a positive number keeps the order. */
  lemma DivideMonotone(x: real, y: real, d: real)
    requires x <= y && d > 0.0
    ensures x / d <= y / d
  {
    var p, q := x / d, y / d;
    assert p * d == x && q * d == y;
    if p > q {
      PositiveProduct(p - q, d, (p - q) * d);
    }
  }

  lemma SquareOfSum(u: real, d: real, t: real)
    ensures (u + d * t) * (u + d * t) == u * u + 2.0 * t * (d * u) + (t * t) * (d * d)
  {
  }

  /** The squared length of u + t d as a polynomial in t. */
  lemma DotAlong(u: Tuple, d: Tuple, t: real, v: Tuple)
    requires v == Add(u, Scale(d, t))
    ensures Dot(v, v) == Dot(u, u) + 2.0 * t * Dot(d, u) + (t * t) * Dot(d, d)
  {
    SquareOfSum(u.x, d.x, t);
    SquareOfSum(u.y, d.y, t);
    SquareOfSum(u.z, d.z, t);
    SquareOfSum(u.w, d.w, t);
  }

  /** Squared distance from the centre along a ray, expanded as a polynomial in t. */
  lemma SquaredDistanceAlong(r: Ray, t: real)
    ensures var v := Sub(Position(r, t), Origin);
            var q := Coefficients(r);
            Dot(v, v) - 1.0 == q.a * (t * t) + q.b * t + q.c
  {
    var u, d := SphereToRay(r), r.direction;
    var v := Sub(Position(r, t), Origin);
    assert v == Add(u, Scale(d, t));
    DotAlong(u, d, t, v);
    var q := Coefficients(r);
    var dd, du, uu := Dot(d, d), Dot(d, u), Dot(u, u);
    assert q == Quadratic(dd, 2.0 * du, uu - 1.0);
    assert Dot(v, v) == uu + 2.0 * t * du + (t * t) * dd;
  }

  /** Both values of the quadratic formula are roots. */
  lemma QuadraticRoot(q: Quadratic, s: real, t: real)
    requires q.a != 0.0
    requires s * s == Discriminant(q)
    requires t == (-q.b - s) / (2.0 * q.a) || t == (-q.b + s) / (2.0 * q.a)
    ensures q.a * (t * t) + q.b * t + q.c == 0.0
  {
    var a, b, c := q.a, q.b, q.c;
    var u := 2.0 * a * t + b;
    assert u == -s || u == s by {
      assert t * (2.0 * a) == -b - s || t * (2.0 * a) == -b + s;
    }
    assert u * u == s * s;
    var value := a * (t * t) + b * t + c;
    assert u * u == 4.0 * a * value + b * b - 4.0 * a * c;
    ZeroFactor(4.0 * a, value, 4.0 * a * value);
  }

  /** Every root is one of the two values of the quadratic formula, taken with the non-negative root. */
  lemma QuadraticComplete(q: Quadratic, s: real, t: real)
    requires q.a != 0.0
    requires q.a * (t * t) + q.b * t + q.c == 0.0
    requires s >= 0.0 && s * s == Discriminant(q)
    ensures t == (-q.b - s) / (2.0 * q.a) || t == (-q.b + s) / (2.0 * q.a)
  {
    var a, b, c := q.a, q.b, q.c;
    var u := 2.0 * a * t + b;
    assert u * u == s * s by {
      assert u * u == 4.0 * a * (a * (t * t) + b * t + c) + b * b - 4.0 * a * c;
    }
    assert (u - s) * (u + s) == 0.0;
    if u != s {
      ZeroFactor(u - s, u + s, (u - s) * (u + s));
      assert t * (2.0 * a) == -b - s;
    } else {
      assert t * (2.0 * a) == -b + s;
    }
  }

  /** A root makes the discriminant a square, hence non-negative. */
  lemma RootMeansDiscriminantSquare(q: Quadratic, t: real)
    requires q.a * (t * t) + q.b * t + q.c == 0.0
    ensures Discriminant(q) == (2.0 * q.a * t + q.b) * (2.0 * q.a * t + q.b)
    ensures Discriminant(q) >= 0.0
  {
    var u := 2.0 * q.a * t + q.b;
    assert u * u == 4.0 * q.a * (q.a * (t * t) + q.b * t + q.c) + q.b * q.b - 4.0 * q.a * q.c;
    SquareSign(u, u * u);
  }

  /**
    The body of `intersects` once the ray is in the sphere's own space: no
    intersection when the discriminant is negative, otherwise the two values
    of the quadratic formula, smaller first (equal when the ray is tangent).
   */
  function IntersectLocal(r: Ray, objectId: nat, sqrt: real -> real): (xs: seq<Intersection>)
    requires IsSqrt(sqrt)
    requires r.direction != Zero
    ensures |xs| == 0 <==> Discriminant(Coefficients(r)) < 0.0
    ensures |xs| == 0 || |xs| == 2
    ensures forall i :: 0 <= i < |xs| ==> xs[i].objectId == objectId
    ensures |xs| == 2 ==> xs[0].t <= xs[1].t
  {
    var q := Coefficients(r);
    var disc := Discriminant(q);
    if disc < 0.0 then []
    else
      DotSelfPositive(r.direction);
      RootOf(sqrt, disc);
      var s := sqrt(disc);
      DivideMonotone(-q.b - s, -q.b + s, 2.0 * q.a);
      [Intersection((-q.b - s) / (2.0 * q.a), objectId), Intersection((-q.b + s) / (2.0 * q.a), objectId)]
  }

  /** Every parameter at which the ray lies on the unit sphere is one of the intersections. */
  lemma OnSphereIsIntersection(r: Ray, objectId: nat, sqrt: real -> real, t: real)
    requires IsSqrt(sqrt)
    requires r.direction != Zero
    requires OnUnitSphere(Position(r, t))
    ensures var xs := IntersectLocal(r, objectId, sqrt);
            |xs| == 2 && (t == xs[0].t || t == xs[1].t)
  {
    var q := Coefficients(r);
    DotSelfPositive(r.direction);
    SquaredDistanceAlong(r, t);
    RootMeansDiscriminantSquare(q, t);
    RootOf(sqrt, Discriminant(q));
    QuadraticComplete(q, sqrt(Discriminant(q)), t);
  }

  /** Each intersection lies on the unit sphere. */
  lemma IntersectionIsOnSphere(r: Ray, objectId: nat, sqrt: real -> real, t: real)
    requires IsSqrt(sqrt)
    requires r.direction != Zero
    requires var xs := IntersectLocal(r, objectId, sqrt);
             |xs| == 2 && (t == xs[0].t || t == xs[1].t)
    ensures OnUnitSphere(Position(r, t))
  {
    var q := Coefficients(r);
    var disc := Discriminant(q);
    DotSelfPositive(r.direction);
    RootOf(sqrt, disc);
    var s := sqrt(disc);
    assert t == (-q.b - s) / (2.0 * q.a) || t == (-q.b + s) / (2.0 * q.a);
    QuadraticRoot(q, s, t);
    RootIsOnSphere(r, t);
  }

  /** A root of the ray's quadratic is a parameter at which the ray lies on the unit sphere. */
  lemma RootIsOnSphere(r: Ray, t: real)
    requires var q := Coefficients(r); q.a * (t * t) + q.b * t + q.c == 0.0
    ensures OnUnitSphere(Position(r, t))
  {
    SquaredDistanceAlong(r, t);
  }

  /**
    The intersections are exactly the parameters at which the ray lies on the
    unit sphere: each one does, and every t that does is one of them.
   */
  lemma IntersectLocalMeetsSphere(r: Ray, objectId: nat, sqrt: real -> real, t: real)
    requires IsSqrt(sqrt)
    requires r.direction != Zero
    ensures var xs := IntersectLocal(r, objectId, sqrt);
            OnUnitSphere(Position(r, t)) <==> |xs| == 2 && (t == xs[0].t || t == xs[1].t)
  {
    var xs := IntersectLocal(r, objectId, sqrt);
    if OnUnitSphere(Position(r, t)) {
      OnSphereIsIntersection(r, objectId, sqrt, t);
    }
    if |xs| == 2 && (t == xs[0].t || t == xs[1].t) {
      IntersectionIsOnSphere(r, objectId, sqrt, t);
    }
  }

  /** An invertible transform sends a non-zero direction to a non-zero one. */
  lemma NonzeroStaysNonzero(m: Matrix, n: Matrix, d: Tuple)
    requires m.height == 4 && m.width == 4 && n.height == 4 && n.width == 4
    requires MulTuple(m, MulTuple(n, d)) == d && d != Zero
    ensures MulTuple(n, d) != Zero
  {
  }

  /** The direction of a ray carried into the sphere's space by an inverse stays non-zero. */
  lemma LocalDirectionNonzero(m: Matrix, r: Ray)
    requires m.height == 4 && m.width == 4 && Det(m) != 0.0
    requires r.direction != Zero
    ensures Transform(r, Inverse(m)).direction != Zero
  {
    MulTupleInverse(m, r.direction);
    NonzeroStaysNonzero(m, Inverse(m), r.direction);
  }

  /**
    `intersects`: the ray is carried into the sphere's space by the inverse
    of the transform and intersected there. The t values are those of the
    world ray, since the transform is linear.
   */
  function Intersects(s: Sphere, r: Ray, objectId: nat, sqrt: real -> real): (xs: seq<Intersection>)
    requires IsSqrt(sqrt)
    requires s.transform.height == 4 && s.transform.width == 4 && Det(s.transform) != 0.0
    requires r.direction != Zero
    ensures |xs| == 0 || |xs| == 2
    ensures forall i :: 0 <= i < |xs| ==> xs[i].objectId == objectId
    ensures |xs| == 2 ==> xs[0].t <= xs[1].t
  {
    LocalDirectionNonzero(s.transform, r);
    IntersectLocal(Transform(r, Inverse(s.transform)), objectId, sqrt)
  }

  /**
    The intersections with a transformed sphere are exactly the parameters at
    which the world ray, carried back by the inverse transform, lies on the
    unit sphere.
   */
  lemma IntersectsMeetsTransformedSphere(s: Sphere, r: Ray, objectId: nat, sqrt: real -> real, t: real)
    requires IsSqrt(sqrt)
    requires s.transform.height == 4 && s.transform.width == 4 && Det(s.transform) != 0.0
    requires r.direction != Zero
    ensures var xs := Intersects(s, r, objectId, sqrt);
            OnUnitSphere(MulTuple(Inverse(s.transform), Position(r, t))) <==> |xs| == 2 && (t == xs[0].t || t == xs[1].t)
  {
    var local := Transform(r, Inverse(s.transform));
    LocalDirectionNonzero(s.transform, r);
    TransformPosition(r, Inverse(s.transform), t);
    IntersectLocalMeetsSphere(local, objectId, sqrt, t);
  }

  // Rays parallel to the z axis, which all the examples of the source are.
  // The arithmetic is done on a ray whose coefficients are given, so that
  // the solver never has to expand them and the square root together.

  /** The quadratic of a ray whose offset from the centre and direction are known. */
  lemma CoefficientsOf(r: Ray, u: Tuple, d: Tuple)
    requires u == SphereToRay(r) && d == r.direction
    ensures Coefficients(r) == Quadratic(Dot(d, d), 2.0 * Dot(d, u), Dot(u, u) - 1.0)
  {
  }

  /** The ray from (x, y, z) along (0, 0, k). */
  function AxisRay(x: real, y: real, z: real, k: real): Ray
  {
    Ray(Point(x, y, z), Vector(0.0, 0.0, k))
  }

  /** The quadratic of a ray parallel to the z axis. */
  lemma AxisCoefficients(x: real, y: real, z: real, k: real)
    ensures Coefficients(AxisRay(x, y, z, k)) == Quadratic(k * k, 2.0 * (k * z), x * x + y * y + z * z - 1.0)
  {
    var r := AxisRay(x, y, z, k);
    var u, d := Tuple(x, y, z, 0.0), Tuple(0.0, 0.0, k, 0.0);
    assert SphereToRay(r) == u;
    CoefficientsOf(r, u, d);
  }

  /** Its discriminant is (2k)^2 (1 - x^2 - y^2). */
  lemma AxisDiscriminant(x: real, y: real, z: real, k: real, q: Quadratic)
    requires q == Quadratic(k * k, 2.0 * (k * z), x * x + y * y + z * z - 1.0)
    ensures Discriminant(q) == (2.0 * k) * (2.0 * k) * (1.0 - x * x - y * y)
  {
  }

  /** A positive factor keeps the sign of a product. */
  lemma PositiveFactorSign(c: real, v: real, p: real)
    requires c > 0.0 && p == c * v
    ensures p < 0.0 <==> v < 0.0
  {
    if v > 0.0 {
      PositiveProduct(c, v, p);
    } else if v < 0.0 {
      PositiveProduct(c, -v, -p);
    }
  }

  /** A common non-zero factor cancels from a quotient. */
  lemma CancelFactor(c: real, n: real, d: real, cd: real)
    requires c != 0.0 && d != 0.0 && cd == c * d
    ensures cd != 0.0 && (c * n) / cd == n / d
  {
    var e := n / d;
    assert e * d == n;
    assert (c * n) == cd * e;
  }

  /** The quadratic formula on that quadratic, with 2 k h for the root of the discriminant. */
  lemma AxisRoots(x: real, y: real, z: real, k: real, h: real, q: Quadratic)
    requires k > 0.0
    requires q == Quadratic(k * k, 2.0 * (k * z), x * x + y * y + z * z - 1.0)
    ensures q.a != 0.0
    ensures (-q.b - 2.0 * k * h) / (2.0 * q.a) == (-z - h) / k
    ensures (-q.b + 2.0 * k * h) / (2.0 * q.a) == (-z + h) / k
  {
    var c := 2.0 * k;
    assert 2.0 * q.a == c * k;
    assert -q.b - 2.0 * k * h == c * (-z - h);
    assert -q.b + 2.0 * k * h == c * (-z + h);
    CancelFactor(c, -z - h, k, 2.0 * q.a);
    CancelFactor(c, -z + h, k, 2.0 * q.a);
  }

  /**
    A ray with the coefficients of a ray from (x, y, z) along (0, 0, k), k > 0,
    misses exactly when x^2 + y^2 > 1, and otherwise meets the unit sphere at
    (-z -/+ sqrt(1 - x^2 - y^2)) / k.
   */
  lemma AxisHitsOf(r: Ray, x: real, y: real, z: real, k: real, objectId: nat, sqrt: real -> real)
    requires IsSqrt(sqrt)
    requires k > 0.0 && r.direction != Zero
    requires Coefficients(r) == Quadratic(k * k, 2.0 * (k * z), x * x + y * y + z * z - 1.0)
    ensures IntersectLocal(r, objectId, sqrt) == [] <==> x * x + y * y > 1.0
    ensures x * x + y * y <= 1.0 ==>
      IntersectLocal(r, objectId, sqrt)
      == [Intersection((-z - sqrt(1.0 - x * x - y * y)) / k, objectId), Intersection((-z + sqrt(1.0 - x * x - y * y)) / k, objectId)]
  {
    var q := Quadratic(k * k, 2.0 * (k * z), x * x + y * y + z * z - 1.0);
    var v := 1.0 - x * x - y * y;
    AxisDiscriminant(x, y, z, k, q);
    PositiveProduct(2.0 * k, 2.0 * k, (2.0 * k) * (2.0 * k));
    PositiveFactorSign((2.0 * k) * (2.0 * k), v, Discriminant(q));
    if v >= 0.0 {
      var h := sqrt(v);
      var c := 2.0 * k;
      SqrtOfScaled(sqrt, v, c, h);
      assert Discriminant(q) == c * c * v;
      assert sqrt(Discriminant(q)) == 2.0 * k * h;
      AxisRoots(x, y, z, k, h, q);
      IntersectLocalHits(r, objectId, sqrt, q, 2.0 * k * h, (-z - h) / k, (-z + h) / k);
    }
  }

  /** The same for the ray from (x, y, z) along (0, 0, k) itself. */
  lemma AxisHits(x: real, y: real, z: real, k: real, objectId: nat, sqrt: real -> real)
    requires IsSqrt(sqrt) && k > 0.0
    ensures AxisRay(x, y, z, k).direction != Zero
    ensures IntersectLocal(AxisRay(x, y, z, k), objectId, sqrt) == [] <==> x * x + y * y > 1.0
    ensures x * x + y * y <= 1.0 ==>
      IntersectLocal(AxisRay(x, y, z, k), objectId, sqrt)
      == [Intersection((-z - sqrt(1.0 - x * x - y * y)) / k, objectId), Intersection((-z + sqrt(1.0 - x * x - y * y)) / k, objectId)]
  {
    AxisCoefficients(x, y, z, k);
    assert AxisRay(x, y, z, k).direction.z == k;
    AxisHitsOf(AxisRay(x, y, z, k), x, y, z, k, objectId, sqrt);
  }

  /** The two intersections once the coefficients and the root of the discriminant are known. */
  lemma IntersectLocalHits(r: Ray, objectId: nat, sqrt: real -> real, q: Quadratic, s: real, t1: real, t2: real)
    requires IsSqrt(sqrt)
    requires r.direction != Zero
    requires Coefficients(r) == q && q.a != 0.0 && Discriminant(q) >= 0.0 && sqrt(Discriminant(q)) == s
    requires t1 == (-q.b - s) / (2.0 * q.a) && t2 == (-q.b + s) / (2.0 * q.a)
    ensures IntersectLocal(r, objectId, sqrt) == [Intersection(t1, objectId), Intersection(t2, objectId)]
  {
  }

  /** The square roots the examples need. */
  lemma ExampleRoots(sqrt: real -> real)
    requires IsSqrt(sqrt)
    ensures sqrt(1.0) == 1.0 && sqrt(0.0) == 0.0
  {
    SqrtOfSquare(sqrt, 1.0);
    SqrtOfSquare(sqrt, 0.0);
  }

  // Spheres placed by a transform.

  /** The inverse of the identity is the identity. */
  lemma InverseOfIdentity()
    ensures Det(Identity(4, 4)) != 0.0 && Inverse(Identity(4, 4)) == Identity(4, 4)
  {
    DetIdentity(4);
    MulIdentity(Identity(4, 4));
    InverseUnique(Identity(4, 4), Identity(4, 4));
  }

  /** The identity leaves a ray as it is. */
  lemma TransformByIdentity(r: Ray)
    ensures Transform(r, Identity(4, 4)) == r
  {
    MulTupleIdentity(r.origin);
    MulTupleIdentity(r.direction);
  }

  /** Seen from the default sphere, a ray is unchanged. */
  lemma DefaultSphereSpace(r: Ray)
    ensures Det(Default().transform) != 0.0 && Transform(r, Inverse(Default().transform)) == r
  {
    InverseOfIdentity();
    TransformByIdentity(r);
  }

  /** The default sphere intersects a ray where the unit sphere does. */
  lemma DefaultIntersects(r: Ray, objectId: nat, sqrt: real -> real)
    requires IsSqrt(sqrt)
    requires r.direction != Zero
    ensures Intersects(Default(), r, objectId, sqrt) == IntersectLocal(r, objectId, sqrt)
  {
    DefaultSphereSpace(r);
  }

  /** A sphere is hit where the unit sphere is hit by the ray carried back by the inverse of its transform. */
  lemma IntersectsSeenAs(s: Sphere, r: Ray, local: Ray, objectId: nat, sqrt: real -> real)
    requires IsSqrt(sqrt)
    requires s.transform.height == 4 && s.transform.width == 4 && Det(s.transform) != 0.0
    requires r.direction != Zero
    requires Transform(r, Inverse(s.transform)) == local
    ensures local.direction != Zero && Intersects(s, r, objectId, sqrt) == IntersectLocal(local, objectId, sqrt)
  {
    LocalDirectionNonzero(s.transform, r);
  }

  /** A scaled sphere is hit where the unit sphere is hit by the ray scaled by the reciprocal factors. */
  lemma IntersectsScaled(s: Sphere, x: real, y: real, z: real, r: Ray, objectId: nat, sqrt: real -> real)
    requires IsSqrt(sqrt)
    requires x != 0.0 && y != 0.0 && z != 0.0
    requires r.direction != Zero
    ensures && Det(Scaling(x, y, z)) != 0.0
            && Transform(r, Scaling(1.0 / x, 1.0 / y, 1.0 / z)).direction != Zero
            && Intersects(SetTransform(s, Scaling(x, y, z)), r, objectId, sqrt)
               == IntersectLocal(Transform(r, Scaling(1.0 / x, 1.0 / y, 1.0 / z)), objectId, sqrt)
  {
    InverseScalingTransform(x, y, z, r);
    IntersectsSeenAs(SetTransform(s, Scaling(x, y, z)), r, Transform(r, Scaling(1.0 / x, 1.0 / y, 1.0 / z)), objectId, sqrt);
  }

  /** A translated sphere is hit where the unit sphere is hit by the ray moved back. */
  lemma IntersectsTranslated(s: Sphere, x: real, y: real, z: real, r: Ray, back: Tuple, objectId: nat, sqrt: real -> real)
    requires IsSqrt(sqrt)
    requires IsPoint(r.origin) && IsVector(r.direction) && r.direction != Zero
    requires back == Vector(-x, -y, -z)
    ensures && Det(Translation(x, y, z)) != 0.0
            && Intersects(SetTransform(s, Translation(x, y, z)), r, objectId, sqrt) == IntersectLocal(Ray(Add(r.origin, back), r.direction), objectId, sqrt)
  {
    InverseTranslationMovesRay(x, y, z, r, back);
    IntersectsSeenAs(SetTransform(s, Translation(x, y, z)), r, Ray(Add(r.origin, back), r.direction), objectId, sqrt);
  }

  // The examples of the source, on named rays and matrices.

  /** Along the z axis from z = -5, through the centre. */
  const Front: Ray := AxisRay(0.0, 0.0, -5.0, 1.0)
  /** Along the z axis at height 1, touching the sphere. */
  const Grazing: Ray := AxisRay(0.0, 1.0, -5.0, 1.0)
  /** Along the z axis at height 2, passing above the sphere. */
  const Above: Ray := AxisRay(0.0, 2.0, -5.0, 1.0)
  /** Along the z axis from the centre. */
  const FromCentre: Ray := AxisRay(0.0, 0.0, 0.0, 1.0)
  /** Along the z axis from z = 5, beyond the sphere. */
  const Beyond: Ray := AxisRay(0.0, 0.0, 5.0, 1.0)
  /** The front ray seen from a sphere scaled by 2. */
  const Halved: Ray := AxisRay(0.0, 0.0, -2.5, 0.5)
  /** The front ray seen from a sphere moved by 5 along x. */
  const Shifted: Ray := AxisRay(-5.0, 0.0, -5.0, 1.0)
  /** Scaling by 2, and translation by 5 along x. */
  const Double: Matrix := Scaling(2.0, 2.0, 2.0)
  const Shift: Matrix := Translation(5.0, 0.0, 0.0)

  /** Through the centre from z = -5: hits at 4 and 6. */
  lemma LocalExampleFront(objectId: nat, sqrt: real -> real)
    requires IsSqrt(sqrt)
    ensures IntersectLocal(Front, objectId, sqrt) == [Intersection(4.0, objectId), Intersection(6.0, objectId)]
  {
    AxisHits(0.0, 0.0, -5.0, 1.0, objectId, sqrt);
    ExampleRoots(sqrt);
  }

  /** At height 1 the ray is tangent and both hits are at 5. */
  lemma LocalExampleGrazing(objectId: nat, sqrt: real -> real)
    requires IsSqrt(sqrt)
    ensures IntersectLocal(Grazing, objectId, sqrt) == [Intersection(5.0, objectId), Intersection(5.0, objectId)]
  {
    AxisHits(0.0, 1.0, -5.0, 1.0, objectId, sqrt);
    ExampleRoots(sqrt);
  }

  /** At height 2 the ray misses. */
  lemma LocalExampleAbove(objectId: nat, sqrt: real -> real)
    requires IsSqrt(sqrt)
    ensures IntersectLocal(Above, objectId, sqrt) == []
  {
    AxisHits(0.0, 2.0, -5.0, 1.0, objectId, sqrt);
  }

  /** From the centre: hits at -1 and 1. */
  lemma LocalExampleFromCentre(objectId: nat, sqrt: real -> real)
    requires IsSqrt(sqrt)
    ensures IntersectLocal(FromCentre, objectId, sqrt) == [Intersection(-1.0, objectId), Intersection(1.0, objectId)]
  {
    AxisHits(0.0, 0.0, 0.0, 1.0, objectId, sqrt);
    ExampleRoots(sqrt);
  }

  /** From beyond the sphere: both hits behind the origin, at -6 and -4. */
  lemma LocalExampleBeyond(objectId: nat, sqrt: real -> real)
    requires IsSqrt(sqrt)
    ensures IntersectLocal(Beyond, objectId, sqrt) == [Intersection(-6.0, objectId), Intersection(-4.0, objectId)]
  {
    AxisHits(0.0, 0.0, 5.0, 1.0, objectId, sqrt);
    ExampleRoots(sqrt);
  }

  /** The front ray scaled by one half in every direction is the halved ray. */
  lemma HalvedIsHalf()
    ensures Transform(Front, Scaling(1.0 / 2.0, 1.0 / 2.0, 1.0 / 2.0)) == Halved
  {
    var o, d := Tuple(0.0, 0.0, -2.5, 1.0), Tuple(0.0, 0.0, 0.5, 0.0);
    assert Front.origin == Tuple(0.0, 0.0, -5.0, 1.0) && Front.direction == Tuple(0.0, 0.0, 1.0, 0.0);
    UniformScaling(1.0 / 2.0, Front, o, d);
  }

  /** Seen from a sphere scaled by 2, the front ray is the halved ray. */
  lemma ScaledExampleSpace()
    ensures Det(Double) != 0.0 && Transform(Front, Inverse(Double)) == Halved
  {
    InverseScalingTransform(2.0, 2.0, 2.0, Front);
    HalvedIsHalf();
  }

  /** The halved ray meets the unit sphere at 3 and 7. */
  lemma LocalExampleHalved(objectId: nat, sqrt: real -> real)
    requires IsSqrt(sqrt)
    ensures IntersectLocal(Halved, objectId, sqrt) == [Intersection(3.0, objectId), Intersection(7.0, objectId)]
  {
    AxisHits(0.0, 0.0, -2.5, 0.5, objectId, sqrt);
    ExampleRoots(sqrt);
  }

  /** Seen from a sphere moved by 5 along x, the front ray is the shifted ray. */
  lemma TranslatedExampleSpace()
    ensures Det(Shift) != 0.0 && Transform(Front, Inverse(Shift)) == Shifted
  {
    assert Front.origin == Point(0.0, 0.0, -5.0) && Front.direction == Vector(0.0, 0.0, 1.0);
    InverseTranslationMovesRay(5.0, 0.0, 0.0, Front, Vector(-5.0, -0.0, -0.0));
  }

  /** The shifted ray misses the unit sphere. */
  lemma LocalExampleShifted(objectId: nat, sqrt: real -> real)
    requires IsSqrt(sqrt)
    ensures IntersectLocal(Shifted, objectId, sqrt) == []
  {
    AxisHits(-5.0, 0.0, -5.0, 1.0, objectId, sqrt);
  }
}
