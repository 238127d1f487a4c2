# A verified model of the raytracer's geometric kernel and PPM encoder

This project models in Dafny the core of a small Rust raytracer that follows
"The Ray Tracer Challenge". It covers these parts:

- homogeneous tuples (points and vectors);
- colors;
- dense matrices, with determinant, cofactors and inverse;
- the translation and scaling builders;
- rays;
- intersections and the choice of the hit;
- spheres;
- Phong materials and point lights;
- the canvas;
- the PPM exporter.

Every `f64` is a Dafny `real`. Arithmetic is therefore exact: the tests' float
comparisons become exact identities, selection rules and counting invariants.

`f64::sqrt` and `f64::powf` are function-valued parameters. The predicates
`Base.IsSqrt` and `Base.IsPow` state what the model relies on about them:

- a square root of a non-negative number is non-negative, and squares back to the number;
- one to any power is one, and a positive base gives a positive power.

## How the model is laid out

The modules follow the source files:

| module | file | models |
|---|---|---|
| `Base` | base.dfy | `Option`, the `approx_eq!` tolerance, the abstract square root and power, row-major index arithmetic |
| `Tuples` | tuple.dfy | both copies of `Tuple` (see below) |
| `Colors` | color.dfy | `Color` |
| `Matrices` | matrix.dfy | `Matrix` for every shape |
| `FourByFour` | matrix4.dfy | closed forms for 4x4 matrices |
| `Transforms` | transform.dfy | `translation` and `scaling` |
| `Rays` | ray.dfy | `Ray` |
| `Intersections` | intersection.dfy | `Intersection` and `from_hit` |
| `Spheres` | sphere.dfy | `Sphere` |
| `Lights` | light.dfy | `PointLight` |
| `Materials` | material.dfy | `Material` and `lighting` |
| `Canvases` | canvas.dfy | `Canvas` |
| `Exporter` | exporter.dfy | `PPMExporter` and `get_out_val` |

Notes on individual parts:

- **Tuples.** The repository holds two copies of the tuple type. One is `src/raytracer/tuple.rs`. The other is `src/tuple.rs`, an earlier copy that the crate root does not declare as a module. Both have the same fields and the same arithmetic. The earlier copy lacks `reflect` and takes its operands by value. One model, `Tuples`, covers both.
- **FourByFour.** The recursive determinant and cofactors of a 4x4 matrix are proved equal to polynomials in the sixteen entries. This is how `inverse` is shown to be a two-sided inverse, and the product associative, on the size that every transform has.
- **Intersections.** The borrowed `&dyn Object` becomes an object id.
- **Materials.** `lighting` is split in two steps. The first computes the two cosines: light vector with normal, and reflected light with eye. The second, `Shade`, is the color arithmetic with its branch structure. Both are compared with a per-channel reference sum, `PhongChannel`.
- **Exporter.** The writer becomes the string that is written. The separator logic is a counter state machine (`Breaks`, `Next`, `Counter`). The body is a sequence of tokens, each a value and the separator that follows it. `Decode` parses a rendered body back into tokens, and `ReadHeader` parses the header back. These inverses are the partners of the writing functions.

### Where the code and its description differ

The model follows the code in each case below.

- **The exporter's line limit counts values, not characters.** `MAX_PPM_LINE_LENGTH` is 70, and the counter in `export` counts values written since the last newline. A line can therefore hold 70 values of up to four characters each. The source's own test expects a first line of 139 characters.
- **Wide rows lose their alignment.** When a row holds more than 70 values, the counter resets at the 70-value break. Lines then no longer end at row boundaries, and the output can end with a space rather than a newline. A description of the exporter as "always ending with a newline, never splitting a row across a row boundary" holds only when a row has at most 70 values.
  - `Exporter.BreaksAligned` states the first regime.
  - `Exporter.BreaksWide` and `Exporter.WideRowExample` state the second.
- **The 1x1 determinant is 0.** `determinant` expands a 1x1 matrix along row 0. That multiplies its single value by the determinant of a 0x0 matrix, which is an empty sum. So every 1x1 determinant is 0, and the 1x1 identity is not invertible (`Matrices.DetSmall`, `Matrices.DetIdentity`).
- **`write_pixel` checks only the buffer bound.** The only check is the buffer's `y * width + x < width * height`. An `x` past the end of a row writes into the next row (`Canvases.WriteWrapsToNextRow`). The model takes that bound, not `x < width`, as the precondition.

## Model

| member | source | states |
|---|---|---|
| Base.ApproxEqualReflexiveSymmetric | src/raytracer/tuple.rs:76-83 | the tolerant scalar comparison (within 0.00001) is reflexive and symmetric |
| Tuples.Point | src/raytracer/tuple.rs:18-20 | a point keeps x, y, z, has w = 1, and classifies as a point and not as a vector |
| Tuples.Vector | src/raytracer/tuple.rs:22-24 | a vector keeps x, y, z, has w = 0, and classifies as a vector and not as a point |
| Tuples.PointVectorExclusive | src/raytracer/tuple.rs:42-48 | `is_point` and `is_vector` read only w, and never hold together |
| Tuples.AddSubKinds | src/raytracer/tuple.rs:87-127 | point + vector is a point; vector ± vector is a vector; point − point is a vector; point − vector is a point; point + point has w = 2, so it is neither kind |
| Tuples.AddThenSubRoundTrip | src/raytracer/tuple.rs:87-127 | moving by a tuple and back is the identity: (a + b) − b = a and (a − b) + b = a |
| Tuples.NegationLaws | src/raytracer/tuple.rs:131-145 | negation acts on all four components: it is an involution, a − b = a + (−b), a + (−a) = 0, −a = a · (−1), and 0 − a = −a |
| Tuples.ScaleDivideLaws | src/raytracer/tuple.rs:149-181 | multiplying and dividing by a nonzero scalar act on w too, undo each other, and dividing is multiplying by the reciprocal; a vector stays a vector |
| Tuples.DotSymmetric | src/raytracer/tuple.rs:59-61 | the four-component dot product is symmetric |
| Tuples.DotLinear | src/raytracer/tuple.rs:59-61 | the dot product is linear in its first operand over +, − and scalar multiples |
| Tuples.DotSelfPositive | src/raytracer/tuple.rs:59-61 | a · a is non-negative and zero exactly on the zero tuple |
| Tuples.Cross | src/raytracer/tuple.rs:63-69 | the cross product is always a vector |
| Tuples.CrossLaws | src/raytracer/tuple.rs:63-69 | swapping the operands negates the cross product; the result is orthogonal to both operands; a × a = 0 |
| Tuples.ReflectAboutUnitNormal | src/raytracer/tuple.rs:71-73 | about a unit normal, reflecting negates the normal component, and reflecting twice gives the vector back |
| Tuples.ReflectAboutYAxis | src/raytracer/tuple.rs:400-411 | reflecting (a, −b, c) about (0, 1, 0) gives (a, b, c); with a = b = 1, c = 0 this is the 45-degree example |
| Tuples.ReflectSlantedAt | src/raytracer/tuple.rs:71-73 | for any s with s² = 1/2, (0, −1, 0) reflected about the normal (s, s, 0) is (1, 0, 0) |
| Tuples.ReflectSlanted | src/raytracer/tuple.rs:413-424 | the slanted-surface example: (0, −1, 0) reflected about (√2/2, √2/2, 0) is (1, 0, 0) |
| Tuples.AxisMagnitudes | src/raytracer/tuple.rs:355-362 | the three axis vectors have magnitude 1 |
| Tuples.MagnitudeExample | src/raytracer/tuple.rs:363-366 | (1, 2, 3) and (−1, −2, −3) both have magnitude sqrt(14) |
| Tuples.UnitMagnitude | src/raytracer/tuple.rs:50-52 | a tuple whose dot product with itself is 1 has magnitude 1 |
| Tuples.Magnitude | src/raytracer/tuple.rs:50-52 | the magnitude is non-negative, squares to a · a, and is zero exactly on the zero tuple |
| Tuples.Normalize | src/raytracer/tuple.rs:54-57 | a nonzero tuple normalizes to a unit tuple (magnitude 1) that, scaled by the original magnitude, gives the tuple back |
| Tuples.NormalizeScaledUnit | src/raytracer/tuple.rs:369-377 | d > 0 times a unit tuple has magnitude d and normalizes back to the unit tuple |
| Tuples.ApproxEqLaws | src/raytracer/tuple.rs:76-83 | tolerant tuple equality is reflexive and symmetric; it accepts an offset of EPSILON and rejects one of 2 · EPSILON |
| Colors.NewColor | src/raytracer/color.rs:11-25 | `new` stores a tuple with w = 0, and `red`, `green`, `blue` return the three arguments |
| Colors.ChannelsRoundTrip | src/raytracer/color.rs:11-25 | a color is rebuilt by `new` from what its three accessors return |
| Colors.BlackIsDefault | src/raytracer/color.rs:33-37 | the default color has all channels 0 and is the zero tuple |
| Colors.Add | src/raytracer/color.rs:45-51 | the sum of two colors is again a color (w = 0) |
| Colors.Sub | src/raytracer/color.rs:53-59 | the difference of two colors is again a color, and adding the subtrahend back gives the minuend |
| Colors.Scale | src/raytracer/color.rs:61-67 | a color times a scalar is again a color |
| Colors.Mul | src/raytracer/color.rs:69-75 | the product of two colors is rebuilt by `new`, so it is always a color |
| Colors.ChannelWise | src/raytracer/color.rs:27-75 | +, −, the scalar product and the Hadamard product act channel by channel |
| Colors.ColorAlgebra | src/raytracer/color.rs:45-75 | (a + b) − b = a; the color product is commutative, with white as unit and black as zero |
| Matrices.CellIndex | src/raytracer/matrix.rs:103-115 | cell (row, column) lives at buffer index row · width + column, inside the buffer |
| Matrices.Extensionality | src/raytracer/matrix.rs:117-125 | two matrices of one shape that agree on every cell are equal |
| Matrices.New | src/raytracer/matrix.rs:15-17 | `new(h, w)` has shape h × w, h · w values, and every cell 0 |
| Matrices.FromValues | src/raytracer/matrix.rs:19-21 | `from_values` keeps the shape and the buffer as given |
| Matrices.Set | src/raytracer/matrix.rs:111-115 | assigning through `IndexMut` changes that cell and no other, and keeps the shape |
| Matrices.Identity | src/raytracer/matrix.rs:23-29 | `identity` has ones on the diagonal and zeros elsewhere |
| Matrices.IdentityLoopInBounds | src/raytracer/matrix.rs:23-29 | the diagonal writes of `identity` stay in the buffer exactly when height ≤ width |
| Matrices.Transpose | src/raytracer/matrix.rs:39-47 | `transpose` swaps the shape and cell (x, y) of the result is cell (y, x) of the input |
| Matrices.TransposeLaws | src/raytracer/matrix.rs:374-384 | transposing twice gives the matrix back; the square identity is its own transpose |
| Matrices.ScaleMatrix | src/raytracer/matrix.rs:154-163 | a matrix times a scalar keeps the shape and scales every cell |
| Matrices.ApproxEqLaws | src/raytracer/matrix.rs:117-125 | tolerant matrix equality is reflexive and symmetric, and one far-off cell breaks it |
| Matrices.Submatrix | src/raytracer/matrix.rs:49-57 | `submatrix(row, column)` is one row and one column smaller; cell (i, j) is the input cell after skipping the removed row and column |
| Matrices.SubmatrixKeepsOtherCells | src/raytracer/matrix.rs:49-57 | conversely, every cell outside the removed row and column appears in the submatrix |
| Matrices.FilteredRows | src/raytracer/matrix.rs:50-54 | the filter over the first r rows yields, in order, the kept rows with the removed column skipped |
| Matrices.CofactorIsSignedMinor | src/raytracer/matrix.rs:59-69 | the cofactor equals the minor, negated exactly when row + column is odd |
| Matrices.DetSmall | src/raytracer/matrix.rs:71-85 | the determinant is ad − bc on 2x2, and 0 on every 0x0 and 1x1 matrix |
| Matrices.DetIdentity | src/raytracer/matrix.rs:71-85 | the identity has determinant 1 from size 2 up, and the 1x1 identity has determinant 0 |
| Matrices.Determinant | src/raytracer/matrix.rs:71-74 | the determinant fails (the panic) exactly on a non-square matrix, and otherwise is the recursive expansion |
| Matrices.CofactorMatrix | src/raytracer/matrix.rs:91-97 | the matrix `inverse` fills holds cofactor (r, c) at (r, c) |
| Matrices.Inverse | src/raytracer/matrix.rs:87-100 | cell (r, c) of the inverse is cofactor (c, r) divided by the determinant |
| Matrices.InverseCell | src/raytracer/matrix.rs:98-99 | scaling the transposed cofactor matrix by 1 / det gives cofactor (c, r) / det at (r, c) |
| Matrices.Mul | src/raytracer/matrix.rs:127-143 | the corrected product: shape self.height × rhs.width, cell (y, x) is row y times column x |
| Matrices.MulIdentity | src/raytracer/matrix.rs:328-350 | multiplying by the identity on either side leaves a matrix unchanged |
| Matrices.MulTuple | src/raytracer/matrix.rs:145-152 | matrix times tuple: component i is row i dotted with the tuple |
| Matrices.RowTimesColumn | src/raytracer/matrix.rs:145-152 | the product loop's sum over row i of the matrix and the tuple's 4x1 column is row i dotted with the tuple |
| Matrices.MulAsWritten | src/raytracer/matrix.rs:127-143 | the product as written: it panics whenever both loops run and self is wider than rhs is tall, and when it does not panic its result has shape rhs.height × self.width |
| Matrices.RunWritesSome | src/raytracer/matrix.rs:130-141 | the loops run without an index panic exactly when every write index y · self.width + x is inside the rhs.height × self.width buffer |
| Matrices.RunWritesSquare | src/raytracer/matrix.rs:130-141 | for square operands of one size, each write of the loops puts the right sum in the right cell |
| Matrices.MulAsWrittenSquare | src/raytracer/matrix.rs:127-143 | for square operands of one size, the product as written is the correct product |
| Matrices.RunWritesColumn | src/raytracer/matrix.rs:130-141 | for a one-column rhs, row y's sum lands at y · self.width |
| Matrices.MulTupleAsWritten | src/raytracer/matrix.rs:145-152 | on a 4x4 matrix, the product as written with the tuple's column has the row-by-column sums in its column 0, so `Mul<&Tuple>` is right |
| Matrices.MulAsWrittenWrongShape | src/raytracer/matrix.rs:131 | a 2x3 times 3x2 product comes back 3x3 rather than 2x2 |
| Matrices.MulAsWrittenPanics | src/raytracer/matrix.rs:131-138 | a 3x2 times 2x3 product, which is defined, panics |
| FourByFour.CofactorClosed | src/raytracer/matrix.rs:63-69 | every 4x4 cofactor is the signed closed-form 3x3 minor of its rows |
| FourByFour.DetClosed | src/raytracer/matrix.rs:71-85 | the recursive 4x4 determinant is the signed sum over the 24 permutations |
| FourByFour.Laplace | src/raytracer/matrix.rs:71-85 | a row against its own cofactors gives the determinant, and against another row's cofactors gives 0 |
| FourByFour.LaplaceDown | src/raytracer/matrix.rs:71-85 | the same down the columns |
| FourByFour.MulInverseRight | src/raytracer/matrix.rs:87-100 | an invertible 4x4 matrix times its inverse is the identity |
| FourByFour.MulInverseLeft | src/raytracer/matrix.rs:87-100 | the inverse times its matrix is the identity |
| FourByFour.InverseUnique | src/raytracer/matrix.rs:87-100 | any left inverse of an invertible 4x4 matrix is its inverse |
| FourByFour.MulAssociative | src/raytracer/matrix.rs:127-143 | the 4x4 product is associative |
| FourByFour.MulInverseCancels | src/raytracer/matrix.rs:607-629 | (A · B) · inverse(B) = A for invertible 4x4 B |
| FourByFour.MulTupleCompose | src/raytracer/matrix.rs:145-152 | a product applied to a tuple applies the right factor first, then the left one |
| FourByFour.MulTupleIdentity | src/raytracer/matrix.rs:296-311 | the identity leaves every tuple unchanged |
| FourByFour.MulTupleLinear | src/raytracer/matrix.rs:145-152 | a matrix acts linearly on tuples |
| FourByFour.MulTupleInverse | src/raytracer/matrix.rs:87-100 | the inverse undoes the action of an invertible matrix on a tuple, in either order |
| Transforms.Translation | src/raytracer/transform.rs:3-9 | the translation's rows are the identity's, with x, y, z in column 3 of rows 0 to 2 |
| Transforms.Scaling | src/raytracer/transform.rs:11-18 | the scaling is diagonal (x, y, z, 1) with zeros elsewhere |
| Transforms.TranslationMoves | src/raytracer/transform.rs:26-64 | a translation adds (x, y, z) to a point and leaves a vector unchanged |
| Transforms.ScalingScales | src/raytracer/transform.rs:66-90 | a scaling multiplies the x, y, z components of points and vectors alike |
| Transforms.ReflectionIsNegativeScaling | src/raytracer/transform.rs:106-117 | scaling by (−1, 1, 1) negates x only |
| Transforms.TranslationDet | src/raytracer/transform.rs:3-9 | a translation has determinant 1, so it is invertible |
| Transforms.ScalingDet | src/raytracer/transform.rs:11-18 | a scaling's determinant is x · y · z |
| Transforms.ScalingInvertible | src/raytracer/transform.rs:11-18 | a scaling is invertible exactly when no factor is zero |
| Transforms.TranslationInverse | src/raytracer/transform.rs:39-51 | the inverse of a translation is the opposite translation |
| Transforms.InverseTranslationMovesBack | src/raytracer/transform.rs:39-51 | the inverse of a translation moves a point back by (x, y, z) |
| Transforms.ScalingInverse | src/raytracer/transform.rs:92-104 | the inverse of a scaling with nonzero factors is the reciprocal scaling |
| Transforms.InverseScalingDivides | src/raytracer/transform.rs:92-104 | the inverse of a scaling divides x, y and z by the factors |
| Rays.Position | src/raytracer/ray.rs:21-23 | position(t) − origin = direction · t; a point ray gives points |
| Rays.PositionAffine | src/raytracer/ray.rs:21-23 | position(0) is the origin, and position(t + s) = position(t) + direction · s |
| Rays.PositionExamples | src/raytracer/ray.rs:50-60 | the example ray (2, 3, 4) + t (1, 0, 0) is at (2 + t, 3, 4), which covers t = 0, 1, −1, 2.5 |
| Rays.RayFromParts | src/raytracer/ray.rs:9-19 | a ray is determined by what `origin` and `direction` return |
| Rays.Transform | src/raytracer/ray.rs:25-27 | `transform` multiplies origin and direction by the matrix, component by component |
| Rays.TransformPosition | src/raytracer/ray.rs:25-27 | the transformed ray's position(t) is the matrix applied to the original position(t) |
| Rays.TransformCompose | src/raytracer/ray.rs:25-27 | transforming by a product is transforming by the right factor, then the left one |
| Rays.TransformRoundTrip | src/raytracer/ray.rs:25-27 | the identity leaves a ray unchanged, and the inverse undoes an invertible transform |
| Rays.TransformTranslation | src/raytracer/ray.rs:62-74 | translating a ray moves its origin and keeps its direction |
| Rays.TransformScaling | src/raytracer/ray.rs:76-88 | scaling a ray scales its origin and its direction |
| Intersections.HitIsSmallestNonNegative | src/raytracer/objects/intersection.rs:14-18 | the hit is absent exactly when every t is negative; otherwise it is an element with t ≥ 0 and no larger than any other non-negative t |
| Intersections.FromHit | src/raytracer/objects/intersection.rs:14-18 | the filter-and-minimum scan returns no hit exactly when every t is negative; otherwise it returns element `index`, with t ≥ 0, minimal, and strictly below every earlier non-negative t; it agrees with the reference `Hit` |
| Intersections.FromHitMatchesHit | src/raytracer/objects/intersection.rs:14-18 | any result with the scan's properties is the reference hit |
| Intersections.HitExamples | src/raytracer/objects/intersection.rs:45-96 | [1, 2] hits at 1; [−1, 1] hits at 1; [−2, −1] misses; [5, 7, −3, 2] hits at 2 |
| Intersections.HitBoundaryCases | src/raytracer/objects/intersection.rs:16-17 | t = 0 is a hit, and of two equal minima the first wins |
| Spheres.Default | src/raytracer/objects/sphere.rs:45-49 | the default transform is 4x4 with determinant 1 and leaves every tuple unchanged |
| Spheres.SetTransformLaws | src/raytracer/objects/sphere.rs:34-40 | `transform` returns what `set_transform` set; the last setting wins; setting the current transform changes nothing |
| Spheres.IntersectLocal | src/raytracer/objects/sphere.rs:15-31 | no intersection exactly when the discriminant is negative, otherwise two, smaller first, all naming the sphere |
| Spheres.OnSphereIsIntersection | src/raytracer/objects/sphere.rs:15-31 | every t at which the ray is on the unit sphere is one of the two intersections |
| Spheres.IntersectionIsOnSphere | src/raytracer/objects/sphere.rs:25-26 | each intersection's t puts the ray on the unit sphere |
| Spheres.IntersectLocalMeetsSphere | src/raytracer/objects/sphere.rs:15-31 | the intersections are exactly the t at which the ray lies on the unit sphere |
| Spheres.Intersects | src/raytracer/objects/sphere.rs:12-32 | a world-space intersection list has zero or two entries, smaller first, all naming the sphere |
| Spheres.IntersectsMeetsTransformedSphere | src/raytracer/objects/sphere.rs:12-32 | the intersections are exactly the t at which the inverse transform carries position(t) onto the unit sphere |
| Spheres.AxisHits | src/raytracer/objects/sphere.rs:20-31 | a ray along +z from (x, y, z) misses exactly when x² + y² > 1, and otherwise hits at (−z ∓ √(1 − x² − y²)) / k |
| Spheres.LocalExampleFront | src/raytracer/objects/sphere.rs:57-70 | the ray from z = −5 through the centre hits at 4 and 6 |
| Spheres.LocalExampleGrazing | src/raytracer/objects/sphere.rs:72-86 | the tangent ray hits twice at 5 |
| Spheres.LocalExampleAbove | src/raytracer/objects/sphere.rs:88-99 | the ray at height 2 misses |
| Spheres.LocalExampleFromCentre | src/raytracer/objects/sphere.rs:101-114 | the ray from the centre hits at −1 and 1 |
| Spheres.LocalExampleBeyond | src/raytracer/objects/sphere.rs:116-129 | the ray from beyond the sphere hits at −6 and −4 |
| Spheres.InverseOfIdentity | src/raytracer/objects/sphere.rs:131-141 | the default transform is invertible and is its own inverse |
| Spheres.DefaultIntersects | src/raytracer/objects/sphere.rs:13 | the default sphere is hit where the unit sphere is |
| Spheres.IntersectsSeenAs | src/raytracer/objects/sphere.rs:13 | a sphere is hit where the unit sphere is hit by the ray carried back by the inverse transform |
| Spheres.IntersectsScaled | src/raytracer/objects/sphere.rs:156-170 | a scaled sphere is hit where the unit sphere is hit by the ray scaled by the reciprocal factors |
| Spheres.ScaledExampleSpace | src/raytracer/objects/sphere.rs:156-170 | seen from the sphere scaled by 2, the front ray is halved |
| Spheres.LocalExampleHalved | src/raytracer/objects/sphere.rs:156-170 | the halved ray hits at 3 and 7 |
| Spheres.IntersectsTranslated | src/raytracer/objects/sphere.rs:172-184 | a translated sphere is hit where the unit sphere is hit by the ray moved back |
| Spheres.TranslatedExampleSpace | src/raytracer/objects/sphere.rs:172-184 | seen from the sphere moved by 5 along x, the front ray starts at x = −5 |
| Spheres.LocalExampleShifted | src/raytracer/objects/sphere.rs:172-184 | that shifted ray misses |
| Lights.NewLight | src/raytracer/objects/lights.rs:9-19 | `position` and `intensity` return what `new` was given, unnormalised and unclamped |
| Lights.LightFromAccessors | src/raytracer/objects/lights.rs:8-20 | a light is determined by its two accessors, and nothing else is stored |
| Materials.SetColor | src/raytracer/objects/materials.rs:25-27 | `set_color` replaces the color and keeps the four scalars |
| Materials.SetAmbient | src/raytracer/objects/materials.rs:33-35 | `set_ambient` replaces ambient and keeps the other fields |
| Materials.SetDiffuse | src/raytracer/objects/materials.rs:41-43 | `set_diffuse` replaces diffuse and keeps the other fields |
| Materials.SetSpecular | src/raytracer/objects/materials.rs:49-51 | `set_specular` replaces specular and keeps the other fields |
| Materials.SetShininess | src/raytracer/objects/materials.rs:57-59 | `set_shininess` replaces shininess and keeps the other fields |
| Materials.SetterLaws | src/raytracer/objects/materials.rs:21-59 | writing back a field's value changes nothing, the last write wins, and writes to different fields commute |
| Materials.EqualLaws | src/raytracer/objects/materials.rs:113-121 | material equality is reflexive and symmetric; a scalar moved by EPSILON still compares equal, one moved by 2 · EPSILON does not |
| Materials.LightVector | src/raytracer/objects/materials.rs:66 | the light vector is a unit vector that, scaled by the distance, is light position − point |
| Materials.LightAlong | src/raytracer/objects/materials.rs:66 | a light at distance d along a unit vector u is seen along u |
| Materials.Shade | src/raytracer/objects/materials.rs:63-95 | each channel of the color arithmetic is the reference Phong sum: ambient always, plus diffuse when cos ≥ 0, plus specular when in addition the reflection cosine > 0; light behind gives ambient only; the result is a color |
| Materials.ShadeOfParts | src/raytracer/objects/materials.rs:75-95 | the ambient, diffuse and specular colors add up, channel by channel, to the reference sum |
| Materials.Lighting | src/raytracer/objects/materials.rs:61-96 | `lighting` is the reference sum at its two cosines, ambient only when the light is behind, and unclamped |
| Materials.PhongAtLeastAmbient | src/raytracer/objects/materials.rs:78-91 | with non-negative inputs, each channel is at least its ambient part |
| Materials.LightingAtLeastAmbient | src/raytracer/objects/materials.rs:61-96 | with non-negative colors and coefficients, `lighting` never falls below the ambient color |
| Materials.LightingLightBehind | src/raytracer/objects/materials.rs:73-78 | a light on the far side of the normal leaves only (color ⊙ intensity) · ambient |
| Materials.ReflectReversedNormal | src/raytracer/objects/materials.rs:84-85 | the reversed unit normal reflects to the normal, at cosine 1 with it |
| Materials.LightingHeadOn | src/raytracer/objects/materials.rs:155-169 | eye, normal and light along one unit vector: ambient + diffuse + full specular in every channel |
| Materials.DefaultHeadOnChannel | src/raytracer/objects/materials.rs:101-111 | the default material head-on in white light gives 0.1 + 0.9 + 0.9 = 1.9 per channel |
| Materials.DefaultAmbientShade | src/raytracer/objects/materials.rs:101-111 | the default material's ambient part in white light is 0.1 per channel |
| Materials.LightingExampleHeadOn | src/raytracer/objects/materials.rs:155-169 | the source's head-on example shades to (1.9, 1.9, 1.9) |
| Materials.LightingExampleBehind | src/raytracer/objects/materials.rs:219-233 | the source's light-behind example shades to (0.1, 0.1, 0.1) |
| Canvases.New | src/raytracer/canvas.rs:10-12 | `new(w, h)` has width w, height h and w · h black pixels |
| Canvases.NewIsBlack | src/raytracer/canvas.rs:40-49 | every pixel of a new canvas reads back black |
| Canvases.WritePixel | src/raytracer/canvas.rs:22-24 | `write_pixel` sets index y · width + x and changes no other pixel, width or height |
| Canvases.WriteThenRead | src/raytracer/canvas.rs:22-28 | `pixel_at` after `write_pixel` at the same place returns the color written |
| Canvases.IndexInjective | src/raytracer/canvas.rs:23-27 | inside the grid, distinct coordinates have distinct buffer indices |
| Canvases.WriteLeavesOthers | src/raytracer/canvas.rs:22-28 | writing one pixel inside the grid leaves every other pixel inside the grid as it was |
| Canvases.WriteWrapsToNextRow | src/raytracer/canvas.rs:23 | writing at column width + k of row y writes column k of row y + 1 |
| Canvases.WriteExample | src/raytracer/canvas.rs:51-62 | the 10 by 20 example: red written at (2, 3) reads back red |
| Exporter.OutVal | src/raytracer/exporter.rs:44-50 | a channel value is in 0..255: 0 at or below 0, 255 at or above 1, and otherwise px · 255 rounded to the nearest integer |
| Exporter.OutValMonotone | src/raytracer/exporter.rs:44-50 | a brighter channel never encodes to a smaller value |
| Exporter.OutValExamples | src/raytracer/exporter.rs:84-86 | 1.5 gives 255, 0.5 gives 128, −0.5 gives 0; 0 gives 0 and 1 gives 255 |
| Exporter.Decimal | src/raytracer/exporter.rs:30 | the decimal text of a value is nonempty, all digits, without a leading zero, and one digit exactly below 10 |
| Exporter.DecimalRoundTrip | src/raytracer/exporter.rs:30 | parsing the decimal text of n gives n |
| Exporter.ReadHeaderRoundTrip | src/raytracer/exporter.rs:23 | parsing the header back yields the width, the height and exactly the text after it |
| Exporter.HeaderExample | src/raytracer/exporter.rs:59-76 | the 5 by 3 header is "P3\n5 3\n255\n" |
| Exporter.Counter | src/raytracer/exporter.rs:31-37 | the line counter stays below 70 |
| Exporter.Tokens | src/raytracer/exporter.rs:27-39 | one token, a value with its separator, per value |
| Exporter.TokensAt | src/raytracer/exporter.rs:29-37 | token k carries value k, followed by a newline exactly when the counter after k values breaks the line |
| Exporter.DecodeRender | src/raytracer/exporter.rs:29-37 | decoding a rendered body gives back every value and every separator |
| Exporter.CounterCountsRun | src/raytracer/exporter.rs:31-37 | the counter counts the values written since the last newline |
| Exporter.LineHoldsAtMostMax | src/raytracer/exporter.rs:31 | no line holds 70 values or more without a newline |
| Exporter.BreaksAligned | src/raytracer/exporter.rs:31 | when a row has at most 70 values, a newline follows exactly the last value of each row |
| Exporter.BreaksWide | src/raytracer/exporter.rs:31-36 | when a row has more than 70 values, a newline follows exactly every 70th value, wherever the rows end |
| Exporter.Values | src/raytracer/exporter.rs:27-28 | three values per pixel |
| Exporter.ValuesAt | src/raytracer/exporter.rs:27-28 | pixel i contributes values 3i, 3i + 1, 3i + 2: its red, green and blue channels encoded |
| Exporter.WriteValue | src/raytracer/exporter.rs:30-37 | one step of the inner loop writes a piece that parses back to exactly this value, followed by a newline exactly when the counter is reset; the counter either resets or grows by one, and stays below 70 |
| Exporter.AppendValue | src/raytracer/exporter.rs:30-37 | one more value extends the body and the counter as the reference tokens say |
| Exporter.WriteChannels | src/raytracer/exporter.rs:29-38 | the inner loop over a pixel's channels extends the body by exactly those values |
| Exporter.WriteBody | src/raytracer/exporter.rs:25-39 | the outer loop writes the rendering of every channel value in storage order |
| Exporter.Export | src/raytracer/exporter.rs:20-41 | the output parses back to the header's width and height; its body decodes to the 3 · w · h channel values in storage order; it ends with a newline when a row fits on a line |
| Exporter.ExportMeaning | src/raytracer/exporter.rs:20-41 | the same meaning stated of the export text itself |
| Exporter.BodyDecodes | src/raytracer/exporter.rs:27-39 | the body decodes to as many values as were written, each the value written |
| Exporter.AlignedEndsWithNewline | src/raytracer/exporter.rs:31-37 | a body of whole rows, each of at most 70 values, ends with a newline |
| Exporter.CanvasBodyEndsWithNewline | src/raytracer/exporter.rs:135-149 | a nonempty canvas whose rows fit on a line exports a body ending in a newline |
| Exporter.WideZeroTokens | src/raytracer/exporter.rs:107-133 | 72 zeros in rows longer than a line: only value 69 is followed by a newline |
| Exporter.WideZeroLayout | src/raytracer/exporter.rs:107-133 | those 72 zeros render as a 139-character line, a newline, then "0 0 " |
| Exporter.WideRowExample | src/raytracer/exporter.rs:107-133 | the 24 by 1 black canvas: a first line of 139 characters, then "0 0 " with no final newline |
| Exporter.DataPixels | src/raytracer/exporter.rs:83-91 | the example's three colors land at buffer indices 0, 7 and 14 |
| Exporter.DataValues | src/raytracer/exporter.rs:102-104 | the example encodes value 0 as 255, value 22 as 128 and value 44 as 255 |
| Exporter.DataLines | src/raytracer/exporter.rs:102-104 | with rows of 15 values, exactly values 14, 29 and 44 end their lines |

## Left out

- Floating point. `f64` is `real`, so there is no rounding, overflow, NaN or infinity. `approx_eq!` is modelled by its absolute-epsilon test alone, without the ulps test. The equality lemmas therefore talk about exact values, or about the EPSILON tolerance alone.
- Square root and power are abstract parameters with only the properties named above. Examples that compare with decimal approximations of irrational values are not modelled:
  - the normalized (1, 2, 3) compared with (0.26726, 0.53452, 0.80178);
  - the lighting examples giving 1.0, 0.7364 and 1.6364.
- The numeric matrix examples are not restated; the general laws are proved instead. These are the 3x3 and 4x4 determinants −196, −4071, −2120 and 532, and the three literal inverses.
- The `Display` impl for `Tuple`, which formats floats to six places, is not part of this model.
- `src/main.rs` (a console demo) and `src/raytracer/objects/object.rs` (an empty trait) are not part of this model.
- Rotation, shearing and surface normals do not exist in the code and are not modelled.
- `Intersection`'s borrowed `&dyn Object` is an object id, and pointer identity is id equality.
- `std::io::Write` and `itoa`. The writer is the string returned, so a write never fails and `io::Result` is not modelled.
- `usize` overflow of `width * height`, `y * width + x` and the matrix index arithmetic is not modelled; all sizes are unbounded naturals.
- Panics on out-of-range indices are preconditions, except for `determinant` and the matrix product, which are modelled with `Option` (`Matrices.Determinant`, `Matrices.MulAsWritten`). The non-square panic of `determinant` is an `Option` only in `Matrices.Determinant` itself; the members that reach it are listed below.
- Matrices.Cofactor, Matrices.Minor, Matrices.IsInvertible, Matrices.Inverse: require a square matrix. The source panics there through `determinant` on a non-square matrix.
- Matrices.Identity: requires height ≤ width. The source panics when the height is larger, and Matrices.IdentityLoopInBounds states exactly that condition; the panic itself is not returned as a value.
- Matrices.FromValues: requires a buffer of length height · width. The source accepts any buffer and fails only later, when indexing.
- Matrices.Submatrix: requires row < height and column < width. Out of range, the source builds a buffer of the wrong length, or underflows on an empty matrix.
- Matrices.Inverse: requires a square matrix with a nonzero determinant. On a non-square matrix the source panics through `determinant`. On a singular one it divides by zero and returns infinities or NaN.
- Matrices.Mul: the corrected product requires the inner dimensions to agree. Matrices.MulAsWritten models the source's behaviour for every shape.
- Matrices.MulTuple: requires a 4x4 matrix. On other shapes the source reads cells of a differently shaped buffer. Matrices.RunWritesColumn describes where the sums land for one-column products.
- Rays.Transform: requires a 4x4 matrix, the restriction it inherits from Matrices.MulTuple, since both the origin and the direction go through `Mul<&Tuple>`.
- Tuples.Normalize: requires a nonzero tuple. The source divides by a zero magnitude and returns NaN components.
- Materials.Lighting: requires the light not to sit at the shaded point, for the same reason.
- Spheres.IntersectLocal: requires a nonzero direction. The source would divide by 2a = 0.
- Spheres.Intersects: requires an invertible 4x4 transform and a nonzero direction. A singular transform gives NaN in the source.
- Canvases.WritePixel: requires the flat index to be inside the buffer. Outside it the source panics.
- Exporter.OutVal: rounds halves up with `Round`, which agrees with `f64::round` on the positive values it meets; the cast to `u8` never truncates, since the value is already in 0..255.
- Exporter.DataValues: pins the three non-zero values and, through Exporter.DataLines, the line breaks of the 5 by 3 example. It does not restate the twelve zeros of each line's text.
- FourByFour.MulAssociative: associativity, and the inverse laws built on it, are proved for 4x4 matrices only, the size every transform has.

## Findings

| source | as written | input that shows it | evidently intended | confidence | as-written member | corrected member |
|---|---|---|---|---|---|---|
| src/raytracer/matrix.rs:131 | `Matrix::new(rhs.height(), self.width)`: the product buffer takes rhs.height rows and self.width columns, and is indexed with self.width as its row length | a 2x3 times a 3x2 matrix gives a 3x3 result instead of 2x2; a 3x2 times a 2x3 matrix indexes cell 4 of a 4-cell buffer and panics | `Matrix::new(self.height, rhs.width())`, the self.height × rhs.width product; square operands of one size, the only ones the renderer uses, are unaffected | high; not executed | Matrices.MulAsWritten | Matrices.Mul |
