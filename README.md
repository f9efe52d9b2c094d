# RayTracer in Dafny

A model of the discrete core of a small Whitted-style ray tracer written in C#:

- **Scene objects.** A scene holds spheres and one-sided planes, each with a checkerboard or shiny surface, lit by point lights.
- **Primary rays.** For each screen pixel, the tracer casts a ray from the camera, picks the closest object hit and shades the hit point.
- **Shading.** Shading sums the diffuse and specular terms of every light that the shadow ray reaches. It then either adds one mirror bounce or, at the maximum depth of 5, adds flat grey.
- **Pixel output.** Pixels are written as B, G, R, 255 into a shared byte buffer with one row per worker. Rows are rendered in batches of `processorCount` and handed to a `setScanlines` callback.
- **Fast inverse square root.** Vector normalisation and the sphere test use a table-seeded inverse square root built from IEEE-754 bit patterns.

Floats are modelled as mathematical reals. Operations with no exact meaning on reals are uninterpreted constants of module `Float32`: reading a float's bits (`BitsOf`), reading bits back as a float (`FloatOfBits`), `1/Math.Sqrt`, `Math.Pow`, division by zero, and an out-of-range `(byte)` cast. Every property proved here therefore holds whatever those operations return. The bit layout of the seed is modelled exactly on `bv32`, including C#'s arithmetic `>>` on `int`.

Files, one module each:

- `float32.dfy`: the `byte` type, `float.MaxValue`, the uninterpreted float operations, `Sar`, and the `(int)` and `(byte)` casts.
- `fastmath.dfy`: the seed table, its static initialiser as an imperative loop over an array, `InvSqrt` and `Sqrt`.
- `vector.dfy`, `color.dfy`: the value types and their algebra.
- `surfaces.dfy`: the two materials, as a datatype.
- `geometry.dfy`: the sphere and plane intersection tests and their normals.
- `tracer.dfy`: closest hit, shadow test, direct light and the bounded recursion. `ClosestIntersection` and `GetNaturalColor` are loops, proved against the recursive functions `ClosestOf` and `SumLights`.
- `render.dfy`: `ScanlineTask` and `RayTracer` as classes over a byte `array`, proved against the functions `PixelBytes`, `RowBytes` and `BatchBytes`.

Behaviours of the code a reader might not expect, which the model keeps:

- A plane whose normal is perpendicular to the ray, so that `Norm·Dir == 0`, is not rejected. Only `denom > 0` is rejected (SceneObject.cs:148).
- The reflectivity of a bounce is read at the nudged start point `pos + 0.001*reflectDir`, not at the hit point (Program.cs:151, 166).
- Rows of a height that the batch size does not divide are not dropped. The loop `for (y = 0; y < screenHeight; y += N)` runs a full last batch, renders rows at or past `screenHeight`, and passes them to `setScanlines` (Program.cs:254-264; `Render.LastBatchOverruns`).
- The pixel bytes written by `ScanlineTask.Start` are `(byte)(c*255)` of the unclamped channel. `Legalize` is used only by `ToDrawingColor` (Program.cs:210-212, Color.cs:61-64).

## Model

| member | source | states |
|---|---|---|
| Float32.Sar | RayTracer/SceneObject.cs:59 | `>>` on a signed 32-bit int: a logical shift for non-negative values, and the sign bit copied in for negative ones |
| Float32.Truncate | RayTracer/Color.cs:63 | the `(int)` cast truncates toward zero: `n <= x < n+1` for `x >= 0` and `n-1 < x <= n` for `x <= 0` |
| Float32.ToByte | RayTracer/Program.cs:210-212 | for `-1 < x < 256` the `(byte)` cast is x truncated toward zero (so (-1, 1) casts to 0, and [0, 256) to the floor); outside that range it is unspecified |
| Colors.Scale | RayTracer/Color.cs:32-35 | `Times(float, Color)` scales each channel by n |
| Colors.Times | RayTracer/Color.cs:36-39 | `Times(Color, Color)` is the channelwise product |
| Colors.Plus | RayTracer/Color.cs:41-44 | channelwise sum |
| Colors.Minus | RayTracer/Color.cs:45-48 | channelwise difference |
| Colors.ColorIdentities | RayTracer/Color.cs:32-50 | Background is the identity of Plus on both sides; White is the identity of Times; scaling by 1 is the identity; Minus undoes Plus |
| Colors.NamedConstants | RayTracer/Color.cs:50-54 | Background, DefaultColor and Black are one colour (0,0,0); Grey is White scaled by 0.5 |
| Colors.Legalize | RayTracer/Color.cs:56-59 | the result is never above 1; it is 1 when d > 1 and d itself otherwise, so negative values pass through |
| Colors.LegalizeIdempotent | RayTracer/Color.cs:56-59 | Legalize applied twice equals Legalize applied once |
| Colors.Channel | RayTracer/Color.cs:61-64 | `(int)(Legalize(c)*255)` is at most 255; it is non-negative exactly when `c*255 > -1` (truncation toward zero) and is 255 for c >= 1 |
| Colors.FromArgb | RayTracer/Color.cs:63 | `System.Drawing.Color.FromArgb(r, g, b)` gives the opaque colour (alpha 255) exactly when all three arguments lie in 0..255, and throws ArgumentException otherwise |
| Colors.ToDrawingColor | RayTracer/Color.cs:61-64 | the conversion succeeds exactly when every channel is above -1/255, with channels in 0..255 and 255 for a channel >= 1; otherwise FromArgb throws ArgumentException |
| Colors.NegativeChannelThrows | RayTracer/Color.cs:56-64 | nothing clamps from below: a channel of -1 reaches FromArgb as -255 and the conversion throws, while -0.001 truncates to 0 and is accepted |
| Surfaces.Diffuse | RayTracer/Program.cs:314-335 | the diffuse colour is White or Black; on the checkerboard it is White exactly on odd squares; Shiny is White |
| Surfaces.Specular | RayTracer/Program.cs:314-335 | the checkerboard's specular colour is White and Shiny's is Grey |
| Surfaces.Reflect | RayTracer/Program.cs:314-335 | reflectivity always lies in [0, 1] |
| Surfaces.Roughness | RayTracer/Program.cs:314-335 | the roughness exponent is positive |
| Surfaces.CheckerBoardAlternates | RayTracer/Program.cs:317-319 | moving one unit along X flips the square's parity, its diffuse colour and its reflectivity |
| Surfaces.CheckerBoardReflectFollowsColor | RayTracer/Program.cs:317-323 | on the checkerboard, White squares reflect 0.1 and Black squares reflect 0.7 |
| Vectors.Times | RayTracer/Vector.cs:33-36 | each component is multiplied by n |
| Vectors.Minus | RayTracer/Vector.cs:39-42 | componentwise difference |
| Vectors.Plus | RayTracer/Vector.cs:43-46 | componentwise sum |
| Vectors.Dot | RayTracer/Vector.cs:47-50 | stated by DotSymmetric and DotLinear: symmetric, and linear in its first argument |
| Vectors.Mag | RayTracer/Vector.cs:51-54 | stated by DotNormIsMag: `Dot(v, Norm(v)) == Mag(v)`; with an exact InvSqrt, `Mag(v)^2 == Dot(v, v)` by FastMath.SqrtSquaresBack |
| Vectors.Norm | RayTracer/Vector.cs:56-67 | stated by NormScalesUniformly and ExactScaleIsUnit: one common scale factor `InvSqrt(Dot(v, v))`, giving unit length when that factor is exact |
| Vectors.Cross | RayTracer/Vector.cs:69-74 | stated by CrossAntiCommutative and CrossOrthogonal: anticommutative and orthogonal to both factors |
| Vectors.SqrLength | RayTracer/Vector.cs:63 | the squared length `X²+Y²+Z²` equals `Dot(v, v)` and is non-negative |
| Vectors.Equals | RayTracer/Vector.cs:76-79 | true exactly when the two vectors are equal in all three components |
| Vectors.PlusMinusInverse | RayTracer/Vector.cs:39-46 | Minus undoes Plus and Plus undoes Minus |
| Vectors.DotSymmetric | RayTracer/Vector.cs:47-50 | `Dot(a, b) == Dot(b, a)` |
| Vectors.DotLinear | RayTracer/Vector.cs:33-50 | Dot is linear in its first argument under Times and Plus |
| Vectors.CrossAntiCommutative | RayTracer/Vector.cs:69-74 | `Cross(a, b) == -Cross(b, a)`, and `Cross(a, a)` is the zero vector |
| Vectors.CrossOrthogonal | RayTracer/Vector.cs:69-74 | `Cross(a, b)` is orthogonal to both a and b |
| Vectors.ScaledCrossOrthogonal | RayTracer/Camera.cs:16-17 | any multiple of a multiple of `Cross(a, b)` is orthogonal to a and to b |
| Vectors.NormScalesUniformly | RayTracer/Vector.cs:56-67 | Norm multiplies all three components by one factor, `InvSqrt(Dot(v, v))` |
| Vectors.DotNormIsMag | RayTracer/Vector.cs:51-67 | `Dot(v, Norm(v)) == Mag(v)` exactly, because Mag and Norm use the same approximate root |
| Vectors.ExactScaleIsUnit | RayTracer/Vector.cs:56-67 | when the scale factor is an exact inverse square root, the scaled vector has unit length |
| FastMath.SeedIndex | RayTracer/SceneObject.cs:59 | the lookup index `(a >> 15) & LOOKUP_MASK` is below 512, the table size, for every bit pattern (negative ones included) |
| FastMath.ExponentField | RayTracer/SceneObject.cs:59 | `(a >> 23) & 0xFF` is the biased exponent byte, with no sign-extension effect |
| FastMath.ExponentTerm | RayTracer/SceneObject.cs:59 | the exponent term sets only bits 23..30, and its exponent is `(380 - e) / 2` for input exponent e |
| FastMath.ExponentHalving | RayTracer/SceneObject.cs:59 | for an exponent byte e, `(380 - e) >> 1` is the integer half of `380 - e` and fits the exponent field |
| FastMath.SeedByte | RayTracer/SceneObject.cs:84 | a computed table entry sets no bit outside 15..22 |
| FastMath.SeedTable | RayTracer/SceneObject.cs:44-47 | the table has SQRT_TABLE_SIZE = 512 entries |
| FastMath.Seed | RayTracer/SceneObject.cs:59 | stated by SeedFieldsDisjoint: the exponent term in bits 23..30 OR the table byte in bits 15..22, with the sign bit and low 15 bits clear |
| FastMath.Refine | RayTracer/SceneObject.cs:61-62 | stated by RefineFixesExactRoot: an exact inverse square root is a fixed point |
| FastMath.InvSqrt | RayTracer/SceneObject.cs:49-64 | stated by InvSqrtKeepsExactSeed: two Newton steps from the seed read as a float, which keep an exact seed unchanged |
| FastMath.InitSeedTable | RayTracer/SceneObject.cs:71-88 | the static constructor's loop and the final patch leave the array equal to the table model, entry by entry |
| FastMath.SeedTableLayout | RayTracer/SceneObject.cs:84-87 | every entry is one byte at bit 15 (only bits 15..22 set), and entry 256 is `0xFF << 15` |
| FastMath.SeedFieldsDisjoint | RayTracer/SceneObject.cs:59 | exponent term and table entry share no bits, so the OR keeps both intact; the seed's sign bit and low 15 bits are clear |
| FastMath.TableInputLayout | RayTracer/SceneObject.cs:82 | table input i is positive with exponent 126 + (i >> 8) and top mantissa byte `i & 0xFF`; its low 15 bits are clear |
| FastMath.TableSizeAgrees | RayTracer/SceneObject.cs:39-45 | `2 << LOOKUP_BITS` is 512 and LOOKUP_MASK is 511 |
| FastMath.RefineFixesExactRoot | RayTracer/SceneObject.cs:61-62 | an exact inverse square root is a fixed point of the Newton step `r(1.5 - r²x/2)` |
| FastMath.InvSqrtKeepsExactSeed | RayTracer/SceneObject.cs:49-64 | when the seed is already exact, both Newton steps return it unchanged |
| FastMath.Sqrt | RayTracer/SceneObject.cs:66-69 | `Sqrt(0) == 0` for every InvSqrt |
| FastMath.SqrtSquaresBack | RayTracer/SceneObject.cs:66-69 | `Sqrt(x)² == x` wherever InvSqrt is exact |
| Geometry.SphereIntersect | RayTracer/SceneObject.cs:97-124 | no hit exactly when `v < 0` or `disc < 0`; otherwise the hit carries this sphere, the same ray and `Dist = v - Sqrt(disc)` |
| Geometry.PlaneIntersect | RayTracer/SceneObject.cs:145-156 | no hit exactly when `Norm·Dir > 0`; a hit carries this plane and the same ray; for a nonzero denominator `Dist = (Norm·Start + Offset) / -denom` |
| Geometry.Intersect | RayTracer/SceneObject.cs:17-21 | any hit carries the tested object and the tested ray |
| Geometry.Normal | RayTracer/SceneObject.cs:158-161 | a plane's normal is its Norm |
| Geometry.SphereNormal | RayTracer/SceneObject.cs:126-137 | stated by SphereNormalIsNorm: the inline computation equals `Vector.Norm(pos - Center)` |
| Geometry.SphereNormalIsNorm | RayTracer/SceneObject.cs:126-137 | the sphere normal is exactly `Vector.Norm(pos - Center)` |
| Geometry.PlaneNormalConstant | RayTracer/SceneObject.cs:158-161 | a plane's normal does not depend on the point |
| Geometry.SphereIgnoresRadius | RayTracer/SceneObject.cs:91-124 | two spheres differing only in Radius give the same answer: only Radius2 is read |
| Geometry.PlaneOneSided | RayTracer/SceneObject.cs:147-148 | a plane facing away from the ray is never hit |
| Geometry.PlaneHitOnPlane | RayTracer/SceneObject.cs:145-156 | with a negative denominator the plane is hit, and the hit point satisfies `Norm·P + Offset = 0` |
| Geometry.SphereHitOnSphere | RayTracer/SceneObject.cs:97-124 | for a unit direction and an exact square root, the hit point lies on the sphere: `|P - Center|² = Radius2` |
| Geometry.NearRootOnSphere | RayTracer/SceneObject.cs:109-116 | for a unit direction, the point at `v - root` lies on the sphere for any exact root of the discriminant |
| Geometry.SphereHeadOn | RayTracer/SceneObject.cs:97-124 | a ray aimed at the centre from distance d outside the sphere hits at `d - Sqrt(Radius2)` |
| Tracer.ClosestIntersection | RayTracer/Program.cs:39-80 | the foreach with strict `<` against the current closest (initially float.MaxValue) returns what the prefix scan `ClosestOf` selects |
| Tracer.ClosestNoneIff | RayTracer/Program.cs:67-79 | no intersection is returned exactly when no object reports a hit closer than float.MaxValue |
| Tracer.ClosestIsMinimal | RayTracer/Program.cs:69-77 | a returned hit is below float.MaxValue and no farther than any object's hit |
| Tracer.ClosestIsFirstMinimal | RayTracer/Program.cs:69-77 | a returned hit is some object's own intersection, and every earlier object misses or is strictly farther: the first object wins ties |
| Tracer.NegativeDistanceSelected | RayTracer/Program.cs:73 | negative distances are not rejected: a plane behind the ray start is returned at distance -1 |
| Tracer.TestRay | RayTracer/Program.cs:82-95 | stated by TestRayIsNearestHit: 0 with no hit, otherwise the nearest hit's distance |
| Tracer.TestRayIsNearestHit | RayTracer/Program.cs:82-95 | TestRay is 0 when nothing hits; otherwise it is the distance of an actual hit, no farther than any hit |
| Tracer.IsLit | RayTracer/Program.cs:124-128 | stated by LitWhenNothingHits and ShadowedByOccluder: lit with an empty shadow ray, shadowed by a nearer occluder |
| Tracer.LitWhenNothingHits | RayTracer/Program.cs:124-128 | with nothing on the shadow ray, the light counts as lit |
| Tracer.ShadowedByOccluder | RayTracer/Program.cs:124-128 | an occluder at a distance in `(0, Mag(light.Pos - pos)]` shadows the light, provided no hit lies exactly at the start; hits behind the start do not stop the shadowing |
| Tracer.DiffuseLight | RayTracer/Program.cs:133 | `lcolor` is Background for `illum <= 0` and the light scaled by illum otherwise |
| Tracer.SpecularLight | RayTracer/Program.cs:135 | `scolor` is Background for `specular <= 0` and the light scaled by `Pow(specular, roughness)` otherwise |
| Tracer.GetNaturalColor | RayTracer/Program.cs:117-147 | the loop's in-place channel updates produce the in-order sum, from DefaultColor, of the contributions of the lit lights |
| Tracer.AccumulateLight | RayTracer/Program.cs:140-142 | the three channel updates add `diffuse*lcolor + specular*scolor` to ret as one colour |
| Tracer.AddLight | RayTracer/Program.cs:124-143 | one light changes ret only when it is not in shadow, and then adds exactly its contribution |
| Tracer.SumLightsPrefixStep | RayTracer/Program.cs:122-145 | taking light i into the prefix sum adds its contribution when it is lit and nothing when it is shadowed |
| Tracer.ShadowedLightAddsNothing | RayTracer/Program.cs:122-145 | a shadowed light leaves the sum unchanged; a lit one adds exactly its contribution |
| Tracer.AllShadowedIsBlack | RayTracer/Program.cs:119-145 | when every light is shadowed, the direct light is black |
| Tracer.TermsGatedIndependently | RayTracer/Program.cs:130-142 | non-positive illum removes only the diffuse term and non-positive specular only the specular term; both give black |
| Tracer.TraceRay | RayTracer/Program.cs:97-115 | stated by TraceRayCases and TraceRayDepthIrrelevantPastMax: Background on a miss, otherwise the closest hit shaded; all depths past MaxDepth agree |
| Tracer.Shade | RayTracer/Program.cs:154-167 | stated by ShadeAtMaxDepth and ShadeBelowMaxDepth: direct light plus Grey at MaxDepth, otherwise plus one reflected trace |
| Tracer.GetReflectionColor | RayTracer/Program.cs:149-152 | stated by ShadeBelowMaxDepth: the reflectivity at the nudged point times the colour traced one level deeper |
| Tracer.TraceRayCases | RayTracer/Program.cs:97-115 | TraceRay is Background when nothing is hit, and otherwise Shade of the closest hit at the same depth |
| Tracer.ShadeAtMaxDepth | RayTracer/Program.cs:162-165 | at depth >= MaxDepth, Shade is direct light plus Grey, with no further trace |
| Tracer.ShadeBelowMaxDepth | RayTracer/Program.cs:149-166 | below MaxDepth, Shade adds exactly one reflected trace at depth+1 from `pos + 0.001*reflectDir`, weighted by the reflectivity there |
| Tracer.TraceRayDepthIrrelevantPastMax | RayTracer/Program.cs:154-166 | all depths >= MaxDepth give the same colour |
| Tracer.TraceCallsBounded | RayTracer/Program.cs:149-166 | counted over `TraceCalls`, a function that mirrors the recursion of TraceRay and Shade (the same closest-hit match and depth test, not tied to them by a lemma): from depth d at most `MaxDepth + 1 - d` TraceRay calls nest (6 from depth 0) |
| Tracer.CreateCamera | RayTracer/Camera.cs:12-20 | stated by CameraAxesOrthogonal |
| Tracer.CameraAxesOrthogonal | RayTracer/Camera.cs:12-20 | the camera keeps pos, and Forward, Right and Up are pairwise orthogonal for every InvSqrt, since Norm only scales |
| Tracer.DefaultCameraAxesOrthogonal | RayTracer/Program.cs:307 | the default camera sits at (3, 2, 4), and its Forward, Right and Up axes are pairwise orthogonal |
| Tracer.DefaultSceneSkyIsBlack | RayTracer/Program.cs:269-308 | in the default scene, a ray going straight up from (0,5,0) hits nothing: TestRay is 0 and the colour is Background |
| Render.PixelBytes | RayTracer/Program.cs:209-212 | a pixel is 4 bytes, B, G, R, then 255; each channel byte is `c*255` truncated toward zero whenever `-1 < c*255 < 256` |
| Render.PixelBytesInRange | RayTracer/Program.cs:209-212 | for channels in [0, 1] each channel byte is the floor of `c*255` |
| Render.RowBytes | RayTracer/Program.cs:205-213 | a row of width pixels is `4*width` bytes |
| Render.BatchBytes | RayTracer/Program.cs:254-264 | a batch of `rows` rows is `rows*4*width` bytes |
| Render.RowBytesExtensional | RayTracer/Program.cs:205-213 | a row's bytes depend only on the colours the trace returns |
| Render.RowBytesLayout | RayTracer/Program.cs:205-212 | byte `4x + ch` of a row is channel ch of pixel x |
| Render.BatchBytesRow | RayTracer/Program.cs:242-258 | byte `i*4*width + j` of a batch is byte j of row `y + i` |
| Render.BatchBytesLayout | RayTracer/Program.cs:242-258 | byte `(i*width + x)*4 + ch` of the buffer is in range and is channel ch of pixel x of row `y + i` |
| Render.ScanlineTask.constructor | RayTracer/Program.cs:193-199 | the task keeps width, offset, buffer and trace |
| Render.ScanlineTask.Start | RayTracer/Program.cs:201-215 | bytes `[offset, offset + 4*width)` become row y's pixel bytes; the bytes before and after are unchanged |
| Render.ScanlineTask.WritePixel | RayTracer/Program.cs:207-212 | the pixel's 4 bytes are written at i..i+3, and nothing else changes |
| Render.RowGrows | RayTracer/Program.cs:205-213 | one pass of Start's loop extends the region by pixel x of row y and leaves the bytes outside the region alone |
| Render.TaskRegionsDisjoint | RayTracer/Program.cs:242-246 | for i < j < n, task i's region ends no later than task j's starts, and all regions lie inside the `n*width*4` buffer |
| Render.RowRegion | RayTracer/Program.cs:242-246 | row i of the buffer is `[i*width*4, (i+1)*width*4)`, of length `4*width` and inside the buffer |
| Render.StartExtendsBatch | RayTracer/Program.cs:256-259 | once task i has run after tasks 0..i-1, the buffer prefix holds rows y..y+i |
| Render.NumBatches | RayTracer/Program.cs:254 | stated by BatchStartsBelowHeight: batch b runs exactly when `b*n < height` |
| Render.BatchStartsBelowHeight | RayTracer/Program.cs:254 | batch b runs exactly when its first row `b*n` is below the height |
| Render.BatchesCoverRows | RayTracer/Program.cs:254-265 | every row below the height lies in batch `row / n`, that batch runs, and no other batch that runs contains the row: each row is rendered exactly once |
| Render.LastBatchOverruns | RayTracer/Program.cs:238-265 | the last batch asks for rows at or past the height exactly when n does not divide the height |
| Render.RayTracer.constructor | RayTracer/Program.cs:24-29 | the tracer keeps the screen width and height |
| Render.RayTracer.CreateTasks | RayTracer/Program.cs:240-252 | task k renders full-width row k, into bytes `[k*width*4, ...)` of the shared buffer, with the pixel trace |
| Render.RayTracer.RunBatch | RayTracer/Program.cs:256-262 | running the n tasks for rows y..y+n-1 leaves the buffer equal to those rows' bytes |
| Render.RayTracer.RunTask | RayTracer/Program.cs:256-259 | task i writes row y+i right after rows y..y+i-1, so the buffer prefix holds rows y..y+i; the bytes after row i's region are unchanged |
| Render.RayTracer.RenderRows | RayTracer/Program.cs:239-265 | one setScanlines call per batch, `NumBatches(height, n)` in all; call b passes `(b*n, n, bytes of rows b*n .. b*n+n-1)` |
| Render.PixelTrace | RayTracer/Program.cs:246-250 | stated by Render.RayTracer.Render: the colour of pixel (x, y) is TraceRay from the camera position along `point(x, y)` at depth 0 |
| Render.RayTracer.Render | RayTracer/Program.cs:219-267 | the same log, where each pixel's colour is TraceRay from the camera through the pixel's direction at depth 0 |

## Left out

- Float rounding: every float operation is exact on reals here, so properties such as `Geometry.SphereHitOnSphere` hold for exact arithmetic only.
- The accuracy of `InvSqrt` after two Newton steps is not modelled. `FastMath.InvSqrtKeepsExactSeed` and `Vectors.ExactScaleIsUnit` state what follows once it is exact.
- The `_flint` pointer reinterpretation is replaced by the uninterpreted `BitsOf` and `FloatOfBits`, which map between a real and a `bv32` pattern.
- `Math.Sqrt` in the table build is the uninterpreted `RecipSqrt`.
- `Math.Pow` is the uninterpreted `Pow`.
- `Math.Floor` is Dafny's `.Floor` on reals; the checkerboard parity uses Dafny's Euclidean `%`, which agrees with C#'s on whether the result is zero.
- Geometry.PlaneIntersect: a zero denominator gives the uninterpreted `ZeroDivide(num)`, not an IEEE infinity or NaN.
- Float32.ToByte: a `(byte)` cast of a value outside (-1, 256) is the uninterpreted `UncheckedByte`, because C# leaves it unspecified.
- Float32.Truncate: the `(int)` cast is truncation on unbounded integers. C# gives an unspecified value for floats outside the `int` range, so the facts built on it (for example `Colors.Channel` and `Colors.ToDrawingColor` throwing exactly when `c*255 <= -1`) hold only for channels above about -8.4e6.
- Render.PixelBytes: the channel bytes are stated only where `-1 < c*255 < 256`. Channels beyond that range (above about 1.004, or at or below -1/255) go through the unspecified cast.
- `InvSqrt(0)` (a zero vector passed to Norm, or a hit at the sphere centre) is a fixed finite value in the program: the seed `(190 << 23) | iSqrt[0]` multiplied twice by 1.5. In the model that value is not determined by the uninterpreted operations `BitsOf` and `FloatOfBits`. `FastMath.Sqrt(0) == 0` holds regardless.
- Concurrency: `Task.Factory.StartNew`, `Task.WhenAll` and `Wait` are left out. The tasks of a batch write disjoint regions (`Render.TaskRegionsDisjoint`), so `RunBatch` runs them one after another. The `Task[] tasks` array is not modelled.
- `setScanlines` is an opaque callback. `Render` returns the sequence of its calls instead, each with a snapshot of the buffer.
- `Environment.ProcessorCount` is the parameter `processorCount`, which must be positive.
- Render.RayTracer.Render: requires `screenWidth >= 0`, because C# throws when allocating a byte array of negative size. That exception path is not modelled.
- Render.RayTracer.Render: `processorCount * screenWidth * 4`, `i * screenWidth * 4` and `y += processorCount` are computed on unbounded integers. 32-bit overflow is not modelled.
- Render.ScanlineTask.Start: requires its region to lie inside the buffer, where C# would throw IndexOutOfRangeException. `Render.RayTracer.CreateTasks` and `Render.RowRegion` show that every task Render creates meets this.
- `GetPoint`, `RecenterX` and `RecenterY` are pure float geometry. They are replaced by the ray-direction parameter `point` of `Render.RayTracer.Render`.
- `Camera.Create` is modelled as `Tracer.CreateCamera`. Only the orthogonality of its axes is proved; their lengths depend on InvSqrt's accuracy.
- The default scene is a fixture: `Tracer.DefaultScene` takes the camera as a parameter. Only the orthogonality of the default camera's axes is proved, for any InvSqrt; no lemma evaluates its literal `Norm` calls.
- The LINQ `Intersections` path is left out: it is compiled out because `USE_CLOSEST` is defined.
- The commented-out blocks are left out.
- `RayTracerForm`, `Main`, bitmap locking, `Marshal.Copy` and the picture box are UI and interop.
- `Vector.Make` and `Color.Make` are the datatype constructors. The `double` overloads' `(float)` casts are identities on reals.
- The null sentinel `Intersection { Dist = float.MaxValue, Thing = null }` of `ClosestIntersection` is `None`. Its distance is `Tracer.CandidateDist`.
