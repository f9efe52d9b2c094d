/**
 * The tracer: closest-hit selection, shadow testing, direct lighting and the
 * depth-bounded mirror recursion TraceRay -> Shade -> GetReflectionColor ->
 * TraceRay(depth + 1).
 */
module Tracer {
  import opened Float32
  import opened Vectors
  import Colors
  import Surfaces
  import opened Geometry

  datatype Light = Light(Pos: Vector, Color: Colors.Color)

  /** Up and Right are pre-scaled by the field-of-view factor 1.5, so they are not unit vectors. */
  datatype Camera = Camera(Pos: Vector, Forward: Vector, Up: Vector, Right: Vector)

  datatype Scene = Scene(Things: seq<SceneObject>, Lights: seq<Light>, Camera: Camera)

  const MaxDepth: int := 5

  // ---------------------------------------------------------------------------
  // Closest intersection

  /** A hit the scan can take: an intersection reported closer than float.MaxValue. */
  predicate Hits(thing: SceneObject, ray: Ray)
  {
    Intersect(thing, ray).Some? && Intersect(thing, ray).value.Dist < MaxValue
  }

  /** The distance of the scan's current candidate; the sentinel's is float.MaxValue. */
  function CandidateDist(closest: Option<Intersection>): (d: real)
  {
    if closest.Some? then closest.value.Dist else MaxValue
  }

  /** The candidate left after scanning `things` in order with a strict `<`. */
  function ClosestOf(things: seq<SceneObject>, ray: Ray): (r: Option<Intersection>)
    decreases |things|
  {
    if things == [] then None
    else
      var closest := ClosestOf(things[..|things| - 1], ray);
      var intersection := Intersect(things[|things| - 1], ray);
      if intersection.Some? && intersection.value.Dist < CandidateDist(closest)
      then intersection
      else closest
  }

  /** ClosestIntersection: the foreach over scene.Things keeping the nearer hit. */
  method ClosestIntersection(ray: Ray, scene: Scene) returns (r: Option<Intersection>)
    ensures r == ClosestOf(scene.Things, ray)
  {
    var closest: Option<Intersection> := None;
    var i := 0;
    while i < |scene.Things|
      invariant 0 <= i <= |scene.Things|
      invariant closest == ClosestOf(scene.Things[..i], ray)
    {
      var intersection := Intersect(scene.Things[i], ray);
      if intersection.Some? && intersection.value.Dist < CandidateDist(closest) {
        closest := intersection;
      }
      assert scene.Things[..i + 1][..i] == scene.Things[..i];
      i := i + 1;
    }
    assert scene.Things[..i] == scene.Things;
    r := closest;
  }

  /** The scan finds nothing exactly when no object reports a hit below float.MaxValue. */
  lemma {:induction false} ClosestNoneIff(things: seq<SceneObject>, ray: Ray)
    ensures ClosestOf(things, ray).None? <==> forall k :: 0 <= k < |things| ==> !Hits(things[k], ray)
    decreases |things|
  {
    if things != [] {
      var init := things[..|things| - 1];
      ClosestNoneIff(init, ray);
      assert forall k :: 0 <= k < |init| ==> init[k] == things[k];
    }
  }

  /** A found hit is nearer than float.MaxValue and no farther than any other hit. */
  lemma {:induction false} ClosestIsMinimal(things: seq<SceneObject>, ray: Ray)
    requires ClosestOf(things, ray).Some?
    ensures ClosestOf(things, ray).value.Dist < MaxValue
    ensures forall k :: 0 <= k < |things| && Hits(things[k], ray) ==>
              ClosestOf(things, ray).value.Dist <= Intersect(things[k], ray).value.Dist
    decreases |things|
  {
    var init := things[..|things| - 1];
    assert forall k :: 0 <= k < |init| ==> init[k] == things[k];
    if ClosestOf(init, ray).Some? {
      ClosestIsMinimal(init, ray);
    } else {
      ClosestNoneIff(init, ray);
    }
  }

  /**
   * A found hit is the one reported by some object k, and every earlier object
   * reports no hit or a strictly farther one: the first object wins ties.
   */
  lemma {:induction false} ClosestIsFirstMinimal(things: seq<SceneObject>, ray: Ray)
    requires ClosestOf(things, ray).Some?
    ensures exists k :: 0 <= k < |things| && Intersect(things[k], ray) == ClosestOf(things, ray) &&
              forall j :: 0 <= j < k && Hits(things[j], ray) ==>
                Intersect(things[j], ray).value.Dist > ClosestOf(things, ray).value.Dist
    decreases |things|
  {
    var n := |things| - 1;
    var init := things[..n];
    var r := ClosestOf(things, ray);
    assert forall k :: 0 <= k < |init| ==> init[k] == things[k];
    if r == ClosestOf(init, ray) && r.Some? {
      ClosestIsFirstMinimal(init, ray);
      var k :| 0 <= k < |init| && Intersect(init[k], ray) == r &&
               forall j :: 0 <= j < k && Hits(init[j], ray) ==> Intersect(init[j], ray).value.Dist > r.value.Dist;
      assert Intersect(things[k], ray) == r;
    } else {
      assert r == Intersect(things[n], ray);
      if ClosestOf(init, ray).Some? {
        ClosestIsMinimal(init, ray);
      } else {
        ClosestNoneIff(init, ray);
      }
      assert forall j :: 0 <= j < n && Hits(things[j], ray) ==> Intersect(things[j], ray).value.Dist > r.value.Dist;
    }
  }

  /** Negative distances are not rejected: a plane behind the ray start is still the closest hit. */
  lemma NegativeDistanceSelected()
    ensures var plane := Plane(Vector(0.0, 1.0, 0.0), 0.0, Surfaces.CheckerBoard);
            var ray := Ray(Vector(0.0, -1.0, 0.0), Vector(0.0, -1.0, 0.0));
            ClosestOf([plane], ray) == Some(Intersection(plane, ray, -1.0))
  {
    var plane := Plane(Vector(0.0, 1.0, 0.0), 0.0, Surfaces.CheckerBoard);
    var ray := Ray(Vector(0.0, -1.0, 0.0), Vector(0.0, -1.0, 0.0));
    assert [plane][..0] == [];
    assert Intersect(plane, ray) == Some(Intersection(plane, ray, -1.0));
  }

  // ---------------------------------------------------------------------------
  // Shadow rays

  /** TestRay: the closest hit's distance, or 0 when nothing is hit. */
  function TestRay(ray: Ray, scene: Scene): (d: real)
  {
    match ClosestOf(scene.Things, ray)
    case None => 0.0
    case Some(i) => i.Dist
  }

  /** TestRay is 0 when nothing hits; otherwise it is a hit's distance, no farther than any hit. */
  lemma TestRayIsNearestHit(ray: Ray, scene: Scene)
    ensures (forall k :: 0 <= k < |scene.Things| ==> !Hits(scene.Things[k], ray)) ==> TestRay(ray, scene) == 0.0
    ensures (exists k :: 0 <= k < |scene.Things| && Hits(scene.Things[k], ray)) ==>
              && (exists k :: 0 <= k < |scene.Things| && Hits(scene.Things[k], ray) &&
                    Intersect(scene.Things[k], ray).value.Dist == TestRay(ray, scene))
              && (forall k :: 0 <= k < |scene.Things| && Hits(scene.Things[k], ray) ==>
                    TestRay(ray, scene) <= Intersect(scene.Things[k], ray).value.Dist)
  {
    var things := scene.Things;
    ClosestNoneIff(things, ray);
    if ClosestOf(things, ray).Some? {
      ClosestIsMinimal(things, ray);
      ClosestIsFirstMinimal(things, ray);
      var k :| 0 <= k < |things| && Intersect(things[k], ray) == ClosestOf(things, ray) &&
               forall j :: 0 <= j < k && Hits(things[j], ray) ==>
                 Intersect(things[j], ray).value.Dist > ClosestOf(things, ray).value.Dist;
      assert Hits(things[k], ray);
    }
  }

  /** The shadow ray from pos toward a light, and the test `d == 0 || d > Mag(light.Pos - pos)`. */
  predicate IsLit(pos: Vector, light: Light, scene: Scene)
  {
    var ldis := Minus(light.Pos, pos);
    var neatIsect := TestRay(Ray(pos, Norm(ldis)), scene);
    (neatIsect == 0.0) || (neatIsect > Mag(ldis))
  }

  /** With nothing on the shadow ray, the light is seen. */
  lemma LitWhenNothingHits(pos: Vector, light: Light, scene: Scene)
    requires var ray := Ray(pos, Norm(Minus(light.Pos, pos)));
             forall k :: 0 <= k < |scene.Things| ==> !Hits(scene.Things[k], ray)
    ensures IsLit(pos, light, scene)
  {
    TestRayIsNearestHit(Ray(pos, Norm(Minus(light.Pos, pos))), scene);
  }

  /**
   * An occluder strictly in front of pos and no farther than the light shadows
   * it, provided no hit on the shadow ray lies exactly at its start (hits
   * behind the start are not rejected by the scan, and they shadow too).
   */
  lemma ShadowedByOccluder(pos: Vector, light: Light, scene: Scene, k: nat)
    requires var ray := Ray(pos, Norm(Minus(light.Pos, pos)));
             && k < |scene.Things| && Hits(scene.Things[k], ray)
             && 0.0 < Intersect(scene.Things[k], ray).value.Dist <= Mag(Minus(light.Pos, pos))
             && forall j :: 0 <= j < |scene.Things| && Hits(scene.Things[j], ray) ==>
                  Intersect(scene.Things[j], ray).value.Dist != 0.0
    ensures !IsLit(pos, light, scene)
  {
    TestRayIsNearestHit(Ray(pos, Norm(Minus(light.Pos, pos))), scene);
  }

  // ---------------------------------------------------------------------------
  // Direct illumination

  /** `lcolor`: the light scaled by `illum`, or Background when illum is not positive. */
  function DiffuseLight(illum: real, light: Light): (c: Colors.Color)
    ensures illum <= 0.0 ==> c == Colors.Background
    ensures illum > 0.0 ==> c == Colors.Scale(illum, light.Color)
  {
    if illum > 0.0 then Colors.Scale(illum, light.Color) else Colors.Background
  }

  /** `scolor`: the light scaled by `specular ^ roughness`, or Background when specular is not positive. */
  function SpecularLight(specular: real, roughness: real, light: Light): (c: Colors.Color)
    ensures specular <= 0.0 ==> c == Colors.Background
    ensures specular > 0.0 ==> c == Colors.Scale(Pow(specular, roughness), light.Color)
  {
    if specular > 0.0 then Colors.Scale(Pow(specular, roughness), light.Color) else Colors.Background
  }

  /** The two terms one light adds: diffuse surface * lcolor + specular surface * scolor, channel by channel. */
  function LightTerms(diffuseSurfaceColor: Colors.Color, specularSurfaceColor: Colors.Color,
                      illum: real, specular: real, roughness: real, light: Light): (c: Colors.Color)
  {
    Colors.Plus(Colors.Times(diffuseSurfaceColor, DiffuseLight(illum, light)),
                Colors.Times(specularSurfaceColor, SpecularLight(specular, roughness, light)))
  }

  /** What one unshadowed light adds, with illum = livec . norm and specular = livec . rdNormalized. */
  function LightContribution(thing: SceneObject, pos: Vector, norm: Vector, rdNormalized: Vector,
                             light: Light): (c: Colors.Color)
  {
    var livec := Norm(Minus(light.Pos, pos));
    LightTerms(Surfaces.Diffuse(thing.Surface, pos), Surfaces.Specular(thing.Surface, pos),
               Dot(livec, norm), Dot(livec, rdNormalized), Surfaces.Roughness(thing.Surface), light)
  }

  /** The sum over the given lights, in order from DefaultColor, of the lit lights' contributions. */
  function SumLights(thing: SceneObject, pos: Vector, norm: Vector, rdNormalized: Vector,
                     lights: seq<Light>, scene: Scene): (c: Colors.Color)
    decreases |lights|
  {
    if lights == [] then Colors.DefaultColor
    else
      var ret := SumLights(thing, pos, norm, rdNormalized, lights[..|lights| - 1], scene);
      var light := lights[|lights| - 1];
      if IsLit(pos, light, scene)
      then Colors.Plus(ret, LightContribution(thing, pos, norm, rdNormalized, light))
      else ret
  }

  /** GetNaturalColor's result: the sum over all of the scene's lights. */
  function NaturalColor(thing: SceneObject, pos: Vector, norm: Vector, rd: Vector, scene: Scene): (c: Colors.Color)
  {
    SumLights(thing, pos, norm, Norm(rd), scene.Lights, scene)
  }

  /** GetNaturalColor: accumulates into ret.R, ret.G, ret.B across the lights. */
  method GetNaturalColor(thing: SceneObject, pos: Vector, norm: Vector, rd: Vector, scene: Scene)
    returns (ret: Colors.Color)
    ensures ret == NaturalColor(thing, pos, norm, rd, scene)
  {
    ret := Colors.Color(Colors.DefaultColor.R, Colors.DefaultColor.G, Colors.DefaultColor.B);
    var rdNormalized := Norm(rd);
    var i := 0;
    while i < |scene.Lights|
      invariant 0 <= i <= |scene.Lights|
      invariant ret == SumLights(thing, pos, norm, rdNormalized, scene.Lights[..i], scene)
    {
      SumLightsPrefixStep(thing, pos, norm, rdNormalized, scene.Lights, i, scene);
      ret := AddLight(ret, thing, pos, norm, rdNormalized, scene.Lights[i], scene);
      i := i + 1;
    }
    assert scene.Lights[..i] == scene.Lights;
  }

  /** Extending the prefix of lights by light i adds that light's contribution exactly when it is lit. */
  lemma SumLightsPrefixStep(thing: SceneObject, pos: Vector, norm: Vector, rdNormalized: Vector,
                            lights: seq<Light>, i: nat, scene: Scene)
    requires i < |lights|
    ensures var before := SumLights(thing, pos, norm, rdNormalized, lights[..i], scene);
            var after := SumLights(thing, pos, norm, rdNormalized, lights[..i + 1], scene);
            && (!IsLit(pos, lights[i], scene) ==> after == before)
            && (IsLit(pos, lights[i], scene) ==>
                  after == Colors.Plus(before, LightContribution(thing, pos, norm, rdNormalized, lights[i])))
  {
    ShadowedLightAddsNothing(thing, pos, norm, rdNormalized, lights[..i], lights[i], scene);
    assert lights[..i] + [lights[i]] == lights[..i + 1];
  }

  /** One pass of GetNaturalColor's loop: the shadow test, then the channel updates for a lit light. */
  method AddLight(ret: Colors.Color, thing: SceneObject, pos: Vector, norm: Vector, rdNormalized: Vector,
                  light: Light, scene: Scene) returns (ret': Colors.Color)
    ensures !IsLit(pos, light, scene) ==> ret' == ret
    ensures IsLit(pos, light, scene) ==>
              ret' == Colors.Plus(ret, LightContribution(thing, pos, norm, rdNormalized, light))
  {
    ret' := ret;
    var ldis := Minus(light.Pos, pos);
    var livec := Norm(ldis);
    var neatIsect := TestRay(Ray(pos, livec), scene);
    var isInShadow := !((neatIsect == 0.0) || (neatIsect > Mag(ldis)));
    assert isInShadow == !IsLit(pos, light, scene);
    if !isInShadow {
      var illum := Dot(livec, norm);
      var lcolor := DiffuseLight(illum, light);
      var specular := Dot(livec, rdNormalized);
      var scolor := SpecularLight(specular, Surfaces.Roughness(thing.Surface), light);
      var diffuseSurfaceColor := Surfaces.Diffuse(thing.Surface, pos);
      var specularSurfaceColor := Surfaces.Specular(thing.Surface, pos);
      assert LightContribution(thing, pos, norm, rdNormalized, light) ==
             LightTerms(diffuseSurfaceColor, specularSurfaceColor, illum, specular,
                        Surfaces.Roughness(thing.Surface), light);
      AccumulateLight(ret', diffuseSurfaceColor, specularSurfaceColor, lcolor, scolor);
      ret' := ret'.(R := ret'.R + (diffuseSurfaceColor.R * lcolor.R + specularSurfaceColor.R * scolor.R));
      ret' := ret'.(G := ret'.G + (diffuseSurfaceColor.G * lcolor.G + specularSurfaceColor.G * scolor.G));
      ret' := ret'.(B := ret'.B + (diffuseSurfaceColor.B * lcolor.B + specularSurfaceColor.B * scolor.B));
    }
  }

  /** The three channel updates of GetNaturalColor add the two light terms to ret. */
  lemma AccumulateLight(ret: Colors.Color, diffuseSurfaceColor: Colors.Color, specularSurfaceColor: Colors.Color,
                        lcolor: Colors.Color, scolor: Colors.Color)
    ensures var r1 := ret.(R := ret.R + (diffuseSurfaceColor.R * lcolor.R + specularSurfaceColor.R * scolor.R));
            var r2 := r1.(G := r1.G + (diffuseSurfaceColor.G * lcolor.G + specularSurfaceColor.G * scolor.G));
            var r3 := r2.(B := r2.B + (diffuseSurfaceColor.B * lcolor.B + specularSurfaceColor.B * scolor.B));
            r3 == Colors.Plus(ret, Colors.Plus(Colors.Times(diffuseSurfaceColor, lcolor),
                                               Colors.Times(specularSurfaceColor, scolor)))
  {
  }

  /** When every light is shadowed, the direct light is black. */
  lemma {:induction false} AllShadowedIsBlack(thing: SceneObject, pos: Vector, norm: Vector, rdNormalized: Vector,
                                              lights: seq<Light>, scene: Scene)
    requires forall k :: 0 <= k < |lights| ==> !IsLit(pos, lights[k], scene)
    ensures SumLights(thing, pos, norm, rdNormalized, lights, scene) == Colors.Black
    decreases |lights|
  {
    if lights != [] {
      var init := lights[..|lights| - 1];
      assert forall k :: 0 <= k < |init| ==> init[k] == lights[k];
      AllShadowedIsBlack(thing, pos, norm, rdNormalized, init, scene);
    }
  }

  /** A shadowed light leaves the sum as it was; a lit one adds its contribution. */
  lemma ShadowedLightAddsNothing(thing: SceneObject, pos: Vector, norm: Vector, rdNormalized: Vector,
                                 lights: seq<Light>, light: Light, scene: Scene)
    ensures var before := SumLights(thing, pos, norm, rdNormalized, lights, scene);
            var after := SumLights(thing, pos, norm, rdNormalized, lights + [light], scene);
            && (!IsLit(pos, light, scene) ==> after == before)
            && (IsLit(pos, light, scene) ==>
                  after == Colors.Plus(before, LightContribution(thing, pos, norm, rdNormalized, light)))
  {
    assert (lights + [light])[..|lights|] == lights;
  }

  /**
   * Diffuse and specular are gated independently: a non-positive `illum`
   * removes only the diffuse term, a non-positive `specular` only the specular one.
   */
  lemma TermsGatedIndependently(diffuseSurfaceColor: Colors.Color, specularSurfaceColor: Colors.Color,
                                illum: real, specular: real, roughness: real, light: Light)
    ensures illum <= 0.0 ==>
              LightTerms(diffuseSurfaceColor, specularSurfaceColor, illum, specular, roughness, light) ==
              Colors.Times(specularSurfaceColor, SpecularLight(specular, roughness, light))
    ensures specular <= 0.0 ==>
              LightTerms(diffuseSurfaceColor, specularSurfaceColor, illum, specular, roughness, light) ==
              Colors.Times(diffuseSurfaceColor, DiffuseLight(illum, light))
    ensures illum <= 0.0 && specular <= 0.0 ==>
              LightTerms(diffuseSurfaceColor, specularSurfaceColor, illum, specular, roughness, light) == Colors.Black
  {
  }

  // ---------------------------------------------------------------------------
  // Depth-bounded recursion

  /** Remaining recursion budget at a depth: how many more bounces may follow. */
  function Budget(depth: int): (b: nat)
    ensures depth <= MaxDepth + 1 ==> b == MaxDepth + 1 - depth
  {
    if depth > MaxDepth then 0 else MaxDepth + 1 - depth
  }

  /** Shade's mirror direction `d - 2 (normal . d) normal`. */
  function ReflectDir(d: Vector, normal: Vector): (r: Vector)
  {
    Minus(d, Times(2.0 * Dot(normal, d), normal))
  }

  /** The secondary ray Shade casts: from the hit point nudged 0.001 along the mirror direction. */
  function ReflectedRay(isect: Intersection): (r: Ray)
  {
    var pos := HitPoint(isect.Ray, isect.Dist);
    var reflectDir := ReflectDir(isect.Ray.Dir, Normal(isect.Thing, pos));
    Ray(Plus(pos, Times(0.001, reflectDir)), reflectDir)
  }

  /** Background when nothing is hit, otherwise the closest hit shaded. */
  function TraceRay(ray: Ray, scene: Scene, depth: int): (c: Colors.Color)
    decreases 3 * Budget(depth) + 2
  {
    match ClosestOf(scene.Things, ray)
    case None => Colors.Background
    case Some(i) => Shade(i, scene, depth)
  }

  /** The direct-light part of Shade: DefaultColor plus GetNaturalColor at the hit point. */
  function DirectColor(isect: Intersection, scene: Scene): (c: Colors.Color)
  {
    var pos := HitPoint(isect.Ray, isect.Dist);
    var normal := Normal(isect.Thing, pos);
    var reflectDir := ReflectDir(isect.Ray.Dir, normal);
    Colors.Plus(Colors.DefaultColor, NaturalColor(isect.Thing, pos, normal, reflectDir, scene))
  }

  /** Direct light plus flat Grey at MaxDepth or beyond; otherwise plus one reflection bounce. */
  function Shade(isect: Intersection, scene: Scene, depth: int): (c: Colors.Color)
    decreases 3 * Budget(depth) + 1
  {
    var ret := DirectColor(isect, scene);
    if depth >= MaxDepth then Colors.Plus(ret, Colors.Grey)
    else
      var pos := HitPoint(isect.Ray, isect.Dist);
      var next := ReflectedRay(isect);
      Colors.Plus(ret, GetReflectionColor(isect.Thing, next.Start, Normal(isect.Thing, pos), next.Dir, scene, depth))
  }

  /** The surface's reflectivity times the colour traced one level deeper. */
  function GetReflectionColor(thing: SceneObject, pos: Vector, norm: Vector, rd: Vector, scene: Scene,
                              depth: int): (c: Colors.Color)
    decreases 3 * Budget(depth + 1) + 3
  {
    Colors.Scale(Surfaces.Reflect(thing.Surface, pos), TraceRay(Ray(pos, rd), scene, depth + 1))
  }

  /** With no intersection TraceRay is black; with one it is that hit shaded at the same depth. */
  lemma TraceRayCases(ray: Ray, scene: Scene, depth: int)
    ensures ClosestOf(scene.Things, ray).None? ==> TraceRay(ray, scene, depth) == Colors.Background
    ensures ClosestOf(scene.Things, ray).Some? ==>
              TraceRay(ray, scene, depth) == Shade(ClosestOf(scene.Things, ray).value, scene, depth)
  {
  }

  /** At MaxDepth or deeper Shade adds Grey and traces nothing further. */
  lemma ShadeAtMaxDepth(isect: Intersection, scene: Scene, depth: int)
    requires depth >= MaxDepth
    ensures Shade(isect, scene, depth) == Colors.Plus(DirectColor(isect, scene), Colors.Grey)
  {
  }

  /** Below MaxDepth Shade traces exactly one reflected ray, one level deeper. */
  lemma ShadeBelowMaxDepth(isect: Intersection, scene: Scene, depth: int)
    requires depth < MaxDepth
    ensures var pos := HitPoint(isect.Ray, isect.Dist);
            Shade(isect, scene, depth) ==
              Colors.Plus(DirectColor(isect, scene),
                          Colors.Scale(Surfaces.Reflect(isect.Thing.Surface, ReflectedRay(isect).Start),
                                       TraceRay(ReflectedRay(isect), scene, depth + 1)))
  {
  }

  /** Beyond MaxDepth the depth no longer matters: every such trace gives the same colour. */
  lemma TraceRayDepthIrrelevantPastMax(ray: Ray, scene: Scene, d1: int, d2: int)
    requires d1 >= MaxDepth && d2 >= MaxDepth
    ensures TraceRay(ray, scene, d1) == TraceRay(ray, scene, d2)
  {
  }

  /** How many TraceRay frames are nested when tracing `ray` from `depth` (this one included). */
  function TraceCalls(ray: Ray, scene: Scene, depth: int): (n: nat)
    decreases Budget(depth)
  {
    match ClosestOf(scene.Things, ray)
    case None => 1
    case Some(isect) =>
      if depth >= MaxDepth then 1 else 1 + TraceCalls(ReflectedRay(isect), scene, depth + 1)
  }

  /** From depth 0 the recursion never nests more than MaxDepth + 1 TraceRay calls. */
  lemma {:induction false} TraceCallsBounded(ray: Ray, scene: Scene, depth: int)
    requires 0 <= depth <= MaxDepth
    ensures 1 <= TraceCalls(ray, scene, depth) <= MaxDepth + 1 - depth
    decreases MaxDepth - depth
  {
    match ClosestOf(scene.Things, ray)
    case None =>
    case Some(isect) =>
      if depth < MaxDepth {
        TraceCallsBounded(ReflectedRay(isect), scene, depth + 1);
      }
  }

  // ---------------------------------------------------------------------------
  // The default scene, as a fixture

  /** Camera.Create: forward toward lookAt, right and up from world-down, both scaled by 1.5. */
  function CreateCamera(pos: Vector, lookAt: Vector): (c: Camera)
  {
    var forward := Norm(Minus(lookAt, pos));
    var down := Vector(0.0, -1.0, 0.0);
    var right := Times(1.5, Norm(Cross(forward, down)));
    var up := Times(1.5, Norm(Cross(forward, right)));
    Camera(pos, forward, up, right)
  }

  /**
   * The camera's axes are mutually orthogonal whatever InvSqrt returns, since
   * Norm only scales and right and up are scaled cross products.
   */
  lemma CameraAxesOrthogonal(pos: Vector, lookAt: Vector)
    ensures var c := CreateCamera(pos, lookAt);
            && c.Pos == pos
            && Dot(c.Forward, c.Right) == 0.0
            && Dot(c.Forward, c.Up) == 0.0
            && Dot(c.Right, c.Up) == 0.0
  {
    var c := CreateCamera(pos, lookAt);
    var forward, down := c.Forward, Vector(0.0, -1.0, 0.0);
    var side := Cross(forward, down);
    NormScalesUniformly(side);
    ScaledCrossOrthogonal(1.5, FastMath.InvSqrt(Dot(side, side)), forward, down);
    var lift := Cross(forward, c.Right);
    NormScalesUniformly(lift);
    ScaledCrossOrthogonal(1.5, FastMath.InvSqrt(Dot(lift, lift)), forward, c.Right);
    DotSymmetric(c.Right, forward);
    DotSymmetric(c.Up, forward);
    DotSymmetric(c.Up, c.Right);
  }

  /** The default scene's objects: a checkerboard floor and two shiny spheres. */
  const DefaultThings: seq<SceneObject> :=
    [ Plane(Vector(0.0, 1.0, 0.0), 0.0, Surfaces.CheckerBoard),
      Sphere(Vector(0.0, 1.0, 0.0), 1.0, 1.0, Surfaces.Shiny),
      Sphere(Vector(-1.0, 0.5, 1.5), 0.5, 0.25, Surfaces.Shiny) ]

  /** The default scene's lights: red, blue, green and a dim white one overhead. */
  const DefaultLights: seq<Light> :=
    [ Light(Vector(-2.0, 2.5, 0.0), Colors.Color(0.49, 0.07, 0.07)),
      Light(Vector(1.5, 2.5, 1.5), Colors.Color(0.07, 0.07, 0.49)),
      Light(Vector(1.5, 2.5, -1.5), Colors.Color(0.07, 0.49, 0.071)),
      Light(Vector(0.0, 3.5, 0.0), Colors.Color(0.21, 0.21, 0.35)) ]

  /** The default camera, at (3, 2, 4) looking at (-1, 0.5, 0). */
  const DefaultCamera := CreateCamera(Vector(3.0, 2.0, 4.0), Vector(-1.0, 0.5, 0.0))

  /** The default camera sits at (3, 2, 4), and its axes are pairwise orthogonal. */
  lemma DefaultCameraAxesOrthogonal()
    ensures DefaultCamera.Pos == Vector(3.0, 2.0, 4.0)
    ensures Dot(DefaultCamera.Forward, DefaultCamera.Right) == 0.0
    ensures Dot(DefaultCamera.Forward, DefaultCamera.Up) == 0.0
    ensures Dot(DefaultCamera.Right, DefaultCamera.Up) == 0.0
  {
    CameraAxesOrthogonal(Vector(3.0, 2.0, 4.0), Vector(-1.0, 0.5, 0.0));
  }

  /** The default scene around a camera; the scene's tracing never reads the camera. */
  function DefaultScene(camera: Camera): (scene: Scene)
    ensures scene.Things == DefaultThings && scene.Lights == DefaultLights
  {
    Scene(DefaultThings, DefaultLights, camera)
  }

  /** In the default scene a ray going straight up from above everything hits nothing. */
  lemma DefaultSceneSkyIsBlack(camera: Camera)
    ensures var ray := Ray(Vector(0.0, 5.0, 0.0), Vector(0.0, 1.0, 0.0));
            TestRay(ray, DefaultScene(camera)) == 0.0 && TraceRay(ray, DefaultScene(camera), 0) == Colors.Background
  {
    var ray := Ray(Vector(0.0, 5.0, 0.0), Vector(0.0, 1.0, 0.0));
    var things := DefaultThings;
    assert ClosestOf(things, ray).None? by {
      assert !Hits(things[0], ray) && !Hits(things[1], ray) && !Hits(things[2], ray);
      ClosestNoneIff(things, ray);
    }
    TraceRayCases(ray, DefaultScene(camera), 0);
  }
}
