/** Surface materials and how they scatter an incoming ray (Material.h).
    The random vector a material draws (a random unit vector for the diffuse
    material, a random point in the unit sphere for the glossy one) is passed
    in, and so is the square root used to normalise directions. */
module Materials {
  import opened Helpers
  import opened Vectors
  import opened Rays
  import opened Colors
  import opened HitRecords

  datatype Material =
    | PureDiffuse(albedo: Color3)
    | Reflective(albedo: Color3)
    | Glossy(albedo: Color3, glossiness: real)
    | Emissive(emitted: Color3)

  /** The glossiness the Glossy constructor uses when none is given. */
  const DefaultGlossiness: real := 0.0

  /** Glossy(color, gloss): std::clamp(gloss, 0.0, 1.0) is stored. */
  function MakeGlossy(color: Color3, gloss: real): (m: Material)
    ensures m.Glossy? && m.albedo == color
    ensures 0.0 <= m.glossiness <= 1.0
    ensures 0.0 <= gloss <= 1.0 ==> m.glossiness == gloss
    ensures gloss < 0.0 ==> m.glossiness == 0.0
    ensures gloss > 1.0 ==> m.glossiness == 1.0
  {
    Glossy(color, if gloss < 0.0 then 0.0 else if 1.0 < gloss then 1.0 else gloss)
  }

  /** color(): the albedo, or for a light its emitted colour. */
  function Color(m: Material): (c: Color3)
    ensures !m.Emissive? ==> c == m.albedo
    ensures m.Emissive? ==> c == EmittedColor(m)
  {
    match m
    case Emissive(e) => e
    case _ => m.albedo
  }

  /** emittedColor(): black unless the material is a light. */
  function EmittedColor(m: Material): (c: Color3)
    ensures !m.Emissive? ==> c == Black()
    ensures m.Emissive? ==> c == m.emitted
  {
    if m.Emissive? then m.emitted else Black()
  }

  /** scatter(ray, hitRecord): the outgoing ray, or None when the material
      absorbs (a light). */
  function Scatter(m: Material, ray: Ray, rec: Hit<Material>, random: Vector3,
                   sqrt: real -> real): (r: Option<Ray>)
    ensures r.None? <==> m.Emissive?
    ensures r.Some? ==> r.value.origin == rec.point
    ensures m.PureDiffuse? && !rec.normal.Add(random).NearZero(NearZeroEpsilon) ==>
      r.value.direction == rec.normal.Add(random)
    ensures m.PureDiffuse? && rec.normal.Add(random).NearZero(NearZeroEpsilon) ==>
      r.value.direction == rec.normal
    ensures m.Reflective? ==>
      r.value.direction == ray.direction.UnitVector(sqrt).Reflect(rec.normal)
    ensures m.Glossy? ==>
      r.value.direction.Dot(rec.normal) > 0.0 || r.value.direction == rec.normal
    ensures m.Glossy? && GlossyCandidate(m, ray, rec, random, sqrt).Dot(rec.normal) > 0.0 ==>
      r.value.direction == GlossyCandidate(m, ray, rec, random, sqrt)
    ensures m.Glossy? && GlossyCandidate(m, ray, rec, random, sqrt).Dot(rec.normal) <= 0.0 ==>
      r.value.direction == rec.normal
  {
    match m
    case PureDiffuse(_) =>
      var scatterDirection := rec.normal.Add(random);
      var direction := if scatterDirection.NearZero(NearZeroEpsilon) then rec.normal else scatterDirection;
      Some(Ray(rec.point, direction))
    case Reflective(_) =>
      Some(Ray(rec.point, ray.direction.UnitVector(sqrt).Reflect(rec.normal)))
    case Glossy(_, _) =>
      var glossyDirection := GlossyCandidate(m, ray, rec, random, sqrt);
      var direction := if glossyDirection.Dot(rec.normal) <= 0.0 then rec.normal else glossyDirection;
      Some(Ray(rec.point, direction))
    case Emissive(_) =>
      None
  }

  /** The glossy direction before the fallback: the mirror direction
      perturbed by the random point scaled by the glossiness. */
  function GlossyCandidate(m: Material, ray: Ray, rec: Hit<Material>, random: Vector3,
                           sqrt: real -> real): Vector3
    requires m.Glossy?
  {
    ray.direction.UnitVector(sqrt).Reflect(rec.normal).Add(random.Scale(m.glossiness))
  }

  /** With glossiness zero a glossy surface is a mirror, except that a mirror
      direction not pointing away from the surface falls back to the normal. */
  lemma GlossyZeroIsMirror(albedo: Color3, ray: Ray, rec: Hit<Material>, random: Vector3,
                           sqrt: real -> real)
    ensures var mirror := Scatter(Reflective(albedo), ray, rec, random, sqrt).value.direction;
            var glossy := Scatter(MakeGlossy(albedo, DefaultGlossiness), ray, rec, random, sqrt).value.direction;
            (mirror.Dot(rec.normal) > 0.0 ==> glossy == mirror) &&
            (mirror.Dot(rec.normal) <= 0.0 ==> glossy == rec.normal)
  {
    var m := MakeGlossy(albedo, DefaultGlossiness);
    var mirror := ray.direction.UnitVector(sqrt).Reflect(rec.normal);
    assert random.Scale(0.0) == Zero();
    assert GlossyCandidate(m, ray, rec, random, sqrt) == mirror;
  }

  /** A light absorbs every ray and its colour is its emission; every other
      material emits nothing. */
  lemma EmissionRules(m: Material, ray: Ray, rec: Hit<Material>, random: Vector3,
                      sqrt: real -> real)
    ensures m.Emissive? ==> Scatter(m, ray, rec, random, sqrt) == None && Color(m) == EmittedColor(m)
    ensures !m.Emissive? ==> EmittedColor(m) == Black() && Scatter(m, ray, rec, random, sqrt).Some?
  {
  }

  /** For a unit normal, the mirror direction has the opposite component
      along the normal from the unit incoming direction. */
  lemma ReflectiveFlipsNormalComponent(albedo: Color3, ray: Ray, rec: Hit<Material>,
                                       random: Vector3, sqrt: real -> real)
    requires rec.normal.LengthSquared() == 1.0
    ensures Scatter(Reflective(albedo), ray, rec, random, sqrt).value.direction.Dot(rec.normal) ==
            -ray.direction.UnitVector(sqrt).Dot(rec.normal)
  {
    ReflectFlipsNormalComponent(ray.direction.UnitVector(sqrt), rec.normal);
  }
}
