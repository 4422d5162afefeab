/** The rendering loop (RenderUtils.h; Renderer.h repeats the same logic as
    members of its class). rayColor follows a ray through at most depth
    bounces; renderRows fills the rows [startRow, endRow) of the frame
    buffer, pixel (i, j) at index j * imageWidth + i, with the gamma-corrected
    average of samplesPerPixel jittered rays; renderMultithread splits the
    rows among threadCount workers, the last worker taking the remainder.

    Randomness is an input: the jitter of each sample and the random vector
    each bounce of each sample draws (Draws). The workers write disjoint row
    ranges, so they are modelled running one after the other. No light
    source is passed, so the direct-light term is black. */
module RenderUtils {
  import opened Helpers
  import opened Intervals
  import opened Vectors
  import opened Rays
  import opened Colors
  import opened HitRecords
  import opened Materials
  import opened Objects
  import opened Cameras

  /** The world as rayColor sees it: a Hittable, of which rayColor only
      calls rayHit(ray, interval). */
  type World = (Ray, Interval) -> Option<Hit<Material>>

  /** The Hittable an object is. */
  function WorldOf(o: Object, boxHit: BoxTest, sqrt: real -> real): (w: World)
    ensures forall ray, interval :: w(ray, interval) == RayHit(o, ray, interval, boxHit, sqrt)
  {
    (ray, interval) => RayHit(o, ray, interval, boxHit, sqrt)
  }

  /** What rayColor needs besides the ray: the world and the square root. */
  datatype Scenery = Scenery(world: World, sqrt: real -> real)

  /** The random draws of a render: the two offsets in [0, 1) added to the
      pixel coordinates of sample s of pixel (i, j), and the random vector
      drawn at each remaining depth of that sample's path. */
  datatype Draws = Draws(jitter: (int, int, int) -> (real, real), bounce: (int, int, int) -> (int -> Vector3))

  /** The depth renderRows of RenderUtils.h passes to rayColor, which is also
      rayColor's default. */
  const RenderUtilsDepth: int := 10

  /** The interval in which rayColor accepts hits: (0.001, infinity). */
  function HitInterval(): Interval {
    Interval(Fin(0.001), Infinity)
  }

  function SkyTopColor(): Color3 {
    Color3(0.2, 0.5, 0.95)
  }

  function SkyBottomColor(): Color3 {
    Color3(0.85, 0.95, 1.0)
  }

  /** Each component of c lies between those of the top and the bottom sky
      colours. */
  predicate InSkyRange(c: Color3) {
    SkyTopColor().x <= c.x <= SkyBottomColor().x &&
    SkyTopColor().y <= c.y <= SkyBottomColor().y &&
    SkyTopColor().z <= c.z <= SkyBottomColor().z
  }

  /** The background: the bottom colour blended towards the top colour by
      0.5 * (y + 1) of the unit direction. */
  function SkyColor(direction: Vector3, sqrt: real -> real): (c: Color3)
    ensures IsSqrt(sqrt) ==> InSkyRange(c)
  {
    var unitDirection := direction.UnitVector(sqrt);
    var verticalBlendFactor := 0.5 * (unitDirection.y + 1.0);
    UnitComponent(unitDirection.y, unitDirection.LengthSquared());
    SkyBottomColor().Scale(1.0 - verticalBlendFactor).Add(SkyTopColor().Scale(verticalBlendFactor))
  }

  /** A component of a vector no longer than 1 lies in [-1, 1]. */
  lemma UnitComponent(y: real, lengthSquared: real)
    ensures y * y <= lengthSquared <= 1.0 ==> -1.0 <= y <= 1.0
  {
    if y * y > lengthSquared || lengthSquared > 1.0 {
    } else if y > 1.0 {
      assert y * y > 1.0 * y;
    } else if y < -1.0 {
      assert (-y) * (-y) > 1.0 * (-y);
    }
  }

  /** rayColor(ray, world, depth): black once the bounces are exhausted; for
      a hit, the material's emission plus the light arriving along the
      scattered ray, weighted by the base colour and by the cosine between
      the normal and the scattered direction over pi; for a miss, the sky. */
  function RayColor(ray: Ray, depth: int, scenery: Scenery, bounce: int -> Vector3): (c: Color3)
    ensures depth <= 0 ==> c == Black()
    decreases depth
  {
    if depth <= 0 then Black()
    else
      var hitRecordOpt := scenery.world(ray, HitInterval());
      if hitRecordOpt.Some? then
        var rec := hitRecordOpt.value;
        var baseColor := Color(rec.material);
        var emittedColor := EmittedColor(rec.material);
        var reflected := Scatter(rec.material, ray, rec, bounce(depth), scenery.sqrt);
        var indirectLight :=
          if reflected.Some? then
            var incoming := RayColor(reflected.value, depth - 1, scenery, bounce);
            var cosine := Max(0.0, rec.normal.Dot(reflected.value.direction.UnitVector(scenery.sqrt)));
            baseColor.Mul(incoming).Scale(cosine * (1.0 / Pi))
          else Black();
        var directLight := Black();
        emittedColor.Add(indirectLight).Add(directLight)
      else
        SkyColor(ray.direction, scenery.sqrt)
  }

  /** A ray that hits nothing shows the sky, whose colour lies between the
      two sky colours. */
  lemma MissShowsSky(ray: Ray, depth: int, scenery: Scenery, bounce: int -> Vector3)
    requires depth > 0 && IsSqrt(scenery.sqrt)
    requires scenery.world(ray, HitInterval()).None?
    ensures RayColor(ray, depth, scenery, bounce) == SkyColor(ray.direction, scenery.sqrt)
    ensures InSkyRange(RayColor(ray, depth, scenery, bounce))
  {
  }

  /** A ray that hits a light shows exactly the light's emission: the light
      scatters nothing. */
  lemma LightShowsItsEmission(ray: Ray, depth: int, scenery: Scenery, bounce: int -> Vector3)
    requires depth > 0
    requires var h := scenery.world(ray, HitInterval());
      h.Some? && h.value.material.Emissive?
    ensures RayColor(ray, depth, scenery, bounce) ==
      scenery.world(ray, HitInterval()).value.material.emitted
  {
    var rec := scenery.world(ray, HitInterval()).value;
    BlackIdentity(rec.material.emitted);
    BlackIdentity(rec.material.emitted.Add(Black()));
  }

  /** The path of a ray with depth d draws at most d random vectors, one at
      each remaining depth d, d - 1, ..., 1: the colour does not depend on
      any other draw, so the recursion makes at most d bounces. */
  lemma {:induction false} BouncesBounded(ray: Ray, depth: int, scenery: Scenery,
                                          bounce1: int -> Vector3, bounce2: int -> Vector3)
    requires forall k :: 1 <= k <= depth ==> bounce1(k) == bounce2(k)
    ensures RayColor(ray, depth, scenery, bounce1) == RayColor(ray, depth, scenery, bounce2)
    decreases depth
  {
    if depth > 0 {
      var hit := scenery.world(ray, HitInterval());
      if hit.Some? {
        var reflected := Scatter(hit.value.material, ray, hit.value, bounce1(depth), scenery.sqrt);
        if reflected.Some? {
          BouncesBounded(reflected.value, depth - 1, scenery, bounce1, bounce2);
        }
        HitSameBounces(ray, depth, scenery, bounce1, bounce2);
      }
    }
  }

  /** One step of BouncesBounded: a hit looks the same under two sets of
      draws that agree at this depth and bring back the same light along
      the scattered ray. */
  lemma HitSameBounces(ray: Ray, depth: int, scenery: Scenery, bounce1: int -> Vector3, bounce2: int -> Vector3)
    requires depth > 0 && bounce1(depth) == bounce2(depth)
    requires var hit := scenery.world(ray, HitInterval());
      hit.Some? &&
      var reflected := Scatter(hit.value.material, ray, hit.value, bounce1(depth), scenery.sqrt);
      reflected.Some? ==>
        RayColor(reflected.value, depth - 1, scenery, bounce1) == RayColor(reflected.value, depth - 1, scenery, bounce2)
    ensures RayColor(ray, depth, scenery, bounce1) == RayColor(ray, depth, scenery, bounce2)
  {
  }

  /** Every material a ray can hit has non-negative colour and emission. */
  ghost predicate NonNegativeHits(scenery: Scenery) {
    forall ray: Ray ::
      var h := scenery.world(ray, HitInterval());
      h.Some? ==> Color(h.value.material).NonNegative() && EmittedColor(h.value.material).NonNegative()
  }

  /** With non-negative materials no ray ever carries negative light. */
  lemma {:induction false} RayColorNonNegative(ray: Ray, depth: int, scenery: Scenery, bounce: int -> Vector3)
    requires IsSqrt(scenery.sqrt) && NonNegativeHits(scenery)
    ensures RayColor(ray, depth, scenery, bounce).NonNegative()
    decreases depth
  {
    if depth > 0 {
      var hit := scenery.world(ray, HitInterval());
      if hit.Some? {
        var reflected := Scatter(hit.value.material, ray, hit.value, bounce(depth), scenery.sqrt);
        if reflected.Some? {
          RayColorNonNegative(reflected.value, depth - 1, scenery, bounce);
        }
        HitNonNegative(ray, depth, scenery, bounce);
      }
    }
  }

  /** One step of RayColorNonNegative: a hit shows non-negative light when
      the light arriving along its scattered ray is non-negative. */
  lemma HitNonNegative(ray: Ray, depth: int, scenery: Scenery, bounce: int -> Vector3)
    requires depth > 0 && IsSqrt(scenery.sqrt) && NonNegativeHits(scenery)
    requires var hit := scenery.world(ray, HitInterval());
      hit.Some? &&
      var reflected := Scatter(hit.value.material, ray, hit.value, bounce(depth), scenery.sqrt);
      reflected.Some? ==> RayColor(reflected.value, depth - 1, scenery, bounce).NonNegative()
    ensures RayColor(ray, depth, scenery, bounce).NonNegative()
  {
    var rec := scenery.world(ray, HitInterval()).value;
    var reflected := Scatter(rec.material, ray, rec, bounce(depth), scenery.sqrt);
    var indirectLight := Black();
    if reflected.Some? {
      var incoming := RayColor(reflected.value, depth - 1, scenery, bounce);
      var cosine := Max(0.0, rec.normal.Dot(reflected.value.direction.UnitVector(scenery.sqrt)));
      NonNegativeProduct(cosine, 1.0 / Pi);
      NonNegativeClosed(Color(rec.material), incoming, cosine * (1.0 / Pi));
      NonNegativeClosed(Color(rec.material).Mul(incoming), incoming, cosine * (1.0 / Pi));
      indirectLight := Color(rec.material).Mul(incoming).Scale(cosine * (1.0 / Pi));
    }
    NonNegativeClosed(EmittedColor(rec.material), indirectLight, 0.0);
    NonNegativeClosed(EmittedColor(rec.material).Add(indirectLight), Black(), 0.0);
  }

  lemma NonNegativeProduct(a: real, b: real)
    requires a >= 0.0 && b >= 0.0
    ensures a * b >= 0.0
  {
  }

  /** rayColor with the world and the depth of a render fixed: the colour
      a ray brings back, given the random draws of its path. */
  type Tracer = (Ray, int -> Vector3) -> Color3

  function Trace(scenery: Scenery, depth: int): Tracer {
    (ray: Ray, bounce: int -> Vector3) => RayColor(ray, depth, scenery, bounce)
  }

  /** What the render loops need: the camera, the tracer, the random draws
      and the square root of correctedAverage. */
  datatype Setting = Setting(camera: Camera, trace: Tracer, draws: Draws, sqrt: real -> real)

  /** The setting of a render of the world of scenery at the given depth. */
  function MakeSetting(camera: Camera, scenery: Scenery, depth: int, draws: Draws): Setting {
    Setting(camera, Trace(scenery, depth), draws, scenery.sqrt)
  }

  /** Sample s of pixel (i, j): the ray through (i + dx, j + dy) with the
      sample's jitter, traced with the sample's draws. */
  function SampleColor(setting: Setting, i: int, j: int, s: int): Color3 {
    var offsets := setting.draws.jitter(i, j, s);
    setting.trace(setting.camera.GetRay(i as real + offsets.0, j as real + offsets.1), setting.draws.bounce(i, j, s))
  }

  /** The colour accumulated over samples 0 .. n - 1 of pixel (i, j). */
  function SampleSum(setting: Setting, i: int, j: int, n: int): (c: Color3)
    ensures n <= 0 ==> c == Black()
    decreases n
  {
    if n <= 0 then Black()
    else SampleSum(setting, i, j, n - 1).Add(SampleColor(setting, i, j, n - 1))
  }

  /** The value stored for pixel (i, j): correctedAverage of the sum. */
  function PixelColor(setting: Setting, i: int, j: int, samplesPerPixel: int): Color3
    requires samplesPerPixel != 0
  {
    SampleSum(setting, i, j, samplesPerPixel).CorrectedAverage(samplesPerPixel, setting.sqrt)
  }

  /** Accumulating n samples that all have colour c gives n times c. */
  lemma {:induction false} UniformSampleSum(setting: Setting, i: int, j: int, n: nat, c: Color3)
    requires forall s :: 0 <= s < n ==> SampleColor(setting, i, j, s) == c
    ensures SampleSum(setting, i, j, n) == c.Scale(n as real)
    decreases n
  {
    if n > 0 {
      UniformSampleSum(setting, i, j, n - 1, c);
      ScaleStep(c, (n - 1) as real);
    }
  }

  /** c * m + c == c * (m + 1) */
  lemma ScaleStep(c: Color3, m: real)
    ensures c.Scale(m).Add(c) == c.Scale(m + 1.0)
  {
  }

  /** The stored pixel is the gamma-corrected average: if every sample of a
      pixel has colour c, the pixel stores the square root of each component
      of c. */
  lemma UniformPixel(setting: Setting, i: int, j: int, samplesPerPixel: int, c: Color3)
    requires samplesPerPixel > 0
    requires forall s :: 0 <= s < samplesPerPixel ==> SampleColor(setting, i, j, s) == c
    ensures PixelColor(setting, i, j, samplesPerPixel) == Color3(setting.sqrt(c.x), setting.sqrt(c.y), setting.sqrt(c.z))
  {
    UniformSampleSum(setting, i, j, samplesPerPixel, c);
    UniformAverage(c, samplesPerPixel, setting.sqrt);
  }

  /** correctedAverage(n) of n times c is the square root of c. */
  lemma UniformAverage(c: Color3, n: int, sqrt: real -> real)
    requires n > 0
    ensures c.Scale(n as real).CorrectedAverage(n, sqrt) == Color3(sqrt(c.x), sqrt(c.y), sqrt(c.z))
  {
    var sum := c.Scale(n as real);
    var average := sum.CorrectedAverage(n, sqrt);
    AverageComponents(sum, n, sqrt);
    assert average.x == sqrt((1.0 / n as real) * sum.x);
    assert average.y == sqrt((1.0 / n as real) * sum.y);
    assert average.z == sqrt((1.0 / n as real) * sum.z);
    CancelCount(c.x, n);
    CancelCount(c.y, n);
    CancelCount(c.z, n);
    assert (1.0 / n as real) * sum.x == c.x && (1.0 / n as real) * sum.y == c.y && (1.0 / n as real) * sum.z == c.z;
    assert average == Color3(sqrt(c.x), sqrt(c.y), sqrt(c.z));
  }

  /** Dividing n copies of x by n gives x back. */
  lemma CancelCount(x: real, n: int)
    requires n > 0
    ensures (1.0 / n as real) * (n as real * x) == x
  {
  }

  /** A sum of non-negative samples is non-negative. */
  lemma {:induction false} SampleSumNonNegative(setting: Setting, i: int, j: int, n: int)
    requires forall s :: 0 <= s < n ==> SampleColor(setting, i, j, s).NonNegative()
    ensures SampleSum(setting, i, j, n).NonNegative()
    decreases n
  {
    if n > 0 {
      SampleSumNonNegative(setting, i, j, n - 1);
      NonNegativeClosed(SampleSum(setting, i, j, n - 1), SampleColor(setting, i, j, n - 1), 0.0);
    }
  }

  /** With non-negative materials every pixel the renderer stores is
      non-negative, so its conversion to 0..255 never goes below 0. */
  lemma PixelNonNegative(camera: Camera, scenery: Scenery, depth: int, draws: Draws,
                         i: int, j: int, samplesPerPixel: int)
    requires IsSqrt(scenery.sqrt) && NonNegativeHits(scenery) && samplesPerPixel > 0
    ensures PixelColor(MakeSetting(camera, scenery, depth, draws), i, j, samplesPerPixel).NonNegative()
  {
    var setting := MakeSetting(camera, scenery, depth, draws);
    forall s | 0 <= s < samplesPerPixel
      ensures SampleColor(setting, i, j, s).NonNegative()
    {
      var offsets := draws.jitter(i, j, s);
      RayColorNonNegative(camera.GetRay(i as real + offsets.0, j as real + offsets.1), depth, scenery, draws.bounce(i, j, s));
    }
    SampleSumNonNegative(setting, i, j, samplesPerPixel);
    CorrectedAverageInverts(SampleSum(setting, i, j, samplesPerPixel), samplesPerPixel, scenery.sqrt);
  }

  /** The index of pixel (i, j) in the frame buffer. */
  function PixelIndex(i: int, j: int, imageWidth: int): int {
    j * imageWidth + i
  }

  /** Every pixel of a W x H image has an index in [0, W * H), and distinct
      pixels have distinct indices. */
  lemma PixelIndexInBounds(i: int, j: int, imageWidth: int, imageHeight: int)
    requires 0 <= i < imageWidth && 0 <= j < imageHeight
    ensures 0 <= PixelIndex(i, j, imageWidth) < imageWidth * imageHeight
  {
    RowsFit(j, imageHeight, imageWidth);
  }

  lemma PixelIndexInjective(i1: int, j1: int, i2: int, j2: int, imageWidth: int)
    requires 0 <= i1 < imageWidth && 0 <= j1 && 0 <= i2 < imageWidth && 0 <= j2
    ensures PixelIndex(i1, j1, imageWidth) == PixelIndex(i2, j2, imageWidth) <==> i1 == i2 && j1 == j2
  {
    if j1 < j2 {
      RowsFit(j1, j2, imageWidth);
    } else if j2 < j1 {
      RowsFit(j2, j1, imageWidth);
    }
  }

  /** Row j ends no later than row n starts, for j < n. */
  lemma RowsFit(j: int, n: int, imageWidth: int)
    requires 0 <= j < n && 0 <= imageWidth
    ensures j * imageWidth + imageWidth <= n * imageWidth
  {
    assert (n - j) * imageWidth >= imageWidth by {
      MulAtLeast(n - j, imageWidth);
    }
  }

  /** Row a starts no later than row b, for a <= b. */
  lemma RowsOrdered(a: int, b: int, imageWidth: int)
    requires 0 <= a <= b && 0 <= imageWidth
    ensures a * imageWidth <= b * imageWidth
  {
    if a < b {
      RowsFit(a, b, imageWidth);
    }
  }

  lemma MulAtLeast(a: int, b: int)
    requires a >= 1 && b >= 0
    ensures a * b >= b
  {
    assert a * b == (a - 1) * b + b;
    assert (a - 1) * b >= 0;
  }

  /** The pixel at index j * imageWidth + i is (i, j): the column is the
      remainder and the row the quotient of the index by the width. */
  lemma IndexToPixel(i: int, j: int, imageWidth: int)
    requires 0 <= i < imageWidth && 0 <= j
    ensures PixelIndex(i, j, imageWidth) % imageWidth == i
    ensures PixelIndex(i, j, imageWidth) / imageWidth == j
  {
    var k := PixelIndex(i, j, imageWidth);
    var q := k / imageWidth;
    var r := k % imageWidth;
    assert k == q * imageWidth + r && 0 <= r < imageWidth;
    if q < j {
      RowsFit(q, j, imageWidth);
    } else if j < q {
      RowsFit(j, q, imageWidth);
    }
  }

  /** The indices [lo, hi) of frame hold the pixels they stand for: index
      k holds pixel (k % W, k / W). */
  ghost predicate Rendered(frame: seq<Color3>, lo: int, hi: int, imageWidth: int, samplesPerPixel: int,
                           setting: Setting) {
    0 <= lo <= hi <= |frame| && samplesPerPixel != 0 && (lo < hi ==> imageWidth > 0) &&
    forall k :: lo <= k < hi ==> frame[k] == PixelColor(setting, k % imageWidth, k / imageWidth, samplesPerPixel)
  }

  /** a and b are equally long and differ at most in the indices [lo, hi). */
  ghost predicate Agree(a: seq<Color3>, b: seq<Color3>, lo: int, hi: int) {
    |a| == |b| && forall k :: 0 <= k < |a| && (k < lo || hi <= k) ==> a[k] == b[k]
  }

  /** A frame whose rows [startRow, endRow) are rendered holds, at
      PixelIndex(i, j), pixel (i, j) of every row j in [startRow, endRow). */
  lemma PixelStored(frame: seq<Color3>, startRow: int, endRow: int, imageWidth: int, samplesPerPixel: int,
                    setting: Setting, i: int, j: int)
    requires 0 <= startRow <= j < endRow && 0 <= i < imageWidth
    requires Rendered(frame, startRow * imageWidth, endRow * imageWidth, imageWidth, samplesPerPixel, setting)
    ensures 0 <= PixelIndex(i, j, imageWidth) < |frame|
    ensures frame[PixelIndex(i, j, imageWidth)] == PixelColor(setting, i, j, samplesPerPixel)
  {
    RowsFit(j, endRow, imageWidth);
    RowsFit(startRow, j + 1, imageWidth);
    IndexToPixel(i, j, imageWidth);
    var k := PixelIndex(i, j, imageWidth);
    assert frame[k] == PixelColor(setting, k % imageWidth, k / imageWidth, samplesPerPixel);
  }

  /** Row j written column by column is row j rendered index by index. */
  lemma RowAsIndices(frame: seq<Color3>, j: int, rowStart: int, imageWidth: int, samplesPerPixel: int,
                     setting: Setting)
    requires 0 <= j && 0 <= imageWidth && rowStart == j * imageWidth
    requires rowStart + imageWidth <= |frame| && samplesPerPixel != 0
    requires forall i :: 0 <= i < imageWidth ==> frame[rowStart + i] == PixelColor(setting, i, j, samplesPerPixel)
    ensures Rendered(frame, rowStart, rowStart + imageWidth, imageWidth, samplesPerPixel, setting)
  {
    forall k | rowStart <= k < rowStart + imageWidth
      ensures frame[k] == PixelColor(setting, k % imageWidth, k / imageWidth, samplesPerPixel)
    {
      var i := k - rowStart;
      IndexToPixel(i, j, imageWidth);
      assert frame[rowStart + i] == PixelColor(setting, i, j, samplesPerPixel);
    }
  }

  /** Rendering [mid, hi) while keeping everything outside it extends a
      rendered [lo, mid) to a rendered [lo, hi). */
  lemma RenderedExtends(before: seq<Color3>, after: seq<Color3>, lo: int, mid: int, hi: int,
                        imageWidth: int, samplesPerPixel: int, setting: Setting)
    requires Rendered(before, lo, mid, imageWidth, samplesPerPixel, setting)
    requires Rendered(after, mid, hi, imageWidth, samplesPerPixel, setting)
    requires Agree(after, before, mid, hi)
    ensures Rendered(after, lo, hi, imageWidth, samplesPerPixel, setting)
  {
  }

  /** Agreement outside [lo, mid) and outside [mid, hi) is agreement outside
      [lo, hi). */
  lemma AgreeExtends(a: seq<Color3>, b: seq<Color3>, c: seq<Color3>, lo: int, mid: int, hi: int)
    requires lo <= mid <= hi && Agree(b, a, lo, mid) && Agree(c, b, mid, hi)
    ensures Agree(c, a, lo, hi)
  {
  }

  /** Row j of the image: pixel (i, j) for each column i. */
  function RowPixels(j: int, imageWidth: int, samplesPerPixel: int, setting: Setting): (row: seq<Color3>)
    requires 0 <= imageWidth && samplesPerPixel != 0
    ensures |row| == imageWidth
  {
    seq(imageWidth, i => PixelColor(setting, i, j, samplesPerPixel))
  }

  /** The frame with row j, the indices [j * W, j * W + W), replaced by
      the row's pixels. */
  function PaintRow(frame: seq<Color3>, j: int, imageWidth: int, samplesPerPixel: int, setting: Setting)
    : (painted: seq<Color3>)
    requires 0 <= j && 0 <= imageWidth && j * imageWidth + imageWidth <= |frame| && samplesPerPixel != 0
    ensures |painted| == |frame|
  {
    frame[..j * imageWidth] + RowPixels(j, imageWidth, samplesPerPixel, setting) + frame[j * imageWidth + imageWidth..]
  }

  /** The frame after the rows [startRow, endRow) have been painted one
      after the other. */
  function Painted(frame: seq<Color3>, startRow: int, endRow: int, imageWidth: int, samplesPerPixel: int,
                   setting: Setting): (painted: seq<Color3>)
    requires 0 <= startRow <= endRow && 0 <= imageWidth && endRow * imageWidth <= |frame| && samplesPerPixel != 0
    ensures |painted| == |frame|
    decreases endRow - startRow
  {
    if endRow == startRow then frame
    else
      RowsFit(endRow - 1, endRow, imageWidth);
      PaintRow(Painted(frame, startRow, endRow - 1, imageWidth, samplesPerPixel, setting),
               endRow - 1, imageWidth, samplesPerPixel, setting)
  }

  /** Painting row j renders its indices and changes nothing else. */
  lemma PaintRowRenders(frame: seq<Color3>, j: int, imageWidth: int, samplesPerPixel: int, setting: Setting)
    requires 0 <= j && 0 <= imageWidth && j * imageWidth + imageWidth <= |frame| && samplesPerPixel != 0
    ensures var painted := PaintRow(frame, j, imageWidth, samplesPerPixel, setting);
      Rendered(painted, j * imageWidth, j * imageWidth + imageWidth, imageWidth, samplesPerPixel, setting) &&
      Agree(painted, frame, j * imageWidth, j * imageWidth + imageWidth)
  {
    var painted := PaintRow(frame, j, imageWidth, samplesPerPixel, setting);
    var rowStart := j * imageWidth;
    forall i | 0 <= i < imageWidth
      ensures painted[rowStart + i] == PixelColor(setting, i, j, samplesPerPixel)
    {
      assert painted[rowStart + i] == RowPixels(j, imageWidth, samplesPerPixel, setting)[i];
    }
    RowAsIndices(painted, j, rowStart, imageWidth, samplesPerPixel, setting);
  }

  /** Painting the rows [startRow, endRow) renders the indices
      [startRow * W, endRow * W) and changes nothing else. */
  lemma {:induction false} PaintedRenders(frame: seq<Color3>, startRow: int, endRow: int, imageWidth: int,
                                          samplesPerPixel: int, setting: Setting)
    requires 0 <= startRow <= endRow && 0 <= imageWidth && endRow * imageWidth <= |frame| && samplesPerPixel != 0
    ensures var painted := Painted(frame, startRow, endRow, imageWidth, samplesPerPixel, setting);
      Rendered(painted, startRow * imageWidth, endRow * imageWidth, imageWidth, samplesPerPixel, setting) &&
      Agree(painted, frame, startRow * imageWidth, endRow * imageWidth)
    decreases endRow - startRow
  {
    if endRow == startRow {
      assert startRow * imageWidth >= 0;
    } else {
      var last := endRow - 1;
      RowsFit(last, endRow, imageWidth);
      assert last * imageWidth + imageWidth == endRow * imageWidth;
      if startRow < last {
        RowsFit(startRow, last, imageWidth);
      }
      var before := Painted(frame, startRow, last, imageWidth, samplesPerPixel, setting);
      var after := Painted(frame, startRow, endRow, imageWidth, samplesPerPixel, setting);
      assert after == PaintRow(before, last, imageWidth, samplesPerPixel, setting);
      PaintedRenders(frame, startRow, last, imageWidth, samplesPerPixel, setting);
      PaintRowRenders(before, last, imageWidth, samplesPerPixel, setting);
      RenderedExtends(before, after, startRow * imageWidth, last * imageWidth, endRow * imageWidth,
                      imageWidth, samplesPerPixel, setting);
      AgreeExtends(frame, before, after, startRow * imageWidth, last * imageWidth, endRow * imageWidth);
    }
  }

  /** Painting [a, b) and then [b, c) is painting [a, c). */
  lemma {:induction false} PaintedCompose(frame: seq<Color3>, a: int, b: int, c: int, imageWidth: int,
                                          samplesPerPixel: int, setting: Setting)
    requires 0 <= a <= b <= c && 0 <= imageWidth && samplesPerPixel != 0
    requires b * imageWidth <= c * imageWidth <= |frame|
    ensures Painted(Painted(frame, a, b, imageWidth, samplesPerPixel, setting), b, c, imageWidth, samplesPerPixel, setting)
      == Painted(frame, a, c, imageWidth, samplesPerPixel, setting)
    decreases c - b
  {
    if b < c {
      RowsFit(c - 1, c, imageWidth);
      if b < c - 1 {
        RowsFit(b, c - 1, imageWidth);
      }
      PaintedCompose(frame, a, b, c - 1, imageWidth, samplesPerPixel, setting);
      var middle := Painted(frame, a, b, imageWidth, samplesPerPixel, setting);
      assert Painted(middle, b, c, imageWidth, samplesPerPixel, setting) ==
        PaintRow(Painted(middle, b, c - 1, imageWidth, samplesPerPixel, setting), c - 1, imageWidth, samplesPerPixel, setting);
    }
  }

  /** Painting row j of a frame painted on [startRow, j) gives the frame
      painted on [startRow, j + 1). */
  lemma PaintedStep(original: seq<Color3>, startRow: int, j: int, imageWidth: int, samplesPerPixel: int,
                    setting: Setting, before: seq<Color3>, after: seq<Color3>)
    requires 0 <= startRow <= j && 0 <= imageWidth && j * imageWidth + imageWidth <= |original| && samplesPerPixel != 0
    requires before == Painted(original, startRow, j, imageWidth, samplesPerPixel, setting)
    requires after == PaintRow(before, j, imageWidth, samplesPerPixel, setting)
    ensures (j + 1) * imageWidth <= |original|
    ensures after == Painted(original, startRow, j + 1, imageWidth, samplesPerPixel, setting)
  {
  }

  /** A row written column by column into a frame, with nothing else
      changed, is the frame with that row painted. */
  lemma ColumnsPaintRow(after: seq<Color3>, before: seq<Color3>, j: int, rowStart: int, imageWidth: int,
                        samplesPerPixel: int, setting: Setting)
    requires 0 <= j && 0 <= imageWidth && rowStart == j * imageWidth && samplesPerPixel != 0
    requires |after| == |before| && rowStart + imageWidth <= |before|
    requires forall i :: 0 <= i < imageWidth ==> after[rowStart + i] == PixelColor(setting, i, j, samplesPerPixel)
    requires forall k :: 0 <= k < |after| && (k < rowStart || rowStart + imageWidth <= k) ==> after[k] == before[k]
    ensures after == PaintRow(before, j, imageWidth, samplesPerPixel, setting)
  {
    var painted := PaintRow(before, j, imageWidth, samplesPerPixel, setting);
    var row := RowPixels(j, imageWidth, samplesPerPixel, setting);
    forall k | 0 <= k < |after|
      ensures after[k] == painted[k]
    {
      if k < rowStart {
        assert painted[k] == before[k];
      } else if k < rowStart + imageWidth {
        assert painted[k] == row[k - rowStart];
        assert after[rowStart + (k - rowStart)] == PixelColor(setting, k - rowStart, j, samplesPerPixel);
      } else {
        assert painted[k] == before[k];
      }
    }
  }

  /** The rows [start, end) worker t of threadCount renders: rowsPerThread ==
      imageHeight / threadCount rows from t * rowsPerThread, and the last
      worker takes every row from its start to the bottom. */
  function RowRange(t: int, threadCount: int, imageHeight: int): (r: (int, int))
    requires threadCount >= 1 && 0 <= t < threadCount && imageHeight >= 0
    ensures 0 <= r.0 <= r.1 <= imageHeight
  {
    var rowsPerThread := imageHeight / threadCount;
    var start := t * rowsPerThread;
    Below(t, threadCount, rowsPerThread);
    var end := if t == threadCount - 1 then imageHeight else start + rowsPerThread;
    (start, end)
  }

  /** t * q + q <= threadCount * q <= imageHeight for t < threadCount. */
  lemma Below(t: int, threadCount: int, rowsPerThread: int)
    requires 0 <= t < threadCount && rowsPerThread >= 0
    ensures 0 <= t * rowsPerThread && t * rowsPerThread + rowsPerThread <= threadCount * rowsPerThread
  {
    RowsFit(t, threadCount, rowsPerThread);
  }

  /** The ranges follow one another: the first starts at row 0, each ends
      where the next starts, and the last ends at the bottom row. */
  lemma RowRangesContiguous(threadCount: int, imageHeight: int)
    requires threadCount >= 1 && imageHeight >= 0
    ensures RowRange(0, threadCount, imageHeight).0 == 0
    ensures RowRange(threadCount - 1, threadCount, imageHeight).1 == imageHeight
    ensures forall t :: 0 <= t < threadCount - 1 ==>
      RowRange(t, threadCount, imageHeight).1 == RowRange(t + 1, threadCount, imageHeight).0
  {
    var q := imageHeight / threadCount;
    forall t | 0 <= t < threadCount - 1
      ensures RowRange(t, threadCount, imageHeight).1 == RowRange(t + 1, threadCount, imageHeight).0
    {
      assert (t + 1) * q == t * q + q;
    }
  }

  /** All workers but the last render rowsPerThread rows; the last one also
      takes the remainder imageHeight % threadCount. */
  lemma RowRangeSizes(t: int, threadCount: int, imageHeight: int)
    requires threadCount >= 1 && 0 <= t < threadCount && imageHeight >= 0
    ensures var r := RowRange(t, threadCount, imageHeight);
      (t < threadCount - 1 ==> r.1 - r.0 == imageHeight / threadCount) &&
      (t == threadCount - 1 ==> r.1 - r.0 == imageHeight / threadCount + imageHeight % threadCount)
  {
    var q := imageHeight / threadCount;
    assert imageHeight == threadCount * q + imageHeight % threadCount;
    assert (threadCount - 1) * q == threadCount * q - q;
  }

  /** The worker that renders row j. */
  function WorkerOf(j: int, threadCount: int, imageHeight: int): int
    requires threadCount >= 1 && 0 <= j
  {
    var rowsPerThread := imageHeight / threadCount;
    if rowsPerThread <= 0 then threadCount - 1
    else if j / rowsPerThread < threadCount - 1 then j / rowsPerThread
    else threadCount - 1
  }

  /** Every row of the image is rendered by exactly one worker. */
  lemma RowOwnedByOneWorker(j: int, t: int, threadCount: int, imageHeight: int)
    requires threadCount >= 1 && 0 <= t < threadCount && 0 <= j < imageHeight
    ensures 0 <= WorkerOf(j, threadCount, imageHeight) < threadCount
    ensures var r := RowRange(t, threadCount, imageHeight);
      r.0 <= j < r.1 <==> t == WorkerOf(j, threadCount, imageHeight)
  {
    var q := imageHeight / threadCount;
    if q > 0 {
      var w := j / q;
      FloorOrder(t, j, q);
      if t < threadCount - 1 {
        FloorOrder(t + 1, j, q);
        assert (t + 1) * q == t * q + q;
      }
    }
  }

  /** a * q <= j exactly when a <= j / q, for q > 0 and a, j >= 0. */
  lemma FloorOrder(a: int, j: int, q: int)
    requires a >= 0 && j >= 0 && q > 0
    ensures a * q <= j <==> a <= j / q
  {
    var w := j / q;
    assert w * q <= j < w * q + q;
    if a <= w {
      if a < w {
        RowsFit(a, w, q);
      }
    } else {
      RowsFit(w, a, q);
    }
  }

  /** The atomic counter of completed rows. */
  class RowCounter {
    var value: int

    constructor ()
      ensures value == 0
    {
      value := 0;
    }
  }

  /** The body of the pixel loop of renderRows: samplesPerPixel jittered
      rays through pixel (i, j) accumulated with +=, then correctedAverage. */
  method SamplePixel(i: int, j: int, samplesPerPixel: int, setting: Setting) returns (color: Color3)
    requires samplesPerPixel != 0
    ensures color == PixelColor(setting, i, j, samplesPerPixel)
  {
    var pixelColor := new MutableColor3();
    var s := 0;
    while s < samplesPerPixel
      invariant 0 <= s && (s <= samplesPerPixel || s == 0)
      invariant pixelColor.Value() == SampleSum(setting, i, j, s)
    {
      var offsets := setting.draws.jitter(i, j, s);
      var ray := setting.camera.GetRay(i as real + offsets.0, j as real + offsets.1);
      pixelColor.AddAssign(setting.trace(ray, setting.draws.bounce(i, j, s)));
      s := s + 1;
    }
    color := pixelColor.Value().CorrectedAverage(samplesPerPixel, setting.sqrt);
  }

  /** One row of renderRows: pixel (i, j) of row j goes to index
      j * W + i, column by column (rowStart names j * W); nothing else in
      the frame buffer changes. */
  method RenderRow(j: int, ghost rowStart: int, imageWidth: int, samplesPerPixel: int, setting: Setting,
                   frameBuffer: array<Color3>)
    requires 0 <= j && 0 <= imageWidth && rowStart == j * imageWidth
    requires rowStart + imageWidth <= frameBuffer.Length && samplesPerPixel != 0
    modifies frameBuffer
    ensures frameBuffer[..] == PaintRow(old(frameBuffer[..]), j, imageWidth, samplesPerPixel, setting)
  {
    ghost var original := frameBuffer[..];
    var i := 0;
    while i < imageWidth
      invariant 0 <= i <= imageWidth
      invariant forall ii :: 0 <= ii < i ==>
        frameBuffer[rowStart + ii] == PixelColor(setting, ii, j, samplesPerPixel)
      invariant forall k :: 0 <= k < frameBuffer.Length && (k < rowStart || rowStart + i <= k) ==>
        frameBuffer[k] == original[k]
    {
      var pixelColor := SamplePixel(i, j, samplesPerPixel, setting);
      frameBuffer[j * imageWidth + i] := pixelColor;
      i := i + 1;
    }
    ColumnsPaintRow(frameBuffer[..], original, j, rowStart, imageWidth, samplesPerPixel, setting);
  }

  /** The row loop of renderRows for any tracer: the rows [startRow, endRow)
      are painted one after the other and the counter advances by one per
      row. RenderUtils.h and Renderer.h differ only in the depth of the
      tracer they pass. */
  method RenderRowsWith(startRow: int, endRow: int, imageWidth: int, samplesPerPixel: int, setting: Setting,
                    frameBuffer: array<Color3>, rowsCompleted: RowCounter)
    requires 0 <= startRow <= endRow && 0 <= imageWidth && endRow * imageWidth <= frameBuffer.Length
    requires samplesPerPixel != 0
    modifies frameBuffer, rowsCompleted
    ensures frameBuffer[..] == Painted(old(frameBuffer[..]), startRow, endRow, imageWidth, samplesPerPixel, setting)
    ensures rowsCompleted.value == old(rowsCompleted.value) + (endRow - startRow)
  {
    ghost var original := frameBuffer[..];
    var j := startRow;
    ghost var rowStart := startRow * imageWidth;
    if startRow < endRow {
      RowsFit(startRow, endRow, imageWidth);
    }
    while j < endRow
      invariant startRow <= j <= endRow && rowStart == j * imageWidth && rowStart <= endRow * imageWidth
      invariant frameBuffer[..] == Painted(original, startRow, j, imageWidth, samplesPerPixel, setting)
      invariant rowsCompleted.value == old(rowsCompleted.value) + (j - startRow)
    {
      RowsFit(j, endRow, imageWidth);
      ghost var before := frameBuffer[..];
      RenderRow(j, rowStart, imageWidth, samplesPerPixel, setting, frameBuffer);
      PaintedStep(original, startRow, j, imageWidth, samplesPerPixel, setting, before, frameBuffer[..]);
      rowsCompleted.value := rowsCompleted.value + 1;
      j := j + 1;
      rowStart := rowStart + imageWidth;
    }
  }

  /** The worker loop of renderMultithread for any tracer: worker t renders
      RowRange(t); together the workers render every index of the image and
      count every row once. threadCount is what the platform reports, which
      must be at least 1 for the division. */
  method RenderMultithreadWith(imageWidth: int, imageHeight: int, samplesPerPixel: int, threadCount: int,
                               setting: Setting, frameBuffer: array<Color3>, rowsCompleted: RowCounter)
    requires 0 <= imageWidth && 0 <= imageHeight && frameBuffer.Length == imageWidth * imageHeight
    requires samplesPerPixel != 0 && threadCount >= 1
    modifies frameBuffer, rowsCompleted
    ensures frameBuffer[..] == Painted(old(frameBuffer[..]), 0, imageHeight, imageWidth, samplesPerPixel, setting)
    ensures Rendered(frameBuffer[..], 0, imageHeight * imageWidth, imageWidth, samplesPerPixel, setting)
    ensures rowsCompleted.value == old(rowsCompleted.value) + imageHeight
  {
    RowRangesContiguous(threadCount, imageHeight);
    assert imageHeight * imageWidth == frameBuffer.Length;
    ghost var original := frameBuffer[..];
    ghost var done := 0;
    var t := 0;
    while t < threadCount
      invariant 0 <= t <= threadCount && 0 <= done <= imageHeight
      invariant t < threadCount ==> done == RowRange(t, threadCount, imageHeight).0
      invariant t == threadCount ==> done == imageHeight
      invariant done * imageWidth <= imageHeight * imageWidth
      invariant frameBuffer[..] == Painted(original, 0, done, imageWidth, samplesPerPixel, setting)
      invariant rowsCompleted.value == old(rowsCompleted.value) + done
    {
      var range := RowRange(t, threadCount, imageHeight);
      if range.1 < imageHeight {
        RowsFit(range.1, imageHeight, imageWidth);
      }
      RenderRowsWith(range.0, range.1, imageWidth, samplesPerPixel, setting, frameBuffer, rowsCompleted);
      RowsOrdered(done, range.1, imageWidth);
      PaintedCompose(original, 0, done, range.1, imageWidth, samplesPerPixel, setting);
      done := range.1;
      t := t + 1;
    }
    PaintedRenders(original, 0, imageHeight, imageWidth, samplesPerPixel, setting);
  }

  /** renderRows(startRow, endRow, ..., camera, world, frameBuffer,
      rowsCompleted, lightSource): every sample of rows [startRow, endRow)
      is traced by rayColor at the fixed depth RenderUtilsDepth (10),
      whatever depth the caller renders with elsewhere. */
  method RenderRows(startRow: int, endRow: int, imageWidth: int, samplesPerPixel: int,
                    camera: Camera, scenery: Scenery, draws: Draws,
                    frameBuffer: array<Color3>, rowsCompleted: RowCounter)
    requires 0 <= startRow <= endRow && 0 <= imageWidth && endRow * imageWidth <= frameBuffer.Length
    requires samplesPerPixel != 0
    modifies frameBuffer, rowsCompleted
    ensures frameBuffer[..] == Painted(old(frameBuffer[..]), startRow, endRow, imageWidth, samplesPerPixel,
                                      MakeSetting(camera, scenery, RenderUtilsDepth, draws))
    ensures rowsCompleted.value == old(rowsCompleted.value) + (endRow - startRow)
  {
    RenderRowsWith(startRow, endRow, imageWidth, samplesPerPixel,
                   MakeSetting(camera, scenery, RenderUtilsDepth, draws), frameBuffer, rowsCompleted);
  }

  /** renderMultithread(imageWidth, imageHeight, samplesPerPixel, camera,
      world, rowsCompleted, frameBuffer, lightSource): afterwards pixel
      (i, j) is at index j * imageWidth + i and holds the gamma-corrected
      average of its samples, each traced by rayColor at depth 10. */
  method RenderMultithread(imageWidth: int, imageHeight: int, samplesPerPixel: int, threadCount: int,
                           camera: Camera, scenery: Scenery, draws: Draws,
                           frameBuffer: array<Color3>, rowsCompleted: RowCounter)
    requires 0 <= imageWidth && 0 <= imageHeight && frameBuffer.Length == imageWidth * imageHeight
    requires samplesPerPixel != 0 && threadCount >= 1
    modifies frameBuffer, rowsCompleted
    ensures forall i, j :: 0 <= i < imageWidth && 0 <= j < imageHeight ==>
      0 <= PixelIndex(i, j, imageWidth) < frameBuffer.Length &&
      frameBuffer[PixelIndex(i, j, imageWidth)] ==
        PixelColor(MakeSetting(camera, scenery, RenderUtilsDepth, draws), i, j, samplesPerPixel)
    ensures rowsCompleted.value == old(rowsCompleted.value) + imageHeight
  {
    var setting := MakeSetting(camera, scenery, RenderUtilsDepth, draws);
    RenderMultithreadWith(imageWidth, imageHeight, samplesPerPixel, threadCount, setting, frameBuffer, rowsCompleted);
    forall i, j | 0 <= i < imageWidth && 0 <= j < imageHeight
      ensures 0 <= PixelIndex(i, j, imageWidth) < frameBuffer.Length
      ensures frameBuffer[PixelIndex(i, j, imageWidth)] == PixelColor(setting, i, j, samplesPerPixel)
    {
      PixelStored(frameBuffer[..], 0, imageHeight, imageWidth, samplesPerPixel, setting, i, j);
    }
  }
}
