/**
 * RayTracer::raytraceSingle and the helpers it uses: the clamp to a colour byte, the choice
 * of the number of light samples, the sampling of an area light's disk, the occlusion test of
 * one shadow ray and the visibility counter that averages it over the samples. Camera
 * geometry, the shading term (normals, pow, material) and the random numbers are parameters.
 */
module RayTracer {
  import opened Wrappers
  import opened Geometry
  import opened RayMesh

  /** Number of shadow rays cast towards an area light (NB_RAY). */
  const NB_RAY: nat := 16

  /** The offset past a hit too close to the shaded point before the occlusion test is retried. */
  const SHADOW_EPS: real := 0.000001

  // ----- clamp -----

  /** static_cast<int>: truncation toward zero. */
  function Trunc(f: real): (v: int)
    ensures 0.0 <= f ==> 0 <= v && v as real <= f < v as real + 1.0
    ensures f < 0.0 ==> v <= 0 && v as real - 1.0 < f <= v as real
  {
    if f >= 0.0 then f.Floor else -((-f).Floor)
  }

  /**
   * clamp(f, inf, sup): the truncated value, moved into [inf, sup]. A value below inf gives
   * inf, checked first, so an empty range (inf > sup) gives inf or sup.
   */
  function Clamp(f: real, inf: int, sup: int): (r: int)
    ensures r == inf || r == sup || r == Trunc(f)
    ensures inf <= sup ==> inf <= r <= sup
    ensures inf <= Trunc(f) <= sup ==> r == Trunc(f)
  {
    var v := Trunc(f);
    if v < inf then inf else if v > sup then sup else v
  }

  /** Truncation preserves order. */
  lemma TruncMonotone(f: real, g: real)
    requires f <= g
    ensures Trunc(f) <= Trunc(g)
  {
    if f < 0.0 && 0.0 <= g {
    } else if f < 0.0 {
      assert (-g).Floor <= (-f).Floor;
    } else {
      assert f.Floor <= g.Floor;
    }
  }

  /** A larger value never gives a smaller clamped value. */
  lemma ClampMonotone(f: real, g: real, inf: int, sup: int)
    requires f <= g && inf <= sup
    ensures Clamp(f, inf, sup) <= Clamp(g, inf, sup)
  {
    TruncMonotone(f, g);
  }

  /** The pixel written by render: each channel scaled by 255 and clamped to [0, 255]. */
  function ToPixel(c: Vec3): (px: (int, int, int))
    ensures 0 <= px.0 <= 255 && 0 <= px.1 <= 255 && 0 <= px.2 <= 255
    ensures 0.0 <= c.x <= 1.0 ==> px.0 == Trunc(c.x * 255.0)
    ensures 0.0 <= c.y <= 1.0 ==> px.1 == Trunc(c.y * 255.0)
    ensures 0.0 <= c.z <= 1.0 ==> px.2 == Trunc(c.z * 255.0)
  {
    (Clamp(c.x * 255.0, 0, 255), Clamp(c.y * 255.0, 0, 255), Clamp(c.z * 255.0, 0, 255))
  }

  // ----- light sampling -----

  /** Light: position, colour, intensity, radius of its disk and orientation (its normal). */
  datatype Light = Light(pos: Vec3, color: Vec3, intensity: real, radius: real, orientation: Vec3)

  /**
   * nb_iter: one shadow ray for a point light (radius 0), NB_RAY for an area light.
   */
  function SampleCount(lrad: real): (n: nat)
    ensures n >= 1
    ensures n == 1 <==> lrad == 0.0
  {
    if lrad == 0.0 then 1 else NB_RAY
  }

  /** The first in-plane axis (0, -o.z, o.y) of the light's disk, before normalisation. */
  function DiskAxisU(o: Vec3): Vec3 {
    Vec3(0.0, -o.z, o.y)
  }

  /** The second in-plane axis (o.y^2 + o.z^2, -o.x o.y, -o.x o.z), before normalisation. */
  function DiskAxisV(o: Vec3): Vec3 {
    Vec3(o.y * o.y + o.z * o.z, -o.x * o.y, -o.x * o.z)
  }

  /**
   * One draw of the random generator for a sample: frac is rand() / (RAND_MAX + 1), in
   * [0, 1); c and s are the cosine and sine of the random angle, each divided by the length
   * of the axis it multiplies (the normalisation of that axis; a zero axis is taken to
   * stay zero).
   */
  datatype Draw = Draw(frac: real, c: real, s: real)

  /** The in-plane direction c U + s V of a draw. */
  function DiskDirection(o: Vec3, dr: Draw): Vec3 {
    Add(Scale(dr.c, DiskAxisU(o)), Scale(dr.s, DiskAxisV(o)))
  }

  /** The sample lpos + (frac lrad) (c U + s V). */
  function LightPoint(l: Light, dr: Draw): Vec3 {
    Add(l.pos, Scale(dr.frac * l.radius, DiskDirection(l.orientation, dr)))
  }

  /** The sample points of light number k, for the draws of that light. */
  function LightSamples(l: Light, k: nat, draw: (nat, nat) -> Draw): (pts: seq<Vec3>)
    ensures |pts| == SampleCount(l.radius)
    ensures forall j :: 0 <= j < |pts| ==> pts[j] == LightPoint(l, draw(k, j))
  {
    seq(SampleCount(l.radius), (j: int) requires 0 <= j => LightPoint(l, draw(k, j)))
  }

  /** Both disk axes are perpendicular to the orientation and to each other. */
  lemma DiskAxesPerpendicular(o: Vec3)
    ensures Dot(DiskAxisU(o), o) == 0.0 && Dot(DiskAxisV(o), o) == 0.0
    ensures Dot(DiskAxisU(o), DiskAxisV(o)) == 0.0
  {
  }

  /** Every sample lies in the plane through the light's position perpendicular to its orientation. */
  lemma SampleInLightPlane(l: Light, dr: Draw)
    ensures Dot(Sub(LightPoint(l, dr), l.pos), l.orientation) == 0.0
  {
    var o := l.orientation;
    var k := dr.frac * l.radius;
    DiskAxesPerpendicular(o);
    assert Sub(LightPoint(l, dr), l.pos) == Scale(k, DiskDirection(o, dr));
    DotScaleLeft(k, DiskDirection(o, dr), o);
    DotAdd(Scale(dr.c, DiskAxisU(o)), Scale(dr.s, DiskAxisV(o)), o);
    DotScaleLeft(dr.c, DiskAxisU(o), o);
    DotScaleLeft(dr.s, DiskAxisV(o), o);
  }

  /**
   * A light oriented along the x axis has both disk axes zero. Taking normalize to leave a
   * zero vector unchanged (the draws multiply the axes as they are), all its samples are at
   * its position.
   */
  lemma AxisAlignedLightCollapses(l: Light, dr: Draw)
    requires l.orientation.y == 0.0 && l.orientation.z == 0.0
    ensures LightPoint(l, dr) == l.pos
  {
  }

  /** A point light (radius 0) has one sample, at its position. */
  lemma PointLightSamples(l: Light, k: nat, draw: (nat, nat) -> Draw)
    requires l.radius == 0.0
    ensures LightSamples(l, k, draw) == [l.pos]
  {
    var pts := LightSamples(l, k, draw);
    assert pts[0] == LightPoint(l, draw(k, 0));
  }

  /**
   * The sampling loop of raytraceSingle: rand_lpoints holds nb_iter points, the j-th at
   * lpos + rand_rad (cos(ang) v0 + sin(ang) v1) for the j-th draw.
   */
  method SampleLightPoints(l: Light, draw: nat -> Draw) returns (pts: seq<Vec3>)
    ensures |pts| == SampleCount(l.radius)
    ensures forall j :: 0 <= j < |pts| ==> pts[j] == LightPoint(l, draw(j))
  {
    var n := SampleCount(l.radius);
    var a := new Vec3[n](_ => Zero);
    for j := 0 to n
      invariant forall i :: 0 <= i < j ==> a[i] == LightPoint(l, draw(i))
    {
      a[j] := LightPoint(l, draw(j));
    }
    pts := a[..];
  }

  // ----- vector facts -----

  /** Squared distance between two points. */
  function Dist2(a: Vec3, b: Vec3): real {
    Dot(Sub(a, b), Sub(a, b))
  }

  lemma DotScaleLeft(k: real, a: Vec3, b: Vec3)
    ensures Dot(Scale(k, a), b) == k * Dot(a, b)
  {
  }

  lemma DotAdd(a: Vec3, b: Vec3, c: Vec3)
    ensures Dot(Add(a, b), c) == Dot(a, c) + Dot(b, c)
  {
  }

  lemma DotScaleBoth(k: real, a: Vec3)
    ensures Dot(Scale(k, a), Scale(k, a)) == k * k * Dot(a, a)
  {
  }

  // ----- occlusion -----

  /**
   * The nearest hit over the scene: the hit of the first object with the least parameter ir,
   * as the scene scan of Ray.cpp selects it, with its ray parameter.
   */
  function SceneHit(ray: Ray, scene: seq<Mesh>): Option<Hit>
    requires AllWellFormed(scene)
  {
    var r := Nearest(ObjectHits(ray, scene));
    if r.Some? then ObjectHits(ray, scene)[r.value] else None
  }

  /** A shadow query reports hits on the ray, at non-negative parameters. */
  ghost predicate ShadowSound(shadow: Ray -> Option<Hit>) {
    forall r :: shadow(r).Some? ==> 0.0 <= shadow(r).value.ir && shadow(r).value.point == At(r, shadow(r).value.ir)
  }

  /** A scene hit lies on the ray at its (non-negative) parameter. */
  lemma SceneHitOnRay(ray: Ray, scene: seq<Mesh>)
    requires AllWellFormed(scene) && SceneHit(ray, scene).Some?
    ensures var h := SceneHit(ray, scene).value; 0.0 <= h.ir && h.point == At(ray, h.ir)
  {
    var os := ObjectHits(ray, scene);
    var k := Nearest(os).value;
    var m := scene[k];
    var hs := TriangleHits(ray, m);
    var j := Nearest(hs).value;
    var t := m.triangles[j];
    assert TriOk(t, |m.vertices|);
    TriangleHitSound(ray, m.vertices[t.v0].pos, m.vertices[t.v1].pos, m.vertices[t.v2].pos);
  }

  /** The scene scan is a sound shadow query. */
  lemma SceneHitSound(scene: seq<Mesh>)
    requires AllWellFormed(scene)
    ensures ShadowSound(r => SceneHit(r, scene))
  {
    forall r | SceneHit(r, scene).Some?
      ensures 0.0 <= SceneHit(r, scene).value.ir && SceneHit(r, scene).value.point == At(r, SceneHit(r, scene).value.ir)
    {
      SceneHitOnRay(r, scene);
    }
  }

  /** ir < oc_dir.getLength(), compared without the square root. */
  predicate ShorterThan(t: real, d: Vec3) {
    t < 0.0 || t * t < Dot(d, d)
  }

  /** The origin p + d (ir + SHADOW_EPS) of the retried occlusion ray. */
  function RetryOrigin(p: Vec3, d: Vec3, ir: real): Vec3 {
    Add(p, Scale(ir + SHADOW_EPS, d))
  }

  /**
   * The occlusion test as raytraceSingle writes it, for the shaded point p and the light
   * sample q; shadow is the scene query. The ray p + t (q - p) is blocked when the scene is
   * hit with ir < |q - p|; a hit with ir < SHADOW_EPS (the surface itself) is retried from
   * just past it, with the same comparison on the new ir.
   */
  predicate OccludedAsWritten(shadow: Ray -> Option<Hit>, p: Vec3, q: Vec3) {
    var d := Sub(q, p);
    var h := shadow(Ray(p, d));
    var occ := h.Some? && ShorterThan(h.value.ir, d);
    if occ && h.value.ir < SHADOW_EPS then
      var h2 := shadow(Ray(RetryOrigin(p, d, h.value.ir), d));
      h2.Some? && ShorterThan(h2.value.ir, d)
    else occ
  }

  /**
   * The occlusion test with the comparison its authors meant: ir is a parameter along the
   * unnormalised direction q - p, so the light sample is at parameter 1 and an occluder
   * blocks it when it comes before that; on the retried ray the offset counts too.
   */
  predicate Occluded(shadow: Ray -> Option<Hit>, p: Vec3, q: Vec3) {
    var d := Sub(q, p);
    var h := shadow(Ray(p, d));
    var occ := h.Some? && h.value.ir < 1.0;
    if occ && h.value.ir < SHADOW_EPS then
      var h2 := shadow(Ray(RetryOrigin(p, d, h.value.ir), d));
      h2.Some? && h.value.ir + SHADOW_EPS + h2.value.ir < 1.0
    else occ
  }

  lemma BeforeIffScalar(s: real, dd: real)
    requires 0.0 < dd && 0.0 <= s
    ensures s < 1.0 <==> s * s * dd < dd
  {
    if s < 1.0 {
      assert s * s <= s;
      assert s * s * dd < dd;
    } else {
      assert s * s >= s;
      assert s * s * dd >= s * dd >= dd;
    }
  }

  /** Along p + s d with s >= 0, the point comes before p + d exactly when it is nearer to p. */
  lemma BeforeIffNearer(p: Vec3, d: Vec3, s: real)
    requires 0.0 < Dot(d, d) && 0.0 <= s
    ensures s < 1.0 <==> Dist2(Add(p, Scale(s, d)), p) < Dot(d, d)
  {
    assert Sub(Add(p, Scale(s, d)), p) == Scale(s, d);
    DotScaleBoth(s, d);
    BeforeIffScalar(s, Dot(d, d));
  }

  /** A hit at parameter t of the retried ray is at parameter ir + SHADOW_EPS + t of the first. */
  lemma RetryNearer(p: Vec3, d: Vec3, ir: real, h2: Hit)
    requires 0.0 < Dot(d, d) && 0.0 <= ir && 0.0 <= h2.ir
    requires h2.point == At(Ray(RetryOrigin(p, d, ir), d), h2.ir)
    ensures ir + SHADOW_EPS + h2.ir < 1.0 <==> Dist2(h2.point, p) < Dot(d, d)
  {
    var s := ir + SHADOW_EPS + h2.ir;
    assert h2.point == Add(p, Scale(s, d));
    BeforeIffNearer(p, d, s);
  }

  /**
   * With a sound shadow query, the corrected test blocks the light sample q exactly when the
   * nearest hit from p towards q is nearer to p than q is, and, when that hit is within
   * SHADOW_EPS of p, the nearest hit of the retried ray is too. The light sample must be
   * apart from p (a positive squared distance).
   */
  lemma OccludedMeansNearer(shadow: Ray -> Option<Hit>, p: Vec3, q: Vec3)
    requires ShadowSound(shadow) && 0.0 < Dist2(q, p)
    ensures Occluded(shadow, p, q) <==>
      var d := Sub(q, p);
      var h := shadow(Ray(p, d));
      h.Some? && Dist2(h.value.point, p) < Dist2(q, p) &&
      (h.value.ir < SHADOW_EPS ==>
        var h2 := shadow(Ray(RetryOrigin(p, d, h.value.ir), d));
        h2.Some? && Dist2(h2.value.point, p) < Dist2(q, p))
  {
    var d := Sub(q, p);
    assert Dist2(q, p) == Dot(d, d);
    var h := shadow(Ray(p, d));
    if h.Some? {
      assert h.value.point == Add(p, Scale(h.value.ir, d));
      BeforeIffNearer(p, d, h.value.ir);
      if h.value.ir < SHADOW_EPS {
        var h2 := shadow(Ray(RetryOrigin(p, d, h.value.ir), d));
        if h2.Some? {
          RetryNearer(p, d, h.value.ir, h2.value);
        }
      }
    }
  }

  /** A wall across the x axis: the triangle (x, -1, -1), (x, 3, -1), (x, -1, 3). */
  function Wall(x: real): Mesh {
    Mesh([Vertex(Vec3(x, -1.0, -1.0), Zero), Vertex(Vec3(x, 3.0, -1.0), Zero), Vertex(Vec3(x, -1.0, 3.0), Zero)],
         [Tri(0, 1, 2)])
  }

  /** The shadow query of the scene made of m alone. */
  function SceneQuery(m: Mesh): Ray -> Option<Hit>
    requires WellFormed(m)
  {
    r => SceneHit(r, [m])
  }

  /** A nearest-hit scan over a single candidate reports that candidate. */
  lemma NearestOfOne(h: Option<Hit>)
    ensures Nearest([h]) == if h.Some? then Some(0) else None
  {
    assert [h][..0] == [];
  }

  /** The hit of a one-triangle object is the hit of its triangle. */
  lemma OneTriangleObject(ray: Ray, m: Mesh)
    requires WellFormed(m) && |m.triangles| == 1
    ensures ObjectHit(ray, m) == TriangleHit(ray, m, 0)
  {
    assert TriangleHits(ray, m) == [TriangleHit(ray, m, 0)];
    NearestOfOne(TriangleHit(ray, m, 0));
  }

  /** The hit of a one-object scene is the hit of its object. */
  lemma OneObjectScene(ray: Ray, m: Mesh)
    requires WellFormed(m)
    ensures SceneHit(ray, [m]) == ObjectHit(ray, m)
  {
    assert ObjectHits(ray, [m]) == [ObjectHit(ray, m)];
    NearestOfOne(ObjectHit(ray, m));
  }

  lemma WallCorners(x: real)
    ensures WellFormed(Wall(x)) && |Wall(x).triangles| == 1
    ensures Corners(Wall(x), Wall(x).triangles[0]) == (Vec3(x, -1.0, -1.0), Vec3(x, 3.0, -1.0), Vec3(x, -1.0, 3.0))
  {
  }

  lemma WallEdges(x: real, len: real)
    ensures Denominator(Ray(Zero, Vec3(len, 0.0, 0.0)), Vec3(x, -1.0, -1.0), Vec3(x, 3.0, -1.0), Vec3(x, -1.0, 3.0))
      == Det(Vec3(0.0, 4.0, 0.0), Vec3(0.0, 0.0, 4.0), Vec3(len, 0.0, 0.0))
  {
    assert Sub(Vec3(x, 3.0, -1.0), Vec3(x, -1.0, -1.0)) == Vec3(0.0, 4.0, 0.0);
    assert Sub(Vec3(x, -1.0, 3.0), Vec3(x, -1.0, -1.0)) == Vec3(0.0, 0.0, 4.0);
  }

  lemma WallNormal(len: real)
    ensures Det(Vec3(0.0, 4.0, 0.0), Vec3(0.0, 0.0, 4.0), Vec3(len, 0.0, 0.0)) == 16.0 * len
  {
    assert Cross(Vec3(0.0, 4.0, 0.0), Vec3(0.0, 0.0, 4.0)) == Vec3(16.0, 0.0, 0.0);
  }

  lemma WallDenominator(x: real, len: real)
    ensures Denominator(Ray(Zero, Vec3(len, 0.0, 0.0)), Vec3(x, -1.0, -1.0), Vec3(x, 3.0, -1.0), Vec3(x, -1.0, 3.0)) == 16.0 * len
  {
    WallEdges(x, len);
    WallNormal(len);
  }

  lemma WallCentre(x: real)
    ensures Bary(Vec3(x, -1.0, -1.0), Vec3(x, 3.0, -1.0), Vec3(x, -1.0, 3.0), 0.25, 0.25) == Vec3(x, 0.0, 0.0)
  {
  }

  lemma AlongX(x: real, len: real)
    requires 0.0 < len
    ensures At(Ray(Zero, Vec3(len, 0.0, 0.0)), x / len) == Vec3(x, 0.0, 0.0)
  {
    assert (x / len) * len == x;
  }

  /** The ray from the origin along (len, 0, 0) hits Wall(x) at (x, 0, 0), at parameter x / len. */
  lemma WallHit(x: real, len: real)
    requires 0.0 < x && 0.0 < len
    ensures WellFormed(Wall(x))
    ensures SceneQuery(Wall(x))(Ray(Zero, Vec3(len, 0.0, 0.0))) == Some(Hit(Vec3(x, 0.0, 0.0), x / len))
  {
    var ray := Ray(Zero, Vec3(len, 0.0, 0.0));
    var v0, v1, v2 := Vec3(x, -1.0, -1.0), Vec3(x, 3.0, -1.0), Vec3(x, -1.0, 3.0);
    WallCorners(x);
    WallDenominator(x, len);
    WallCentre(x);
    AlongX(x, len);
    TriangleHitComplete(ray, v0, v1, v2, x / len, 0.25, 0.25);
    OneTriangleObject(ray, Wall(x));
    OneObjectScene(ray, Wall(x));
  }

  /** The verdicts on the shadow ray from the origin to q, when it hits at parameter t >= SHADOW_EPS. */
  lemma VerdictsAt(shadow: Ray -> Option<Hit>, q: Vec3, x: Vec3, t: real)
    requires SHADOW_EPS <= t && shadow(Ray(Zero, q)) == Some(Hit(x, t))
    ensures OccludedAsWritten(shadow, Zero, q) <==> t * t < Dot(q, q)
    ensures Occluded(shadow, Zero, q) <==> t < 1.0
  {
    assert Sub(q, Zero) == q;
  }

  /**
   * As written, an occluder behind the light blocks it. A light sample at distance len >= 1
   * along the x axis and an occluder at distance x beyond it (len <= x), hit at ir = x / len:
   * while x < len * len, ir * ir < |q - p|^2 and the source counts the light as blocked,
   * although the occluder is farther than the light; the corrected test lets the light
   * through. For instance the wall at x = 15 behind a sample at (10, 0, 0) (WallHit gives its
   * hit at ir = 1.5).
   */
  lemma OcclusionBeyondLight(shadow: Ray -> Option<Hit>, x: real, len: real)
    requires 1.0 <= len <= x < len * len
    requires shadow(Ray(Zero, Vec3(len, 0.0, 0.0))) == Some(Hit(Vec3(x, 0.0, 0.0), x / len))
    ensures OccludedAsWritten(shadow, Zero, Vec3(len, 0.0, 0.0))
    ensures !Occluded(shadow, Zero, Vec3(len, 0.0, 0.0))
  {
    var q := Vec3(len, 0.0, 0.0);
    QuotientAtLeast(x, len, 1.0);
    QuotientLess(x, len, len);
    SquareLess(x / len, len);
    assert Dot(q, q) == len * len;
    VerdictsAt(shadow, q, Vec3(x, 0.0, 0.0), x / len);
  }

  /**
   * As written, an occluder between the shaded point and a light less than one unit away is
   * missed. A light sample at distance len < 1 along the x axis and an occluder before it
   * (x < len), hit at ir = x / len: while len * len <= x, ir * ir is not below |q - p|^2 and
   * the source lets the light through; the corrected test blocks it. For instance the wall at
   * x = 0.4 before a sample at (0.5, 0, 0) (WallHit gives its hit at ir = 0.8).
   */
  lemma OcclusionMissedNearLight(shadow: Ray -> Option<Hit>, x: real, len: real)
    requires SHADOW_EPS <= len < 1.0 && len * len <= x < len
    requires shadow(Ray(Zero, Vec3(len, 0.0, 0.0))) == Some(Hit(Vec3(x, 0.0, 0.0), x / len))
    ensures !OccludedAsWritten(shadow, Zero, Vec3(len, 0.0, 0.0))
    ensures Occluded(shadow, Zero, Vec3(len, 0.0, 0.0))
  {
    var q := Vec3(len, 0.0, 0.0);
    QuotientAtLeast(x, len, len);
    QuotientLess(x, len, 1.0);
    SquareAtLeast(x / len, len);
    assert Dot(q, q) == len * len;
    VerdictsAt(shadow, q, Vec3(x, 0.0, 0.0), x / len);
  }

  lemma QuotientAtLeast(a: real, d: real, t: real)
    requires 0.0 < d && t * d <= a
    ensures t <= a / d
  {
  }

  lemma QuotientLess(a: real, d: real, t: real)
    requires 0.0 < d && a < t * d
    ensures a / d < t
  {
  }

  lemma SquareLess(t: real, l: real)
    requires 0.0 <= t < l
    ensures t * t < l * l
  {
    NonNegProduct(t, l - t);
    assert t * (l - t) == t * l - t * t;
    assert t * l < l * l by { PositiveProduct(l, l - t); assert l * (l - t) == l * l - l * t; }
  }

  lemma PositiveProduct(a: real, b: real)
    requires 0.0 < a && 0.0 < b
    ensures 0.0 < a * b
  {
  }

  lemma SquareAtLeast(t: real, l: real)
    requires 0.0 <= l <= t
    ensures l * l <= t * t
  {
  }

  // ----- visibility -----

  /** Which occlusion test the shadow rays use: the one raytraceSingle writes, or the corrected one. */
  datatype OcclusionTest = AsWritten | Corrected

  /** The verdict of the chosen occlusion test on the shadow ray from p to the light sample q. */
  predicate Blocks(test: OcclusionTest, shadow: Ray -> Option<Hit>, p: Vec3, q: Vec3) {
    match test
    case AsWritten => OccludedAsWritten(shadow, p, q)
    case Corrected => Occluded(shadow, p, q)
  }

  /** The number of samples whose shadow ray from p is blocked. */
  function BlockedCount(test: OcclusionTest, shadow: Ray -> Option<Hit>, p: Vec3, samples: seq<Vec3>): (c: nat)
    ensures c <= |samples|
  {
    if |samples| == 0 then 0
    else
      BlockedCount(test, shadow, p, samples[..|samples| - 1]) +
      (if Blocks(test, shadow, p, samples[|samples| - 1]) then 1 else 0)
  }

  /** No sample is blocked exactly when the count is 0; all are exactly when it is |samples|. */
  lemma {:induction false} BlockedCountExtremes(test: OcclusionTest, shadow: Ray -> Option<Hit>, p: Vec3, samples: seq<Vec3>)
    ensures BlockedCount(test, shadow, p, samples) == 0 <==>
      forall j :: 0 <= j < |samples| ==> !Blocks(test, shadow, p, samples[j])
    ensures BlockedCount(test, shadow, p, samples) == |samples| <==>
      forall j :: 0 <= j < |samples| ==> Blocks(test, shadow, p, samples[j])
  {
    if |samples| > 0 {
      var init := samples[..|samples| - 1];
      BlockedCountExtremes(test, shadow, p, init);
      assert forall j :: 0 <= j < |init| ==> init[j] == samples[j];
    }
  }

  /** The visibility of a light from p: one minus the blocked fraction of its samples. */
  function VisibilityOf(test: OcclusionTest, shadow: Ray -> Option<Hit>, p: Vec3, samples: seq<Vec3>): real
    requires |samples| > 0
  {
    1.0 - BlockedCount(test, shadow, p, samples) as real / |samples| as real
  }

  lemma FractionRange(c: real, n: real)
    requires 0.0 <= c <= n && 0.0 < n
    ensures 0.0 <= c / n <= 1.0
    ensures c / n == 0.0 <==> c == 0.0
    ensures c / n == 1.0 <==> c == n
  {
    assert c / n * n == c;
  }

  /** Visibility lies in [0, 1]; it is 1 exactly when no sample is blocked and 0 exactly when all are. */
  lemma VisibilityRange(test: OcclusionTest, shadow: Ray -> Option<Hit>, p: Vec3, samples: seq<Vec3>)
    requires |samples| > 0
    ensures 0.0 <= VisibilityOf(test, shadow, p, samples) <= 1.0
    ensures VisibilityOf(test, shadow, p, samples) == 1.0 <==>
      forall j :: 0 <= j < |samples| ==> !Blocks(test, shadow, p, samples[j])
    ensures VisibilityOf(test, shadow, p, samples) == 0.0 <==>
      forall j :: 0 <= j < |samples| ==> Blocks(test, shadow, p, samples[j])
  {
    BlockedCountExtremes(test, shadow, p, samples);
    FractionRange(BlockedCount(test, shadow, p, samples) as real, |samples| as real);
  }

  lemma FractionStep(c: real, n: real)
    requires 0.0 < n
    ensures 1.0 - c / n - 1.0 / n == 1.0 - (c + 1.0) / n
  {
  }

  /**
   * The visibility counter of raytraceSingle: start from 1 and subtract 1 / nb_iter for each
   * shadow ray the chosen test finds blocked.
   */
  method Visibility(test: OcclusionTest, shadow: Ray -> Option<Hit>, p: Vec3, samples: seq<Vec3>) returns (vis: real)
    requires |samples| > 0
    ensures vis == VisibilityOf(test, shadow, p, samples)
  {
    var n := |samples|;
    vis := 1.0;
    for i := 0 to n
      invariant vis == 1.0 - BlockedCount(test, shadow, p, samples[..i]) as real / n as real
    {
      assert samples[..i + 1][..i] == samples[..i];
      if Blocks(test, shadow, p, samples[i]) {
        FractionStep(BlockedCount(test, shadow, p, samples[..i]) as real, n as real);
        vis := vis - 1.0 / n as real;
      }
    }
    assert samples[..n] == samples;
  }

  /** A point light is either fully visible or fully hidden: its shadows are hard. */
  lemma PointLightHardShadow(test: OcclusionTest, shadow: Ray -> Option<Hit>, p: Vec3, l: Light, k: nat, draw: (nat, nat) -> Draw)
    requires l.radius == 0.0
    ensures var v := VisibilityOf(test, shadow, p, LightSamples(l, k, draw)); v == 0.0 || v == 1.0
  {
    PointLightSamples(l, k, draw);
    VisibilityRange(test, shadow, p, LightSamples(l, k, draw));
  }

  /**
   * The pixel-level effect of the comparison as written: a point light at distance len >= 1
   * along the x axis, seen from the origin past an occluder behind it at distance x < len^2,
   * is fully hidden by the test as written and fully visible under the corrected test.
   */
  lemma PointLightHiddenBehindItself(shadow: Ray -> Option<Hit>, l: Light, k: nat, draw: (nat, nat) -> Draw, x: real)
    requires l.radius == 0.0 && l.pos.y == 0.0 && l.pos.z == 0.0
    requires 1.0 <= l.pos.x <= x < l.pos.x * l.pos.x
    requires shadow(Ray(Zero, l.pos)) == Some(Hit(Vec3(x, 0.0, 0.0), x / l.pos.x))
    ensures VisibilityOf(AsWritten, shadow, Zero, LightSamples(l, k, draw)) == 0.0
    ensures VisibilityOf(Corrected, shadow, Zero, LightSamples(l, k, draw)) == 1.0
  {
    PointLightSamples(l, k, draw);
    assert l.pos == Vec3(l.pos.x, 0.0, 0.0);
    OcclusionBeyondLight(shadow, x, l.pos.x);
    VisibilityRange(AsWritten, shadow, Zero, [l.pos]);
    VisibilityRange(Corrected, shadow, Zero, [l.pos]);
  }

  // ----- shading -----

  /**
   * The colour of the hit point x: for each light, its shading term scaled by its visibility,
   * summed over the lights in order.
   */
  function Shade(test: OcclusionTest, shadow: Ray -> Option<Hit>, x: Vec3, lights: seq<Light>, draw: (nat, nat) -> Draw,
                 term: (Light, Vec3) -> Vec3): Vec3
  {
    if |lights| == 0 then Zero
    else
      var k := |lights| - 1;
      Add(Shade(test, shadow, x, lights[..k], draw, term),
          Scale(VisibilityOf(test, shadow, x, LightSamples(lights[k], k, draw)), term(lights[k], x)))
  }

  /** The sum of the lights' shading terms, as if nothing were in the way. */
  function Unshadowed(x: Vec3, lights: seq<Light>, term: (Light, Vec3) -> Vec3): Vec3 {
    if |lights| == 0 then Zero
    else Add(Unshadowed(x, lights[..|lights| - 1], term), term(lights[|lights| - 1], x))
  }

  /** With no shadow ray blocked, the shaded colour is the unshadowed sum of the terms. */
  lemma {:induction false} ShadeWithoutOccluders(test: OcclusionTest, shadow: Ray -> Option<Hit>, x: Vec3, lights: seq<Light>,
                                                 draw: (nat, nat) -> Draw, term: (Light, Vec3) -> Vec3)
    requires forall k, j :: 0 <= k < |lights| && 0 <= j < SampleCount(lights[k].radius) ==>
      !Blocks(test, shadow, x, LightPoint(lights[k], draw(k, j)))
    ensures Shade(test, shadow, x, lights, draw, term) == Unshadowed(x, lights, term)
  {
    if |lights| > 0 {
      var k := |lights| - 1;
      var init := lights[..k];
      assert forall i :: 0 <= i < |init| ==> init[i] == lights[i];
      ShadeWithoutOccluders(test, shadow, x, init, draw, term);
      var s := LightSamples(lights[k], k, draw);
      VisibilityRange(test, shadow, x, s);
      assert Scale(1.0, term(lights[k], x)) == term(lights[k], x);
    }
  }

  /**
   * RayTracer::raytraceSingle for a primary ray: a miss gives the background colour; a hit
   * gives, summed over the lights, the light's shading term times its visibility from the
   * hit point, with the occlusion test as the source writes it. The primary hit comes from
   * the scene scan; shadow answers the occlusion rays and draw(k, _) gives the random draws
   * for light k.
   */
  method RaytraceSingle(ray: Ray, scene: seq<Mesh>, lights: seq<Light>, shadow: Ray -> Option<Hit>,
                        draw: (nat, nat) -> Draw, term: (Light, Vec3) -> Vec3, background: Vec3)
    returns (color: Vec3)
    requires AllWellFormed(scene)
    ensures SceneHit(ray, scene).None? ==> color == background
    ensures SceneHit(ray, scene).Some? ==>
      color == Shade(AsWritten, shadow, SceneHit(ray, scene).value.point, lights, draw, term)
  {
    var hit, point, index := IntersectScene(ray, scene, Zero, 0);
    if !hit {
      return background;
    }
    color := Zero;
    for k := 0 to |lights|
      invariant color == Shade(AsWritten, shadow, point, lights[..k], draw, term)
    {
      var samples := SampleLightPoints(lights[k], (j: nat) => draw(k, j));
      assert samples == LightSamples(lights[k], k, draw);
      var vis := Visibility(AsWritten, shadow, point, samples);
      assert lights[..k + 1][..k] == lights[..k];
      color := Add(color, Scale(vis, term(lights[k], point)));
    }
    assert lights[..|lights|] == lights;
  }
}
