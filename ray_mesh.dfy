/**
 * Ray/triangle intersection by Cramer's rule (Ray::intersect(v0, v1, v2, ...)) and the two
 * nearest-hit scans built on it: over the triangles of one object and over the objects of a
 * scene. The triangle test itself is a pure computation; the scans are loops keeping a running
 * minimum of the hit parameter ir.
 */
module RayMesh {
  import opened Wrappers
  import opened Geometry

  /** The determinant [a, b, c] = (a x b) . c. */
  function Det(a: Vec3, b: Vec3, c: Vec3): real {
    Dot(Cross(a, b), c)
  }

  /** The point v0 + a (v1 - v0) + b (v2 - v0) of the triangle's plane. */
  function Bary(v0: Vec3, v1: Vec3, v2: Vec3, a: real, b: real): Vec3 {
    Add(v0, Add(Scale(a, Sub(v1, v0)), Scale(b, Sub(v2, v0))))
  }

  /** The point at parameter t along the ray. */
  function At(ray: Ray, t: real): Vec3 {
    Add(ray.origin, Scale(t, ray.direction))
  }

  /** A reported intersection: the point and its ray parameter ir. */
  datatype Hit = Hit(point: Vec3, ir: real)

  /** c = (u x v) . direction, zero when the ray is parallel to the triangle's plane (or the
      triangle is degenerate). */
  function Denominator(ray: Ray, v0: Vec3, v1: Vec3, v2: Vec3): real {
    Det(Sub(v1, v0), Sub(v2, v0), ray.direction)
  }

  /** The barycentric coordinates iu, iv and the ray parameter ir computed by the test. */
  datatype Solution = Solution(iu: real, iv: real, ir: real)

  function Solve(ray: Ray, v0: Vec3, v1: Vec3, v2: Vec3): Solution
    requires Denominator(ray, v0, v1, v2) != 0.0
  {
    var u, v := Sub(v1, v0), Sub(v2, v0);
    var otr := Sub(ray.origin, v0);
    var c := Denominator(ray, v0, v1, v2);
    Solution(Det(otr, v, ray.direction) / c, Det(u, otr, ray.direction) / c, -Det(u, v, otr) / c)
  }

  /** The hit condition of the test. */
  predicate Accepts(s: Solution) {
    0.0 <= s.iu <= 1.0 && 0.0 <= s.iv <= 1.0 && s.ir >= 0.0 && s.iu + s.iv <= 1.0
  }

  /**
   * Ray::intersect(v0, v1, v2, intersectionPoint, ir). A zero denominator is a miss: in the
   * source's floating point the quotients are then infinite or NaN and fail the range check.
   */
  function IntersectTriangle(ray: Ray, v0: Vec3, v1: Vec3, v2: Vec3): Option<Hit> {
    if Denominator(ray, v0, v1, v2) == 0.0 then None
    else
      var s := Solve(ray, v0, v1, v2);
      if Accepts(s) then Some(Hit(At(ray, s.ir), s.ir)) else None
  }

  // ----- Cramer's rule -----

  /** [a, b, c] written out in coordinates. */
  function Det3(a1: real, a2: real, a3: real, b1: real, b2: real, b3: real, c1: real, c2: real, c3: real): real {
    (a2 * b3 - a3 * b2) * c1 + (a3 * b1 - a1 * b3) * c2 + (a1 * b2 - a2 * b1) * c3
  }

  lemma DetCoordinates(a: Vec3, b: Vec3, c: Vec3)
    ensures Det(a, b, c) == Det3(a.x, a.y, a.z, b.x, b.y, b.z, c.x, c.y, c.z)
  {
  }

  /** The same determinant with the coordinates rotated. */
  lemma DetRotated(a: Vec3, b: Vec3, c: Vec3)
    ensures Det(a, b, c) == Det3(a.y, a.z, a.x, b.y, b.z, b.x, c.y, c.z, c.x)
    ensures Det(a, b, c) == Det3(a.z, a.x, a.y, b.z, b.x, b.y, c.z, c.x, c.y)
  {
  }

  /** Cramer's rule on the first coordinate: with c = [u, v, d] != 0,
      w + (-[u, v, w] / c) d = ([w, v, d] / c) u + ([u, w, d] / c) v. */
  lemma CramerFirst(wx: real, wy: real, wz: real, dx: real, dy: real, dz: real,
                    ux: real, uy: real, uz: real, vx: real, vy: real, vz: real)
    requires Det3(ux, uy, uz, vx, vy, vz, dx, dy, dz) != 0.0
    ensures var c := Det3(ux, uy, uz, vx, vy, vz, dx, dy, dz);
      wx + (-Det3(ux, uy, uz, vx, vy, vz, wx, wy, wz) / c) * dx
        == (Det3(wx, wy, wz, vx, vy, vz, dx, dy, dz) / c) * ux + (Det3(ux, uy, uz, wx, wy, wz, dx, dy, dz) / c) * vx
  {
  }

  /** Cramer's rule for the three coordinates, with w = origin - v0. */
  lemma CramerSolves(w: Vec3, d: Vec3, u: Vec3, v: Vec3)
    requires Det(u, v, d) != 0.0
    ensures var c := Det(u, v, d);
      var ir, iu, iv := -Det(u, v, w) / c, Det(w, v, d) / c, Det(u, w, d) / c;
      w.x + ir * d.x == iu * u.x + iv * v.x &&
      w.y + ir * d.y == iu * u.y + iv * v.y &&
      w.z + ir * d.z == iu * u.z + iv * v.z
  {
    DetCoordinates(u, v, d);
    DetCoordinates(u, v, w);
    DetCoordinates(w, v, d);
    DetCoordinates(u, w, d);
    DetRotated(u, v, d);
    DetRotated(u, v, w);
    DetRotated(w, v, d);
    DetRotated(u, w, d);
    CramerFirst(w.x, w.y, w.z, d.x, d.y, d.z, u.x, u.y, u.z, v.x, v.y, v.z);
    CramerFirst(w.y, w.z, w.x, d.y, d.z, d.x, u.y, u.z, u.x, v.y, v.z, v.x);
    CramerFirst(w.z, w.x, w.y, d.z, d.x, d.y, u.z, u.x, u.y, v.z, v.x, v.y);
  }

  /** The solution solves the ray/plane system: at parameter ir the ray is at the barycentric
      point (iu, iv) of the triangle's plane. */
  lemma SolutionOnPlane(ray: Ray, v0: Vec3, v1: Vec3, v2: Vec3)
    requires Denominator(ray, v0, v1, v2) != 0.0
    ensures var s := Solve(ray, v0, v1, v2);
      At(ray, s.ir) == Bary(v0, v1, v2, s.iu, s.iv)
  {
    CramerSolves(Sub(ray.origin, v0), ray.direction, Sub(v1, v0), Sub(v2, v0));
  }

  /** Any solution (t, a, b) of w + t d = a u + b v, that is w = a u + b v - t d, satisfies the
      three equations Cramer's rule is built from (dotting with u x v, v x d and d x u). */
  lemma CramerNecessary(wx: real, wy: real, wz: real, dx: real, dy: real, dz: real,
                        ux: real, uy: real, uz: real, vx: real, vy: real, vz: real,
                        t: real, a: real, b: real, c: real)
    requires wx == a * ux + b * vx - t * dx && wy == a * uy + b * vy - t * dy && wz == a * uz + b * vz - t * dz
    requires c == Det3(ux, uy, uz, vx, vy, vz, dx, dy, dz)
    ensures Det3(ux, uy, uz, vx, vy, vz, wx, wy, wz) == -t * c
    ensures Det3(wx, wy, wz, vx, vy, vz, dx, dy, dz) == a * c
    ensures Det3(ux, uy, uz, wx, wy, wz, dx, dy, dz) == b * c
  {
    CramerExpanded(dx, dy, dz, ux, uy, uz, vx, vy, vz, t, a, b, c);
  }

  lemma CramerExpanded(dx: real, dy: real, dz: real, ux: real, uy: real, uz: real,
                       vx: real, vy: real, vz: real, t: real, a: real, b: real, c: real)
    requires c == Det3(ux, uy, uz, vx, vy, vz, dx, dy, dz)
    ensures Det3(ux, uy, uz, vx, vy, vz, a * ux + b * vx - t * dx, a * uy + b * vy - t * dy, a * uz + b * vz - t * dz) == -t * c
    ensures Det3(a * ux + b * vx - t * dx, a * uy + b * vy - t * dy, a * uz + b * vz - t * dz, vx, vy, vz, dx, dy, dz) == a * c
    ensures Det3(ux, uy, uz, a * ux + b * vx - t * dx, a * uy + b * vy - t * dy, a * uz + b * vz - t * dz, dx, dy, dz) == b * c
  {
  }

  /** The ray/plane system w + t d = a u + b v, solved for w = origin - v0, by coordinates. */
  lemma OffsetIsCombination(ray: Ray, v0: Vec3, v1: Vec3, v2: Vec3, t: real, a: real, b: real)
    requires At(ray, t) == Bary(v0, v1, v2, a, b)
    ensures var u, v, d, w := Sub(v1, v0), Sub(v2, v0), ray.direction, Sub(ray.origin, v0);
      w.x == a * u.x + b * v.x - t * d.x && w.y == a * u.y + b * v.y - t * d.y && w.z == a * u.z + b * v.z - t * d.z
  {
    assert At(ray, t).x == Bary(v0, v1, v2, a, b).x;
    assert At(ray, t).y == Bary(v0, v1, v2, a, b).y;
    assert At(ray, t).z == Bary(v0, v1, v2, a, b).z;
  }

  /** The test's quotients, once the numerators are known multiples of c. */
  lemma SolveFromNumerators(ray: Ray, v0: Vec3, v1: Vec3, v2: Vec3, t: real, a: real, b: real)
    requires Denominator(ray, v0, v1, v2) != 0.0
    requires var u, v, d, w := Sub(v1, v0), Sub(v2, v0), ray.direction, Sub(ray.origin, v0);
      var c := Det(u, v, d);
      Det(u, v, w) == -t * c && Det(w, v, d) == a * c && Det(u, w, d) == b * c
    ensures Solve(ray, v0, v1, v2) == Solution(a, b, t)
  {
    var c := Denominator(ray, v0, v1, v2);
    QuotientOf(-t, c);
    QuotientOf(a, c);
    QuotientOf(b, c);
  }

  /** A solution of the ray/plane system is the one the test computes. */
  lemma SolutionUnique(ray: Ray, v0: Vec3, v1: Vec3, v2: Vec3, t: real, a: real, b: real)
    requires Denominator(ray, v0, v1, v2) != 0.0
    requires At(ray, t) == Bary(v0, v1, v2, a, b)
    ensures Solve(ray, v0, v1, v2) == Solution(a, b, t)
  {
    SolutionNumerators(ray, v0, v1, v2, t, a, b);
    SolveFromNumerators(ray, v0, v1, v2, t, a, b);
  }

  /** A solution (t, a, b) of the ray/plane system makes the three numerators of the test
      -t, a and b times the denominator. */
  lemma SolutionNumerators(ray: Ray, v0: Vec3, v1: Vec3, v2: Vec3, t: real, a: real, b: real)
    requires At(ray, t) == Bary(v0, v1, v2, a, b)
    ensures var u, v, d, w := Sub(v1, v0), Sub(v2, v0), ray.direction, Sub(ray.origin, v0);
      var c := Det(u, v, d);
      Det(u, v, w) == -t * c && Det(w, v, d) == a * c && Det(u, w, d) == b * c
  {
    var u, v, d := Sub(v1, v0), Sub(v2, v0), ray.direction;
    var w := Sub(ray.origin, v0);
    OffsetIsCombination(ray, v0, v1, v2, t, a, b);
    DetCoordinates(u, v, d);
    DetCoordinates(u, v, w);
    DetCoordinates(w, v, d);
    DetCoordinates(u, w, d);
    var c := Det(u, v, d);
    CramerNecessary(w.x, w.y, w.z, d.x, d.y, d.z, u.x, u.y, u.z, v.x, v.y, v.z, t, a, b, c);
  }

  lemma QuotientOf(a: real, c: real)
    requires c != 0.0
    ensures (a * c) / c == a
  {
  }

  /** Every reported hit is on the ray at a non-negative parameter and inside the triangle. */
  lemma TriangleHitSound(ray: Ray, v0: Vec3, v1: Vec3, v2: Vec3)
    requires IntersectTriangle(ray, v0, v1, v2).Some?
    ensures var h := IntersectTriangle(ray, v0, v1, v2).value;
      0.0 <= h.ir && h.point == At(ray, h.ir) &&
      exists a: real, b: real :: 0.0 <= a && 0.0 <= b && a + b <= 1.0 && h.point == Bary(v0, v1, v2, a, b)
  {
    var s := Solve(ray, v0, v1, v2);
    SolutionOnPlane(ray, v0, v1, v2);
    assert At(ray, s.ir) == Bary(v0, v1, v2, s.iu, s.iv);
  }

  /** Every point of the triangle that the ray reaches at a non-negative parameter t is
      reported, at that parameter, unless the ray is parallel to the triangle's plane. */
  lemma TriangleHitComplete(ray: Ray, v0: Vec3, v1: Vec3, v2: Vec3, t: real, a: real, b: real)
    requires Denominator(ray, v0, v1, v2) != 0.0
    requires 0.0 <= t && 0.0 <= a && 0.0 <= b && a + b <= 1.0 && At(ray, t) == Bary(v0, v1, v2, a, b)
    ensures IntersectTriangle(ray, v0, v1, v2) == Some(Hit(At(ray, t), t))
  {
    SolutionUnique(ray, v0, v1, v2, t, a, b);
  }

  /** The test's hit condition is membership of the triangle: when the ray is not parallel to
      the triangle's plane, it reports a hit at parameter t exactly when t >= 0 and the point
      of the ray at t is a convex combination of the three corners. */
  lemma TriangleHitIff(ray: Ray, v0: Vec3, v1: Vec3, v2: Vec3, t: real)
    requires Denominator(ray, v0, v1, v2) != 0.0
    ensures IntersectTriangle(ray, v0, v1, v2) == Some(Hit(At(ray, t), t)) <==>
      0.0 <= t && exists a: real, b: real :: 0.0 <= a && 0.0 <= b && a + b <= 1.0 && At(ray, t) == Bary(v0, v1, v2, a, b)
  {
    if IntersectTriangle(ray, v0, v1, v2) == Some(Hit(At(ray, t), t)) {
      TriangleHitSound(ray, v0, v1, v2);
    }
    if 0.0 <= t && exists a: real, b: real :: 0.0 <= a && 0.0 <= b && a + b <= 1.0 && At(ray, t) == Bary(v0, v1, v2, a, b) {
      var a: real, b: real :| 0.0 <= a && 0.0 <= b && a + b <= 1.0 && At(ray, t) == Bary(v0, v1, v2, a, b);
      TriangleHitComplete(ray, v0, v1, v2, t, a, b);
    }
  }

  // ----- nearest-hit scans -----

  /** Ray::intersect(Object, Triangle): the triangle test on the corners of triangle k. */
  function TriangleHit(ray: Ray, m: Mesh, k: nat): Option<Hit>
    requires WellFormed(m) && k < |m.triangles|
  {
    var t := m.triangles[k];
    IntersectTriangle(ray, m.vertices[t.v0].pos, m.vertices[t.v1].pos, m.vertices[t.v2].pos)
  }

  /** The results of the triangle test for every triangle of the mesh, in order. */
  function TriangleHits(ray: Ray, m: Mesh): (hs: seq<Option<Hit>>)
    requires WellFormed(m)
    ensures |hs| == |m.triangles| && forall k :: 0 <= k < |hs| ==> hs[k] == TriangleHit(ray, m, k)
  {
    seq(|m.triangles|, k requires 0 <= k < |m.triangles| => TriangleHit(ray, m, k))
  }

  /** The index a left-to-right scan with a strict "<" on ir ends on: the first hit with the
      least parameter, or None when nothing is hit. */
  function Nearest(hs: seq<Option<Hit>>): (r: Option<nat>)
    ensures r.Some? ==> r.value < |hs| && hs[r.value].Some?
  {
    if |hs| == 0 then None
    else
      var r := Nearest(hs[..|hs| - 1]);
      var h := hs[|hs| - 1];
      if h.Some? && (r.None? || h.value.ir < hs[r.value].value.ir) then Some(|hs| - 1) else r
  }

  /** The chosen hit has the least parameter, every earlier hit has a strictly larger one, and
      nothing is chosen exactly when nothing is hit. */
  lemma {:induction false} NearestIsFirstMinimum(hs: seq<Option<Hit>>)
    ensures Nearest(hs).None? <==> forall j :: 0 <= j < |hs| ==> hs[j].None?
    ensures Nearest(hs).Some? ==>
      var k := Nearest(hs).value;
      (forall j :: 0 <= j < |hs| && hs[j].Some? ==> hs[k].value.ir <= hs[j].value.ir) &&
      (forall j :: 0 <= j < k && hs[j].Some? ==> hs[k].value.ir < hs[j].value.ir)
  {
    if |hs| > 0 {
      var init := hs[..|hs| - 1];
      NearestIsFirstMinimum(init);
      assert forall j :: 0 <= j < |init| ==> init[j] == hs[j];
    }
  }

  /** The running distance of the object scan: INFINITY until the first hit. */
  datatype Distance = Infinity | Finite(t: real)

  predicate Below(t: real, d: Distance) {
    d.Infinity? || t < d.t
  }

  /** One step of the scan: the nearest of the first i + 1 results, from the nearest of the
      first i and result i. */
  lemma NearestStep(hs: seq<Option<Hit>>, i: nat)
    requires i < |hs|
    ensures var r := Nearest(hs[..i]);
      Nearest(hs[..i + 1]) == if hs[i].Some? && (r.None? || hs[i].value.ir < hs[r.value].value.ir) then Some(i) else r
  {
    assert hs[..i + 1][..i] == hs[..i];
  }

  /**
   * Ray::intersect(Object, intersectionPoint, ir): scan the triangles, keeping the hit with the
   * least parameter (the first on ties). point0 is the caller's point, left as it was on a miss.
   */
  method IntersectObject(ray: Ray, m: Mesh, point0: Vec3) returns (hit: bool, point: Vec3, ir: Distance)
    requires WellFormed(m)
    ensures hit == ObjectHit(ray, m).Some?
    ensures !hit ==> point == point0 && ir == Infinity
    ensures hit ==> point == ObjectHit(ray, m).value.point && ir == Finite(ObjectHit(ray, m).value.ir)
  {
    ghost var hs := TriangleHits(ray, m);
    ir := Infinity;
    hit := false;
    point := point0;
    for i := 0 to |m.triangles|
      invariant hit == Nearest(hs[..i]).Some?
      invariant !hit ==> point == point0 && ir == Infinity
      invariant hit ==> var h := hs[Nearest(hs[..i]).value].value; point == h.point && ir == Finite(h.ir)
    {
      NearestStep(hs, i);
      var tmp := TriangleHit(ray, m, i);
      if tmp.Some? {
        hit := true;
        if Below(tmp.value.ir, ir) {
          ir := Finite(tmp.value.ir);
          point := tmp.value.point;
        }
      }
    }
    assert hs[..|m.triangles|] == hs;
  }

  /** The hit an object reports: its nearest triangle hit. */
  function ObjectHit(ray: Ray, m: Mesh): Option<Hit>
    requires WellFormed(m)
  {
    var r := Nearest(TriangleHits(ray, m));
    if r.Some? then TriangleHits(ray, m)[r.value] else None
  }

  predicate AllWellFormed(scene: seq<Mesh>) {
    forall k :: 0 <= k < |scene| ==> WellFormed(scene[k])
  }

  function ObjectHits(ray: Ray, scene: seq<Mesh>): (hs: seq<Option<Hit>>)
    requires AllWellFormed(scene)
    ensures |hs| == |scene| && forall k :: 0 <= k < |hs| ==> hs[k] == ObjectHit(ray, scene[k])
  {
    seq(|scene|, k requires 0 <= k < |scene| => ObjectHit(ray, scene[k]))
  }

  /**
   * Ray::intersect(Scene, intersectionPoint, intersectionObject): scan the objects (given by
   * their meshes), keeping the nearest object hit, the first on ties. The reported object is
   * its index in the scene; point0 and index0 are the caller's values, kept on a miss.
   */
  method IntersectScene(ray: Ray, scene: seq<Mesh>, point0: Vec3, index0: nat)
    returns (hit: bool, point: Vec3, index: nat)
    requires AllWellFormed(scene)
    ensures hit == Nearest(ObjectHits(ray, scene)).Some?
    ensures !hit ==> point == point0 && index == index0
    ensures hit ==> (index == Nearest(ObjectHits(ray, scene)).value &&
      point == ObjectHits(ray, scene)[index].value.point)
  {
    ghost var hs := ObjectHits(ray, scene);
    var ir := Infinity;
    hit := false;
    point := point0;
    index := index0;
    for i := 0 to |scene|
      invariant hit == Nearest(hs[..i]).Some?
      invariant !hit ==> point == point0 && index == index0 && ir == Infinity
      invariant hit ==> (index == Nearest(hs[..i]).value &&
        point == hs[index].value.point && ir == Finite(hs[index].value.ir))
    {
      NearestStep(hs, i);
      var tmpHit, tmpPoint, tmpIr := IntersectObject(ray, scene[i], point);
      if tmpHit {
        hit := true;
        if Below(tmpIr.t, ir) {
          index := i;
          ir := tmpIr;
          point := tmpPoint;
        }
      }
    }
    assert hs[..|scene|] == hs;
  }

  /** The object scan finds the nearest triangle hit: no triangle is hit at a smaller
      parameter, and nothing is reported exactly when no triangle is hit. */
  lemma ObjectHitIsNearest(ray: Ray, m: Mesh)
    requires WellFormed(m)
    ensures ObjectHit(ray, m).None? <==> forall j :: 0 <= j < |m.triangles| ==> TriangleHit(ray, m, j).None?
    ensures ObjectHit(ray, m).Some? ==>
      forall j :: 0 <= j < |m.triangles| && TriangleHit(ray, m, j).Some? ==>
        ObjectHit(ray, m).value.ir <= TriangleHit(ray, m, j).value.ir
  {
    NearestIsFirstMinimum(TriangleHits(ray, m));
  }

  /** The scene scan finds the globally nearest triangle hit: no triangle of any object is hit
      at a smaller parameter than the reported one, and a scene with no triangle hit at all
      reports nothing. */
  lemma SceneNearestIsGlobal(ray: Ray, scene: seq<Mesh>)
    requires AllWellFormed(scene)
    ensures Nearest(ObjectHits(ray, scene)).None? <==>
      forall k, j :: 0 <= k < |scene| && 0 <= j < |scene[k].triangles| ==> TriangleHit(ray, scene[k], j).None?
    ensures Nearest(ObjectHits(ray, scene)).Some? ==>
      var h := ObjectHits(ray, scene)[Nearest(ObjectHits(ray, scene)).value].value;
      forall k, j :: 0 <= k < |scene| && 0 <= j < |scene[k].triangles| && TriangleHit(ray, scene[k], j).Some? ==>
        h.ir <= TriangleHit(ray, scene[k], j).value.ir
  {
    var os := ObjectHits(ray, scene);
    NearestIsFirstMinimum(os);
    var r := Nearest(os);
    if r.Some? {
      var h := os[r.value].value;
      ObjectHitIsNearest(ray, scene[r.value]);
      forall k, j | 0 <= k < |scene| && 0 <= j < |scene[k].triangles| && TriangleHit(ray, scene[k], j).Some?
        ensures h.ir <= TriangleHit(ray, scene[k], j).value.ir
      {
        ObjectHitIsNearest(ray, scene[k]);
      }
    } else {
      forall k, j | 0 <= k < |scene| && 0 <= j < |scene[k].triangles|
        ensures TriangleHit(ray, scene[k], j).None?
      {
        ObjectHitIsNearest(ray, scene[k]);
      }
    }
  }
}
