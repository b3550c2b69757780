/**
 * PointCloud: the buffer of surfels (disk-shaped radiance samples) used for indirect light.
 */
module Surfels {
  import opened Geometry
  import opened KdSpec
  import opened Objects

  /** A surfel: position, normal, radius and pre-shaded colour. */
  datatype Surfel = Surfel(position: Vec3, normal: Vec3, radius: real, color: Vec3)

  /** Number of surfels sampled per object (MAX_POINT). */
  const MAX_POINT: nat := 100

  /** The centroid (v0 + v1 + v2) / 3 of a triangle. */
  function Centroid(v0: Vec3, v1: Vec3, v2: Vec3): Vec3 {
    Vec3((v0.x + v1.x + v2.x) / 3.0, (v0.y + v1.y + v2.y) / 3.0, (v0.z + v1.z + v2.z) / 3.0)
  }

  /** The unnormalized normal cross(v1 - v0, v2 - v0) of a triangle. */
  function FaceNormal(v0: Vec3, v1: Vec3, v2: Vec3): Vec3 {
    Cross(Sub(v1, v0), Sub(v2, v0))
  }

  /**
   * s is sampled from triangle k of m: at its centroid, with its face normal, the radius
   * radiusOf gives for its corners and the colour shade gives at that point and normal.
   */
  predicate OnTriangle(m: Mesh, s: Surfel, k: nat, radiusOf: (Vec3, Vec3, Vec3) -> real, shade: (Vec3, Vec3) -> Vec3)
    requires WellFormed(m) && k < |m.triangles|
  {
    var c := Corners(m, m.triangles[k]);
    var centre, normal := Centroid(c.0, c.1, c.2), FaceNormal(c.0, c.1, c.2);
    s.position == centre && s.normal == normal &&
    s.radius == radiusOf(c.0, c.1, c.2) && s.color == shade(centre, normal)
  }

  /** The centroid of a triangle lies in every box that contains its corners. */
  lemma CentroidInBox(b: Box, v0: Vec3, v1: Vec3, v2: Vec3)
    requires Contains(b, v0) && Contains(b, v1) && Contains(b, v2)
    ensures Contains(b, Centroid(v0, v1, v2))
  {
    var c := Centroid(v0, v1, v2);
    assert InSlab(b, c, 0) && InSlab(b, c, 1) && InSlab(b, c, 2);
  }

  /** The face normal is perpendicular to the triangle's edges from v0. */
  lemma FaceNormalPerpendicular(v0: Vec3, v1: Vec3, v2: Vec3)
    ensures Dot(FaceNormal(v0, v1, v2), Sub(v1, v0)) == 0.0
    ensures Dot(FaceNormal(v0, v1, v2), Sub(v2, v0)) == 0.0
  {
  }

  /** s is sampled from some triangle of m. */
  ghost predicate OnSomeTriangle(m: Mesh, s: Surfel, radiusOf: (Vec3, Vec3, Vec3) -> real, shade: (Vec3, Vec3) -> Vec3)
    requires WellFormed(m)
  {
    exists k: nat :: k < |m.triangles| && OnTriangle(m, s, k, radiusOf, shade)
  }

  /** Every surfel of ss from index from on is sampled from some triangle of m. */
  ghost predicate PlacedOnMesh(m: Mesh, ss: seq<Surfel>, from: nat, radiusOf: (Vec3, Vec3, Vec3) -> real, shade: (Vec3, Vec3) -> Vec3)
    requires WellFormed(m)
  {
    forall i :: from <= i < |ss| ==> OnSomeTriangle(m, ss[i], radiusOf, shade)
  }

  /** Surfels sampled from the triangles listed in picks are sampled from the mesh. */
  lemma PlacedByPicks(m: Mesh, ss: seq<Surfel>, from: nat, picks: seq<nat>, radiusOf: (Vec3, Vec3, Vec3) -> real, shade: (Vec3, Vec3) -> Vec3)
    requires WellFormed(m) && |ss| == from + |picks|
    requires forall j :: 0 <= j < |picks| ==>
      picks[j] < |m.triangles| && OnTriangle(m, ss[from + j], picks[j], radiusOf, shade)
    ensures PlacedOnMesh(m, ss, from, radiusOf, shade)
  {
    forall i | from <= i < |ss|
      ensures OnSomeTriangle(m, ss[i], radiusOf, shade)
    {
      var k := picks[i - from];
      assert OnTriangle(m, ss[from + (i - from)], k, radiusOf, shade);
    }
  }

  class PointCloud {
    var surfels: seq<Surfel>

    constructor ()
      ensures surfels == []
    {
      surfels := [];
    }

    /** PointCloud::getSurfels. */
    function GetSurfels(): seq<Surfel>
      reads this
    {
      surfels
    }

    /** PointCloud::clear: no surfels left. */
    method Clear()
      modifies this
      ensures GetSurfels() == []
    {
      surfels := [];
    }

    /** PointCloud::add(Surfel): appends s. */
    method Add(s: Surfel)
      modifies this
      ensures GetSurfels() == old(GetSurfels()) + [s]
    {
      surfels := surfels + [s];
    }

    /**
     * PointCloud::add(Object, Camera): appends min(MAX_POINT, number of triangles) surfels,
     * each at the centroid and with the face normal of a randomly picked triangle. The
     * radius (which needs a square root) and the shaded colour (camera, lights, material)
     * are supplied by radiusOf and shade.
     */
    method AddObject(o: Object, radiusOf: (Vec3, Vec3, Vec3) -> real, shade: (Vec3, Vec3) -> Vec3)
      requires WellFormed(o.mesh)
      modifies this
      ensures |GetSurfels()| == |old(GetSurfels())| + Min(MAX_POINT, |o.mesh.triangles|)
      ensures GetSurfels()[..|old(GetSurfels())|] == old(GetSurfels())
      ensures PlacedOnMesh(o.mesh, GetSurfels(), |old(GetSurfels())|, radiusOf, shade)
    {
      var m := o.mesh;
      ghost var n0 := |surfels|;
      ghost var prefix := surfels;
      ghost var picks: seq<nat> := [];
      var c := 0;
      while c < MAX_POINT && c < |m.triangles|
        invariant c <= MAX_POINT && c <= |m.triangles|
        invariant |surfels| == n0 + c && surfels[..n0] == prefix && |picks| == c
        invariant forall j :: 0 <= j < c ==> picks[j] < |m.triangles| && OnTriangle(m, surfels[n0 + j], picks[j], radiusOf, shade)
      {
        var k :| 0 <= k < |m.triangles|;
        var t := m.triangles[k];
        assert TriOk(t, |m.vertices|);
        var v0, v1, v2 := m.vertices[t.v0].pos, m.vertices[t.v1].pos, m.vertices[t.v2].pos;
        var s := Surfel(Centroid(v0, v1, v2), FaceNormal(v0, v1, v2), radiusOf(v0, v1, v2), shade(Centroid(v0, v1, v2), FaceNormal(v0, v1, v2)));
        surfels := surfels + [s];
        picks := picks + [k];
        c := c + 1;
      }
      PlacedByPicks(m, surfels, n0, picks, radiusOf, shade);
    }
  }
}
