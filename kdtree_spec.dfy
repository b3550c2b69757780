/**
 * What KDTreeNode::loadVertices builds, stated on values: the vertex split by the sampled mean,
 * the triangle assignment (vertex containment, else the edge-clipping test _triangleInBox),
 * the child boxes, and the relation BuiltFrom between index lists and the tree built from them.
 * The lemmas say what a built tree guarantees to KDTreeNode::find.
 */
module KdSpec {
  import opened Wrappers
  import opened Geometry
  import opened RayBox

  /** Number of random samples averaged for the split value. */
  const NSAMPLES: nat := 100

  /** Maximum number of vertices of a node that is not split further. */
  const LEAFSIZE: nat := 1

  function Min(a: nat, b: nat): nat {
    if a < b then a else b
  }

  /** Coordinate `axis` of vertex v. */
  function Coord(m: Mesh, v: nat, axis: Axis): real
    requires v < |m.vertices|
  {
    m.vertices[v].pos.At(axis)
  }

  // ----- subsequences -----

  /** a is obtained from b by deleting elements, keeping the order of the rest. */
  predicate IsSubseq<T(==)>(a: seq<T>, b: seq<T>)
    decreases |b|
  {
    if |a| == 0 then true
    else if |b| == 0 then false
    else if a[|a| - 1] == b[|b| - 1] then IsSubseq(a[..|a| - 1], b[..|b| - 1])
    else IsSubseq(a, b[..|b| - 1])
  }

  /** A subsequence of b is one of b + [x]. */
  lemma {:induction false} SubseqSnoc<T>(a: seq<T>, b: seq<T>, x: T)
    requires IsSubseq(a, b)
    ensures IsSubseq(a, b + [x])
    decreases |b|, 1
  {
    assert (b + [x])[..|b|] == b;
    if |a| > 0 && a[|a| - 1] == x {
      SubseqShorten(a, b);
    }
  }

  /** Dropping the last element of a subsequence leaves a subsequence. */
  lemma {:induction false} SubseqShorten<T>(a: seq<T>, b: seq<T>)
    requires |a| > 0 && IsSubseq(a, b)
    ensures IsSubseq(a[..|a| - 1], b)
    decreases |b|, 0
  {
    var b', y := b[..|b| - 1], b[|b| - 1];
    assert b == b' + [y];
    if a[|a| - 1] != y {
      SubseqShorten(a, b');
    }
    SubseqSnoc(a[..|a| - 1], b', y);
  }

  /** One step of a filter from the back: keeping or dropping x keeps the result a subsequence. */
  lemma SubseqStep<T>(a: seq<T>, b: seq<T>, x: T, keep: bool)
    requires IsSubseq(a, b)
    ensures IsSubseq(if keep then a + [x] else a, b + [x])
  {
    if keep {
      assert (a + [x])[..|a|] == a && (b + [x])[..|b|] == b;
    } else {
      SubseqSnoc(a, b, x);
    }
  }

  // ----- the split value -----

  /** Sum of the coordinates of the sampled vertices verts[picks[0]], verts[picks[1]], ... */
  function SampleSum(m: Mesh, verts: seq<nat>, picks: seq<nat>, axis: Axis): real
    requires IndicesBelow(verts, |m.vertices|) && IndicesBelow(picks, |verts|)
  {
    if |picks| == 0 then 0.0
    else SampleSum(m, verts, picks[..|picks| - 1], axis) + Coord(m, verts[picks[|picks| - 1]], axis)
  }

  /**
   * split is the mean of min(NSAMPLES, |verts|) coordinates of vertices of verts picked at
   * random (with repetition): the source divides by NSAMPLES when it is smaller than |verts|
   * and by |verts| otherwise, which is the number of samples in both cases.
   */
  ghost predicate IsSampledMean(m: Mesh, verts: seq<nat>, axis: Axis, split: real)
    requires IndicesBelow(verts, |m.vertices|)
  {
    exists picks: seq<nat> ::
      0 < |picks| == Min(NSAMPLES, |verts|) && IndicesBelow(picks, |verts|) &&
      split == SampleSum(m, verts, picks, axis) / (|picks| as real)
  }

  /** If every sample exceeds c, the sum exceeds (number of samples) * c. */
  lemma {:induction false} SampleSumAbove(m: Mesh, verts: seq<nat>, picks: seq<nat>, axis: Axis, c: real)
    requires IndicesBelow(verts, |m.vertices|) && IndicesBelow(picks, |verts|) && |picks| > 0
    requires forall k :: 0 <= k < |picks| ==> c < Coord(m, verts[picks[k]], axis)
    ensures (|picks| as real) * c < SampleSum(m, verts, picks, axis)
    decreases |picks|
  {
    if |picks| > 1 {
      SampleSumAbove(m, verts, picks[..|picks| - 1], axis, c);
    }
  }

  /** If every sample is below c, the sum is below (number of samples) * c. */
  lemma {:induction false} SampleSumBelow(m: Mesh, verts: seq<nat>, picks: seq<nat>, axis: Axis, c: real)
    requires IndicesBelow(verts, |m.vertices|) && IndicesBelow(picks, |verts|) && |picks| > 0
    requires forall k :: 0 <= k < |picks| ==> Coord(m, verts[picks[k]], axis) < c
    ensures SampleSum(m, verts, picks, axis) < (|picks| as real) * c
    decreases |picks|
  {
    if |picks| > 1 {
      SampleSumBelow(m, verts, picks[..|picks| - 1], axis, c);
    }
  }

  lemma MeanBound(s: real, n: real, c: real)
    requires 0.0 < n
    ensures n * c < s ==> c < s / n
    ensures s < n * c ==> s / n < c
  {
  }

  /**
   * The sampled split plane lies within the extent of the node's vertices on the axis:
   * some vertex is at or below it and some vertex is at or above it.
   */
  lemma SplitWithin(m: Mesh, verts: seq<nat>, axis: Axis, split: real)
    requires IndicesBelow(verts, |m.vertices|) && |verts| > 0
    requires IsSampledMean(m, verts, axis, split)
    ensures exists i :: 0 <= i < |verts| && Coord(m, verts[i], axis) <= split
    ensures exists j :: 0 <= j < |verts| && split <= Coord(m, verts[j], axis)
  {
    var picks: seq<nat> :| 0 < |picks| == Min(NSAMPLES, |verts|) && IndicesBelow(picks, |verts|) &&
      split == SampleSum(m, verts, picks, axis) / (|picks| as real);
    var n := |picks| as real;
    var s := SampleSum(m, verts, picks, axis);
    MeanBound(s, n, split);
    if forall k :: 0 <= k < |picks| ==> split < Coord(m, verts[picks[k]], axis) {
      SampleSumAbove(m, verts, picks, axis, split);
      assert false;
    }
    if forall k :: 0 <= k < |picks| ==> Coord(m, verts[picks[k]], axis) < split {
      SampleSumBelow(m, verts, picks, axis, split);
      assert false;
    }
  }

  // ----- the vertex partition -----

  /**
   * The vertices of s strictly below split on the axis (below = true) or at or above it
   * (below = false), in their order in s.
   */
  function Side(m: Mesh, s: seq<nat>, axis: Axis, split: real, below: bool): (r: seq<nat>)
    requires IndicesBelow(s, |m.vertices|)
    ensures |r| <= |s| && IndicesBelow(r, |m.vertices|)
  {
    if |s| == 0 then []
    else
      var rest := Side(m, s[..|s| - 1], axis, split, below);
      if (Coord(m, s[|s| - 1], axis) < split) == below then rest + [s[|s| - 1]] else rest
  }

  /** A vertex is on a side exactly when it is in s and on that side of the plane. */
  lemma {:induction false} SideMembers(m: Mesh, s: seq<nat>, axis: Axis, split: real, below: bool, v: nat)
    requires IndicesBelow(s, |m.vertices|)
    ensures v in Side(m, s, axis, split, below) <==>
      v in s && v < |m.vertices| && (Coord(m, v, axis) < split) == below
    decreases |s|
  {
    if |s| > 0 {
      SideMembers(m, s[..|s| - 1], axis, split, below, v);
      assert s == s[..|s| - 1] + [s[|s| - 1]];
    }
  }

  /** The two sides split s: every occurrence goes to exactly one of them. */
  lemma {:induction false} SidesPartition(m: Mesh, s: seq<nat>, axis: Axis, split: real)
    requires IndicesBelow(s, |m.vertices|)
    ensures multiset(Side(m, s, axis, split, true)) + multiset(Side(m, s, axis, split, false)) == multiset(s)
    decreases |s|
  {
    if |s| > 0 {
      SidesPartition(m, s[..|s| - 1], axis, split);
      assert s == s[..|s| - 1] + [s[|s| - 1]];
    }
  }

  /** Each side keeps the input order: it is a subsequence of s. */
  lemma {:induction false} SideSubseq(m: Mesh, s: seq<nat>, axis: Axis, split: real, below: bool)
    requires IndicesBelow(s, |m.vertices|)
    ensures IsSubseq(Side(m, s, axis, split, below), s)
    decreases |s|
  {
    if |s| > 0 {
      var init, last := s[..|s| - 1], s[|s| - 1];
      assert s == init + [last];
      SideSubseq(m, init, axis, split, below);
      SubseqStep(Side(m, init, axis, split, below), init, last, (Coord(m, last, axis) < split) == below);
    }
  }

  // ----- the triangle assignment -----

  /** The midpoint (p + q) / 2 lies in box f. */
  predicate MidIn(p: Vec3, q: Vec3, f: Box) {
    Contains(f, Scale(0.5, Add(p, q)))
  }

  /**
   * KDTreeNode::_triangleInBox: the box is widened by fuzz; each edge of the triangle, as a
   * ray from its first corner, is checked forwards and backwards against the widened box with
   * the slab test; the triangle is accepted when two forward or two backward rays hit and the
   * midpoint of their entry points lies in the widened box. The edges are used unnormalized:
   * the slab test does not depend on the direction's length (RayBox.ScaleInvariant).
   */
  predicate TriangleInBox(v0: Vec3, v1: Vec3, v2: Vec3, box: Box, fuzz: real) {
    var f := Fuzzy(box, fuzz);
    var d0, d1, d2 := Sub(v1, v0), Sub(v2, v1), Sub(v0, v2);
    var a, b, c := SlabHit(v0, d0, f), SlabHit(v1, d1, f), SlabHit(v2, d2, f);
    var ab, bb, cb := SlabHit(v0, Neg(d0), f), SlabHit(v1, Neg(d1), f), SlabHit(v2, Neg(d2), f);
    (a.Some? && b.Some? && MidIn(a.value, b.value, f)) ||
    (a.Some? && c.Some? && MidIn(a.value, c.value, f)) ||
    (b.Some? && c.Some? && MidIn(b.value, c.value, f)) ||
    (ab.Some? && bb.Some? && MidIn(ab.value, bb.value, f)) ||
    (ab.Some? && cb.Some? && MidIn(ab.value, cb.value, f)) ||
    (bb.Some? && cb.Some? && MidIn(bb.value, cb.value, f))
  }

  /** Two of three rays meet the box (the rays from p, q, r along dp, dq, dr). */
  ghost predicate TwoMeet(p: Vec3, dp: Vec3, q: Vec3, dq: Vec3, r: Vec3, dr: Vec3, f: Box) {
    (RayMeetsBox(p, dp, f) && RayMeetsBox(q, dq, f)) ||
    (RayMeetsBox(p, dp, f) && RayMeetsBox(r, dr, f)) ||
    (RayMeetsBox(q, dq, f) && RayMeetsBox(r, dr, f))
  }

  /** A box is convex: the midpoint of two of its points is in it. */
  lemma MidpointInBox(p: Vec3, q: Vec3, f: Box)
    requires Contains(f, p) && Contains(f, q)
    ensures MidIn(p, q, f)
  {
  }

  /**
   * For an ordered box and a non-negative fuzziness the midpoint checks never reject: the
   * test accepts exactly when two of the forward edge rays, or two of the backward ones,
   * meet the widened box.
   */
  lemma TriangleInBoxMeaning(v0: Vec3, v1: Vec3, v2: Vec3, box: Box, fuzz: real)
    requires Ordered(box) && 0.0 <= fuzz
    ensures TriangleInBox(v0, v1, v2, box, fuzz) <==>
      var f := Fuzzy(box, fuzz);
      var d0, d1, d2 := Sub(v1, v0), Sub(v2, v1), Sub(v0, v2);
      TwoMeet(v0, d0, v1, d1, v2, d2, f) || TwoMeet(v0, Neg(d0), v1, Neg(d1), v2, Neg(d2), f)
  {
    var f := Fuzzy(box, fuzz);
    FuzzyWidens(box, fuzz);
    var d0, d1, d2 := Sub(v1, v0), Sub(v2, v1), Sub(v0, v2);
    HitsMeet(v0, d0, f);
    HitsMeet(v1, d1, f);
    HitsMeet(v2, d2, f);
    HitsMeet(v0, Neg(d0), f);
    HitsMeet(v1, Neg(d1), f);
    HitsMeet(v2, Neg(d2), f);
    PairsAccepted(SlabHit(v0, d0, f), SlabHit(v1, d1, f), SlabHit(v2, d2, f), f);
    PairsAccepted(SlabHit(v0, Neg(d0), f), SlabHit(v1, Neg(d1), f), SlabHit(v2, Neg(d2), f), f);
  }

  /** Of three hits that all lie in box f, a pair passes the midpoint check exactly when both are present. */
  lemma PairsAccepted(a: Option<Vec3>, b: Option<Vec3>, c: Option<Vec3>, f: Box)
    requires a.Some? ==> Contains(f, a.value)
    requires b.Some? ==> Contains(f, b.value)
    requires c.Some? ==> Contains(f, c.value)
    ensures ((a.Some? && b.Some? && MidIn(a.value, b.value, f)) ||
      (a.Some? && c.Some? && MidIn(a.value, c.value, f)) ||
      (b.Some? && c.Some? && MidIn(b.value, c.value, f))) <==>
      ((a.Some? && b.Some?) || (a.Some? && c.Some?) || (b.Some? && c.Some?))
  {
    if a.Some? && b.Some? { MidpointInBox(a.value, b.value, f); }
    if a.Some? && c.Some? { MidpointInBox(a.value, c.value, f); }
    if b.Some? && c.Some? { MidpointInBox(b.value, c.value, f); }
  }

  /** A hit of the slab test on an ordered box is a point of the box, and hits happen exactly when the ray meets it. */
  lemma HitsMeet(o: Vec3, d: Vec3, f: Box)
    requires Ordered(f)
    ensures SlabHit(o, d, f).Some? <==> RayMeetsBox(o, d, f)
    ensures SlabHit(o, d, f).Some? ==> Contains(f, SlabHit(o, d, f).value)
  {
    SlabHitCorrect(o, d, f);
    if SlabHit(o, d, f).Some? {
      HitInBox(o, d, f);
    }
  }

  /** Triangle k of m goes into a child box: a corner lies in the box, or _triangleInBox accepts it. */
  predicate Assigned(m: Mesh, k: nat, box: Box, fuzz: real)
    requires WellFormed(m) && k < |m.triangles|
  {
    var (p0, p1, p2) := Corners(m, m.triangles[k]);
    Contains(box, p0) || Contains(box, p1) || Contains(box, p2) || TriangleInBox(p0, p1, p2, box, fuzz)
  }

  /** The triangles of tri assigned to box, in their order in tri. */
  function TrianglesIn(m: Mesh, tri: seq<nat>, box: Box, fuzz: real): (r: seq<nat>)
    requires WellFormed(m) && IndicesBelow(tri, |m.triangles|)
    ensures |r| <= |tri| && IndicesBelow(r, |m.triangles|)
  {
    if |tri| == 0 then []
    else
      var rest := TrianglesIn(m, tri[..|tri| - 1], box, fuzz);
      if Assigned(m, tri[|tri| - 1], box, fuzz) then rest + [tri[|tri| - 1]] else rest
  }

  /** A triangle is assigned to a box exactly when it is in tri and Assigned holds. */
  lemma {:induction false} TrianglesInMembers(m: Mesh, tri: seq<nat>, box: Box, fuzz: real, k: nat)
    requires WellFormed(m) && IndicesBelow(tri, |m.triangles|)
    ensures k in TrianglesIn(m, tri, box, fuzz) <==>
      k in tri && k < |m.triangles| && Assigned(m, k, box, fuzz)
    decreases |tri|
  {
    if |tri| > 0 {
      var init, last := tri[..|tri| - 1], tri[|tri| - 1];
      assert tri == init + [last];
      TrianglesInMembers(m, init, box, fuzz, k);
      if Assigned(m, last, box, fuzz) {
        assert TrianglesIn(m, tri, box, fuzz) == TrianglesIn(m, init, box, fuzz) + [last];
      } else {
        assert TrianglesIn(m, tri, box, fuzz) == TrianglesIn(m, init, box, fuzz);
      }
    }
  }

  /** The triangle list of a child keeps the input order: it is a subsequence of tri. */
  lemma {:induction false} TrianglesInSubseq(m: Mesh, tri: seq<nat>, box: Box, fuzz: real)
    requires WellFormed(m) && IndicesBelow(tri, |m.triangles|)
    ensures IsSubseq(TrianglesIn(m, tri, box, fuzz), tri)
    decreases |tri|
  {
    if |tri| > 0 {
      var init, last := tri[..|tri| - 1], tri[|tri| - 1];
      assert tri == init + [last];
      TrianglesInSubseq(m, init, box, fuzz);
      var keep := Assigned(m, last, box, fuzz);
      SubseqStep(TrianglesIn(m, init, box, fuzz), init, last, keep);
      if keep {
        assert TrianglesIn(m, tri, box, fuzz) == TrianglesIn(m, init, box, fuzz) + [last];
      } else {
        assert TrianglesIn(m, tri, box, fuzz) == TrianglesIn(m, init, box, fuzz);
      }
    }
  }

  // ----- child boxes -----

  /** The left child's box: the node's box with its maximum on the axis moved to split. */
  function LowerBox(b: Box, axis: Axis, split: real): Box {
    Box(b.lo, b.hi.With(axis, split))
  }

  /** The right child's box: the node's box with its minimum on the axis moved to split. */
  function UpperBox(b: Box, axis: Axis, split: real): Box {
    Box(b.lo.With(axis, split), b.hi)
  }

  /** A point of the box strictly below the plane is in the lower box, otherwise in the upper box. */
  lemma ChildBoxContains(b: Box, axis: Axis, split: real, p: Vec3)
    requires Contains(b, p)
    ensures p.At(axis) < split ==> Contains(LowerBox(b, axis, split), p)
    ensures split <= p.At(axis) ==> Contains(UpperBox(b, axis, split), p)
  {
    var l, u := LowerBox(b, axis, split), UpperBox(b, axis, split);
    assert InSlab(b, p, 0) && InSlab(b, p, 1) && InSlab(b, p, 2);
    if p.At(axis) < split {
      assert InSlab(l, p, 0) && InSlab(l, p, 1) && InSlab(l, p, 2);
    }
    if split <= p.At(axis) {
      assert InSlab(u, p, 0) && InSlab(u, p, 1) && InSlab(u, p, 2);
    }
  }

  // ----- the tree -----

  /**
   * The value of a KDTreeNode and its descendants. An internal node's data and triangles
   * are not part of it: the source never reads them (and does not reset them).
   */
  datatype Tree =
    | Leaf(box: Box, split: real, data: seq<nat>, triangles: seq<nat>)
    | Inner(box: Box, split: real, left: Tree, right: Tree)

  /**
   * t is what loadVertices(verts, tri, axis) builds in a node whose box is t.box:
   * no tree for an empty vertex list; a leaf holding verts and tri when there are at most
   * LEAFSIZE vertices; otherwise a sampled split and, when both sides of it have vertices,
   * two children over the lower and upper boxes with the vertices of each side, the
   * triangles assigned to each box and the next axis; a leaf holding verts and tri when one
   * side is empty. The split of a leaf that was not split is whatever the node held before.
   */
  ghost predicate BuiltFrom(t: Tree, m: Mesh, verts: seq<nat>, tri: seq<nat>, axis: Axis, fuzz: real)
    requires WellFormed(m) && IndicesBelow(verts, |m.vertices|) && IndicesBelow(tri, |m.triangles|)
    decreases t
  {
    |verts| > 0 &&
    if |verts| <= LEAFSIZE then
      t.Leaf? && t.data == verts && t.triangles == tri
    else
      IsSampledMean(m, verts, axis, t.split) &&
      var lv, rv := Side(m, verts, axis, t.split, true), Side(m, verts, axis, t.split, false);
      if |lv| > 0 && |rv| > 0 then
        var lb, rb := LowerBox(t.box, axis, t.split), UpperBox(t.box, axis, t.split);
        t.Inner? && t.left.box == lb && t.right.box == rb &&
        BuiltFrom(t.left, m, lv, TrianglesIn(m, tri, lb, fuzz), Next(axis), fuzz) &&
        BuiltFrom(t.right, m, rv, TrianglesIn(m, tri, rb, fuzz), Next(axis), fuzz)
      else
        t.Leaf? && t.data == verts && t.triangles == tri
  }

  /** One step of BuiltFrom for a node that was split into two children. */
  lemma BuiltInner(box: Box, split: real, lt: Tree, rt: Tree, m: Mesh, verts: seq<nat>, tri: seq<nat>, axis: Axis, fuzz: real)
    requires WellFormed(m) && IndicesBelow(verts, |m.vertices|) && IndicesBelow(tri, |m.triangles|)
    requires LEAFSIZE < |verts| && IsSampledMean(m, verts, axis, split)
    requires |Side(m, verts, axis, split, true)| > 0 && |Side(m, verts, axis, split, false)| > 0
    requires lt.box == LowerBox(box, axis, split) && rt.box == UpperBox(box, axis, split)
    requires BuiltFrom(lt, m, Side(m, verts, axis, split, true), TrianglesIn(m, tri, LowerBox(box, axis, split), fuzz), Next(axis), fuzz)
    requires BuiltFrom(rt, m, Side(m, verts, axis, split, false), TrianglesIn(m, tri, UpperBox(box, axis, split), fuzz), Next(axis), fuzz)
    ensures BuiltFrom(Inner(box, split, lt, rt), m, verts, tri, axis, fuzz)
  {
  }

  /** One step of BuiltFrom for a node left as a leaf after a split with an empty side. */
  lemma BuiltUnsplit(t: Tree, m: Mesh, verts: seq<nat>, tri: seq<nat>, axis: Axis, fuzz: real)
    requires WellFormed(m) && IndicesBelow(verts, |m.vertices|) && IndicesBelow(tri, |m.triangles|)
    requires LEAFSIZE < |verts| && IsSampledMean(m, verts, axis, t.split) && t.Leaf?
    requires |Side(m, verts, axis, t.split, true)| == 0 || |Side(m, verts, axis, t.split, false)| == 0
    requires t.data == verts && t.triangles == tri
    ensures BuiltFrom(t, m, verts, tri, axis, fuzz)
  {
  }

  /** KDTreeNode::_find: the leaf reached by going left when p is strictly below the split. */
  function Descend(t: Tree, p: Vec3, axis: Axis): (r: Tree)
    ensures r.Leaf?
  {
    match t
    case Leaf(_, _, _, _) => t
    case Inner(_, split, l, r) =>
      if p.At(axis) < split then Descend(l, p, Next(axis)) else Descend(r, p, Next(axis))
  }

  /** The vertex lists of the leaves, left to right. */
  function LeafData(t: Tree): seq<nat> {
    match t
    case Leaf(_, _, data, _) => data
    case Inner(_, _, l, r) => LeafData(l) + LeafData(r)
  }

  /** Every vertex of verts is held by exactly as many leaves as it occurs in verts. */
  lemma {:induction false} BuiltLeavesPartition(t: Tree, m: Mesh, verts: seq<nat>, tri: seq<nat>, axis: Axis, fuzz: real)
    requires WellFormed(m) && IndicesBelow(verts, |m.vertices|) && IndicesBelow(tri, |m.triangles|)
    requires BuiltFrom(t, m, verts, tri, axis, fuzz)
    ensures multiset(LeafData(t)) == multiset(verts)
    decreases t
  {
    if t.Inner? {
      var lb, rb := LowerBox(t.box, axis, t.split), UpperBox(t.box, axis, t.split);
      var lv, rv := Side(m, verts, axis, t.split, true), Side(m, verts, axis, t.split, false);
      BuiltLeavesPartition(t.left, m, lv, TrianglesIn(m, tri, lb, fuzz), Next(axis), fuzz);
      BuiltLeavesPartition(t.right, m, rv, TrianglesIn(m, tri, rb, fuzz), Next(axis), fuzz);
      SidesPartition(m, verts, axis, t.split);
    }
  }

  /** Searching for a vertex's own position reaches a leaf that holds the vertex. */
  lemma {:induction false} BuiltVertexFound(t: Tree, m: Mesh, verts: seq<nat>, tri: seq<nat>, axis: Axis, fuzz: real, v: nat)
    requires WellFormed(m) && IndicesBelow(verts, |m.vertices|) && IndicesBelow(tri, |m.triangles|)
    requires BuiltFrom(t, m, verts, tri, axis, fuzz) && v in verts
    ensures v < |m.vertices| && v in Descend(t, m.vertices[v].pos, axis).data
    decreases t
  {
    if t.Inner? {
      var lb, rb := LowerBox(t.box, axis, t.split), UpperBox(t.box, axis, t.split);
      var below := Coord(m, v, axis) < t.split;
      SideMembers(m, verts, axis, t.split, below, v);
      if below {
        BuiltVertexFound(t.left, m, Side(m, verts, axis, t.split, true), TrianglesIn(m, tri, lb, fuzz), Next(axis), fuzz, v);
      } else {
        BuiltVertexFound(t.right, m, Side(m, verts, axis, t.split, false), TrianglesIn(m, tri, rb, fuzz), Next(axis), fuzz, v);
      }
    }
  }

  /**
   * Searching for a corner of a triangle of tri that lies in the node's box reaches a leaf
   * that holds the triangle.
   */
  lemma {:induction false} BuiltTriangleFound(t: Tree, m: Mesh, verts: seq<nat>, tri: seq<nat>, axis: Axis, fuzz: real, k: nat, c: nat)
    requires WellFormed(m) && IndicesBelow(verts, |m.vertices|) && IndicesBelow(tri, |m.triangles|)
    requires BuiltFrom(t, m, verts, tri, axis, fuzz) && k in tri
    requires k < |m.triangles| && c in {m.triangles[k].v0, m.triangles[k].v1, m.triangles[k].v2}
    requires Contains(t.box, m.vertices[c].pos)
    ensures k in Descend(t, m.vertices[c].pos, axis).triangles
    decreases t
  {
    if t.Inner? {
      var p := m.vertices[c].pos;
      var lb, rb := LowerBox(t.box, axis, t.split), UpperBox(t.box, axis, t.split);
      ChildBoxContains(t.box, axis, t.split, p);
      if p.At(axis) < t.split {
        TrianglesInMembers(m, tri, lb, fuzz, k);
        BuiltTriangleFound(t.left, m, Side(m, verts, axis, t.split, true), TrianglesIn(m, tri, lb, fuzz), Next(axis), fuzz, k, c);
      } else {
        TrianglesInMembers(m, tri, rb, fuzz, k);
        BuiltTriangleFound(t.right, m, Side(m, verts, axis, t.split, false), TrianglesIn(m, tri, rb, fuzz), Next(axis), fuzz, k, c);
      }
    }
  }

  /**
   * The leaf reached from a point of the node's box has a box containing that point, and
   * holds only vertices of verts and triangles of tri.
   */
  lemma {:induction false} BuiltDescendCell(t: Tree, m: Mesh, verts: seq<nat>, tri: seq<nat>, axis: Axis, fuzz: real, p: Vec3)
    requires WellFormed(m) && IndicesBelow(verts, |m.vertices|) && IndicesBelow(tri, |m.triangles|)
    requires BuiltFrom(t, m, verts, tri, axis, fuzz)
    ensures Contains(t.box, p) ==> Contains(Descend(t, p, axis).box, p)
    ensures forall v :: v in Descend(t, p, axis).data ==> v in verts
    ensures forall k :: k in Descend(t, p, axis).triangles ==> k in tri
    decreases t
  {
    if t.Inner? {
      var lb, rb := LowerBox(t.box, axis, t.split), UpperBox(t.box, axis, t.split);
      if Contains(t.box, p) {
        ChildBoxContains(t.box, axis, t.split, p);
      }
      var below := p.At(axis) < t.split;
      var sv := Side(m, verts, axis, t.split, below);
      var st := TrianglesIn(m, tri, if below then lb else rb, fuzz);
      BuiltDescendCell(if below then t.left else t.right, m, sv, st, Next(axis), fuzz, p);
      forall v | v in sv ensures v in verts {
        SideMembers(m, verts, axis, t.split, below, v);
      }
      forall k | k in st ensures k in tri {
        TrianglesInMembers(m, tri, if below then lb else rb, fuzz, k);
      }
    }
  }

  // ----- the root -----

  /** b is the bounding box of m's vertices: it contains them all and each face touches one. */
  ghost predicate IsBoundsOf(b: Box, m: Mesh) {
    (forall v :: 0 <= v < |m.vertices| ==> Contains(b, m.vertices[v].pos)) &&
    (forall i: Axis :: IsVertexCoord(m, b.lo.At(i), i) && IsVertexCoord(m, b.hi.At(i), i))
  }

  /** x is coordinate i of some vertex of m. */
  ghost predicate IsVertexCoord(m: Mesh, x: real, i: Axis) {
    exists v :: 0 <= v < |m.vertices| && x == Coord(m, v, i)
  }

  /**
   * The tree KDTreeNode::load builds over all vertices and triangles within the mesh's bounds
   * holds each vertex in exactly one leaf, and KDTreeNode::find reaches, from each vertex's
   * position, a leaf holding that vertex and, from each corner of a triangle, a leaf holding
   * that triangle.
   */
  lemma LoadedTreeFinds(t: Tree, m: Mesh, fuzz: real)
    requires WellFormed(m)
    requires BuiltFrom(t, m, Range(|m.vertices|), Range(|m.triangles|), 0, fuzz)
    requires IsBoundsOf(t.box, m)
    ensures multiset(LeafData(t)) == multiset(Range(|m.vertices|))
    ensures forall v :: 0 <= v < |m.vertices| ==> v in Descend(t, m.vertices[v].pos, 0).data
    ensures forall k, c :: 0 <= k < |m.triangles| && c in {m.triangles[k].v0, m.triangles[k].v1, m.triangles[k].v2} ==>
      k in Descend(t, m.vertices[c].pos, 0).triangles
  {
    var verts, tri := Range(|m.vertices|), Range(|m.triangles|);
    BuiltLeavesPartition(t, m, verts, tri, 0, fuzz);
    forall v | 0 <= v < |m.vertices|
      ensures v in Descend(t, m.vertices[v].pos, 0).data
    {
      assert verts[v] == v;
      BuiltVertexFound(t, m, verts, tri, 0, fuzz, v);
    }
    forall k, c | 0 <= k < |m.triangles| && c in {m.triangles[k].v0, m.triangles[k].v1, m.triangles[k].v2}
      ensures k in Descend(t, m.vertices[c].pos, 0).triangles
    {
      RootTriangleFound(t, m, fuzz, k, c);
    }
  }

  /** From each corner of triangle k, the search in the loaded tree reaches a leaf holding k. */
  lemma RootTriangleFound(t: Tree, m: Mesh, fuzz: real, k: nat, c: nat)
    requires WellFormed(m)
    requires BuiltFrom(t, m, Range(|m.vertices|), Range(|m.triangles|), 0, fuzz)
    requires IsBoundsOf(t.box, m)
    requires k < |m.triangles| && c in {m.triangles[k].v0, m.triangles[k].v1, m.triangles[k].v2}
    ensures k in Descend(t, m.vertices[c].pos, 0).triangles
  {
    var tri := Range(|m.triangles|);
    assert tri[k] == k;
    assert TriOk(m.triangles[k], |m.vertices|);
    BuiltTriangleFound(t, m, Range(|m.vertices|), tri, 0, fuzz, k, c);
  }
}
