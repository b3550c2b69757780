/** Optional values, standing for the null pointers and "no result" outputs of the renderer. */
module Wrappers {
  datatype Option<+T> = None | Some(value: T)
}

/**
 * The passive value types the renderer core is built on: 3D vectors (Vec3Df),
 * axis-aligned bounding boxes (BoundingBox), mesh vertices, triangles and meshes.
 * Coordinates are exact reals; floating-point rounding is not modelled.
 */
module Geometry {

  /** One of the three coordinate axes x = 0, y = 1, z = 2. */
  type Axis = i: nat | i < 3

  /** The axis used one level deeper in the k-d tree: (axis + 1) % 3. */
  function Next(axis: Axis): Axis {
    (axis + 1) % 3
  }

  datatype Vec3 = Vec3(x: real, y: real, z: real) {
    /** The coordinate on axis i, written v[i] in the source. */
    function At(i: Axis): real {
      if i == 0 then x else if i == 1 then y else z
    }

    /** This vector with coordinate i replaced by r (the source's v[i] = r). */
    function With(i: Axis, r: real): (w: Vec3)
      ensures w.At(i) == r
      ensures forall j: Axis :: j != i ==> w.At(j) == At(j)
    {
      if i == 0 then Vec3(r, y, z) else if i == 1 then Vec3(x, r, z) else Vec3(x, y, r)
    }
  }

  const Zero := Vec3(0.0, 0.0, 0.0)

  function Add(a: Vec3, b: Vec3): Vec3 {
    Vec3(a.x + b.x, a.y + b.y, a.z + b.z)
  }

  function Sub(a: Vec3, b: Vec3): Vec3 {
    Vec3(a.x - b.x, a.y - b.y, a.z - b.z)
  }

  function Neg(a: Vec3): Vec3 {
    Vec3(-a.x, -a.y, -a.z)
  }

  function Scale(k: real, a: Vec3): Vec3 {
    Vec3(k * a.x, k * a.y, k * a.z)
  }

  function Dot(a: Vec3, b: Vec3): real {
    a.x * b.x + a.y * b.y + a.z * b.z
  }

  function Cross(a: Vec3, b: Vec3): Vec3 {
    Vec3(a.y * b.z - a.z * b.y, a.z * b.x - a.x * b.z, a.x * b.y - a.y * b.x)
  }

  /** Axis-aligned box with corners lo (getMin) and hi (getMax). */
  datatype Box = Box(lo: Vec3, hi: Vec3)

  /** The box's min <= max on axis i. */
  predicate OrderedOn(b: Box, i: Axis) {
    b.lo.At(i) <= b.hi.At(i)
  }

  /** The BoundingBox invariant: min <= max on every axis. */
  predicate Ordered(b: Box) {
    OrderedOn(b, 0) && OrderedOn(b, 1) && OrderedOn(b, 2)
  }

  /** p lies within the box's extent on axis i. */
  predicate InSlab(b: Box, p: Vec3, i: Axis) {
    b.lo.At(i) <= p.At(i) <= b.hi.At(i)
  }

  /** Closed containment test (BoundingBox::contains). */
  predicate Contains(b: Box, p: Vec3) {
    InSlab(b, p, 0) && InSlab(b, p, 1) && InSlab(b, p, 2)
  }

  /** The box widened on each side by fuzz times its own extent. */
  function Fuzzy(b: Box, fuzz: real): Box {
    var d := Scale(fuzz, Sub(b.hi, b.lo));
    Box(Sub(b.lo, d), Add(b.hi, d))
  }

  /** For a non-negative fuzziness, widening keeps the box ordered and contains the original box. */
  lemma FuzzyWidens(b: Box, fuzz: real)
    requires 0.0 <= fuzz && Ordered(b)
    ensures Ordered(Fuzzy(b, fuzz))
    ensures forall p :: Contains(b, p) ==> Contains(Fuzzy(b, fuzz), p)
  {
    var f := Fuzzy(b, fuzz);
    forall i: Axis
      ensures f.lo.At(i) <= b.lo.At(i) && b.hi.At(i) <= f.hi.At(i) && OrderedOn(f, i)
    {
      assert OrderedOn(b, i);
      var e := b.hi.At(i) - b.lo.At(i);
      assert 0.0 <= fuzz * e by { NonNegProduct(fuzz, e); }
      assert f.lo.At(i) == b.lo.At(i) - fuzz * e;
      assert f.hi.At(i) == b.hi.At(i) + fuzz * e;
    }
  }

  lemma NonNegProduct(a: real, b: real)
    requires 0.0 <= a && 0.0 <= b
    ensures 0.0 <= a * b
  {
  }

  /** Dividing by a positive d keeps an upper bound given on the product. */
  lemma QuotientBelow(a: real, d: real, t: real)
    requires 0.0 < d && a <= t * d
    ensures a / d <= t
  {
  }

  /** Dividing by a negative d turns a lower bound on the product into an upper bound. */
  lemma QuotientBelowNeg(a: real, d: real, t: real)
    requires d < 0.0 && t * d <= a
    ensures a / d <= t
  {
  }

  lemma QuotientNonNeg(a: real, d: real)
    requires (0.0 <= a && 0.0 < d) || (a <= 0.0 && d < 0.0)
    ensures 0.0 <= a / d
  {
  }

  lemma SignOfFactor(t: real, d: real)
    requires 0.0 <= t
    ensures 0.0 < t * d ==> 0.0 < d
    ensures t * d < 0.0 ==> d < 0.0
  {
  }

  /** A ray: origin and (not necessarily normalized) direction. */
  datatype Ray = Ray(origin: Vec3, direction: Vec3)

  /** A mesh vertex: position and (smoothed) normal. */
  datatype Vertex = Vertex(pos: Vec3, normal: Vec3)

  /** A triangle as three vertex indices (Triangle::getVertex(0..2)). */
  datatype Tri = Tri(v0: nat, v1: nat, v2: nat)

  datatype Mesh = Mesh(vertices: seq<Vertex>, triangles: seq<Tri>)

  predicate TriOk(t: Tri, n: nat) {
    t.v0 < n && t.v1 < n && t.v2 < n
  }

  /** Every triangle refers to existing vertices. */
  predicate WellFormed(m: Mesh) {
    forall k :: 0 <= k < |m.triangles| ==> TriOk(m.triangles[k], |m.vertices|)
  }

  /** Every index in s is below n. */
  predicate IndicesBelow(s: seq<nat>, n: nat) {
    forall k :: 0 <= k < |s| ==> s[k] < n
  }

  /** The three corner positions of triangle t of mesh m. */
  function Corners(m: Mesh, t: Tri): (Vec3, Vec3, Vec3)
    requires TriOk(t, |m.vertices|)
  {
    (m.vertices[t.v0].pos, m.vertices[t.v1].pos, m.vertices[t.v2].pos)
  }

  /** The index list 0, 1, ..., n - 1. */
  function Range(n: nat): (s: seq<nat>)
    ensures |s| == n && forall i :: 0 <= i < n ==> s[i] == i
  {
    seq(n, i => i)
  }
}
