/**
 * KDTreeNode: a node of the k-d tree over a mesh's vertices. A node either has two children
 * (split on one axis at a sampled mean) or is a leaf holding vertex and triangle indices.
 * The class mirrors the source's fields and operations; Valid() is the shape invariant and
 * Abs() the value (KdSpec.Tree) the node and its descendants stand for.
 */
module KdTree {
  import opened Geometry
  import opened RayBox
  import opened KdSpec

  class KDTreeNode {
    var split: real
    var mesh: Mesh
    var kleft: KDTreeNode?
    var kright: KDTreeNode?
    var data: seq<nat>
    var triangles: seq<nat>
    var bbox: Box
    ghost var Repr: set<object>

    /** Both children or none; children own disjoint parts of Repr and share the mesh. */
    ghost predicate Valid()
      reads this, Repr
      decreases Repr
    {
      this in Repr &&
      (kleft == null <==> kright == null) &&
      (kleft != null ==>
        kleft in Repr && kright in Repr &&
        kleft.Repr <= Repr && kright.Repr <= Repr &&
        this !in kleft.Repr && this !in kright.Repr &&
        kleft.Repr !! kright.Repr &&
        kleft.mesh == mesh && kright.mesh == mesh &&
        kleft.Valid() && kright.Valid())
    }

    /** The tree this node stands for. */
    ghost function Abs(): Tree
      reads this, Repr
      requires Valid()
      decreases Repr
    {
      if kleft == null then Leaf(bbox, split, data, triangles)
      else Inner(bbox, split, kleft.Abs(), kright.Abs())
    }

    /**
     * The default constructor: split 0 and no children. The mesh pointer and the box are
     * left unset by the source; here they are the empty mesh and the zero box.
     */
    constructor ()
      ensures Valid() && fresh(Repr)
      ensures split == 0.0 && kleft == null && kright == null
      ensures data == [] && triangles == [] && mesh == Mesh([], []) && bbox == Box(Zero, Zero)
    {
      split := 0.0;
      mesh := Mesh([], []);
      kleft := null;
      kright := null;
      data := [];
      triangles := [];
      bbox := Box(Zero, Zero);
      Repr := {this};
    }

    /**
     * The constructor from a mesh, which loads the tree. The source leaves split unset
     * before load; here it starts at 0.
     */
    constructor FromMesh(m: Mesh, fuzz: real)
      requires WellFormed(m) && |m.vertices| > 0
      ensures Valid() && fresh(Repr) && mesh == m
      ensures IsBoundsOf(bbox, m)
      ensures BuiltFrom(Abs(), m, Range(|m.vertices|), Range(|m.triangles|), 0, fuzz)
    {
      split := 0.0;
      mesh := m;
      kleft := null;
      kright := null;
      data := [];
      triangles := [];
      bbox := Box(Zero, Zero);
      Repr := {this};
      new;
      Load(fuzz);
    }

    /** KDTreeNode::clear: empty lists, split 0, children dropped; mesh and box kept. */
    method Clear()
      modifies this
      ensures Valid() && Repr == {this}
      ensures data == [] && triangles == [] && split == 0.0 && kleft == null && kright == null
      ensures mesh == old(mesh) && bbox == old(bbox)
    {
      data := [];
      triangles := [];
      split := 0.0;
      kleft := null;
      kright := null;
      Repr := {this};
    }

    /**
     * KDTreeNode::operator=: clears this node and takes kd's mesh. The box is not copied:
     * the source assigns bbox to itself.
     */
    method Assign(kd: KDTreeNode)
      modifies this
      ensures Valid() && Repr == {this}
      ensures data == [] && triangles == [] && split == 0.0 && kleft == null && kright == null
      ensures mesh == old(kd.mesh) && bbox == old(bbox)
    {
      var m := kd.mesh;
      Clear();
      mesh := m;
    }

    /**
     * KDTreeNode::load: the index lists of all vertices and all triangles, the bounding box
     * of the vertices (starting from vertex 0, so the mesh must have one), then loadVertices
     * on axis 0.
     */
    method Load(fuzz: real)
      requires WellFormed(mesh) && |mesh.vertices| > 0
      modifies this
      ensures Valid() && fresh(Repr - {this}) && mesh == old(mesh)
      ensures IsBoundsOf(bbox, mesh)
      ensures BuiltFrom(Abs(), mesh, Range(|mesh.vertices|), Range(|mesh.triangles|), 0, fuzz)
    {
      var verts, lo, hi := ScanVertices(mesh);
      var tri := IndexList(|mesh.triangles|);
      bbox := Box(lo, hi);
      var _ := LoadVertices(verts, tri, 0, fuzz);
    }

    /**
     * KDTreeNode::loadVertices: drops the children; fails on an empty list; makes a leaf of
     * at most LEAFSIZE vertices; otherwise samples a split, partitions vertices and
     * triangles between the lower and upper boxes and, when both sides have vertices, builds
     * two children on the next axis, else makes a leaf. An internal node keeps whatever data
     * and triangles it held before.
     */
    method LoadVertices(verts: seq<nat>, tri: seq<nat>, axis: Axis, fuzz: real) returns (ok: bool)
      requires WellFormed(mesh) && IndicesBelow(verts, |mesh.vertices|) && IndicesBelow(tri, |mesh.triangles|)
      modifies this
      ensures Valid() && fresh(Repr - {this})
      ensures mesh == old(mesh) && bbox == old(bbox)
      ensures ok == (|verts| > 0)
      ensures ok ==> BuiltFrom(Abs(), mesh, verts, tri, axis, fuzz)
      ensures !ok ==> kleft == null && split == old(split) && data == old(data) && triangles == old(triangles)
      ensures kleft != null ==> data == old(data) && triangles == old(triangles)
      ensures |verts| <= LEAFSIZE ==> split == old(split)
      decreases |verts|, 2
    {
      kleft := null;
      kright := null;
      Repr := {this};
      if |verts| == 0 {
        return false;
      }
      ok := true;
      if |verts| <= LEAFSIZE {
        data := verts;
        triangles := tri;
        return;
      }
      Subdivide(verts, tri, axis, fuzz);
    }

    /**
     * The splitting part of KDTreeNode::loadVertices, on a childless node and a list longer
     * than LEAFSIZE: sample the split, partition vertices and triangles between the lower and
     * upper boxes, then attach two children or, when a side is empty, make a leaf.
     */
    method Subdivide(verts: seq<nat>, tri: seq<nat>, axis: Axis, fuzz: real)
      requires WellFormed(mesh) && IndicesBelow(verts, |mesh.vertices|) && IndicesBelow(tri, |mesh.triangles|)
      requires LEAFSIZE < |verts| && kleft == null && kright == null && Repr == {this}
      modifies this
      ensures Valid() && fresh(Repr - {this})
      ensures mesh == old(mesh) && bbox == old(bbox)
      ensures BuiltFrom(Abs(), mesh, verts, tri, axis, fuzz)
      ensures kleft != null ==> data == old(data) && triangles == old(triangles)
      decreases |verts|, 1
    {
      var s := SampleSplit(mesh, verts, axis);
      split := s;
      var lb, rb := LowerBox(bbox, axis, s), UpperBox(bbox, axis, s);
      var lverts, rverts := PartitionVertices(mesh, verts, axis, s);
      var ltri, rtri := PartitionTriangles(mesh, tri, lb, rb, fuzz);
      if |lverts| > 0 && |rverts| > 0 {
        ghost var lt, rt := Attach(lverts, ltri, rverts, rtri, axis, fuzz);
        BuiltInner(bbox, s, lt, rt, mesh, verts, tri, axis, fuzz);
      } else {
        data := verts;
        triangles := tri;
        BuiltUnsplit(Abs(), mesh, verts, tri, axis, fuzz);
      }
    }

    /**
     * The child creation of KDTreeNode::loadVertices: a left child over the lower box and a
     * right child over the upper box, each sharing the mesh and loaded on the next axis.
     */
    method Attach(lverts: seq<nat>, ltri: seq<nat>, rverts: seq<nat>, rtri: seq<nat>, axis: Axis, fuzz: real)
      returns (ghost lt: Tree, ghost rt: Tree)
      requires WellFormed(mesh) && IndicesBelow(lverts, |mesh.vertices|) && IndicesBelow(ltri, |mesh.triangles|)
      requires IndicesBelow(rverts, |mesh.vertices|) && IndicesBelow(rtri, |mesh.triangles|)
      requires |lverts| > 0 && |rverts| > 0
      modifies this
      ensures Valid() && fresh(Repr - {this}) && kleft != null
      ensures mesh == old(mesh) && bbox == old(bbox) && split == old(split)
      ensures data == old(data) && triangles == old(triangles)
      ensures Abs() == Inner(bbox, split, lt, rt)
      ensures lt.box == LowerBox(bbox, axis, split) && rt.box == UpperBox(bbox, axis, split)
      ensures BuiltFrom(lt, mesh, lverts, ltri, Next(axis), fuzz)
      ensures BuiltFrom(rt, mesh, rverts, rtri, Next(axis), fuzz)
      decreases |lverts| + |rverts|, 0
    {
      var l, r;
      l, lt := NewChild(mesh, LowerBox(bbox, axis, split), lverts, ltri, Next(axis), fuzz);
      ghost var lr := l.Repr;
      r, rt := NewChild(mesh, UpperBox(bbox, axis, split), rverts, rtri, Next(axis), fuzz);
      ghost var rr := r.Repr;
      assert l.Valid() && l.Abs() == lt && l.Repr == lr && lr !! rr;
      Link(l, r);
      assert Repr - {this} == lr + rr;
    }

    /** Makes l and r the children of this node. */
    method Link(l: KDTreeNode, r: KDTreeNode)
      requires l.Valid() && r.Valid() && l.mesh == mesh && r.mesh == mesh
      requires this !in l.Repr && this !in r.Repr && l.Repr !! r.Repr
      modifies this
      ensures Valid() && Repr == {this} + l.Repr + r.Repr && kleft == l && kright == r
      ensures Repr - {this} == l.Repr + r.Repr
      ensures mesh == old(mesh) && bbox == old(bbox) && split == old(split)
      ensures data == old(data) && triangles == old(triangles)
      ensures Abs() == Inner(bbox, split, old(l.Abs()), old(r.Abs()))
    {
      kleft, kright := l, r;
      Repr := {this} + l.Repr + r.Repr;
    }

    /** KDTreeNode::_find: descends to the leaf on p's side of each split, from the given axis. */
    function FindFrom(p: Vec3, axis: Axis): (n: KDTreeNode)
      reads this, Repr
      requires Valid()
      ensures n in Repr && n.Repr <= Repr && n.Valid() && n.kleft == null
      ensures n.Abs() == Descend(Abs(), p, axis)
      decreases Repr
    {
      if p.At(axis) < split then
        if kleft != null then kleft.FindFrom(p, Next(axis)) else this
      else
        if kright != null then kright.FindFrom(p, Next(axis)) else this
    }

    /** KDTreeNode::find: the search starts on axis 0. */
    function Find(p: Vec3): (n: KDTreeNode)
      reads this, Repr
      requires Valid()
      ensures n in Repr && n.Valid() && n.kleft == null
      ensures n.Abs() == Descend(Abs(), p, 0)
    {
      FindFrom(p, 0)
    }
  }

  /**
   * The child creation of KDTreeNode::loadVertices: a new node sharing the mesh, with the
   * child's box, loaded with the child's vertex and triangle lists on the next axis.
   */
  method NewChild(m: Mesh, box: Box, verts: seq<nat>, tri: seq<nat>, axis: Axis, fuzz: real) returns (c: KDTreeNode, ghost t: Tree)
    requires WellFormed(m) && IndicesBelow(verts, |m.vertices|) && IndicesBelow(tri, |m.triangles|)
    requires |verts| > 0
    ensures fresh(c.Repr) && c.Valid() && c.mesh == m && c.bbox == box
    ensures t == c.Abs() && t.box == box && BuiltFrom(t, m, verts, tri, axis, fuzz)
    decreases |verts|, 3
  {
    c := new KDTreeNode();
    c.mesh := m;
    c.bbox := box;
    var _ := c.LoadVertices(verts, tri, axis, fuzz);
    t := c.Abs();
  }

  /**
   * The vertex scan of KDTreeNode::load: verts[v] = v for every vertex, and the per-axis
   * minimum and maximum of the positions, starting from vertex 0.
   */
  method ScanVertices(m: Mesh) returns (verts: seq<nat>, lo: Vec3, hi: Vec3)
    requires |m.vertices| > 0
    ensures verts == Range(|m.vertices|)
    ensures IsBoundsOf(Box(lo, hi), m)
  {
    var n := |m.vertices|;
    verts := seq(n, _ => 0);
    lo := m.vertices[0].pos;
    hi := lo;
    AttainedByFirst(m);
    for v := 0 to n
      invariant |verts| == n && forall w :: 0 <= w < v ==> verts[w] == w
      invariant ContainsFirst(m, Box(lo, hi), v)
      invariant Attained(m, lo, hi)
    {
      verts := verts[v := v];
      lo, hi := WidenBy(m, v, lo, hi);
    }
    ScannedBounds(m, lo, hi);
  }

  /** The inner loop of the vertex scan for vertex v, with what it keeps of the running box. */
  method WidenBy(m: Mesh, v: nat, lo: Vec3, hi: Vec3) returns (lo': Vec3, hi': Vec3)
    requires v < |m.vertices| && ContainsFirst(m, Box(lo, hi), v) && Attained(m, lo, hi)
    ensures ContainsFirst(m, Box(lo', hi'), v + 1) && Attained(m, lo', hi')
  {
    lo', hi' := Widen(lo, hi, m.vertices[v].pos);
    WidenStep(m, v, lo, hi, lo', hi');
  }

  /** The first v vertices of m lie in b. */
  predicate ContainsFirst(m: Mesh, b: Box, v: nat) {
    v <= |m.vertices| && forall w :: 0 <= w < v ==> Contains(b, m.vertices[w].pos)
  }

  /** Every coordinate of lo and hi is the coordinate of some vertex of m. */
  ghost predicate Attained(m: Mesh, lo: Vec3, hi: Vec3) {
    forall i: Axis :: IsVertexCoord(m, lo.At(i), i) && IsVertexCoord(m, hi.At(i), i)
  }

  /** A box holding every vertex whose faces are vertex coordinates is the bounding box. */
  lemma ScannedBounds(m: Mesh, lo: Vec3, hi: Vec3)
    requires ContainsFirst(m, Box(lo, hi), |m.vertices|) && Attained(m, lo, hi)
    ensures IsBoundsOf(Box(lo, hi), m)
  {
  }

  /** The box of vertex 0 alone has vertex coordinates as faces. */
  lemma AttainedByFirst(m: Mesh)
    requires |m.vertices| > 0
    ensures Attained(m, m.vertices[0].pos, m.vertices[0].pos)
  {
    forall i: Axis
      ensures IsVertexCoord(m, m.vertices[0].pos.At(i), i)
    {
      assert m.vertices[0].pos.At(i) == Coord(m, 0, i);
    }
  }

  /** One step of the vertex scan keeps the running box a box of the vertices seen so far
      whose faces are vertex coordinates. */
  lemma WidenStep(m: Mesh, v: nat, lo: Vec3, hi: Vec3, lo': Vec3, hi': Vec3)
    requires v < |m.vertices| && ContainsFirst(m, Box(lo, hi), v) && Attained(m, lo, hi)
    requires forall j: Axis :: lo'.At(j) <= lo.At(j) && lo'.At(j) <= m.vertices[v].pos.At(j)
    requires forall j: Axis :: hi.At(j) <= hi'.At(j) && m.vertices[v].pos.At(j) <= hi'.At(j)
    requires forall j: Axis :: lo'.At(j) == lo.At(j) || lo'.At(j) == m.vertices[v].pos.At(j)
    requires forall j: Axis :: hi'.At(j) == hi.At(j) || hi'.At(j) == m.vertices[v].pos.At(j)
    ensures ContainsFirst(m, Box(lo', hi'), v + 1) && Attained(m, lo', hi')
  {
    forall w | 0 <= w < v
      ensures Contains(Box(lo', hi'), m.vertices[w].pos)
    {
      WidenKeeps(lo, hi, lo', hi', m.vertices[w].pos);
    }
    WidenContains(lo', hi', m.vertices[v].pos);
    forall i: Axis
      ensures IsVertexCoord(m, lo'.At(i), i) && IsVertexCoord(m, hi'.At(i), i)
    {
      if lo'.At(i) != lo.At(i) {
        assert lo'.At(i) == Coord(m, v, i);
      }
      if hi'.At(i) != hi.At(i) {
        assert hi'.At(i) == Coord(m, v, i);
      }
    }
  }

  /** The per-axis update of the running minimum and maximum by one vertex position p. */
  method Widen(lo: Vec3, hi: Vec3, p: Vec3) returns (lo': Vec3, hi': Vec3)
    ensures forall j: Axis :: lo'.At(j) <= lo.At(j) && lo'.At(j) <= p.At(j)
    ensures forall j: Axis :: hi.At(j) <= hi'.At(j) && p.At(j) <= hi'.At(j)
    ensures forall j: Axis :: lo'.At(j) == lo.At(j) || lo'.At(j) == p.At(j)
    ensures forall j: Axis :: hi'.At(j) == hi.At(j) || hi'.At(j) == p.At(j)
  {
    lo', hi' := lo, hi;
    for i := 0 to 3
      invariant forall j: Axis :: j < i ==> lo'.At(j) <= lo.At(j) && lo'.At(j) <= p.At(j)
      invariant forall j: Axis :: j < i ==> hi.At(j) <= hi'.At(j) && p.At(j) <= hi'.At(j)
      invariant forall j: Axis :: i <= j ==> lo'.At(j) == lo.At(j) && hi'.At(j) == hi.At(j)
      invariant forall j: Axis :: lo'.At(j) == lo.At(j) || lo'.At(j) == p.At(j)
      invariant forall j: Axis :: hi'.At(j) == hi.At(j) || hi'.At(j) == p.At(j)
    {
      if p.At(i) < lo'.At(i) {
        lo' := lo'.With(i, p.At(i));
      }
      if p.At(i) > hi'.At(i) {
        hi' := hi'.With(i, p.At(i));
      }
    }
  }

  lemma WidenKeeps(lo: Vec3, hi: Vec3, lo': Vec3, hi': Vec3, q: Vec3)
    requires forall j: Axis :: lo'.At(j) <= lo.At(j) && hi.At(j) <= hi'.At(j)
    requires Contains(Box(lo, hi), q)
    ensures Contains(Box(lo', hi'), q)
  {
    assert InSlab(Box(lo, hi), q, 0) && InSlab(Box(lo, hi), q, 1) && InSlab(Box(lo, hi), q, 2);
    assert InSlab(Box(lo', hi'), q, 0) && InSlab(Box(lo', hi'), q, 1) && InSlab(Box(lo', hi'), q, 2);
  }

  lemma WidenContains(lo': Vec3, hi': Vec3, p: Vec3)
    requires forall j: Axis :: lo'.At(j) <= p.At(j) <= hi'.At(j)
    ensures Contains(Box(lo', hi'), p)
  {
    assert InSlab(Box(lo', hi'), p, 0) && InSlab(Box(lo', hi'), p, 1) && InSlab(Box(lo', hi'), p, 2);
  }

  /** The triangle index list of KDTreeNode::load: tri[t] = t. */
  method IndexList(n: nat) returns (s: seq<nat>)
    ensures s == Range(n)
  {
    s := seq(n, _ => 0);
    for t := 0 to n
      invariant |s| == n && forall u :: 0 <= u < t ==> s[u] == u
    {
      s := s[t := t];
    }
  }

  /**
   * The split computation of KDTreeNode::loadVertices: min(NSAMPLES, |verts|) coordinates
   * of randomly picked vertices are summed and divided by their number.
   */
  method SampleSplit(m: Mesh, verts: seq<nat>, axis: Axis) returns (s: real)
    requires IndicesBelow(verts, |m.vertices|) && |verts| > 0
    ensures IsSampledMean(m, verts, axis, s)
  {
    s := 0.0;
    ghost var picks: seq<nat> := [];
    var i := 0;
    while i < NSAMPLES && i < |verts|
      invariant i <= NSAMPLES && i <= |verts|
      invariant |picks| == i && IndicesBelow(picks, |verts|)
      invariant s == SampleSum(m, verts, picks, axis)
    {
      var r :| 0 <= r < |verts|;
      s := s + Coord(m, verts[r], axis);
      assert (picks + [r])[..i] == picks;
      picks := picks + [r];
      i := i + 1;
    }
    assert |picks| == Min(NSAMPLES, |verts|);
    if NSAMPLES < |verts| {
      s := s / (NSAMPLES as real);
    } else {
      s := s / (|verts| as real);
    }
  }

  /**
   * The vertex loop of KDTreeNode::loadVertices: vertices strictly below the split go left,
   * the others right.
   */
  method PartitionVertices(m: Mesh, verts: seq<nat>, axis: Axis, split: real) returns (lverts: seq<nat>, rverts: seq<nat>)
    requires IndicesBelow(verts, |m.vertices|)
    ensures lverts == Side(m, verts, axis, split, true)
    ensures rverts == Side(m, verts, axis, split, false)
    ensures |lverts| + |rverts| == |verts|
  {
    lverts, rverts := [], [];
    for i := 0 to |verts|
      invariant lverts == Side(m, verts[..i], axis, split, true)
      invariant rverts == Side(m, verts[..i], axis, split, false)
    {
      assert verts[..i + 1][..i] == verts[..i];
      if Coord(m, verts[i], axis) < split {
        lverts := lverts + [verts[i]];
      } else {
        rverts := rverts + [verts[i]];
      }
    }
    assert verts[..|verts|] == verts;
    SidesPartition(m, verts, axis, split);
    assert |multiset(lverts)| + |multiset(rverts)| == |multiset(verts)|;
  }

  /**
   * The triangle loop of KDTreeNode::loadVertices: a triangle goes to a side when one of its
   * corners lies in that side's box, or else when _triangleInBox accepts it; it may go to both.
   */
  method PartitionTriangles(m: Mesh, tri: seq<nat>, lb: Box, rb: Box, fuzz: real) returns (ltri: seq<nat>, rtri: seq<nat>)
    requires WellFormed(m) && IndicesBelow(tri, |m.triangles|)
    ensures ltri == TrianglesIn(m, tri, lb, fuzz)
    ensures rtri == TrianglesIn(m, tri, rb, fuzz)
  {
    ltri, rtri := [], [];
    for i := 0 to |tri|
      invariant ltri == TrianglesIn(m, tri[..i], lb, fuzz)
      invariant rtri == TrianglesIn(m, tri[..i], rb, fuzz)
    {
      assert tri[..i + 1][..i] == tri[..i];
      var bl, br := SortTriangle(m, tri[i], lb, rb, fuzz);
      if bl {
        ltri := ltri + [tri[i]];
      }
      if br {
        rtri := rtri + [tri[i]];
      }
    }
    assert tri[..|tri|] == tri;
  }

  /** The body of the triangle loop of KDTreeNode::loadVertices for triangle k: whether it goes
      into the lower box and whether it goes into the upper box. */
  method SortTriangle(m: Mesh, k: nat, lb: Box, rb: Box, fuzz: real) returns (bl: bool, br: bool)
    requires WellFormed(m) && k < |m.triangles|
    ensures bl == Assigned(m, k, lb, fuzz) && br == Assigned(m, k, rb, fuzz)
  {
    var t := m.triangles[k];
    assert TriOk(t, |m.vertices|);
    var p0, p1, p2 := m.vertices[t.v0].pos, m.vertices[t.v1].pos, m.vertices[t.v2].pos;
    var sl := (if Contains(lb, p0) then 1 else 0) + (if Contains(lb, p1) then 1 else 0) + (if Contains(lb, p2) then 1 else 0);
    var sr := (if Contains(rb, p0) then 1 else 0) + (if Contains(rb, p1) then 1 else 0) + (if Contains(rb, p2) then 1 else 0);
    bl, br := false, false;
    if sl > 0 {
      bl := true;
    } else {
      bl := TestTriangleInBox(p0, p1, p2, lb, fuzz);
    }
    if sr > 0 {
      br := true;
    } else {
      br := TestTriangleInBox(p0, p1, p2, rb, fuzz);
    }
  }

  /**
   * KDTreeNode::_triangleInBox: six slab tests (KDTreeNode::_lineInBox, the same algorithm as
   * RayBox.IntersectBox) of the edges against the widened box, then the midpoint checks in
   * the source's order.
   */
  method TestTriangleInBox(v0: Vec3, v1: Vec3, v2: Vec3, box: Box, fuzz: real) returns (r: bool)
    ensures r == TriangleInBox(v0, v1, v2, box, fuzz)
  {
    var d := Scale(fuzz, Sub(box.hi, box.lo));
    var box2 := Box(Sub(box.lo, d), Add(box.hi, d));
    var d0, d1, d2 := Sub(v1, v0), Sub(v2, v1), Sub(v0, v2);
    var b0, a := IntersectBox(Ray(v0, d0), box2);
    var b1, b := IntersectBox(Ray(v1, d1), box2);
    var b2, c := IntersectBox(Ray(v2, d2), box2);
    var bb0, ab := IntersectBox(Ray(v0, Neg(d0)), box2);
    var bb1, bb := IntersectBox(Ray(v1, Neg(d1)), box2);
    var bb2, cb := IntersectBox(Ray(v2, Neg(d2)), box2);
    if b0 && b1 && MidIn(a, b, box2) {
      r := true;
    } else if b0 && b2 && MidIn(a, c, box2) {
      r := true;
    } else if b1 && b2 && MidIn(b, c, box2) {
      r := true;
    } else if bb0 && bb1 && MidIn(ab, bb, box2) {
      r := true;
    } else if bb0 && bb2 && MidIn(ab, cb, box2) {
      r := true;
    } else if bb1 && bb2 && MidIn(bb, cb, box2) {
      r := true;
    } else {
      r := false;
    }
  }
}
