/**
 * Object: a mesh with its material, its bounding box and a k-d tree built on demand.
 * The tree is exclusively owned by the object.
 */
module Objects {
  import opened Geometry
  import opened KdSpec
  import opened KdTree

  /** Material: diffuse and specular coefficients, shininess, colour, index of refraction, refraction and reflection. */
  datatype Material = Material(diffuse: real, specular: real, shine: real, color: Vec3, ior: real, refract: real, reflect: real)

  class Object {
    var mesh: Mesh
    var mat: Material
    var bbox: Box
    var kdt: KDTreeNode?
    ghost var Repr: set<object>

    /** A tree, when present, is owned by the object and indexes the object's own mesh. */
    ghost predicate Valid()
      reads this, Repr
    {
      this in Repr &&
      (kdt != null ==>
        kdt in Repr && kdt.Repr <= Repr && this !in kdt.Repr &&
        kdt.Valid() && kdt.mesh == mesh)
    }

    /**
     * The mesh and material constructor: no tree yet. The box is the one
     * Object::updateBoundingBox computes, whose definition is not part of this model.
     */
    constructor (mesh: Mesh, mat: Material, box: Box)
      ensures Valid() && fresh(Repr)
      ensures this.mesh == mesh && this.mat == mat && bbox == box
      ensures GetKdTree() == null
    {
      this.mesh := mesh;
      this.mat := mat;
      bbox := box;
      kdt := null;
      Repr := {this};
    }

    /** Object::getKdTree: the tree, or null before ComputeKdTree has run. */
    function GetKdTree(): (t: KDTreeNode?)
      reads this, Repr
      requires Valid()
      ensures t != null ==> t in Repr && t.Valid() && t.mesh == mesh
    {
      kdt
    }

    /**
     * Object::computeKdTree: builds the tree over the object's mesh when there is none
     * (KDTreeNode's mesh constructor, which needs a vertex); otherwise changes nothing.
     */
    method ComputeKdTree(fuzz: real)
      requires Valid()
      requires kdt == null ==> WellFormed(mesh) && |mesh.vertices| > 0
      modifies this
      ensures Valid() && fresh(Repr - old(Repr))
      ensures mesh == old(mesh) && mat == old(mat) && bbox == old(bbox)
      ensures GetKdTree() != null
      ensures old(kdt) != null ==> kdt == old(kdt) && Repr == old(Repr)
      ensures old(kdt) == null ==>
        fresh(kdt) && IsBoundsOf(kdt.bbox, mesh) &&
        BuiltFrom(kdt.Abs(), mesh, Range(|mesh.vertices|), Range(|mesh.triangles|), 0, fuzz)
    {
      if kdt == null {
        var t := new KDTreeNode.FromMesh(mesh, fuzz);
        ghost var tree := t.Abs();
        kdt := t;
        Repr := Repr + t.Repr;
        assert t.Valid() && t.Abs() == tree;
      }
    }

    /**
     * Object::operator=: copies mesh, material and box from o and drops this object's
     * tree (o may be this object).
     */
    method Assign(o: Object)
      requires Valid()
      modifies this
      ensures Valid() && Repr == {this}
      ensures mesh == old(o.mesh) && mat == old(o.mat) && bbox == old(o.bbox)
      ensures GetKdTree() == null
    {
      mesh, mat, bbox := o.mesh, o.mat, o.bbox;
      kdt := null;
      Repr := {this};
    }
  }
}
