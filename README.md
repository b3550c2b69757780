# renderboy core in Dafny

renderboy is a small C++ ray tracer. This project models its geometric core:

- **Vector and box types.** 3D vectors (`Vec3Df`), axis-aligned bounding boxes with their closed containment test and their "fuzzy" widening, and meshes of vertices and index triangles. These are in `geometry.dfy`.
- **The slab ray/box test.** `Ray::intersect(BoundingBox)` and its twin `KDTreeNode::_lineInBox` run the same algorithm. The test is an imperative method over local arrays, proved against a reference function. That function is in turn proved exact: it reports a hit exactly when some point of the ray at a non-negative parameter lies in the box. It is also proved invariant under positive rescaling of the direction. See `ray_box.dfy`.
- **Ray/triangle intersection and the nearest-hit scans.** The triangle test uses Cramer's rule. It is proved sound and complete against the barycentric description of the triangle. The scans over an object's triangles and over a scene's objects are loops keeping a running minimum. They are proved to return the first hit with the least ray parameter, and the scene scan is proved to return the globally nearest triangle hit. See `ray_mesh.dfy`.
- **The k-d tree over a mesh's vertices.** `KDTreeNode` is a class with the source's fields (`split`, `kleft`, `kright`, `data`, `triangles`, `bbox`, `mesh`), a ghost footprint and an abstraction into a `Tree` value.
  - `load` computes the bounding box of the vertices.
  - `loadVertices` samples a split (the mean of `NSAMPLES = 100` randomly picked coordinates), partitions the vertices strictly below / at-or-above the split and assigns triangles to the lower and upper boxes (a corner inside, or `_triangleInBox`). It recurses on the next axis until at most `LEAFSIZE = 1` vertex remains or a side is empty.
  - `find` descends by the splits.
  - The relational specification `BuiltFrom` describes what the build produces. Lemmas about it prove that every vertex is held by exactly one leaf, that `find` from a vertex's position reaches a leaf holding it, and that `find` from any corner of a triangle reaches a leaf holding the triangle.
  - See `kdtree_spec.dfy` and `kdtree.dfy`.
- **`Object`.** A mesh, a material, a box and a lazily built, exclusively owned tree. See `object.dfy`.
- **`PointCloud`.** The surfel buffer: `clear`, `add(Surfel)`, and `add(Object, Camera)`, which places up to `MAX_POINT = 100` surfels at triangle centroids with face normals. See `point_cloud.dfy`.
- **The per-pixel part of `RayTracer`.** See `ray_tracer.dfy`. It covers:
  - `clamp` and the pixel conversion;
  - the number of shadow rays per light (1 for a point light, `NB_RAY = 16` otherwise);
  - the disk sampling of an area light;
  - the occlusion test of one shadow ray, with its retry past a too-close hit;
  - the visibility counter;
  - `raytraceSingle`, returning the background colour on a miss and, on a hit, the sum over the lights of their shading term weighted by their visibility.

Coordinates are exact reals. The random number generator is modelled in two ways. Where the source draws an index, the draw is a nondeterministic choice. The draws for the light disks are a parameter.

## Model

| member | source | states |
|---|---|---|
| Geometry.FuzzyWidens | KDTreeNode.cpp:71-72 | the box widened by a non-negative fuzziness is still ordered and contains every point of the original box |
| RayBox.IntersectBox | Ray.cpp:14-62 | the imperative slab test (quadrant, candidatePlane and maxT arrays, whichPlane scan, probe of the other axes) reports a hit exactly when the reference test SlabHit does, and then returns its point |
| RayBox.ClassifyAxes | Ray.cpp:24-35 | each axis is classified as left, right or middle of its slab, the candidate face is recorded on non-middle axes, and `inside` holds exactly when every axis is middle |
| RayBox.CandidateParams | Ray.cpp:42-46 | maxT[i] is (candidate - origin) / direction on a non-middle axis with a non-zero direction, and -1 otherwise |
| RayBox.CheckOtherAxes | Ray.cpp:54-62 | the point is placed on the chosen face, and the test succeeds exactly when the point is within the slab on both other axes |
| RayBox.WhichPlaneIsFirstMax | Ray.cpp:48-51 | whichPlane holds the largest maxT, and every earlier axis holds a strictly smaller one |
| RayBox.AllMiddleIsContains | Ray.cpp:24-35 | `inside` (all axes middle) holds exactly when the origin is in the box |
| RayBox.InsideHitsAtOrigin | Ray.cpp:37-40 | an origin inside the box is reported as a hit at the origin itself |
| RayBox.ChosenAxisIsFace | Ray.cpp:42-53 | a non-negative chosen parameter comes from a non-middle axis with a non-zero direction, and the ray reaches that axis's candidate face there |
| RayBox.HitInBox | Ray.cpp:53-62 | a reported point lies in the box and on the ray at a non-negative parameter; from outside, it lies on a face |
| RayBox.AimedAwayMisses | Ray.cpp:42-53 | a ray from outside that moves away from (or parallel to) every slab it is outside of is reported as a miss |
| RayBox.MeetingRayHits | Ray.cpp:14-62 | completeness: if some point of the ray at a parameter t0 >= 0 is in the box, the test reports a hit |
| RayBox.SlabHitCorrect | Ray.cpp:14-62 | on an ordered box, the test reports a hit if and only if the ray meets the box |
| RayBox.ScaleInvariant | KDTreeNode.cpp:73-78 | multiplying the direction by any k > 0 changes neither the verdict nor the point, so normalising the edge directions in _triangleInBox does not change its result |
| RayMesh.CramerSolves | Ray.cpp:81-84 | the three quotients of the test solve the ray/plane system w + ir d = iu u + iv v, with w = origin - v0 and u, v the edges from v0 |
| RayMesh.SolutionOnPlane | Ray.cpp:73-84 | at parameter ir the ray is at the barycentric point with coordinates iu, iv of the triangle's plane |
| RayMesh.SolutionUnique | Ray.cpp:73-84 | when the denominator c is non-zero, any solution of the ray/plane system is the one the test computes |
| RayMesh.TriangleHitSound | Ray.cpp:73-94 | a reported hit is on the ray at a parameter ir >= 0 and inside the triangle (non-negative barycentric coordinates summing to at most 1) |
| RayMesh.TriangleHitComplete | Ray.cpp:73-94 | every point of the triangle reached by the ray at t >= 0 is reported with ir = t (when the ray is not parallel to the plane) |
| RayMesh.TriangleHitIff | Ray.cpp:87-93 | the hit condition of the test is exactly membership of the triangle at a non-negative parameter |
| RayMesh.NearestIsFirstMinimum | Ray.cpp:116-126 | the scan with a strict "<" on ir finds nothing exactly when there is no hit; otherwise it picks a hit whose ir is at most every hit's, and strictly below every earlier hit's |
| RayMesh.NearestStep | Ray.cpp:119-125 | one loop iteration turns the nearest of the first i results into the nearest of the first i + 1 |
| RayMesh.IntersectObject | Ray.cpp:109-128 | the object scan reports a hit exactly when some triangle is hit; it then returns the point and ir of the nearest triangle hit, and on a miss leaves the point unchanged with ir = INFINITY |
| RayMesh.ObjectHitIsNearest | Ray.cpp:109-128 | the object reports no hit exactly when no triangle is hit; otherwise no triangle is hit at a smaller ir |
| RayMesh.IntersectScene | Ray.cpp:133-152 | the scene scan reports a hit exactly when some object is hit, returns the first object with the least ir and its point, and leaves point and object unchanged on a miss |
| RayMesh.SceneNearestIsGlobal | Ray.cpp:133-152 | no triangle of any object in the scene is hit at a smaller ir than the reported hit, and a miss means no triangle is hit at all |
| KdSpec.SplitWithin | KDTreeNode.cpp:133-136 | the sampled mean split lies between the least and the greatest coordinate of the node's vertices on the axis |
| KdSpec.SideMembers | KDTreeNode.cpp:153-156 | a vertex goes to the left list exactly when it is in the node's list and its coordinate is strictly below the split, and to the right list exactly when the coordinate is at or above it |
| KdSpec.SidesPartition | KDTreeNode.cpp:153-156 | the left and right vertex lists together hold every occurrence of the node's list exactly once |
| KdSpec.SideSubseq | KDTreeNode.cpp:153-156 | each side keeps the order of the node's list |
| KdSpec.TriangleInBoxMeaning | KDTreeNode.cpp:70-94 | _triangleInBox accepts a triangle exactly when two of its edge rays meet the widened box, all forwards or all backwards |
| KdSpec.HitsMeet | KDTreeNode.cpp:15-68 | on an ordered box, _lineInBox succeeds exactly when the ray meets the box, and its point is then in the box |
| KdSpec.TrianglesInMembers | KDTreeNode.cpp:162-185 | a triangle goes to a child exactly when it is in the node's list and a corner lies in the child's box or _triangleInBox accepts it |
| KdSpec.TrianglesInSubseq | KDTreeNode.cpp:162-185 | each child's triangle list keeps the order of the node's list |
| KdSpec.ChildBoxContains | KDTreeNode.cpp:139-147 | a point of the node's box strictly below the split is in the lower child box; one at or above it is in the upper child box |
| KdSpec.BuiltInner | KDTreeNode.cpp:187-198 | a node split into two children built from the two sides, over the lower and upper boxes, on the next axis, is what loadVertices builds |
| KdSpec.BuiltUnsplit | KDTreeNode.cpp:199-204 | a node with an empty side is a leaf holding the node's own lists |
| KdSpec.Descend | KDTreeNode.cpp:209-217 | the search always ends at a leaf |
| KdSpec.BuiltLeavesPartition | KDTreeNode.cpp:119-207 | the leaves of a built tree together hold every vertex of the list exactly as often as it occurs in it |
| KdSpec.BuiltVertexFound | KDTreeNode.cpp:209-217 | searching a built tree for a vertex's own position reaches a leaf holding that vertex |
| KdSpec.BuiltTriangleFound | KDTreeNode.cpp:162-185 | searching for the position of any corner (within the node's box) of a triangle in the list reaches a leaf holding that triangle |
| KdSpec.BuiltDescendCell | KDTreeNode.cpp:209-217 | the leaf reached from a point in the box has a box containing the point and holds only vertices and triangles from the node's lists |
| KdSpec.LoadedTreeFinds | KDTreeNode.cpp:96-117 | the tree load builds holds each vertex in exactly one leaf; find from each vertex reaches a leaf holding it, and find from each corner of a triangle reaches a leaf holding the triangle |
| KdSpec.RootTriangleFound | KDTreeNode.cpp:96-117 | find from a corner of triangle k, in the loaded tree whose box is the mesh's bounding box, reaches a leaf holding k |
| KdTree.KDTreeNode.constructor | KDTreeNode.hpp:63 | a new node with split 0, no children and empty lists |
| KdTree.KDTreeNode.FromMesh | KDTreeNode.hpp:79 | a node over mesh m, loaded: its box is the bounding box of the vertices and its tree is built from all vertices and triangles on axis 0 |
| KdTree.KDTreeNode.Clear | KDTreeNode.hpp:84-90 | the lists are emptied, split is 0 and both children are dropped; mesh and box are kept |
| KdTree.KDTreeNode.Assign | KDTreeNode.hpp:123-128 | clears the node and takes the other node's mesh; the box is the node's own |
| KdTree.KDTreeNode.Load | KDTreeNode.cpp:96-117 | the box becomes the bounding box of the mesh's vertices, and the tree is built from all vertex and triangle indices on axis 0 |
| KdTree.KDTreeNode.LoadVertices | KDTreeNode.cpp:119-207 | fails exactly on an empty vertex list (then no children, nothing else changed); otherwise builds BuiltFrom(verts, tri, axis); an internal node keeps its old lists; a leaf of at most LEAFSIZE vertices keeps its split |
| KdTree.KDTreeNode.Subdivide | KDTreeNode.cpp:131-205 | a node with more than LEAFSIZE vertices is built as BuiltFrom specifies: sampled split, partition, then two children or a leaf |
| KdTree.KDTreeNode.Attach | KDTreeNode.cpp:187-198 | the node gets a left child over the lower box and a right child over the upper box, each built from its side's lists on the next axis, with disjoint footprints |
| KdTree.KDTreeNode.FindFrom | KDTreeNode.cpp:209-217 | the node reached is a leaf of this tree, and it stands for the leaf Descend selects |
| KdTree.KDTreeNode.Find | KDTreeNode.hpp:142 | the search from axis 0 reaches the leaf Descend selects from axis 0 |
| KdTree.NewChild | KDTreeNode.cpp:189-192 | a fresh node with the mesh and the given box, built from the given lists on the given axis |
| KdTree.ScanVertices | KDTreeNode.cpp:101-109 | verts[v] = v for every vertex, and the running minimum and maximum form the bounding box of the vertices: it holds them all and each face is a vertex coordinate |
| KdTree.Widen | KDTreeNode.cpp:105-108 | the new minimum and maximum bound both the old ones and the point, and each coordinate is either the old value or the point's |
| KdTree.WidenStep | KDTreeNode.cpp:103-109 | one iteration keeps the running box a box of the vertices seen so far whose faces are vertex coordinates |
| KdTree.ScannedBounds | KDTreeNode.cpp:101-113 | a box holding every vertex whose faces are vertex coordinates is the bounding box set by load |
| KdTree.IndexList | KDTreeNode.cpp:111 | tri[t] = t for every triangle |
| KdTree.SampleSplit | KDTreeNode.cpp:133-136 | split is the sum of min(NSAMPLES, size) randomly drawn vertex coordinates divided by their number |
| KdTree.PartitionVertices | KDTreeNode.cpp:150-156 | the loop builds the left and right vertex lists of the specification, whose lengths add up to the node's |
| KdTree.PartitionTriangles | KDTreeNode.cpp:159-185 | the loop builds the specification's triangle lists of the lower and the upper box |
| KdTree.SortTriangle | KDTreeNode.cpp:163-183 | a triangle goes to a side exactly when a corner lies in that side's box or _triangleInBox accepts it |
| KdTree.TestTriangleInBox | KDTreeNode.cpp:70-94 | the six edge slab tests and the midpoint checks, in the source's order, compute the specification's TriangleInBox |
| Objects.Object.constructor | Object.h:24-28 | an object with the given mesh, material and box and no tree |
| Objects.Object.GetKdTree | Object.h:51-53 | the tree, when present, belongs to the object and indexes its own mesh |
| Objects.Object.ComputeKdTree | Object.h:44-49 | with no tree, a fresh tree loaded from the object's mesh is attached; an existing tree is kept unchanged; mesh, material and box never change |
| Objects.Object.Assign | Object.h:55-61 | mesh, material and box are copied from the other object and this object's tree is dropped |
| Surfels.PointCloud.constructor | PointCloud.hpp:41 | an empty cloud |
| Surfels.PointCloud.Clear | PointCloud.hpp:43 | no surfel is left |
| Surfels.PointCloud.Add | PointCloud.hpp:44 | the surfel is appended after the existing ones |
| Surfels.PointCloud.AddObject | PointCloud.hpp:45-98 | min(MAX_POINT, number of triangles) surfels are appended, the existing ones are kept, and each new one is sampled from a triangle: at its centroid, with its face normal, the radius `radiusOf` gives for its corners and the colour `shade` gives at that point and normal |
| Surfels.CentroidInBox | PointCloud.hpp:62 | the surfel position lies in every box holding the triangle's corners |
| Surfels.FaceNormalPerpendicular | PointCloud.hpp:63 | the surfel normal is perpendicular to both edges of the triangle |
| Surfels.PlacedByPicks | PointCloud.hpp:47-94 | surfels sampled from picked triangles (position, normal, radius and colour) are sampled from the mesh |
| RayTracer.Trunc | RayTracer.cpp:30 | static_cast<int> truncates toward zero: the result is the integer part, below f for positive f and above it for negative f |
| RayTracer.Clamp | RayTracer.cpp:29-32 | the result is inf, sup or the truncated value; it lies in [inf, sup] when that range is non-empty, and equals the truncated value when that is already in range |
| RayTracer.ClampMonotone | RayTracer.cpp:29-32 | a larger input never gives a smaller clamped value |
| RayTracer.ToPixel | RayTracer.cpp:317 | every channel of the pixel is in [0, 255], and a channel in [0, 1] is its value times 255, truncated |
| RayTracer.SampleCount | RayTracer.cpp:116-118 | nb_iter is at least 1, and it is 1 exactly for a light of radius 0 |
| RayTracer.LightSamples | RayTracer.cpp:120-133 | nb_iter sample points, the j-th at the light position plus the j-th draw's offset in the light's disk |
| RayTracer.SampleLightPoints | RayTracer.cpp:120-133 | the sampling loop fills rand_lpoints with exactly those points |
| RayTracer.DiskAxesPerpendicular | RayTracer.cpp:127-128 | the two disk axes v0 and v1 are perpendicular to the light's orientation and to each other |
| RayTracer.SampleInLightPlane | RayTracer.cpp:127-132 | every sample lies in the plane through the light's position perpendicular to its orientation |
| RayTracer.AxisAlignedLightCollapses | RayTracer.cpp:127-132 | for a light oriented along the x axis both disk axes are zero vectors before `normalize`; taking `normalize` to leave a zero vector unchanged, every sample is at the light's position |
| RayTracer.PointLightSamples | RayTracer.cpp:116-133 | a point light has a single sample, at its position |
| RayTracer.SceneHitSound | RayTracer.cpp:214-216 | the scene scan used for shadow rays reports hits on the ray at non-negative parameters |
| RayTracer.BeforeIffNearer | RayTracer.cpp:214-216 | along p + s (q - p) with s >= 0, a point comes before the light sample (s < 1) exactly when it is nearer to p than the sample is |
| RayTracer.RetryNearer | RayTracer.cpp:222-225 | a hit at t on the retried ray (origin p + (ir + 1e-6) d) is at ir + 1e-6 + t on the first ray, so comparing that with 1 is comparing distances to p |
| RayTracer.OccludedMeansNearer | RayTracer.cpp:214-225 | the corrected test blocks a sample exactly when the nearest hit towards it is nearer to p than the sample (or, for a hit within 1e-6, when the retried ray's hit is) |
| RayTracer.WallHit | Ray.cpp:73-94 | the ray from the origin along (len, 0, 0) hits the wall triangle at x > 0 at (x, 0, 0) with ir = x / len |
| RayTracer.VerdictsAt | RayTracer.cpp:214-225 | for a shadow ray hit at ir >= 1e-6, the source blocks when ir^2 < \|q - p\|^2 and the corrected test blocks when ir < 1 |
| RayTracer.OcclusionBeyondLight | RayTracer.cpp:216 | as written, an occluder behind a light sample at distance >= 1 can still block it |
| RayTracer.OcclusionMissedNearLight | RayTracer.cpp:216 | as written, an occluder in front of a light sample closer than 1 can be missed |
| RayTracer.BlockedCount | RayTracer.cpp:208-232 | for either occlusion test (as written or corrected), the number of blocked shadow rays is at most the number of samples |
| RayTracer.BlockedCountExtremes | RayTracer.cpp:208-232 | for either occlusion test, the count is 0 exactly when no shadow ray is blocked, and nb_iter exactly when all are |
| RayTracer.VisibilityRange | RayTracer.cpp:206-232 | for either occlusion test, visibility is in [0, 1]; it is 1 exactly when no sample is blocked and 0 exactly when all are |
| RayTracer.Visibility | RayTracer.cpp:206-232 | the loop, starting at 1 and subtracting 1 / nb_iter per ray the chosen test finds blocked, ends at one minus the blocked fraction |
| RayTracer.PointLightHardShadow | RayTracer.cpp:116-232 | for either occlusion test, the visibility of a point light is 0 or 1 |
| RayTracer.PointLightHiddenBehindItself | RayTracer.cpp:206-232 | a point light at distance >= 1 with an occluder behind it has visibility 0 under the occlusion test as written and 1 under the corrected test |
| RayTracer.ShadeWithoutOccluders | RayTracer.cpp:241-268 | for either occlusion test, with no shadow ray blocked, the colour is the plain sum of the lights' shading terms |
| RayTracer.RaytraceSingle | RayTracer.cpp:37-283 | a primary ray that hits nothing gives the background colour; otherwise the colour is the sum over the lights of each light's shading term at the nearest hit, times its visibility under the occlusion test as written at line 216 (the comparison of the first Findings row) |

## Left out

- Floating point is not modelled: IEEE rounding, infinities and NaN are absent. A zero denominator in the triangle test is a miss. The source's quotients are then infinite or NaN, and those fail its range check.
- RayBox.IntersectBox does not specify the output point on a miss. The source writes part of it before returning false.
- KdTree.TestTriangleInBox does not normalise the edge directions. RayBox.ScaleInvariant shows that a positive rescaling does not change the slab test. A degenerate edge of length zero is tested as the zero direction, which assumes that `normalize` leaves a zero vector unchanged; Vec3D.h, which defines it, is not part of this model.
- RayTracer.AxisAlignedLightCollapses rests on the same assumption about `normalize` on a zero vector: the disk axes of a light oriented along the x axis are zero, and the model's draws multiply them as they are. If `normalize` divides by the zero length instead, the source's samples are NaN and the lemma says nothing about them.
- KDTreeNode's fuzziness is a parameter of the build, not a constant. The header holds an unresolved merge conflict between 0.05 and 0.12.
- KdTree.KDTreeNode.Load requires a mesh with a vertex. The source reads vertex 0 to start the bounding box, which is undefined on an empty mesh.
- Fields the source leaves uninitialised are given fixed values: the default node's mesh and box, and the mesh constructor's split.
- The renderer's design description and its code differ in two places, and the model follows the code:
  - a triangle is sent to a child when a corner is in the child's plain box (not the widened one);
  - an internal node keeps the vertex and triangle lists it held before it was split.
- The ray traversal of the k-d tree (`Ray::intersect(const KDTreeNode*, ...)`) and `intersectFuzzy` are declared in Ray.h but not defined in the sources; they are not part of this model. The same holds for the 7-argument scene overload that raytraceSingle calls. Its shadow-ray uses are modelled by the `shadow` query parameter, and its primary-ray use by the scene scan of Ray.cpp.
- `KDTreeNode::operator=` (KDTreeNode.hpp:123-128) assigns the node's own box to itself (`bbox = bbox`), so the copy keeps its old box; KdTree.KDTreeNode.Assign models that, and copying the other node's box is not modelled.
- The scene scan reports the hit object by its index in the scene, instead of copy-assigning an `Object`.
- Object's bounding box is a constructor parameter: `updateBoundingBox` is not part of this model. Getters, `show`, destructors and the console output are left out.
- Surfels.PointCloud.AddObject takes the surfel radius (which needs `sqrtf`) and the shaded colour (camera, lights, `pow`) as functions of the triangle.
- The camera geometry of the primary ray, the shading term (normal interpolation, diffuse and specular with `pow`, material) and the world transforms of the lights are abstracted: the ray and a per-light term are parameters. The source also never resets `diffuse` and `specular` between lights, so a light whose dot product is not positive reuses the previous light's value. This lives inside the abstracted term.
- In the source, the shadow rays overwrite `intersectionObject` (RayTracer.cpp:216 and 224), so a later light's shading reads the material of the last occluder hit. The model shades every light with the primary hit's term.
- `rand()` is modelled as nondeterministic choices (split samples, surfel triangles) and as the `draw` parameter (light disk radius and angle, with cos and sin divided by the axis lengths, which is undefined for a zero axis; see RayTracer.AxisAlignedLightCollapses). That every sample lies within the light's radius is not proved, because it needs cos² + sin² = 1 and square roots.
- RayTracer.Clamp does not model the undefined behaviour of `static_cast<int>` on values outside the int range.
- RayTracer.OccludedMeansNearer requires the light sample to be apart from the shaded point, stated as a positive squared distance.
- RayTracer.OcclusionBeyondLight and RayTracer.OcclusionMissedNearLight are stated for any shadow query that reports the given hit. RayTracer.WallHit proves that the one-triangle wall scene reports such hits, but the two are not combined into one lemma about a concrete scene.
- The render loop over pixels, OpenMP, QImage, the timer and the debug output are left out.
- The local vectors of `load` and `loadVertices` are modelled as sequence values, not arrays.

## Findings

| source | as written | input that shows it | evidently intended | confidence | as-written member | corrected member |
|---|---|---|---|---|---|---|
| RayTracer.cpp:216 | a shadow ray is blocked when `ir < oc_dir.getLength()`, but `ir` is the ray parameter along the unnormalised direction `oc_dir` = light sample - point, not a distance. Ray.cpp:68 documents `ir` as a distance, but the triangle test of Ray.cpp returns the parameter; the 7-argument scene overload called here is not defined in the sources (Ray.h:42 declares a 6-argument one), so this rests on that overload returning the triangle test's `ir` as the scene scan of Ray.cpp does. RayTracer.PointLightHiddenBehindItself shows the effect on a pixel's visibility | shaded point at the origin, light sample at (10, 0, 0), wall triangle at x = 15 behind it: the hit has ir = 1.5 < 10, so the light is counted as blocked | blocked when the occluder comes before the light sample: ir < 1 (on the retried ray of line 224, ir + 1e-6 + ir2 < 1) | medium, not executed | RayTracer.OcclusionBeyondLight | RayTracer.OccludedMeansNearer |
| RayTracer.cpp:216 | the same comparison, for a light sample closer than one unit | shaded point at the origin, light sample at (0.5, 0, 0), wall triangle at x = 0.4 in front of it: the hit has ir = 0.8, which is not < 0.5, so the occluder is missed | blocked when ir < 1 | medium, not executed | RayTracer.OcclusionMissedNearLight | RayTracer.OccludedMeansNearer |
