/**
 * The ray/box slab test ("Fast Ray-Box Intersection", Woo, Graphics Gems I) used both by
 * Ray::intersect(BoundingBox) and by KDTreeNode::_lineInBox: classify the origin against
 * each slab, take for every axis the ray parameter at which the candidate face is reached,
 * pick the latest one, and check the other two coordinates of the point found there.
 */
module RayBox {
  import opened Wrappers
  import opened Geometry

  /** Where the origin lies relative to one slab [lo, hi]. */
  datatype Quadrant = Left | Middle | Right

  function QuadrantOf(o: real, lo: real, hi: real): Quadrant {
    if o < lo then Left else if o > hi then Right else Middle
  }

  /** candidatePlane[i]: the face the ray has to cross on axis i (never read on a middle axis). */
  function Candidate(q: Quadrant, lo: real, hi: real): real {
    if q == Left then lo else if q == Right then hi else 0.0
  }

  /** maxT[i]: the ray parameter at which the candidate face is reached, or -1 on a middle
      axis and on an axis the ray runs parallel to. */
  function MaxT(q: Quadrant, c: real, o: real, d: real): real {
    if q != Middle && d != 0.0 then (c - o) / d else -1.0
  }

  function QuadrantAt(o: Vec3, b: Box, i: Axis): Quadrant {
    QuadrantOf(o.At(i), b.lo.At(i), b.hi.At(i))
  }

  function CandidateAt(o: Vec3, b: Box, i: Axis): real {
    Candidate(QuadrantAt(o, b, i), b.lo.At(i), b.hi.At(i))
  }

  function ParamAt(o: Vec3, d: Vec3, b: Box, i: Axis): real {
    MaxT(QuadrantAt(o, b, i), CandidateAt(o, b, i), o.At(i), d.At(i))
  }

  /** The three candidate parameters maxT. */
  function Params(o: Vec3, d: Vec3, b: Box): Vec3 {
    Vec3(ParamAt(o, d, b, 0), ParamAt(o, d, b, 1), ParamAt(o, d, b, 2))
  }

  /** whichPlane after scanning the first n axes: the first index holding the largest value. */
  function WhichPlaneUpTo(t: Vec3, n: nat): (w: Axis)
    requires 1 <= n <= 3
    ensures w < n
  {
    if n == 1 then 0
    else
      var w := WhichPlaneUpTo(t, n - 1);
      if t.At(w) < t.At(n - 1) then n - 1 else w
  }

  function WhichPlane(t: Vec3): Axis {
    WhichPlaneUpTo(t, 3)
  }

  /** Coordinate i of the probe point: the candidate face on the chosen axis w, and the point
      of the ray at parameter tw on the others. */
  function ProbeAt(o: Vec3, d: Vec3, b: Box, w: Axis, tw: real, i: Axis): real {
    if i == w then CandidateAt(o, b, i) else Add(o, Scale(tw, d)).At(i)
  }

  lemma RayPointAt(o: Vec3, d: Vec3, t: real, i: Axis)
    ensures Add(o, Scale(t, d)).At(i) == o.At(i) + t * d.At(i)
  {
  }

  function Probe(o: Vec3, d: Vec3, b: Box, w: Axis, tw: real): Vec3 {
    Vec3(ProbeAt(o, d, b, w, tw, 0), ProbeAt(o, d, b, w, tw, 1), ProbeAt(o, d, b, w, tw, 2))
  }

  lemma ProbeCoord(o: Vec3, d: Vec3, b: Box, w: Axis, tw: real, i: Axis)
    ensures Probe(o, d, b, w, tw).At(i) == ProbeAt(o, d, b, w, tw, i)
  {
  }

  predicate AllMiddle(o: Vec3, b: Box) {
    QuadrantAt(o, b, 0) == Middle && QuadrantAt(o, b, 1) == Middle && QuadrantAt(o, b, 2) == Middle
  }

  /** The probe point passes the check on axis i: it is the chosen axis or within the slab. */
  predicate CheckedOn(b: Box, p: Vec3, w: Axis, i: Axis) {
    i == w || InSlab(b, p, i)
  }

  /** The slab test as a value: Some(intersection point) or None. */
  function SlabHit(o: Vec3, d: Vec3, b: Box): Option<Vec3> {
    if AllMiddle(o, b) then Some(o)
    else
      var t := Params(o, d, b);
      var w := WhichPlane(t);
      if t.At(w) < 0.0 then None
      else
        var p := Probe(o, d, b, w, t.At(w));
        if CheckedOn(b, p, w, 0) && CheckedOn(b, p, w, 1) && CheckedOn(b, p, w, 2) then Some(p) else None
  }

  /** The outcome of the test once the origin is known to be outside and whichPlane is known. */
  lemma SlabHitOutside(o: Vec3, d: Vec3, b: Box, w: Axis)
    requires !AllMiddle(o, b) && w == WhichPlane(Params(o, d, b))
    ensures Params(o, d, b).At(w) < 0.0 ==> SlabHit(o, d, b) == None
    ensures 0.0 <= Params(o, d, b).At(w) ==>
      var p := Probe(o, d, b, w, Params(o, d, b).At(w));
      SlabHit(o, d, b) == if CheckedOn(b, p, w, 0) && CheckedOn(b, p, w, 1) && CheckedOn(b, p, w, 2) then Some(p) else None
  {
  }

  /** What a hit from outside the box is made of: a non-negative chosen parameter and a probe
      point that passed the check on the two other axes. */
  lemma SlabHitFromOutside(o: Vec3, d: Vec3, b: Box)
    requires !AllMiddle(o, b) && SlabHit(o, d, b).Some?
    ensures var t := Params(o, d, b);
      var w := WhichPlane(t);
      var p := Probe(o, d, b, w, t.At(w));
      0.0 <= t.At(w) && SlabHit(o, d, b).value == p &&
      CheckedOn(b, p, w, 0) && CheckedOn(b, p, w, 1) && CheckedOn(b, p, w, 2)
  {
  }

  /** The reference meaning of the test: some point of the ray (parameter t >= 0) is in the box. */
  ghost predicate RayMeetsBox(o: Vec3, d: Vec3, b: Box) {
    exists t: real :: 0.0 <= t && Contains(b, Add(o, Scale(t, d)))
  }

  /**
   * Ray::intersect(BoundingBox), with the local arrays quadrant, candidatePlane, maxT and the
   * intersection point of the source. On a miss the value of point is not specified.
   */
  method IntersectBox(ray: Ray, b: Box) returns (hit: bool, point: Vec3)
    ensures hit == SlabHit(ray.origin, ray.direction, b).Some?
    ensures hit ==> point == SlabHit(ray.origin, ray.direction, b).value
  {
    var o, d := ray.origin, ray.direction;
    var quadrant, candidatePlane, inside := ClassifyAxes(o, b);
    if inside {
      return true, o;
    }
    var maxT := CandidateParams(o, d, b, quadrant, candidatePlane);
    ghost var t := Params(o, d, b);
    assert maxT[0] == t.At(0) && maxT[1] == t.At(1) && maxT[2] == t.At(2);
    var whichPlane := 0;
    var i := 1;
    while i < 3
      invariant 1 <= i <= 3
      invariant whichPlane == WhichPlaneUpTo(t, i)
    {
      if maxT[whichPlane] < maxT[i] {
        whichPlane := i;
      }
      i := i + 1;
    }
    SlabHitOutside(o, d, b, whichPlane);
    if maxT[whichPlane] < 0.0 {
      return false, o;
    }
    hit, point := CheckOtherAxes(o, d, b, whichPlane, maxT[whichPlane], candidatePlane[whichPlane]);
  }

  /** The first loop of the test: classify the origin against each slab and record the
      candidate face of every axis the origin is outside of. */
  method ClassifyAxes(o: Vec3, b: Box) returns (quadrant: array<Quadrant>, candidatePlane: array<real>, inside: bool)
    ensures fresh(quadrant) && fresh(candidatePlane) && quadrant.Length == 3 && candidatePlane.Length == 3
    ensures forall k :: 0 <= k < 3 ==> quadrant[k] == QuadrantAt(o, b, k)
    ensures forall k :: 0 <= k < 3 && quadrant[k] != Middle ==> candidatePlane[k] == CandidateAt(o, b, k)
    ensures inside == AllMiddle(o, b)
  {
    quadrant := new Quadrant[3];
    candidatePlane := new real[3];
    inside := true;
    var i := 0;
    while i < 3
      modifies quadrant, candidatePlane
      invariant 0 <= i <= 3
      invariant forall k :: 0 <= k < i ==> quadrant[k] == QuadrantAt(o, b, k)
      invariant forall k :: 0 <= k < i && quadrant[k] != Middle ==> candidatePlane[k] == CandidateAt(o, b, k)
      invariant inside <==> forall k :: 0 <= k < i ==> quadrant[k] == Middle
    {
      if o.At(i) < b.lo.At(i) {
        quadrant[i] := Left;
        candidatePlane[i] := b.lo.At(i);
        inside := false;
      } else if o.At(i) > b.hi.At(i) {
        quadrant[i] := Right;
        candidatePlane[i] := b.hi.At(i);
        inside := false;
      } else {
        quadrant[i] := Middle;
      }
      i := i + 1;
    }
    assert inside <==> quadrant[0] == Middle && quadrant[1] == Middle && quadrant[2] == Middle;
  }

  /** The second loop of the test: the ray parameter at which each candidate face is reached. */
  method CandidateParams(o: Vec3, d: Vec3, b: Box, quadrant: array<Quadrant>, candidatePlane: array<real>)
    returns (maxT: array<real>)
    requires quadrant.Length == 3 && candidatePlane.Length == 3
    requires forall k :: 0 <= k < 3 ==> quadrant[k] == QuadrantAt(o, b, k)
    requires forall k :: 0 <= k < 3 && quadrant[k] != Middle ==> candidatePlane[k] == CandidateAt(o, b, k)
    ensures fresh(maxT) && maxT.Length == 3
    ensures forall k :: 0 <= k < 3 ==> maxT[k] == ParamAt(o, d, b, k)
  {
    maxT := new real[3];
    var i := 0;
    while i < 3
      modifies maxT
      invariant 0 <= i <= 3
      invariant forall k :: 0 <= k < i ==> maxT[k] == ParamAt(o, d, b, k)
    {
      if quadrant[i] != Middle && d.At(i) != 0.0 {
        maxT[i] := (candidatePlane[i] - o.At(i)) / d.At(i);
      } else {
        maxT[i] := -1.0;
      }
      i := i + 1;
    }
  }

  /** The last loop of the test: place the point on the chosen face and check that its other
      coordinates are within the box, stopping at the first that is not. */
  method CheckOtherAxes(o: Vec3, d: Vec3, b: Box, whichPlane: Axis, tw: real, cw: real)
    returns (hit: bool, point: Vec3)
    requires cw == CandidateAt(o, b, whichPlane)
    ensures var p := Probe(o, d, b, whichPlane, tw);
      hit == (CheckedOn(b, p, whichPlane, 0) && CheckedOn(b, p, whichPlane, 1) && CheckedOn(b, p, whichPlane, 2))
    ensures hit ==> point == Probe(o, d, b, whichPlane, tw)
  {
    ghost var p := Probe(o, d, b, whichPlane, tw);
    var ip := new real[3];
    var i := 0;
    while i < 3
      invariant 0 <= i <= 3
      invariant forall k :: 0 <= k < i ==> ip[k] == ProbeAt(o, d, b, whichPlane, tw, k)
      invariant forall k :: 0 <= k < i ==> CheckedOn(b, p, whichPlane, k)
    {
      ProbeCoord(o, d, b, whichPlane, tw, i);
      if whichPlane != i {
        ip[i] := o.At(i) + tw * d.At(i);
        RayPointAt(o, d, tw, i);
        if ip[i] < b.lo.At(i) || ip[i] > b.hi.At(i) {
          return false, o;
        }
      } else {
        ip[i] := cw;
      }
      i := i + 1;
    }
    point := Vec3(ip[0], ip[1], ip[2]);
    hit := true;
  }

  // ----- what the test promises -----

  /** The origin is in the box exactly when every axis is a middle axis. */
  lemma AllMiddleIsContains(o: Vec3, b: Box)
    ensures AllMiddle(o, b) <==> Contains(b, o)
  {
    if AllMiddle(o, b) {
      forall i: Axis ensures b.lo.At(i) <= o.At(i) <= b.hi.At(i) {
        assert QuadrantAt(o, b, i) == Middle;
      }
    }
  }

  /** An origin inside the box is reported as the intersection point itself. */
  lemma InsideHitsAtOrigin(o: Vec3, d: Vec3, b: Box)
    requires Contains(b, o)
    ensures SlabHit(o, d, b) == Some(o)
  {
    AllMiddleIsContains(o, b);
  }

  /** whichPlane holds the largest candidate parameter, and no earlier axis holds as large a one. */
  lemma WhichPlaneIsFirstMax(t: Vec3, n: nat)
    requires 1 <= n <= 3
    ensures forall i: Axis :: i < n ==> t.At(i) <= t.At(WhichPlaneUpTo(t, n))
    ensures forall i: Axis :: i < WhichPlaneUpTo(t, n) ==> t.At(i) < t.At(WhichPlaneUpTo(t, n))
  {
    if n > 1 {
      WhichPlaneIsFirstMax(t, n - 1);
    }
  }

  /** The first-maximum property determines whichPlane. */
  lemma WhichPlaneUnique(t: Vec3, w: Axis)
    requires forall i: Axis :: t.At(i) <= t.At(w)
    requires forall i: Axis :: i < w ==> t.At(i) < t.At(w)
    ensures WhichPlane(t) == w
  {
    WhichPlaneIsFirstMax(t, 3);
  }

  /** A non-negative best parameter only comes from an axis that is not a middle axis and that
      the ray is not parallel to. */
  lemma ChosenAxisIsFace(o: Vec3, d: Vec3, b: Box, w: Axis)
    requires 0.0 <= ParamAt(o, d, b, w)
    ensures QuadrantAt(o, b, w) != Middle && d.At(w) != 0.0
    ensures CandidateAt(o, b, w) == b.lo.At(w) || CandidateAt(o, b, w) == b.hi.At(w)
    ensures o.At(w) + ParamAt(o, d, b, w) * d.At(w) == CandidateAt(o, b, w)
  {
  }

  lemma ParamsAt(o: Vec3, d: Vec3, b: Box, i: Axis)
    ensures Params(o, d, b).At(i) == ParamAt(o, d, b, i)
  {
  }

  /** Once the chosen parameter reaches the face on the chosen axis, the probe point is the
      point of the ray at that parameter. */
  lemma ProbeOnRay(o: Vec3, d: Vec3, b: Box, w: Axis)
    requires 0.0 <= ParamAt(o, d, b, w)
    ensures Probe(o, d, b, w, ParamAt(o, d, b, w)) == Add(o, Scale(ParamAt(o, d, b, w), d))
  {
    var tw := ParamAt(o, d, b, w);
    ChosenAxisIsFace(o, d, b, w);
    RayPointAt(o, d, tw, w);
    assert o.At(w) + tw * d.At(w) == CandidateAt(o, b, w);
  }

  /** A probe point that passed the check on the two other axes lies in an ordered box, on the
      min or max face of the chosen axis. */
  lemma ProbeInBox(o: Vec3, d: Vec3, b: Box, w: Axis, tw: real)
    requires Ordered(b) && QuadrantAt(o, b, w) != Middle
    requires var p := Probe(o, d, b, w, tw);
      CheckedOn(b, p, w, 0) && CheckedOn(b, p, w, 1) && CheckedOn(b, p, w, 2)
    ensures Contains(b, Probe(o, d, b, w, tw))
    ensures Probe(o, d, b, w, tw).At(w) == b.lo.At(w) || Probe(o, d, b, w, tw).At(w) == b.hi.At(w)
  {
    ProbeCoord(o, d, b, w, tw, w);
    assert OrderedOn(b, w);
  }

  /** A reported point lies in the box and on the ray at a non-negative parameter; away from
      an inside origin it lies on the min or max face of the chosen axis. */
  lemma HitInBox(o: Vec3, d: Vec3, b: Box)
    requires Ordered(b)
    requires SlabHit(o, d, b).Some?
    ensures Contains(b, SlabHit(o, d, b).value)
    ensures exists t: real :: 0.0 <= t && SlabHit(o, d, b).value == Add(o, Scale(t, d))
    ensures !Contains(b, o) ==>
      var w := WhichPlane(Params(o, d, b));
      SlabHit(o, d, b).value.At(w) == b.lo.At(w) || SlabHit(o, d, b).value.At(w) == b.hi.At(w)
  {
    AllMiddleIsContains(o, b);
    if AllMiddle(o, b) {
      assert Add(o, Scale(0.0, d)) == o;
    } else {
      var t := Params(o, d, b);
      var w := WhichPlane(t);
      var tw := t.At(w);
      SlabHitFromOutside(o, d, b);
      ParamsAt(o, d, b, w);
      ProbeOnRay(o, d, b, w);
      ChosenAxisIsFace(o, d, b, w);
      ProbeInBox(o, d, b, w, tw);
    }
  }

  /** A ray starting outside the box and moving away from it (or parallel to
      it) on every axis where the origin is outside is never reported as hitting. */
  lemma AimedAwayMisses(o: Vec3, d: Vec3, b: Box)
    requires !Contains(b, o)
    requires forall i: Axis :: o.At(i) < b.lo.At(i) ==> d.At(i) <= 0.0
    requires forall i: Axis :: o.At(i) > b.hi.At(i) ==> d.At(i) >= 0.0
    ensures SlabHit(o, d, b) == None
  {
    AllMiddleIsContains(o, b);
    var t := Params(o, d, b);
    forall i: Axis ensures t.At(i) < 0.0 {
      assert t.At(i) == ParamAt(o, d, b, i);
      AxisParamNegative(o.At(i), d.At(i), b.lo.At(i), b.hi.At(i));
    }
  }

  lemma AxisParamNegative(o: real, d: real, lo: real, hi: real)
    requires o < lo ==> d <= 0.0
    requires o > hi ==> d >= 0.0
    ensures MaxT(QuadrantOf(o, lo, hi), Candidate(QuadrantOf(o, lo, hi), lo, hi), o, d) < 0.0
  {
    var q := QuadrantOf(o, lo, hi);
    if q == Left && d != 0.0 {
      assert (lo - o) / d < 0.0;
    } else if q == Right && d != 0.0 {
      assert (hi - o) / d < 0.0;
    }
  }

  /** Along one axis: if the ray is in the slab at parameter t0 >= 0, then its candidate
      parameter is at most t0, and the ray is still in the slab at every parameter tw between
      that candidate parameter (or 0) and t0. */
  lemma AxisWindow(o: real, d: real, lo: real, hi: real, t0: real, tw: real)
    requires lo <= o + t0 * d <= hi
    requires 0.0 <= tw <= t0
    requires MaxT(QuadrantOf(o, lo, hi), Candidate(QuadrantOf(o, lo, hi), lo, hi), o, d) <= tw
    ensures lo <= o + tw * d <= hi
  {
    var q := QuadrantOf(o, lo, hi);
    assert (t0 - tw) * d == t0 * d - tw * d;
    if q == Middle {
      if d >= 0.0 {
        NonNegProduct(t0 - tw, d);
        NonNegProduct(tw, d);
      } else {
        NonNegProduct(t0 - tw, -d);
        NonNegProduct(tw, -d);
      }
    } else if q == Left {
      assert 0.0 < t0 * d;
      assert d > 0.0 by {
        if d <= 0.0 { NonNegProduct(t0, -d); }
      }
      assert (lo - o) / d <= tw;
      assert lo - o <= tw * d;
      NonNegProduct(t0 - tw, d);
    } else {
      assert t0 * d < 0.0;
      assert d < 0.0 by {
        if d >= 0.0 { NonNegProduct(t0, d); }
      }
      assert (hi - o) / d <= tw;
      assert tw * d <= hi - o by {
        assert ((hi - o) / d) * d == hi - o;
        NonNegProduct(tw - (hi - o) / d, -d);
      }
      NonNegProduct(t0 - tw, -d);
    }
  }

  /** Along one axis where the origin is outside the slab, a slab point at t0 >= 0 makes the
      candidate parameter non-negative and no larger than t0. */
  lemma AxisParamBounds(o: real, d: real, lo: real, hi: real, t0: real)
    requires lo <= o + t0 * d <= hi && 0.0 <= t0
    ensures MaxT(QuadrantOf(o, lo, hi), Candidate(QuadrantOf(o, lo, hi), lo, hi), o, d) <= t0
    ensures QuadrantOf(o, lo, hi) != Middle ==>
      0.0 <= MaxT(QuadrantOf(o, lo, hi), Candidate(QuadrantOf(o, lo, hi), lo, hi), o, d)
  {
    var q := QuadrantOf(o, lo, hi);
    if q == Left {
      SignOfFactor(t0, d);
      QuotientBelow(lo - o, d, t0);
      QuotientNonNeg(lo - o, d);
    } else if q == Right {
      SignOfFactor(t0, d);
      QuotientBelowNeg(hi - o, d, t0);
      QuotientNonNeg(hi - o, d);
    }
  }

  lemma AxisBounds(o: Vec3, d: Vec3, b: Box, t0: real, i: Axis)
    requires 0.0 <= t0 && InSlab(b, Add(o, Scale(t0, d)), i)
    ensures ParamAt(o, d, b, i) <= t0
    ensures QuadrantAt(o, b, i) != Middle ==> 0.0 <= ParamAt(o, d, b, i)
  {
    RayPointAt(o, d, t0, i);
    AxisParamBounds(o.At(i), d.At(i), b.lo.At(i), b.hi.At(i), t0);
  }

  /** AxisWindow for an axis i other than the chosen one: the probe point passes the check there. */
  lemma AxisWindowAt(o: Vec3, d: Vec3, b: Box, t0: real, w: Axis, tw: real, i: Axis)
    requires i != w && 0.0 <= tw <= t0 && ParamAt(o, d, b, i) <= tw
    requires InSlab(b, Add(o, Scale(t0, d)), i)
    ensures InSlab(b, Probe(o, d, b, w, tw), i)
  {
    RayPointAt(o, d, t0, i);
    RayPointAt(o, d, tw, i);
    ProbeCoord(o, d, b, w, tw, i);
    AxisWindow(o.At(i), d.At(i), b.lo.At(i), b.hi.At(i), t0, tw);
  }

  /** Completeness: a ray that meets the box is reported as hitting it. */
  lemma MeetingRayHits(o: Vec3, d: Vec3, b: Box, t0: real)
    requires 0.0 <= t0 && Contains(b, Add(o, Scale(t0, d)))
    ensures SlabHit(o, d, b).Some?
  {
    AllMiddleIsContains(o, b);
    if !AllMiddle(o, b) {
      var t := Params(o, d, b);
      var w := WhichPlane(t);
      WhichPlaneIsFirstMax(t, 3);
      ParamsAt(o, d, b, 0);
      ParamsAt(o, d, b, 1);
      ParamsAt(o, d, b, 2);
      ParamsAt(o, d, b, w);
      AxisBounds(o, d, b, t0, 0);
      AxisBounds(o, d, b, t0, 1);
      AxisBounds(o, d, b, t0, 2);
      var tw := t.At(w);
      assert 0.0 <= tw <= t0;
      if w != 0 { AxisWindowAt(o, d, b, t0, w, tw, 0); }
      if w != 1 { AxisWindowAt(o, d, b, t0, w, tw, 1); }
      if w != 2 { AxisWindowAt(o, d, b, t0, w, tw, 2); }
      SlabHitOutside(o, d, b, w);
    }
  }

  /** The slab test is exact: it reports a hit if and only if some point of the ray at a
      non-negative parameter lies in the (ordered) box. */
  lemma SlabHitCorrect(o: Vec3, d: Vec3, b: Box)
    requires Ordered(b)
    ensures SlabHit(o, d, b).Some? <==> RayMeetsBox(o, d, b)
  {
    if SlabHit(o, d, b).Some? {
      HitInBox(o, d, b);
      var t: real :| 0.0 <= t && SlabHit(o, d, b).value == Add(o, Scale(t, d));
      assert Contains(b, Add(o, Scale(t, d)));
    }
    if RayMeetsBox(o, d, b) {
      var t0: real :| 0.0 <= t0 && Contains(b, Add(o, Scale(t0, d)));
      MeetingRayHits(o, d, b, t0);
    }
  }

  /** On one axis, scaling the direction by k > 0 divides a non-negative candidate parameter
      by k and keeps a negative one negative. */
  lemma MaxTScaled(q: Quadrant, c: real, o: real, d: real, k: real, dk: real)
    requires 0.0 < k && dk == k * d
    ensures 0.0 <= MaxT(q, c, o, d) ==> MaxT(q, c, o, dk) == MaxT(q, c, o, d) / k
    ensures MaxT(q, c, o, d) < 0.0 ==> MaxT(q, c, o, dk) < 0.0
  {
    if q != Middle && d != 0.0 {
      assert dk != 0.0;
      assert (c - o) / dk == ((c - o) / d) / k;
    }
  }

  lemma ParamScaled(o: Vec3, d: Vec3, b: Box, k: real, i: Axis)
    requires 0.0 < k
    ensures 0.0 <= ParamAt(o, d, b, i) ==> ParamAt(o, Scale(k, d), b, i) == ParamAt(o, d, b, i) / k
    ensures ParamAt(o, d, b, i) < 0.0 ==> ParamAt(o, Scale(k, d), b, i) < 0.0
  {
    MaxTScaled(QuadrantAt(o, b, i), CandidateAt(o, b, i), o.At(i), d.At(i), k, Scale(k, d).At(i));
  }

  /** Dividing the non-negative parameters by k > 0 while keeping the negative ones negative
      does not change which axis is chosen. */
  lemma WhichPlaneScaled(t: Vec3, t': Vec3, k: real)
    requires 0.0 < k && 0.0 <= t.At(WhichPlane(t))
    requires forall i: Axis :: 0.0 <= t.At(i) ==> t'.At(i) == t.At(i) / k
    requires forall i: Axis :: t.At(i) < 0.0 ==> t'.At(i) < 0.0
    ensures WhichPlane(t') == WhichPlane(t)
  {
    WhichPlaneIsFirstMax(t, 3);
    var w := WhichPlane(t);
    assert 0.0 <= t'.At(w) by {
      assert 0.0 <= t.At(w) / k;
    }
    forall i: Axis ensures t'.At(i) <= t'.At(w) && (i < w ==> t'.At(i) < t'.At(w)) {
      if 0.0 <= t.At(i) {
        DivMonotone(t.At(i), t.At(w), k);
      }
    }
    WhichPlaneUnique(t', w);
  }

  lemma CancelScale(tw: real, k: real, x: real)
    requires k != 0.0
    ensures (tw / k) * (k * x) == tw * x
  {
  }

  /** The probe point at parameter tw / k along the direction scaled by k is the probe point
      at tw along the original direction. */
  lemma ProbeScaled(o: Vec3, d: Vec3, b: Box, k: real, w: Axis, tw: real)
    requires 0.0 < k
    ensures Probe(o, Scale(k, d), b, w, tw / k) == Probe(o, d, b, w, tw)
  {
    CancelScale(tw, k, d.x);
    CancelScale(tw, k, d.y);
    CancelScale(tw, k, d.z);
  }

  /** Rescaling the direction by a positive factor does not change the outcome or the point,
      so normalizing a direction before the test is immaterial. */
  lemma ScaleInvariant(o: Vec3, d: Vec3, b: Box, k: real)
    requires 0.0 < k
    ensures SlabHit(o, Scale(k, d), b) == SlabHit(o, d, b)
  {
    var d' := Scale(k, d);
    if !AllMiddle(o, b) {
      var t := Params(o, d, b);
      var t' := Params(o, d', b);
      ParamsScaled(o, d, b, k);
      var w := WhichPlane(t);
      var w' := WhichPlane(t');
      SlabHitOutside(o, d, b, w);
      SlabHitOutside(o, d', b, w');
      if 0.0 <= t.At(w) {
        WhichPlaneScaled(t, t', k);
        ProbeScaled(o, d, b, k, w, t.At(w));
        assert w' == w && t'.At(w) == t.At(w) / k && 0.0 <= t'.At(w) by {
          QuotientNonNeg(t.At(w), k);
        }
        assert Probe(o, d', b, w, t'.At(w)) == Probe(o, d, b, w, t.At(w));
      } else {
        NegativeStaysNegative(t, t');
      }
    }
  }

  /** When even the largest candidate parameter is negative, so is the largest rescaled one. */
  lemma NegativeStaysNegative(t: Vec3, t': Vec3)
    requires t.At(WhichPlane(t)) < 0.0
    requires forall i: Axis :: t.At(i) < 0.0 ==> t'.At(i) < 0.0
    ensures t'.At(WhichPlane(t')) < 0.0
  {
    WhichPlaneIsFirstMax(t, 3);
    assert t.At(WhichPlane(t')) < 0.0;
  }

  /** With the direction scaled by k > 0, each non-negative candidate parameter is divided by
      k and each negative one stays negative. */
  lemma ParamsScaled(o: Vec3, d: Vec3, b: Box, k: real)
    requires 0.0 < k
    ensures var t, t' := Params(o, d, b), Params(o, Scale(k, d), b);
      forall i: Axis :: (0.0 <= t.At(i) ==> t'.At(i) == t.At(i) / k) && (t.At(i) < 0.0 ==> t'.At(i) < 0.0)
  {
    var t, t' := Params(o, d, b), Params(o, Scale(k, d), b);
    forall i: Axis
      ensures 0.0 <= t.At(i) ==> t'.At(i) == t.At(i) / k
      ensures t.At(i) < 0.0 ==> t'.At(i) < 0.0
    {
      ParamsAt(o, d, b, i);
      ParamsAt(o, Scale(k, d), b, i);
      ParamScaled(o, d, b, k, i);
    }
  }

  lemma DivMonotone(a: real, b: real, k: real)
    requires 0.0 < k && a <= b
    ensures a / k <= b / k && (a < b ==> a / k < b / k)
  {
  }
}
