/** What the queries promise: GetNearby(position, maxDistance) returns
    exactly the stored objects within maxDistance of position, in GetAll
    order, so the pruning by node bounds loses nothing; GetNearby(ray,
    maxDistance) returns only stored objects that pass the ray filter,
    which for a unit direction is the distance to the ray's line. */
module QueryLemmas {
  import opened Geometry
  import opened OctreeModel
  import opened OctantLemmas
  import opened TreeInvariants

  lemma {:induction false} SelectConcat<T>(a: seq<OctreeObject<T>>, b: seq<OctreeObject<T>>, keep: OctreeObject<T> -> bool)
    ensures Select(a + b, keep) == Select(a, keep) + Select(b, keep)
    decreases |b|
  {
    if b == [] {
      assert a + b == a;
    } else {
      var n := |b| - 1;
      assert (a + b)[..|a + b| - 1] == a + b[..n];
      SelectConcat(a, b[..n], keep);
    }
  }

  /** Select keeps exactly the objects keep accepts, and only objects of
      its input. */
  lemma {:induction false} SelectMembers<T>(objs: seq<OctreeObject<T>>, keep: OctreeObject<T> -> bool, e: OctreeObject<T>)
    ensures e in Select(objs, keep) <==> e in objs && keep(e)
  {
    if objs != [] {
      var n := |objs| - 1;
      SelectMembers(objs[..n], keep, e);
      assert objs == objs[..n] + [objs[n]];
    }
  }

  lemma {:induction false} SelectNone<T>(objs: seq<OctreeObject<T>>, keep: OctreeObject<T> -> bool)
    requires forall i :: 0 <= i < |objs| ==> !keep(objs[i])
    ensures Select(objs, keep) == []
  {
    if objs != [] {
      var n := |objs| - 1;
      assert forall i :: 0 <= i < n ==> objs[..n][i] == objs[i];
      SelectNone(objs[..n], keep);
    }
  }

  /** A node whose closest point is farther than maxDistance holds in its
      whole subtree no object within maxDistance. */
  lemma PrunedHoldsNone<T>(t: Tree<T>, position: Vec3, maxDistance: real)
    requires WellFormed(t) && InBounds(t)
    requires SqrMagnitude(Minus(BoundsOf(t).ClosestPoint(position), position)) > maxDistance * maxDistance
    ensures Select(AllObjects(t), NearPoint(position, maxDistance)) == []
  {
    var all := AllObjects(t);
    forall i | 0 <= i < |all|
      ensures !NearPoint(position, maxDistance)(all[i])
    {
      AllInBox(t, all[i]);
      ClosestPointNoFarther(BoundsOf(t), all[i].pos, position);
      SqrMagnitudeSymmetric(position, all[i].pos);
    }
    SelectNone(all, NearPoint(position, maxDistance));
  }

  /** GetNearby(position, maxDistance) is exact: it returns the objects of
      GetAll within maxDistance of position, in the same order. */
  lemma {:induction false} NearbyPointExact<T>(t: Tree<T>, position: Vec3, maxDistance: real)
    requires WellFormed(t) && InBounds(t)
    ensures NearbyPoint(t, position, maxDistance) == Select(AllObjects(t), NearPoint(position, maxDistance))
    decreases t
  {
    if SqrMagnitude(Minus(BoundsOf(t).ClosestPoint(position), position)) > maxDistance * maxDistance {
      PrunedHoldsNone(t, position, maxDistance);
    } else {
      ChildrenNearbyPointExact(t.children, position, maxDistance);
      SelectConcat(t.objects, ChildrenObjects(t.children), NearPoint(position, maxDistance));
    }
  }

  lemma {:induction false} ChildrenNearbyPointExact<T>(cs: seq<Tree<T>>, position: Vec3, maxDistance: real)
    requires forall i :: 0 <= i < |cs| ==> WellFormed(cs[i]) && InBounds(cs[i])
    ensures ChildrenNearbyPoint(cs, position, maxDistance) == Select(ChildrenObjects(cs), NearPoint(position, maxDistance))
    decreases cs
  {
    if cs != [] {
      var n := |cs| - 1;
      assert forall i :: 0 <= i < n ==> cs[..n][i] == cs[i];
      ChildrenNearbyPointExact(cs[..n], position, maxDistance);
      NearbyPointExact(cs[n], position, maxDistance);
      SelectConcat(ChildrenObjects(cs[..n]), AllObjects(cs[n]), NearPoint(position, maxDistance));
    }
  }

  /** GetNearby(ray, maxDistance) returns only stored objects that pass
      the filter |direction x (pos - origin)|^2 <= maxDistance^2, whatever
      the bounds test decides. */
  lemma {:induction false} NearbyRaySound<T>(t: Tree<T>, ray: Ray, maxDistance: real, intersects: (Bounds, Ray) -> bool,
                                             e: OctreeObject<T>)
    requires e in NearbyRay(t, ray, maxDistance, intersects)
    ensures e in AllObjects(t) && NearRay(ray, maxDistance)(e)
    decreases t
  {
    if intersects(RayTestBounds(t, maxDistance), ray) {
      if e in Select(t.objects, NearRay(ray, maxDistance)) {
        SelectMembers(t.objects, NearRay(ray, maxDistance), e);
      } else {
        ChildrenNearbyRaySound(t.children, ray, maxDistance, intersects, e);
      }
    }
  }

  lemma {:induction false} ChildrenNearbyRaySound<T>(cs: seq<Tree<T>>, ray: Ray, maxDistance: real, intersects: (Bounds, Ray) -> bool,
                                                     e: OctreeObject<T>)
    requires e in ChildrenNearbyRay(cs, ray, maxDistance, intersects)
    ensures e in ChildrenObjects(cs) && NearRay(ray, maxDistance)(e)
    decreases cs
  {
    var n := |cs| - 1;
    if e in ChildrenNearbyRay(cs[..n], ray, maxDistance, intersects) {
      ChildrenNearbyRaySound(cs[..n], ray, maxDistance, intersects, e);
    } else {
      NearbyRaySound(cs[n], ray, maxDistance, intersects, e);
    }
  }

  /** With a bounds test that never rejects, GetNearby(ray, maxDistance)
      returns exactly the objects of GetAll that pass the ray filter. */
  lemma {:induction false} NearbyRayUnpruned<T>(t: Tree<T>, ray: Ray, maxDistance: real, intersects: (Bounds, Ray) -> bool)
    requires forall b :: intersects(b, ray)
    ensures NearbyRay(t, ray, maxDistance, intersects) == Select(AllObjects(t), NearRay(ray, maxDistance))
    decreases t
  {
    ChildrenNearbyRayUnpruned(t.children, ray, maxDistance, intersects);
    SelectConcat(t.objects, ChildrenObjects(t.children), NearRay(ray, maxDistance));
  }

  lemma {:induction false} ChildrenNearbyRayUnpruned<T>(cs: seq<Tree<T>>, ray: Ray, maxDistance: real, intersects: (Bounds, Ray) -> bool)
    requires forall b :: intersects(b, ray)
    ensures ChildrenNearbyRay(cs, ray, maxDistance, intersects) == Select(ChildrenObjects(cs), NearRay(ray, maxDistance))
    decreases cs
  {
    if cs != [] {
      var n := |cs| - 1;
      ChildrenNearbyRayUnpruned(cs[..n], ray, maxDistance, intersects);
      NearbyRayUnpruned(cs[n], ray, maxDistance, intersects);
      SelectConcat(ChildrenObjects(cs[..n]), AllObjects(cs[n]), NearRay(ray, maxDistance));
    }
  }

  // ---------------------------------------------------------------------
  // The ray filter as a distance
  // ---------------------------------------------------------------------

  /** For a direction of length 1 (Unity normalises every Ray), the ray
      filter's |direction x (point - origin)|^2 is the squared distance from
      point to its foot on the ray's line, origin + k*direction with
      k = direction . (point - origin). */
  lemma SqrDistanceToRayOfUnitRay(ray: Ray, point: Vec3)
    requires SqrMagnitude(ray.direction) == 1.0
    ensures var v := Minus(point, ray.origin);
      SqrDistanceToRay(ray, point) == SqrMagnitude(Minus(v, Scale(Dot(ray.direction, v), ray.direction)))
  {
    var d, v := ray.direction, Minus(point, ray.origin);
    LagrangeIdentity(d, v);
    LinePointDistance(d, v, Dot(d, v));
  }

  /** For a unit direction no point of the ray's line, origin + s*direction,
      is nearer to point than the ray filter's value: the filter measures
      the distance to the whole infinite line. */
  lemma UnitRayLineNoNearer(ray: Ray, point: Vec3, s: real)
    requires SqrMagnitude(ray.direction) == 1.0
    ensures SqrDistanceToRay(ray, point) <= SqrMagnitude(Minus(Minus(point, ray.origin), Scale(s, ray.direction)))
  {
    var d, v := ray.direction, Minus(point, ray.origin);
    var k := Dot(d, v);
    LagrangeIdentity(d, v);
    LinePointDistance(d, v, s);
    assert SqrMagnitude(Minus(v, Scale(s, d))) - SqrDistanceToRay(ray, point) == (s - k) * (s - k);
    SquareNonNegative(s - k);
  }

  /** For a unit direction, every object GetNearby(ray, maxDistance)
      returns is stored in the subtree and lies within maxDistance of its
      foot on the ray's line. */
  lemma NearbyUnitRayNearLine<T>(t: Tree<T>, ray: Ray, maxDistance: real, intersects: (Bounds, Ray) -> bool,
                                 e: OctreeObject<T>)
    requires SqrMagnitude(ray.direction) == 1.0 && e in NearbyRay(t, ray, maxDistance, intersects)
    ensures var v := Minus(e.pos, ray.origin);
      e in AllObjects(t) &&
      SqrMagnitude(Minus(v, Scale(Dot(ray.direction, v), ray.direction))) <= maxDistance * maxDistance
  {
    NearbyRaySound(t, ray, maxDistance, intersects, e);
    SqrDistanceToRayOfUnitRay(ray, e.pos);
  }
}
