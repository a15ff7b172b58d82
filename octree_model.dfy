/** The value semantics of OctreeNode<T>: a node and its subtree as an
    immutable tree, and every operation of OctreeNode.cs as a function that
    does on this value exactly what the C# code does to the objects. The
    class in octree_node.dfy is proved to follow these functions step by
    step; the properties of the octree are lemmas about them. */
module OctreeModel {
  import opened Geometry

  /** A node splits once it already holds this many objects. */
  const NUM_OBJECTS_ALLOWED := 8

  /** One stored entry: the payload and the position it was added at. */
  datatype OctreeObject<T> = OctreeObject(obj: T, pos: Vec3)

  /** A node: centre, side length, the tree-wide minimum node size, the
      objects held directly here and the children, which are either absent
      ([], the source's null) or eight nodes indexed as BestFitChild
      numbers the octants. */
  datatype Tree<T> = Node(center: Vec3, side: real, minSize: real,
                          objects: seq<OctreeObject<T>>, children: seq<Tree<T>>)

  /** What Add and Remove report, together with the new tree. */
  datatype Updated<T> = Updated(success: bool, tree: Tree<T>)

  /** The bounding cube of a node (SetValues builds it from Center and SideLength). */
  function BoundsOf<T>(t: Tree<T>): Bounds {
    Cube(t.center, t.side)
  }

  /** Encapsulates(outerBounds, point). */
  function Encapsulates(outerBounds: Bounds, point: Vec3): bool {
    outerBounds.Contains(point)
  }

  // ---------------------------------------------------------------------
  // Octants
  // ---------------------------------------------------------------------

  /** The index of the octant of objPos relative to center: the x and z
      axes send a point on the splitting plane to the lower half, the y
      axis to the upper half. */
  function BestFitChild(center: Vec3, objPos: Vec3): (i: int)
    ensures 0 <= i < 8
  {
    (if objPos.x <= center.x then 0 else 1) +
    (if objPos.y >= center.y then 0 else 4) +
    (if objPos.z <= center.z then 0 else 2)
  }

  /** The centre Split gives child i: a quarter side away on every axis,
      towards +x for odd i, towards -y for i >= 4 and towards +z when bit 1
      of i is set (ChildCenterTable lists the eight values). */
  function ChildCenter(center: Vec3, side: real, i: int): Vec3
    requires 0 <= i < 8
  {
    var quarter := side / 4.0;
    Plus(center, Vec3(if i % 2 == 0 then -quarter else quarter,
                      if i < 4 then quarter else -quarter,
                      if i % 4 < 2 then -quarter else quarter))
  }

  /** The boxes of the eight potential children that SetValues stores in
      childBounds: half the side, around the octant centres (SetValues
      writes the eight entries out; SetValues is proved to build this). */
  function ChildBounds(center: Vec3, side: real): (bs: seq<Bounds>)
    ensures |bs| == 8
  {
    seq(8, i requires 0 <= i < 8 => Cube(ChildCenter(center, side, i), side / 2.0))
  }

  /** |direction x (point - origin)|^2: the squared distance from point
      to the infinite line of the ray when the direction has length 1, as
      Unity's Ray guarantees (QueryLemmas.SqrDistanceToRayOfUnitRay). */
  function SqrDistanceToRay(ray: Ray, point: Vec3): real {
    SqrMagnitude(Cross(ray.direction, Minus(point, ray.origin)))
  }

  // ---------------------------------------------------------------------
  // Shape
  // ---------------------------------------------------------------------

  /** c is what Split would make child i of p: centre from the octant
      table, half the side, the same minimum size. */
  predicate IsOctant<T>(p: Tree<T>, i: int, c: Tree<T>)
    requires 0 <= i < 8
  {
    c.center == ChildCenter(p.center, p.side, i) && c.side == p.side / 2.0 && c.minSize == p.minSize
  }

  /** The shape every node keeps: a positive minimum size, and either no
      children or eight octant children, which a node only gets when half
      its side is at least the minimum size. */
  predicate WellFormed<T>(t: Tree<T>)
    decreases t
  {
    0.0 < t.minSize &&
    (t.children == [] ||
     (t.minSize <= t.side / 2.0 && |t.children| == 8 &&
      forall i :: 0 <= i < 8 ==> IsOctant(t, i, t.children[i]) && WellFormed(t.children[i])))
  }

  /** Replacing one child by a well-formed node of the same geometry keeps
      the parent well formed. */
  lemma WellFormedReplaceChild<T>(t: Tree<T>, b: int, c: Tree<T>)
    requires WellFormed(t) && t.children != [] && 0 <= b < 8
    requires WellFormed(c) && SameGeometry(c, t.children[b])
    ensures WellFormed(t.(children := t.children[b := c]))
  {
    var u := t.(children := t.children[b := c]);
    assert forall i :: 0 <= i < 8 ==> IsOctant(u, i, u.children[i]) && WellFormed(u.children[i]);
  }

  /** Replacing one of p's octant children by a well-formed node of the
      same geometry keeps them p's octants. */
  lemma OctantsReplace<T>(p: Tree<T>, cs: seq<Tree<T>>, b: int, c: Tree<T>)
    requires Octants(p, cs) && 0 <= b < 8 && WellFormed(c) && SameGeometry(c, cs[b])
    ensures Octants(p, cs[b := c])
  {
  }

  /** A childless well-formed node that may split is well formed with the
      children Split creates. */
  lemma WellFormedSplit<T>(t: Tree<T>)
    requires WellFormed(t) && t.children == [] && t.minSize <= t.side / 2.0
    ensures WellFormed(t.(children := Split(t)))
  {
    var u := t.(children := Split(t));
    assert forall i :: 0 <= i < 8 ==> IsOctant(u, i, u.children[i]) && WellFormed(u.children[i]);
  }

  /** A node that may split is well formed with any eight well-formed
      children laid out as its octants. */
  lemma WellFormedWithChildren<T>(t: Tree<T>, cs: seq<Tree<T>>)
    requires WellFormed(t) && t.minSize <= t.side / 2.0 && Octants(t, cs)
    ensures WellFormed(t.(children := cs))
  {
    var u := t.(children := cs);
    assert forall i :: 0 <= i < 8 ==> IsOctant(u, i, u.children[i]) && WellFormed(u.children[i]);
  }

  /** Eight well-formed children laid out as p's octants. */
  predicate Octants<T>(p: Tree<T>, cs: seq<Tree<T>>) {
    |cs| == 8 && forall i :: 0 <= i < 8 ==> IsOctant(p, i, cs[i]) && WellFormed(cs[i])
  }

  predicate SameGeometry<T>(a: Tree<T>, b: Tree<T>) {
    a.center == b.center && a.side == b.side && a.minSize == b.minSize
  }

  /** How many times a node of this side may still be split: the measure
      that makes insertion terminate. */
  function Levels(side: real, minSize: real): nat
    requires 0.0 < minSize
  {
    if side < minSize then 0 else (side / minSize).Floor
  }

  lemma LevelsHalve(side: real, minSize: real)
    requires 0.0 < minSize <= side / 2.0
    ensures Levels(side / 2.0, minSize) < Levels(side, minSize)
  {
    var r := side / minSize;
    assert (side / 2.0) / minSize == r / 2.0;
    assert r >= 2.0;
  }

  // ---------------------------------------------------------------------
  // Contents
  // ---------------------------------------------------------------------

  /** Every object of the subtree, in the order GetAll visits them: the
      node's own objects, then each child's subtree in index order. */
  function AllObjects<T>(t: Tree<T>): seq<OctreeObject<T>>
    decreases t
  {
    t.objects + ChildrenObjects(t.children)
  }

  function ChildrenObjects<T>(cs: seq<Tree<T>>): seq<OctreeObject<T>>
    decreases cs
  {
    if cs == [] then [] else ChildrenObjects(cs[..|cs| - 1]) + AllObjects(cs[|cs| - 1])
  }

  /** Whether the node or any node below it holds an object: the recursion
      of HasAnyObjects. */
  predicate HasContent<T>(t: Tree<T>)
    decreases t
  {
    t.objects != [] || exists i :: 0 <= i < |t.children| && HasContent(t.children[i])
  }

  /** HasContent agrees with the flattened subtree: it holds exactly when
      AllObjects is not empty. */
  lemma {:induction false} HasContentIff<T>(t: Tree<T>)
    ensures HasContent(t) <==> AllObjects(t) != []
    decreases t
  {
    forall i | 0 <= i < |t.children|
      ensures HasContent(t.children[i]) <==> AllObjects(t.children[i]) != []
    {
      HasContentIff(t.children[i]);
    }
    ChildrenObjectsEmpty(t.children);
  }

  function Payloads<T>(objs: seq<OctreeObject<T>>): seq<T>
  {
    if objs == [] then [] else Payloads(objs[..|objs| - 1]) + [objs[|objs| - 1].obj]
  }

  /** The objects of objs that keep accepts, in order. */
  function Select<T>(objs: seq<OctreeObject<T>>, keep: OctreeObject<T> -> bool): seq<OctreeObject<T>>
  {
    if objs == [] then []
    else Select(objs[..|objs| - 1], keep) + (if keep(objs[|objs| - 1]) then [objs[|objs| - 1]] else [])
  }

  function Reversed<X>(s: seq<X>): seq<X>
  {
    if s == [] then [] else Reversed(s[1..]) + [s[0]]
  }

  function RemoveAt<X>(s: seq<X>, k: nat): seq<X>
    requires k < |s|
  {
    s[..k] + s[k + 1..]
  }

  // ---------------------------------------------------------------------
  // Insertion (Add, SubAdd, Split)
  // ---------------------------------------------------------------------

  /** The eight empty children Split creates. */
  function Split<T>(t: Tree<T>): (cs: seq<Tree<T>>)
    requires 0.0 < t.minSize
    ensures Octants(t, cs)
    ensures forall i :: 0 <= i < 8 ==> cs[i].objects == [] && cs[i].children == []
  {
    seq(8, i requires 0 <= i < 8 => Node(ChildCenter(t.center, t.side, i), t.side / 2.0, t.minSize, [], []))
  }

  /** Add: reject a position outside the bounds, otherwise SubAdd. */
  function Add<T>(t: Tree<T>, o: OctreeObject<T>): (r: Updated<T>)
    requires WellFormed(t)
  {
    if !Encapsulates(BoundsOf(t), o.pos) then Updated(false, t) else Updated(true, SubAdd(t, o))
  }

  /** SubAdd: a childless node appends while it holds fewer than
      NUM_OBJECTS_ALLOWED objects or while its children would be smaller
      than minSize; otherwise it splits, hands its objects to their best-fit
      children (last one first), and then adds the new object to its own
      best-fit child. */
  function SubAdd<T>(t: Tree<T>, o: OctreeObject<T>): (r: Tree<T>)
    requires WellFormed(t)
    ensures WellFormed(r) && SameGeometry(r, t)
    decreases Levels(t.side, t.minSize), 1
  {
    if t.children == [] && (|t.objects| < NUM_OBJECTS_ALLOWED || t.side / 2.0 < t.minSize) then
      t.(objects := t.objects + [o])
    else
      var t1 := if t.children == [] then SplitNode(t) else t;
      var b := BestFitChild(t.center, o.pos);
      LevelsHalve(t.side, t.minSize);
      t1.(children := t1.children[b := SubAdd(t1.children[b], o)])
  }

  /** A full leaf after Split and the redistribution loop: no objects of
      its own, each of them handed to its best-fit child. */
  function SplitNode<T>(t: Tree<T>): (r: Tree<T>)
    requires WellFormed(t) && t.children == [] && t.minSize <= t.side / 2.0
    ensures WellFormed(r) && SameGeometry(r, t) && r.children != []
    decreases Levels(t.side, t.minSize), 0, |t.objects| + 1
  {
    WellFormedWithChildren(t, Distribute(t, Split(t), t.objects));
    t.(objects := [], children := Distribute(t, Split(t), t.objects))
  }

  /** The redistribution loop of SubAdd: objs are handed, last one first,
      to the best-fit children of p. */
  function Distribute<T>(p: Tree<T>, cs: seq<Tree<T>>, objs: seq<OctreeObject<T>>): (r: seq<Tree<T>>)
    requires 0.0 < p.minSize <= p.side / 2.0 && Octants(p, cs)
    ensures Octants(p, r)
    decreases Levels(p.side, p.minSize), 0, |objs|
  {
    if objs == [] then cs
    else
      var o := objs[|objs| - 1];
      var b := BestFitChild(p.center, o.pos);
      LevelsHalve(p.side, p.minSize);
      Distribute(p, cs[b := SubAdd(cs[b], o)], objs[..|objs| - 1])
  }

  // ---------------------------------------------------------------------
  // Removal (Remove, SubRemove, ShouldMerge, Merge)
  // ---------------------------------------------------------------------

  /** The index of the first object carrying payload x, or -1. */
  function FirstMatch<T(==)>(objs: seq<OctreeObject<T>>, x: T): (k: int)
    ensures -1 <= k < |objs|
    ensures k >= 0 ==> objs[k].obj == x && forall j :: 0 <= j < k ==> objs[j].obj != x
    ensures k == -1 ==> forall j :: 0 <= j < |objs| ==> objs[j].obj != x
  {
    if objs == [] then -1
    else if objs[0].obj == x then 0
    else
      var k := FirstMatch(objs[1..], x);
      if k == -1 then -1 else k + 1
  }

  lemma FirstMatchAt<T>(objs: seq<OctreeObject<T>>, x: T, k: nat)
    requires k < |objs| && objs[k].obj == x
    requires forall j :: 0 <= j < k ==> objs[j].obj != x
    ensures FirstMatch(objs, x) == k
  {
    var m := FirstMatch(objs, x);
  }

  lemma FirstMatchNone<T>(objs: seq<OctreeObject<T>>, x: T)
    requires forall j :: 0 <= j < |objs| ==> objs[j].obj != x
    ensures FirstMatch(objs, x) == -1
  {
  }

  /** True when the node together with its children can be collapsed: no
      child has children of its own and at most NUM_OBJECTS_ALLOWED objects
      sit in the node and its children. */
  predicate ShouldMerge<T>(t: Tree<T>) {
    (forall i :: 0 <= i < |t.children| ==> t.children[i].children == []) &&
    |AllObjects(t)| <= NUM_OBJECTS_ALLOWED
  }

  /** The objects Merge collects: each child's list from its last object to
      its first, children in index order. */
  function MergedObjects<T>(cs: seq<Tree<T>>): seq<OctreeObject<T>>
  {
    if cs == [] then [] else MergedObjects(cs[..|cs| - 1]) + Reversed(cs[|cs| - 1].objects)
  }

  /** Merge: move every child's objects into this node and drop the children. */
  function Merge<T>(t: Tree<T>): Tree<T> {
    t.(objects := t.objects + MergedObjects(t.children), children := [])
  }

  /** The merge check made after a successful removal at a node with children. */
  function MergeIfSparse<T>(t: Tree<T>): (r: Tree<T>)
    requires WellFormed(t)
    ensures WellFormed(r) && SameGeometry(r, t)
  {
    if t.children != [] && ShouldMerge(t) then Merge(t) else t
  }

  /** Remove(obj): remove the first local object carrying x; failing that,
      ask the children in index order until one removes it; merge if a
      removal happened below a node with children. */
  function Remove<T(==)>(t: Tree<T>, x: T): (r: Updated<T>)
    requires WellFormed(t)
    ensures WellFormed(r.tree) && SameGeometry(r.tree, t)
    ensures !r.success ==> r.tree == t
    decreases t
  {
    var k := FirstMatch(t.objects, x);
    if k >= 0 then
      Updated(true, MergeIfSparse(t.(objects := RemoveAt(t.objects, k))))
    else if t.children == [] then
      Updated(false, t)
    else
      var (removed, cs) := RemoveFromChildren(t, t.children, x, 0);
      if removed then Updated(true, MergeIfSparse(t.(children := cs))) else Updated(false, t)
  }

  /** The child loop of Remove(obj) from index i on: the first child that
      reports a removal is replaced by its new value and the loop stops. */
  function RemoveFromChildren<T(==)>(p: Tree<T>, cs: seq<Tree<T>>, x: T, i: nat): (r: (bool, seq<Tree<T>>))
    requires 0.0 < p.minSize <= p.side / 2.0 && Octants(p, cs) && i <= |cs|
    ensures Octants(p, r.1)
    ensures !r.0 ==> r.1 == cs
    decreases cs, |cs| - i
  {
    if i == |cs| then (false, cs)
    else
      var r := Remove(cs[i], x);
      if r.success then (true, cs[i := r.tree]) else RemoveFromChildren(p, cs, x, i + 1)
  }

  /** SubRemove(obj, pos): like Remove(obj), but below this node only the
      best-fit child of pos is searched. */
  function SubRemove<T(==)>(t: Tree<T>, x: T, pos: Vec3): (r: Updated<T>)
    requires WellFormed(t)
    ensures WellFormed(r.tree) && SameGeometry(r.tree, t)
    ensures !r.success ==> r.tree == t
    decreases t
  {
    var k := FirstMatch(t.objects, x);
    if k >= 0 then
      Updated(true, MergeIfSparse(t.(objects := RemoveAt(t.objects, k))))
    else if t.children == [] then
      Updated(false, t)
    else
      var b := BestFitChild(t.center, pos);
      var r := SubRemove(t.children[b], x, pos);
      if r.success then Updated(true, MergeIfSparse(t.(children := t.children[b := r.tree])))
      else Updated(false, t)
  }

  /** Remove(obj, pos): reject a position outside the bounds, otherwise SubRemove. */
  function RemoveWithPosition<T(==)>(t: Tree<T>, x: T, pos: Vec3): (r: Updated<T>)
    requires WellFormed(t)
    ensures WellFormed(r.tree) && SameGeometry(r.tree, t)
    ensures !r.success ==> r.tree == t
  {
    if !Encapsulates(BoundsOf(t), pos) then Updated(false, t) else SubRemove(t, x, pos)
  }

  // ---------------------------------------------------------------------
  // Queries (GetAll, GetNearby)
  // ---------------------------------------------------------------------

  /** The object test of GetNearby(position, maxDistance): within
      maxDistance of position, boundary included. */
  function NearPoint<T>(position: Vec3, maxDistance: real): OctreeObject<T> -> bool {
    (o: OctreeObject<T>) => SqrMagnitude(Minus(position, o.pos)) <= maxDistance * maxDistance
  }

  /** The object test of GetNearby(ray, maxDistance): within maxDistance of
      the ray's line, boundary included. */
  function NearRay<T>(ray: Ray, maxDistance: real): OctreeObject<T> -> bool {
    (o: OctreeObject<T>) => SqrDistanceToRay(ray, o.pos) <= maxDistance * maxDistance
  }

  /** GetNearby(position, maxDistance): skip a node whose closest point is
      farther than maxDistance from position; otherwise take its objects
      within maxDistance (boundary included) and visit every child. */
  function NearbyPoint<T>(t: Tree<T>, position: Vec3, maxDistance: real): seq<OctreeObject<T>>
    decreases t
  {
    if SqrMagnitude(Minus(BoundsOf(t).ClosestPoint(position), position)) > maxDistance * maxDistance then []
    else
      Select(t.objects, NearPoint(position, maxDistance)) +
      ChildrenNearbyPoint(t.children, position, maxDistance)
  }

  function ChildrenNearbyPoint<T>(cs: seq<Tree<T>>, position: Vec3, maxDistance: real): seq<OctreeObject<T>>
    decreases cs
  {
    if cs == [] then []
    else ChildrenNearbyPoint(cs[..|cs| - 1], position, maxDistance) + NearbyPoint(cs[|cs| - 1], position, maxDistance)
  }

  /** The box the ray query tests: the node bounds grown by twice
      maxDistance on every axis. */
  function RayTestBounds<T>(t: Tree<T>, maxDistance: real): Bounds {
    BoundsOf(t).Expand(Uniform(maxDistance * 2.0))
  }

  /** GetNearby(ray, maxDistance): skip a node whose grown bounds the ray
      misses (intersects stands for Bounds.IntersectRay); otherwise take its
      objects within maxDistance of the ray's line and visit every child. */
  function NearbyRay<T>(t: Tree<T>, ray: Ray, maxDistance: real, intersects: (Bounds, Ray) -> bool): seq<OctreeObject<T>>
    decreases t
  {
    if !intersects(RayTestBounds(t, maxDistance), ray) then []
    else
      Select(t.objects, NearRay(ray, maxDistance)) +
      ChildrenNearbyRay(t.children, ray, maxDistance, intersects)
  }

  function ChildrenNearbyRay<T>(cs: seq<Tree<T>>, ray: Ray, maxDistance: real, intersects: (Bounds, Ray) -> bool): seq<OctreeObject<T>>
    decreases cs
  {
    if cs == [] then []
    else ChildrenNearbyRay(cs[..|cs| - 1], ray, maxDistance, intersects) + NearbyRay(cs[|cs| - 1], ray, maxDistance, intersects)
  }

  // ---------------------------------------------------------------------
  // Shrinking the root (ShrinkIfPossible)
  // ---------------------------------------------------------------------

  /** All objects fall in the octant of the first one. */
  predicate OneOctant<T>(center: Vec3, objs: seq<OctreeObject<T>>) {
    forall i :: 0 <= i < |objs| ==> BestFitChild(center, objs[i].pos) == BestFitChild(center, objs[0].pos)
  }

  /** The first index at or after from whose child subtree holds an object,
      or |cs| when there is none. */
  function FirstNonEmpty<T>(cs: seq<Tree<T>>, from: nat): (j: nat)
    requires from <= |cs|
    ensures from <= j <= |cs|
    ensures j < |cs| ==> HasContent(cs[j])
    ensures forall k :: from <= k < j ==> !HasContent(cs[k])
    decreases |cs| - from
  {
    if from == |cs| then from
    else if HasContent(cs[from]) then from
    else FirstNonEmpty(cs, from + 1)
  }

  /** FirstNonEmpty is the index j when cs[j] is the first subtree at or
      after from holding an object (or j == |cs| and none does). */
  lemma FirstNonEmptyAt<T>(cs: seq<Tree<T>>, from: nat, j: nat)
    requires from <= j <= |cs|
    requires j < |cs| ==> HasContent(cs[j])
    requires forall k :: from <= k < j ==> !HasContent(cs[k])
    ensures FirstNonEmpty(cs, from) == j
  {
  }

  /** The state of ShrinkIfPossible's child loop after cs[..k], given the
      octant bestFit of the local objects: either no child so far held
      content and fit is still bestFit, or exactly child fit did and it
      agrees with bestFit. */
  predicate ScanState<T>(cs: seq<Tree<T>>, bestFit: int, k: nat, had: bool, fit: int)
    requires k <= |cs|
  {
    (!had ==> fit == bestFit && forall j :: 0 <= j < k ==> !HasContent(cs[j])) &&
    (had ==> 0 <= fit < k && HasContent(cs[fit]) && (bestFit < 0 || bestFit == fit) &&
             forall j :: 0 <= j < k && j != fit ==> !HasContent(cs[j]))
  }

  lemma ScanEmptyChild<T>(cs: seq<Tree<T>>, bestFit: int, k: nat, had: bool, fit: int)
    requires k < |cs| && ScanState(cs, bestFit, k, had, fit) && !HasContent(cs[k])
    ensures ScanState(cs, bestFit, k + 1, had, fit)
  {
  }

  lemma ScanFirstContent<T>(cs: seq<Tree<T>>, bestFit: int, k: nat)
    requires k < |cs| && ScanState(cs, bestFit, k, false, bestFit) && HasContent(cs[k])
    requires bestFit < 0 || bestFit == k
    ensures ScanState(cs, bestFit, k + 1, true, k)
  {
  }

  /** The loop stops at a second non-empty child: fit is the first
      non-empty child and k the next. */
  lemma ScanSecondContent<T>(cs: seq<Tree<T>>, bestFit: int, k: nat, fit: int)
    requires k < |cs| && ScanState(cs, bestFit, k, true, fit) && HasContent(cs[k])
    ensures FirstNonEmpty(cs, 0) == fit && FirstNonEmpty(cs, fit + 1) == k
  {
    FirstNonEmptyAt(cs, 0, fit);
    FirstNonEmptyAt(cs, fit + 1, k);
  }

  /** The loop stops at a first non-empty child: it is child k. */
  lemma ScanOtherOctant<T>(cs: seq<Tree<T>>, bestFit: int, k: nat)
    requires k < |cs| && ScanState(cs, bestFit, k, false, bestFit) && HasContent(cs[k])
    ensures FirstNonEmpty(cs, 0) == k
  {
    FirstNonEmptyAt(cs, 0, k);
  }

  /** The loop ran to the end: no child held content, or only child fit. */
  lemma ScanDone<T>(cs: seq<Tree<T>>, bestFit: int, had: bool, fit: int)
    requires ScanState(cs, bestFit, |cs|, had, fit)
    ensures !had ==> FirstNonEmpty(cs, 0) == |cs|
    ensures had ==> FirstNonEmpty(cs, 0) == fit && FirstNonEmpty(cs, fit + 1) == |cs|
  {
    if had {
      FirstNonEmptyAt(cs, 0, fit);
      FirstNonEmptyAt(cs, fit + 1, |cs|);
    } else {
      FirstNonEmptyAt(cs, 0, |cs|);
    }
  }

  /** ShrinkIfPossible reads children[-1] when a node at least 2*minLength
      wide has children and no object at all; it is defined everywhere else. */
  predicate ShrinkDefined<T>(t: Tree<T>, minLength: real) {
    2.0 * minLength <= t.side && t.children != [] ==> HasContent(t)
  }

  /** ShrinkIfPossible(minLength): the node itself when it is narrower than
      2*minLength, empty, or its content spans several octants; otherwise a
      childless node halves in place around the octant of its objects, and
      a node with children hands over the one child holding content. */
  function Shrink<T>(t: Tree<T>, minLength: real): Tree<T>
    requires WellFormed(t) && ShrinkDefined(t, minLength)
  {
    if t.side < 2.0 * minLength then t
    else if t.objects == [] && t.children == [] then t
    else if !OneOctant(t.center, t.objects) then t
    else
      var fit := if t.objects == [] then -1 else BestFitChild(t.center, t.objects[0].pos);
      if t.children == [] then
        t.(side := t.side / 2.0, center := ChildCenter(t.center, t.side, fit))
      else
        var j := FirstNonEmpty(t.children, 0);
        if j == |t.children| then
          t.children[fit]
        else if fit >= 0 && fit != j then t
        else if FirstNonEmpty(t.children, j + 1) < |t.children| then t
        else t.children[j]
  }

  /** Shrink of a node with children, given the outcome of the child scan:
      the child the scan picked, or the node itself. */
  lemma ShrinkWithChildren<T>(t: Tree<T>, minLength: real, bestFit: int, shrink: bool, newFit: int)
    requires WellFormed(t) && ShrinkDefined(t, minLength) && t.children != []
    requires 2.0 * minLength <= t.side && OneOctant(t.center, t.objects)
    requires bestFit == if t.objects == [] then -1 else BestFitChild(t.center, t.objects[0].pos)
    requires var first := FirstNonEmpty(t.children, 0);
      shrink <==> first == 8 || ((bestFit < 0 || bestFit == first) && FirstNonEmpty(t.children, first + 1) == 8)
    requires shrink ==> newFit == if FirstNonEmpty(t.children, 0) == 8 then bestFit else FirstNonEmpty(t.children, 0)
    ensures shrink ==> 0 <= newFit < 8 && Shrink(t, minLength) == t.children[newFit]
    ensures !shrink ==> Shrink(t, minLength) == t
  {
  }

  // ---------------------------------------------------------------------
  // Unfolding the sequence functions one element at a time
  // ---------------------------------------------------------------------

  lemma ChildrenObjectsStep<T>(cs: seq<Tree<T>>, i: nat)
    requires i < |cs|
    ensures ChildrenObjects(cs[..i + 1]) == ChildrenObjects(cs[..i]) + AllObjects(cs[i])
  {
    assert cs[..i + 1][..i] == cs[..i];
  }

  lemma ChildrenNearbyPointStep<T>(cs: seq<Tree<T>>, i: nat, position: Vec3, maxDistance: real)
    requires i < |cs|
    ensures ChildrenNearbyPoint(cs[..i + 1], position, maxDistance) ==
            ChildrenNearbyPoint(cs[..i], position, maxDistance) + NearbyPoint(cs[i], position, maxDistance)
  {
    assert cs[..i + 1][..i] == cs[..i];
  }

  lemma ChildrenNearbyRayStep<T>(cs: seq<Tree<T>>, i: nat, ray: Ray, maxDistance: real, intersects: (Bounds, Ray) -> bool)
    requires i < |cs|
    ensures ChildrenNearbyRay(cs[..i + 1], ray, maxDistance, intersects) ==
            ChildrenNearbyRay(cs[..i], ray, maxDistance, intersects) + NearbyRay(cs[i], ray, maxDistance, intersects)
  {
    assert cs[..i + 1][..i] == cs[..i];
  }

  lemma SelectStep<T>(objs: seq<OctreeObject<T>>, i: nat, keep: OctreeObject<T> -> bool)
    requires i < |objs|
    ensures Select(objs[..i + 1], keep) == Select(objs[..i], keep) + (if keep(objs[i]) then [objs[i]] else [])
  {
    assert objs[..i + 1][..i] == objs[..i];
  }

  lemma MergedObjectsStep<T>(a: seq<OctreeObject<T>>, cs: seq<Tree<T>>, i: nat)
    requires i < |cs|
    ensures a + MergedObjects(cs[..i]) + Reversed(cs[i].objects) == a + MergedObjects(cs[..i + 1])
  {
    assert cs[..i + 1][..i] == cs[..i];
  }

  lemma {:induction false} PayloadsAppend<T>(a: seq<OctreeObject<T>>, b: seq<OctreeObject<T>>)
    ensures Payloads(a + b) == Payloads(a) + Payloads(b)
    decreases |b|
  {
    if b != [] {
      var n := |b| - 1;
      assert (a + b)[..|a + b| - 1] == a + b[..n];
      PayloadsAppend(a, b[..n]);
      assert b == b[..n] + [b[n]];
    } else {
      assert a + b == a;
    }
  }

  /** The children contribute no object exactly when none of their subtrees
      holds one. */
  lemma {:induction false} ChildrenObjectsEmpty<T>(cs: seq<Tree<T>>)
    ensures ChildrenObjects(cs) == [] <==> forall i :: 0 <= i < |cs| ==> AllObjects(cs[i]) == []
  {
    if cs != [] {
      var n := |cs| - 1;
      ChildrenObjectsEmpty(cs[..n]);
      assert forall i :: 0 <= i < n ==> cs[..n][i] == cs[i];
    }
  }

  // The loop steps of GetAll and GetNearby, each stated as the one equation
  // the loop invariant needs.

  lemma AppendChildPayloads<T>(r0: seq<T>, cs: seq<Tree<T>>, i: nat)
    requires i < |cs|
    ensures r0 + Payloads(ChildrenObjects(cs[..i])) + Payloads(AllObjects(cs[i])) ==
            r0 + Payloads(ChildrenObjects(cs[..i + 1]))
  {
    ChildrenObjectsStep(cs, i);
    PayloadsAppend(ChildrenObjects(cs[..i]), AllObjects(cs[i]));
  }

  lemma WholePrefix<X>(s: seq<X>)
    ensures s[..|s|] == s
  {
  }

  lemma PayloadsConcat<T>(r0: seq<T>, a: seq<OctreeObject<T>>, b: seq<OctreeObject<T>>)
    ensures r0 + Payloads(a) + Payloads(b) == r0 + Payloads(a + b)
  {
    PayloadsAppend(a, b);
  }

  lemma AllPayloads<T>(result: seq<T>, t: Tree<T>)
    ensures result + Payloads(t.objects) + Payloads(ChildrenObjects(t.children[..|t.children|])) ==
            result + Payloads(AllObjects(t))
  {
    WholePrefix(t.children);
    PayloadsConcat(result, t.objects, ChildrenObjects(t.children));
  }

  lemma AppendSelected<T>(r0: seq<T>, objs: seq<OctreeObject<T>>, i: nat, keep: OctreeObject<T> -> bool)
    requires i < |objs|
    ensures r0 + Payloads(Select(objs[..i], keep)) + (if keep(objs[i]) then [objs[i].obj] else []) ==
            r0 + Payloads(Select(objs[..i + 1], keep))
  {
    SelectStep(objs, i, keep);
    PayloadsAppend(Select(objs[..i], keep), if keep(objs[i]) then [objs[i]] else []);
  }

  lemma AppendChildNearbyPoint<T>(r0: seq<T>, cs: seq<Tree<T>>, i: nat, position: Vec3, maxDistance: real)
    requires i < |cs|
    ensures r0 + Payloads(ChildrenNearbyPoint(cs[..i], position, maxDistance)) + Payloads(NearbyPoint(cs[i], position, maxDistance)) ==
            r0 + Payloads(ChildrenNearbyPoint(cs[..i + 1], position, maxDistance))
  {
    ChildrenNearbyPointStep(cs, i, position, maxDistance);
    PayloadsAppend(ChildrenNearbyPoint(cs[..i], position, maxDistance), NearbyPoint(cs[i], position, maxDistance));
  }

  lemma NearbyPointUnfold<T>(t: Tree<T>, position: Vec3, maxDistance: real)
    requires SqrMagnitude(Minus(BoundsOf(t).ClosestPoint(position), position)) <= maxDistance * maxDistance
    ensures NearbyPoint(t, position, maxDistance) ==
            Select(t.objects, NearPoint(position, maxDistance)) + ChildrenNearbyPoint(t.children, position, maxDistance)
  {
  }

  lemma NearbyPointParts<T>(result: seq<T>, t: Tree<T>, position: Vec3, maxDistance: real)
    ensures result + Payloads(Select(t.objects[..|t.objects|], NearPoint(position, maxDistance))) +
            Payloads(ChildrenNearbyPoint(t.children[..|t.children|], position, maxDistance)) ==
            result + Payloads(Select(t.objects, NearPoint(position, maxDistance)) + ChildrenNearbyPoint(t.children, position, maxDistance))
  {
    WholePrefix(t.objects);
    WholePrefix(t.children);
    PayloadsConcat(result, Select(t.objects, NearPoint(position, maxDistance)), ChildrenNearbyPoint(t.children, position, maxDistance));
  }

  lemma NearbyPointPayloads<T>(result: seq<T>, t: Tree<T>, position: Vec3, maxDistance: real)
    requires SqrMagnitude(Minus(BoundsOf(t).ClosestPoint(position), position)) <= maxDistance * maxDistance
    ensures result + Payloads(Select(t.objects[..|t.objects|], NearPoint(position, maxDistance))) +
            Payloads(ChildrenNearbyPoint(t.children[..|t.children|], position, maxDistance)) ==
            result + Payloads(NearbyPoint(t, position, maxDistance))
  {
    NearbyPointParts(result, t, position, maxDistance);
    NearbyPointUnfold(t, position, maxDistance);
  }

  lemma AppendChildNearbyRay<T>(r0: seq<T>, cs: seq<Tree<T>>, i: nat, ray: Ray, maxDistance: real, intersects: (Bounds, Ray) -> bool)
    requires i < |cs|
    ensures r0 + Payloads(ChildrenNearbyRay(cs[..i], ray, maxDistance, intersects)) + Payloads(NearbyRay(cs[i], ray, maxDistance, intersects)) ==
            r0 + Payloads(ChildrenNearbyRay(cs[..i + 1], ray, maxDistance, intersects))
  {
    ChildrenNearbyRayStep(cs, i, ray, maxDistance, intersects);
    PayloadsAppend(ChildrenNearbyRay(cs[..i], ray, maxDistance, intersects), NearbyRay(cs[i], ray, maxDistance, intersects));
  }

  lemma NearbyRayUnfold<T>(t: Tree<T>, ray: Ray, maxDistance: real, intersects: (Bounds, Ray) -> bool)
    requires intersects(RayTestBounds(t, maxDistance), ray)
    ensures NearbyRay(t, ray, maxDistance, intersects) ==
            Select(t.objects, NearRay(ray, maxDistance)) + ChildrenNearbyRay(t.children, ray, maxDistance, intersects)
  {
  }

  lemma NearbyRayParts<T>(result: seq<T>, t: Tree<T>, ray: Ray, maxDistance: real, intersects: (Bounds, Ray) -> bool)
    ensures result + Payloads(Select(t.objects[..|t.objects|], NearRay(ray, maxDistance))) +
            Payloads(ChildrenNearbyRay(t.children[..|t.children|], ray, maxDistance, intersects)) ==
            result + Payloads(Select(t.objects, NearRay(ray, maxDistance)) + ChildrenNearbyRay(t.children, ray, maxDistance, intersects))
  {
    WholePrefix(t.objects);
    WholePrefix(t.children);
    PayloadsConcat(result, Select(t.objects, NearRay(ray, maxDistance)), ChildrenNearbyRay(t.children, ray, maxDistance, intersects));
  }

  lemma NearbyRayPayloads<T>(result: seq<T>, t: Tree<T>, ray: Ray, maxDistance: real, intersects: (Bounds, Ray) -> bool)
    requires intersects(RayTestBounds(t, maxDistance), ray)
    ensures result + Payloads(Select(t.objects[..|t.objects|], NearRay(ray, maxDistance))) +
            Payloads(ChildrenNearbyRay(t.children[..|t.children|], ray, maxDistance, intersects)) ==
            result + Payloads(NearbyRay(t, ray, maxDistance, intersects))
  {
    NearbyRayParts(result, t, ray, maxDistance, intersects);
    NearbyRayUnfold(t, ray, maxDistance, intersects);
  }
}
