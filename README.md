# Adaptive point octree (OctreeNode&lt;T&gt;) in Dafny

This project models `OctreeNode<T>` from the point-cloud infrastructure: a
recursive spatial index whose nodes are axis-aligned cubes. Each node stores
`(payload, position)` objects. A leaf splits lazily into eight octant children
once it holds `NUM_OBJECTS_ALLOWED` (8) objects, unless the halved side would
drop below the tree-wide `minSize`. After a successful removal, a node whose
subtree has become sparse merges its children back. There are three queries:
enumerate everything, everything near a point, and everything near a ray. The
root can be contracted to one octant when all content sits there.

The model has two layers.

* `OctreeModel` (`octree_model.dfy`) describes a node and its subtree as an
  immutable `Tree<T>` value, `[]` standing for a null child array. Every
  operation of the class is a function that makes the same decisions the
  C# code does, in the same order, with the same constants and tie-breaks.
* `OctreeNodes.OctreeNode<T>` (`octree_node.dfy`) is the class itself.
  * Its fields are those of the C# class. `children` is a `seq` of nodes and
    `childBounds` a `seq<Bounds>`.
  * The methods update them in place, with the source's loops and their
    invariants.
  * A ghost field `model` holds the node's `Tree<T>` value. `Valid()` ties
    the fields to it, and uses the `Repr` footprints to keep the children
    disjoint.
  * Every mutating method is proved to change `model` exactly as the
    matching `OctreeModel` function says. Every query proves that it
    returns `result` followed by what the matching model function selects.

The properties are lemmas about the value layer:

* `TreeInvariants` defines the invariants.
* `InsertLemmas`, `RemoveLemmas`, `QueryLemmas` and `ShrinkLemmas` prove
  them, including:
  * the multiset of stored objects;
  * containment in the bounds;
  * no local objects at a node with children;
  * objects placed on their best-fit path;
  * query exactness;
  * the safety of shrinking.
* `OctantLemmas` covers the octant numbering.
* `Geometry` is the part of Unity's Vector3/Bounds/Ray that the octree uses,
  over the reals.

## Model

| member | source | states |
|---|---|---|
| OctreeModel.BestFitChild | Unity/Assets/Framework/Infrastructure/PointCloud/PointcloudOctree/OctreeNode.cs:337-340 | the octant index of a position is always one of 0..7 |
| OctantLemmas.BestFitChildAxes | Unity/Assets/Framework/Infrastructure/PointCloud/PointcloudOctree/OctreeNode.cs:337-340 | bit 0 of the index is set iff x > centre.x, index >= 4 iff y < centre.y, bit 1 iff z > centre.z (points on a splitting plane go to x-low, y-high, z-low) |
| OctantLemmas.ChildCenterTable | Unity/Assets/Framework/Infrastructure/PointCloud/PointcloudOctree/OctreeNode.cs:496-503 | the eight child centres are the centre offset by (±q, ±q, ±q), q = side/4, in the eight sign patterns Split writes out |
| OctreeModel.ChildBounds | Unity/Assets/Framework/Infrastructure/PointCloud/PointcloudOctree/OctreeNode.cs:396-404 | there are exactly eight child boxes |
| OctantLemmas.SplitMatchesChildBounds | Unity/Assets/Framework/Infrastructure/PointCloud/PointcloudOctree/OctreeNode.cs:397-404 | child i created by Split has exactly the box childBounds[i] and the parent's minSize |
| OctantLemmas.BestFitInChildBounds | Unity/Assets/Framework/Infrastructure/PointCloud/PointcloudOctree/OctreeNode.cs:337-340 | a position inside the parent cube lies inside the child box of its best-fit octant |
| OctantLemmas.ChildBoxInside | Unity/Assets/Framework/Infrastructure/PointCloud/PointcloudOctree/OctreeNode.cs:397-404 | every point of a child box lies in the parent cube |
| OctreeModel.Split | Unity/Assets/Framework/Infrastructure/PointCloud/PointcloudOctree/OctreeNode.cs:491-504 | Split yields eight well-formed children on the octants of the node, all empty and childless |
| OctreeModel.SubAdd | Unity/Assets/Framework/Infrastructure/PointCloud/PointcloudOctree/OctreeNode.cs:410-453 | insertion keeps the tree well formed (none or eight octant children, children only where half the side is at least minSize) and keeps the node's geometry |
| OctreeModel.SplitNode | Unity/Assets/Framework/Infrastructure/PointCloud/PointcloudOctree/OctreeNode.cs:428-447 | the split branch leaves a well-formed node of the same geometry that has children |
| OctreeModel.Distribute | Unity/Assets/Framework/Infrastructure/PointCloud/PointcloudOctree/OctreeNode.cs:438-446 | the redistribution loop keeps eight well-formed octant children |
| OctreeModel.LevelsHalve | Unity/Assets/Framework/Infrastructure/PointCloud/PointcloudOctree/OctreeNode.cs:419 | a child that may exist (half side >= minSize) has strictly fewer remaining split levels, so insertion terminates |
| OctreeModel.FirstMatch | Unity/Assets/Framework/Infrastructure/PointCloud/PointcloudOctree/OctreeNode.cs:75-82 | the index of the first object whose payload equals x, or -1 exactly when none does |
| OctreeModel.MergeIfSparse | Unity/Assets/Framework/Infrastructure/PointCloud/PointcloudOctree/OctreeNode.cs:93-100 | the merge check keeps the tree well formed and the geometry unchanged |
| OctreeModel.Remove | Unity/Assets/Framework/Infrastructure/PointCloud/PointcloudOctree/OctreeNode.cs:71-103 | Remove(obj) keeps the tree well formed, and a failed removal leaves the tree unchanged |
| OctreeModel.RemoveFromChildren | Unity/Assets/Framework/Infrastructure/PointCloud/PointcloudOctree/OctreeNode.cs:84-91 | the child loop keeps eight octant children, and changes nothing when no child removes |
| OctreeModel.SubRemove | Unity/Assets/Framework/Infrastructure/PointCloud/PointcloudOctree/OctreeNode.cs:457-486 | SubRemove keeps the tree well formed, and a failed removal leaves it unchanged |
| OctreeModel.RemoveWithPosition | Unity/Assets/Framework/Infrastructure/PointCloud/PointcloudOctree/OctreeNode.cs:106-113 | Remove(obj, pos) keeps the tree well formed, and a failed removal leaves it unchanged |
| OctreeModel.HasContentIff | Unity/Assets/Framework/Infrastructure/PointCloud/PointcloudOctree/OctreeNode.cs:346-359 | the recursion of HasAnyObjects holds exactly when the subtree stores at least one object |
| OctreeModel.FirstNonEmpty | Unity/Assets/Framework/Infrastructure/PointCloud/PointcloudOctree/OctreeNode.cs:300-320 | the first child at or after an index whose subtree holds content, every child before it being empty |
| OctreeModel.ShrinkWithChildren | Unity/Assets/Framework/Infrastructure/PointCloud/PointcloudOctree/OctreeNode.cs:300-332 | for a node with children, the outcome of the child scan decides Shrink: the picked child, or the node itself |
| OctreeModel.Encapsulates | Unity/Assets/Framework/Infrastructure/PointCloud/PointcloudOctree/OctreeNode.cs:533-536 | the bounds test of Add and Remove(obj, pos): Unity's Bounds.Contains, inclusive on every face (Geometry.Bounds.Contains) |
| OctreeModel.ChildCenter | Unity/Assets/Framework/Infrastructure/PointCloud/PointcloudOctree/OctreeNode.cs:396-404 | the centre of octant i: the node centre moved a quarter side on every axis: towards +x for odd i (else -x), +y for i < 4 (else -y), +z when bit 1 of i is set (else -z); OctantLemmas.ChildCenterTable shows these are the eight literal offsets of SetValues and Split |
| OctreeModel.SqrDistanceToRay | Unity/Assets/Framework/Infrastructure/PointCloud/PointcloudOctree/OctreeNode.cs:566-569 | the ray filter, the squared length of direction x (point - origin); QueryLemmas.SqrDistanceToRayOfUnitRay and QueryLemmas.UnitRayLineNoNearer prove it is the squared distance to the ray's infinite line when the direction has length 1 |
| OctreeModel.Add | Unity/Assets/Framework/Infrastructure/PointCloud/PointcloudOctree/OctreeNode.cs:59-67 | rejects (false, tree unchanged) a position the bounds do not contain, otherwise SubAdd and true; InsertLemmas.AddContents proves the success condition and the change of contents |
| OctreeModel.AllObjects | Unity/Assets/Framework/Infrastructure/PointCloud/PointcloudOctree/OctreeNode.cs:190-203 | every stored object of the subtree in GetAll's order: the node's own list, then each child's subtree in index order; OctreeNode.GetAll is proved to return exactly their payloads |
| OctreeModel.HasContent | Unity/Assets/Framework/Infrastructure/PointCloud/PointcloudOctree/OctreeNode.cs:346-359 | HasAnyObjects' recursion: a local object, or some child holding content; OctreeModel.HasContentIff proves it equals AllObjects(t) != [] |
| OctreeModel.ShouldMerge | Unity/Assets/Framework/Infrastructure/PointCloud/PointcloudOctree/OctreeNode.cs:542-559 | no child has children and the node plus its children hold at most NUM_OBJECTS_ALLOWED objects; OctreeNode.ShouldMerge is proved equivalent to the early-exit loop, RemoveLemmas.MergeIfSparseDense that it keeps Dense |
| OctreeModel.Merge | Unity/Assets/Framework/Infrastructure/PointCloud/PointcloudOctree/OctreeNode.cs:511-526 | the node's own objects followed by each child's objects read last to first, children dropped; RemoveLemmas.MergeContents proves the multiset is kept and the result is a leaf |
| OctreeModel.NearbyPoint | Unity/Assets/Framework/Infrastructure/PointCloud/PointcloudOctree/OctreeNode.cs:148-187 | skip the node when its closest point is farther than maxDistance from position, else keep its objects within maxDistance (boundary included) and visit the children; QueryLemmas.NearbyPointExact proves it is exactly the stored objects within maxDistance |
| OctreeModel.ChildrenNearbyPoint | Unity/Assets/Framework/Infrastructure/PointCloud/PointcloudOctree/OctreeNode.cs:179-186 | the point query of the children concatenated in index order; QueryLemmas.ChildrenNearbyPointExact proves it exact |
| OctreeModel.RayTestBounds | Unity/Assets/Framework/Infrastructure/PointCloud/PointcloudOctree/OctreeNode.cs:118-122 | the node's cube grown by 2*maxDistance on every axis, the box the ray hit test sees |
| OctreeModel.NearbyRay | Unity/Assets/Framework/Infrastructure/PointCloud/PointcloudOctree/OctreeNode.cs:116-145 | skip the node when intersects rejects its grown box, else keep its objects passing the ray filter and visit the children; QueryLemmas.NearbyRaySound and QueryLemmas.NearbyRayUnpruned prove soundness and exactness without pruning |
| OctreeModel.ChildrenNearbyRay | Unity/Assets/Framework/Infrastructure/PointCloud/PointcloudOctree/OctreeNode.cs:137-144 | the ray query of the children concatenated in index order; QueryLemmas.ChildrenNearbyRaySound and ChildrenNearbyRayUnpruned |
| OctreeModel.Shrink | Unity/Assets/Framework/Infrastructure/PointCloud/PointcloudOctree/OctreeNode.cs:270-333 | the node itself when narrower than 2*minLength, empty, or its content is not in one octant; else a leaf halved around its objects' octant or the one child holding content; ShrinkLemmas prove it keeps the contents (on tidy trees), the invariants, Dense and every object inside the new root |
| OctreeNodes.OctreeNode.constructor | Unity/Assets/Framework/Infrastructure/PointCloud/PointcloudOctree/OctreeNode.cs:54-57 | a new node is a valid empty leaf with the given side, minimum size and centre |
| OctreeNodes.OctreeNode.SetValues | Unity/Assets/Framework/Infrastructure/PointCloud/PointcloudOctree/OctreeNode.cs:383-405 | the side, minSize and centre are set; bounds is the cube they span; childBounds holds the eight octant boxes; objects and children are unchanged |
| OctreeNodes.OctreeNode.ReplaceObjects | Unity/Assets/Framework/Infrastructure/PointCloud/PointcloudOctree/OctreeNode.cs:422 | the node's own object list becomes the given one, and nothing else changes |
| OctreeNodes.OctreeNode.Add | Unity/Assets/Framework/Infrastructure/PointCloud/PointcloudOctree/OctreeNode.cs:59-67 | result and new tree are those of OctreeModel.Add; a rejected position changes no object |
| OctreeNodes.OctreeNode.SubAdd | Unity/Assets/Framework/Infrastructure/PointCloud/PointcloudOctree/OctreeNode.cs:410-453 | the subtree becomes OctreeModel.SubAdd of the old one, and nodes are only ever added to the footprint |
| OctreeNodes.OctreeNode.SplitAndDistribute | Unity/Assets/Framework/Infrastructure/PointCloud/PointcloudOctree/OctreeNode.cs:428-446 | after Split and the downward loop, the node holds no objects, and its children are Distribute of the old objects (last first) into the fresh octants |
| OctreeNodes.OctreeNode.ChildSubAdd | Unity/Assets/Framework/Infrastructure/PointCloud/PointcloudOctree/OctreeNode.cs:450-452 | only child b changes, to SubAdd of its old value |
| OctreeNodes.OctreeNode.Split | Unity/Assets/Framework/Infrastructure/PointCloud/PointcloudOctree/OctreeNode.cs:491-504 | the node gains the eight fresh empty octant children of OctreeModel.Split |
| OctreeNodes.OctreeNode.NewChildren | Unity/Assets/Framework/Infrastructure/PointCloud/PointcloudOctree/OctreeNode.cs:495-503 | eight distinct fresh valid empty nodes, node j centred on octant j with half the side |
| OctreeNodes.OctreeNode.SetChildren | Unity/Assets/Framework/Infrastructure/PointCloud/PointcloudOctree/OctreeNode.cs:206-215 | an array whose length is not 8 changes nothing; otherwise the given nodes become the children and the node's objects are kept |
| OctreeNodes.OctreeNode.FindObject | Unity/Assets/Framework/Infrastructure/PointCloud/PointcloudOctree/OctreeNode.cs:75-82 | the scan returns the index of the first local object with payload obj, or -1 |
| OctreeNodes.OctreeNode.Remove | Unity/Assets/Framework/Infrastructure/PointCloud/PointcloudOctree/OctreeNode.cs:71-103 | result and new tree are those of OctreeModel.Remove; a failed removal changes nothing |
| OctreeNodes.OctreeNode.RemoveInChildren | Unity/Assets/Framework/Infrastructure/PointCloud/PointcloudOctree/OctreeNode.cs:84-91 | the loop over the children ends where RemoveFromChildren says: the first child that removes is replaced by its new value |
| OctreeNodes.OctreeNode.ChildRemove | Unity/Assets/Framework/Infrastructure/PointCloud/PointcloudOctree/OctreeNode.cs:88 | one step of that loop: child k becomes what Remove makes of it |
| OctreeNodes.OctreeNode.SubRemove | Unity/Assets/Framework/Infrastructure/PointCloud/PointcloudOctree/OctreeNode.cs:457-486 | result and new tree are those of OctreeModel.SubRemove; a failed removal changes nothing |
| OctreeNodes.OctreeNode.SubRemoveInChild | Unity/Assets/Framework/Infrastructure/PointCloud/PointcloudOctree/OctreeNode.cs:470-474 | only the best-fit child of objPos is asked, and only it changes |
| OctreeNodes.OctreeNode.RemoveWithPosition | Unity/Assets/Framework/Infrastructure/PointCloud/PointcloudOctree/OctreeNode.cs:106-113 | result and new tree are those of OctreeModel.RemoveWithPosition; a position outside the bounds changes nothing |
| OctreeNodes.OctreeNode.MergeIfSparse | Unity/Assets/Framework/Infrastructure/PointCloud/PointcloudOctree/OctreeNode.cs:93-100 | the node merges exactly when ShouldMerge holds |
| OctreeNodes.OctreeNode.ShouldMerge | Unity/Assets/Framework/Infrastructure/PointCloud/PointcloudOctree/OctreeNode.cs:542-559 | true iff no child has children and the node and its children hold at most NUM_OBJECTS_ALLOWED objects together |
| OctreeNodes.OctreeNode.Merge | Unity/Assets/Framework/Infrastructure/PointCloud/PointcloudOctree/OctreeNode.cs:511-526 | the node's objects are followed by every child's objects, each child's from last to first, and the node becomes a leaf that owns only itself |
| OctreeNodes.OctreeNode.AppendReversed | Unity/Assets/Framework/Infrastructure/PointCloud/PointcloudOctree/OctreeNode.cs:518-522 | the downward inner loop appends objs in reverse order |
| OctreeNodes.OctreeNode.DropChildren | Unity/Assets/Framework/Infrastructure/PointCloud/PointcloudOctree/OctreeNode.cs:525 | children becomes null ([]), and the collected objects stay |
| OctreeNodes.OctreeNode.ShrinkIfPossible | Unity/Assets/Framework/Infrastructure/PointCloud/PointcloudOctree/OctreeNode.cs:270-333 | the returned root is this node or one of its children, is valid, and its tree is OctreeModel.Shrink of the old tree |
| OctreeNodes.OctreeNode.ShrinkToChild | Unity/Assets/Framework/Infrastructure/PointCloud/PointcloudOctree/OctreeNode.cs:300-332 | with children, the result is the single child holding content when the scan allows it, else this node |
| OctreeNodes.OctreeNode.HalveAround | Unity/Assets/Framework/Infrastructure/PointCloud/PointcloudOctree/OctreeNode.cs:323-329 | a childless node takes half its side and the centre of childBounds[b]; its objects are unchanged |
| OctreeNodes.OctreeNode.LocalOctant | Unity/Assets/Framework/Infrastructure/PointCloud/PointcloudOctree/OctreeNode.cs:281-298 | the loop succeeds iff every local object has the octant of the first, and then reports that octant (-1 when there are no objects) |
| OctreeNodes.OctreeNode.ContentOctant | Unity/Assets/Framework/Infrastructure/PointCloud/PointcloudOctree/OctreeNode.cs:300-320 | the child loop succeeds iff no child holds content, or exactly one does and it agrees with the local octant; it then reports the octant to keep |
| OctreeNodes.OctreeNode.HasAnyObjects | Unity/Assets/Framework/Infrastructure/PointCloud/PointcloudOctree/OctreeNode.cs:346-359 | true iff the node or some node below it holds an object |
| OctreeNodes.OctreeNode.GetAll | Unity/Assets/Framework/Infrastructure/PointCloud/PointcloudOctree/OctreeNode.cs:190-203 | the result is the old result list followed by the payloads of the whole subtree |
| OctreeNodes.OctreeNode.GetNearby | Unity/Assets/Framework/Infrastructure/PointCloud/PointcloudOctree/OctreeNode.cs:148-187 | the result is the old result list followed by the payloads NearbyPoint selects |
| OctreeNodes.OctreeNode.GetNearbyInChildren | Unity/Assets/Framework/Infrastructure/PointCloud/PointcloudOctree/OctreeNode.cs:179-186 | the children are queried in index order, each appending its own selection |
| OctreeNodes.OctreeNode.GetNearbyRay | Unity/Assets/Framework/Infrastructure/PointCloud/PointcloudOctree/OctreeNode.cs:116-145 | the result is the old result list followed by the payloads NearbyRay selects, and no node ends up changed |
| OctreeNodes.OctreeNode.HitsGrownBounds | Unity/Assets/Framework/Infrastructure/PointCloud/PointcloudOctree/OctreeNode.cs:118-122 | the hit test sees the bounds grown by 2*maxDistance per axis, and the node's bounds are restored afterwards |
| OctreeNodes.OctreeNode.GetNearbyRayInChildren | Unity/Assets/Framework/Infrastructure/PointCloud/PointcloudOctree/OctreeNode.cs:137-144 | the children are queried in index order, no node changing |
| TreeInvariants.EmptyTreeInvariant | Unity/Assets/Framework/Infrastructure/PointCloud/PointcloudOctree/OctreeNode.cs:54-57 | a newly constructed empty leaf satisfies every invariant, Dense included |
| TreeInvariants.AllInBox | Unity/Assets/Framework/Infrastructure/PointCloud/PointcloudOctree/OctreeNode.cs:59-67 | with InBounds, every object stored anywhere in a subtree lies in the subtree root's cube |
| TreeInvariants.ReversedContents | Unity/Assets/Framework/Infrastructure/PointCloud/PointcloudOctree/OctreeNode.cs:518-522 | reading a list backwards keeps its multiset |
| TreeInvariants.RemoveAtContents | Unity/Assets/Framework/Infrastructure/PointCloud/PointcloudOctree/OctreeNode.cs:79 | removing index k takes exactly that one object out of the multiset |
| TreeInvariants.FirstMatchAfter | Unity/Assets/Framework/Infrastructure/PointCloud/PointcloudOctree/OctreeNode.cs:84-91 | searching a + b when a has no match finds b's first match, shifted by the length of a |
| InsertLemmas.AddContents | Unity/Assets/Framework/Infrastructure/PointCloud/PointcloudOctree/OctreeNode.cs:59-67 | Add succeeds iff the position is inside the bounds; on failure the tree is unchanged; on success the multiset of stored objects grows by exactly (obj, pos) |
| InsertLemmas.SubAddContents | Unity/Assets/Framework/Infrastructure/PointCloud/PointcloudOctree/OctreeNode.cs:410-453 | SubAdd grows the multiset of the subtree by exactly the new object |
| InsertLemmas.SplitContents | Unity/Assets/Framework/Infrastructure/PointCloud/PointcloudOctree/OctreeNode.cs:428-447 | splitting and moving the objects down keeps the multiset |
| InsertLemmas.DistributeContents | Unity/Assets/Framework/Infrastructure/PointCloud/PointcloudOctree/OctreeNode.cs:438-446 | the redistribution loop adds exactly the moved objects to the children |
| InsertLemmas.SubAddMembers | Unity/Assets/Framework/Infrastructure/PointCloud/PointcloudOctree/OctreeNode.cs:410-453 | after SubAdd an object is stored iff it was stored before or is the new one |
| InsertLemmas.SubAddCount | Unity/Assets/Framework/Infrastructure/PointCloud/PointcloudOctree/OctreeNode.cs:410-453 | SubAdd adds exactly one stored object |
| InsertLemmas.SubAddInBounds | Unity/Assets/Framework/Infrastructure/PointCloud/PointcloudOctree/OctreeNode.cs:410-453 | inserting a position inside the cube keeps every object inside the cube of its node |
| InsertLemmas.SplitInBounds | Unity/Assets/Framework/Infrastructure/PointCloud/PointcloudOctree/OctreeNode.cs:428-447 | the objects moved down lie in their children's cubes |
| InsertLemmas.DistributeInBounds | Unity/Assets/Framework/Infrastructure/PointCloud/PointcloudOctree/OctreeNode.cs:438-446 | the redistribution loop keeps every child InBounds |
| InsertLemmas.SubAddTidy | Unity/Assets/Framework/Infrastructure/PointCloud/PointcloudOctree/OctreeNode.cs:416-453 | insertion keeps "a node with children holds no local objects" |
| InsertLemmas.SplitTidy | Unity/Assets/Framework/Infrastructure/PointCloud/PointcloudOctree/OctreeNode.cs:428-447 | the split node's own list is empty and its children are tidy |
| InsertLemmas.DistributeTidy | Unity/Assets/Framework/Infrastructure/PointCloud/PointcloudOctree/OctreeNode.cs:438-446 | the redistribution loop keeps the children tidy |
| InsertLemmas.SubAddCapacity | Unity/Assets/Framework/Infrastructure/PointCloud/PointcloudOctree/OctreeNode.cs:416-424 | a leaf that could still split never holds more than NUM_OBJECTS_ALLOWED objects |
| InsertLemmas.SplitCapacity | Unity/Assets/Framework/Infrastructure/PointCloud/PointcloudOctree/OctreeNode.cs:428-447 | the children made by a split respect the capacity |
| InsertLemmas.DistributeCapacity | Unity/Assets/Framework/Infrastructure/PointCloud/PointcloudOctree/OctreeNode.cs:438-446 | the redistribution loop keeps every child within capacity |
| InsertLemmas.SubAddPlaced | Unity/Assets/Framework/Infrastructure/PointCloud/PointcloudOctree/OctreeNode.cs:450-452 | every object below child i of a node has best-fit octant i there, after insertion too |
| InsertLemmas.SplitPlaced | Unity/Assets/Framework/Infrastructure/PointCloud/PointcloudOctree/OctreeNode.cs:428-447 | the objects moved down sit in their best-fit children |
| InsertLemmas.DistributePlaced | Unity/Assets/Framework/Infrastructure/PointCloud/PointcloudOctree/OctreeNode.cs:443-444 | the redistribution loop hands each object to its best-fit child |
| InsertLemmas.AddKeepsInvariant | Unity/Assets/Framework/Infrastructure/PointCloud/PointcloudOctree/OctreeNode.cs:59-67 | Add keeps WellFormed, InBounds, Tidy, Placed and Capacity |
| InsertLemmas.SubAddDense | Unity/Assets/Framework/Infrastructure/PointCloud/PointcloudOctree/OctreeNode.cs:416-453 | insertion keeps "a node has children only while its subtree holds more than NUM_OBJECTS_ALLOWED objects" |
| InsertLemmas.SplitDense | Unity/Assets/Framework/Infrastructure/PointCloud/PointcloudOctree/OctreeNode.cs:428-447 | the children made by a split are Dense |
| InsertLemmas.DistributeDense | Unity/Assets/Framework/Infrastructure/PointCloud/PointcloudOctree/OctreeNode.cs:438-446 | the redistribution loop keeps the children Dense |
| InsertLemmas.AddKeepsDense | Unity/Assets/Framework/Infrastructure/PointCloud/PointcloudOctree/OctreeNode.cs:59-67 | Add keeps Dense |
| RemoveLemmas.MergedObjectsContents | Unity/Assets/Framework/Infrastructure/PointCloud/PointcloudOctree/OctreeNode.cs:514-523 | the objects Merge collects from childless children are, as a multiset, exactly the children's objects |
| RemoveLemmas.MergeContents | Unity/Assets/Framework/Infrastructure/PointCloud/PointcloudOctree/OctreeNode.cs:511-526 | without grandchildren, Merge leaves a leaf holding the same multiset of objects |
| RemoveLemmas.MergeIfSparseContents | Unity/Assets/Framework/Infrastructure/PointCloud/PointcloudOctree/OctreeNode.cs:93-100 | the merge check never changes the multiset of stored objects |
| RemoveLemmas.RemoveContents | Unity/Assets/Framework/Infrastructure/PointCloud/PointcloudOctree/OctreeNode.cs:71-103 | Remove(obj) succeeds iff some stored object carries obj; it then removes exactly one object, the first carrying obj in GetAll order |
| RemoveLemmas.RemoveFromChildrenContents | Unity/Assets/Framework/Infrastructure/PointCloud/PointcloudOctree/OctreeNode.cs:84-91 | the child loop removes iff some child's subtree holds obj, and then removes the first such object |
| RemoveLemmas.SubRemoveContents | Unity/Assets/Framework/Infrastructure/PointCloud/PointcloudOctree/OctreeNode.cs:457-486 | SubRemove succeeds iff an object on the best-fit path of pos carries obj; it then removes exactly the first such object of the path |
| RemoveLemmas.RemoveWithPositionContents | Unity/Assets/Framework/Infrastructure/PointCloud/PointcloudOctree/OctreeNode.cs:106-113 | Remove(obj, pos) succeeds iff pos is in the bounds and obj is on the best-fit path of pos; it then removes exactly one object |
| RemoveLemmas.PlacedOnPath | Unity/Assets/Framework/Infrastructure/PointCloud/PointcloudOctree/OctreeNode.cs:472-473 | in a Placed tree every stored object lies on the best-fit path of its own position |
| RemoveLemmas.RemoveWithPositionFinds | Unity/Assets/Framework/Infrastructure/PointCloud/PointcloudOctree/OctreeNode.cs:106-113 | in a tree keeping the invariant, Remove(obj, pos) succeeds for every stored (obj, pos) |
| RemoveLemmas.LocalRemoveKeeps | Unity/Assets/Framework/Infrastructure/PointCloud/PointcloudOctree/OctreeNode.cs:75-82 | removing one local object keeps the invariant |
| RemoveLemmas.MergeIfSparseKeeps | Unity/Assets/Framework/Infrastructure/PointCloud/PointcloudOctree/OctreeNode.cs:93-100 | the merge check keeps the invariant |
| RemoveLemmas.ReplaceChildKeeps | Unity/Assets/Framework/Infrastructure/PointCloud/PointcloudOctree/OctreeNode.cs:470-474 | replacing a child by one that keeps the invariant and holds a sub-multiset of its objects keeps the parent's invariant |
| RemoveLemmas.RemoveKeepsInvariant | Unity/Assets/Framework/Infrastructure/PointCloud/PointcloudOctree/OctreeNode.cs:71-103 | Remove(obj) keeps WellFormed, InBounds, Tidy, Placed and Capacity |
| RemoveLemmas.RemoveFromChildrenKeeps | Unity/Assets/Framework/Infrastructure/PointCloud/PointcloudOctree/OctreeNode.cs:84-91 | the child loop keeps the invariant |
| RemoveLemmas.SubRemoveKeepsInvariant | Unity/Assets/Framework/Infrastructure/PointCloud/PointcloudOctree/OctreeNode.cs:457-486 | SubRemove keeps the invariant |
| RemoveLemmas.RemoveWithPositionKeepsInvariant | Unity/Assets/Framework/Infrastructure/PointCloud/PointcloudOctree/OctreeNode.cs:106-113 | Remove(obj, pos) keeps the invariant |
| RemoveLemmas.MergeIfSparseDense | Unity/Assets/Framework/Infrastructure/PointCloud/PointcloudOctree/OctreeNode.cs:542-559 | with Dense children, the merge check leaves a Dense node: the node either merges or still holds more than NUM_OBJECTS_ALLOWED objects |
| RemoveLemmas.RemoveKeepsDense | Unity/Assets/Framework/Infrastructure/PointCloud/PointcloudOctree/OctreeNode.cs:71-103 | Remove(obj) keeps Dense |
| RemoveLemmas.RemoveFromChildrenDense | Unity/Assets/Framework/Infrastructure/PointCloud/PointcloudOctree/OctreeNode.cs:84-91 | the child loop keeps every child Dense |
| RemoveLemmas.SubRemoveKeepsDense | Unity/Assets/Framework/Infrastructure/PointCloud/PointcloudOctree/OctreeNode.cs:457-486 | SubRemove keeps Dense |
| RemoveLemmas.RemoveWithPositionKeepsDense | Unity/Assets/Framework/Infrastructure/PointCloud/PointcloudOctree/OctreeNode.cs:106-113 | Remove(obj, pos) keeps Dense |
| QueryLemmas.SelectMembers | Unity/Assets/Framework/Infrastructure/PointCloud/PointcloudOctree/OctreeNode.cs:171-177 | the per-node filter keeps exactly the objects that pass the test |
| QueryLemmas.SelectConcat | Unity/Assets/Framework/Infrastructure/PointCloud/PointcloudOctree/OctreeNode.cs:171-186 | filtering a concatenation is concatenating the filtered parts |
| QueryLemmas.PrunedHoldsNone | Unity/Assets/Framework/Infrastructure/PointCloud/PointcloudOctree/OctreeNode.cs:154-157 | a node whose closest point is farther than maxDistance holds no object within maxDistance, so the prune discards no match |
| QueryLemmas.NearbyPointExact | Unity/Assets/Framework/Infrastructure/PointCloud/PointcloudOctree/OctreeNode.cs:148-187 | with InBounds, GetNearby(position) returns exactly the stored objects within maxDistance (boundary included), in GetAll order |
| QueryLemmas.ChildrenNearbyPointExact | Unity/Assets/Framework/Infrastructure/PointCloud/PointcloudOctree/OctreeNode.cs:179-186 | the children part of that query is exact too |
| QueryLemmas.NearbyRaySound | Unity/Assets/Framework/Infrastructure/PointCloud/PointcloudOctree/OctreeNode.cs:116-145 | every object GetNearby(ray) returns is stored in the subtree and passes the ray filter: the squared length of direction x (pos - origin) is at most maxDistance² |
| QueryLemmas.ChildrenNearbyRaySound | Unity/Assets/Framework/Infrastructure/PointCloud/PointcloudOctree/OctreeNode.cs:137-144 | the same for the children part of the ray query |
| QueryLemmas.NearbyRayUnpruned | Unity/Assets/Framework/Infrastructure/PointCloud/PointcloudOctree/OctreeNode.cs:116-145 | when the box test accepts every box, the ray query returns exactly the stored objects that pass the ray filter |
| QueryLemmas.ChildrenNearbyRayUnpruned | Unity/Assets/Framework/Infrastructure/PointCloud/PointcloudOctree/OctreeNode.cs:137-144 | the same for the children part |
| Geometry.LagrangeIdentity | Unity/Assets/Framework/Infrastructure/PointCloud/PointcloudOctree/OctreeNode.cs:568 | Lagrange's identity: the squared length of d x v is the product of the squared lengths of d and v minus (d·v)², the identity that turns the cross product of the ray filter into a distance |
| Geometry.LinePointDistance | Unity/Assets/Framework/Infrastructure/PointCloud/PointcloudOctree/OctreeNode.cs:568 | the squared distance from v to the point s·d of the line along d, expanded |
| QueryLemmas.SqrDistanceToRayOfUnitRay | Unity/Assets/Framework/Infrastructure/PointCloud/PointcloudOctree/OctreeNode.cs:566-569 | for a unit direction, SqrDistanceToRay is the squared distance from the point to its foot origin + (d·(p - origin))·d on the ray's line |
| QueryLemmas.UnitRayLineNoNearer | Unity/Assets/Framework/Infrastructure/PointCloud/PointcloudOctree/OctreeNode.cs:566-569 | for a unit direction, no point of the ray's infinite line (behind the origin included) is nearer to the point than SqrDistanceToRay says |
| QueryLemmas.NearbyUnitRayNearLine | Unity/Assets/Framework/Infrastructure/PointCloud/PointcloudOctree/OctreeNode.cs:116-145 | for a unit direction, every object the ray query returns is stored in the subtree and lies within maxDistance of the ray's line |
| Geometry.ClosestPointNoFarther | Unity/Assets/Framework/Infrastructure/PointCloud/PointcloudOctree/OctreeNode.cs:154-157 | the clamped closest point of a box is no farther from q than any point of the box |
| Geometry.ClosestPointOfInside | Unity/Assets/Framework/Infrastructure/PointCloud/PointcloudOctree/OctreeNode.cs:154-157 | a query point inside the box is its own closest point, so a node containing it is never pruned |
| ShrinkLemmas.OnlyChildContent | Unity/Assets/Framework/Infrastructure/PointCloud/PointcloudOctree/OctreeNode.cs:300-332 | in a tidy node whose only non-empty child is j, the subtree's objects are exactly child j's |
| ShrinkLemmas.ShrinkContents | Unity/Assets/Framework/Infrastructure/PointCloud/PointcloudOctree/OctreeNode.cs:270-333 | on a tidy tree, shrinking keeps the multiset of stored objects |
| ShrinkLemmas.HalvedInBounds | Unity/Assets/Framework/Infrastructure/PointCloud/PointcloudOctree/OctreeNode.cs:322-328 | a leaf whose objects share one octant, halved around that octant, still contains every object |
| ShrinkLemmas.ShrinkKeepsInvariant | Unity/Assets/Framework/Infrastructure/PointCloud/PointcloudOctree/OctreeNode.cs:270-333 | shrinking keeps WellFormed, InBounds, Tidy, Placed and Capacity |
| ShrinkLemmas.ShrinkKeepsObjectsInside | Unity/Assets/Framework/Infrastructure/PointCloud/PointcloudOctree/OctreeNode.cs:270-333 | every stored object lies inside the bounds of the root that shrinking returns |
| ShrinkLemmas.DenseShrinkDefined | Unity/Assets/Framework/Infrastructure/PointCloud/PointcloudOctree/OctreeNode.cs:332 | in a Dense tree the index read at line 332 is never -1, so shrinking is defined on every tree Add and Remove build |
| ShrinkLemmas.ShrinkKeepsDense | Unity/Assets/Framework/Infrastructure/PointCloud/PointcloudOctree/OctreeNode.cs:270-333 | shrinking keeps Dense |

The comment above Merge (lines 507-509) says that a merge never has to look
below one level. Dense captures this claim: a node has children only while
its subtree holds more than NUM_OBJECTS_ALLOWED objects. `DenseShrinkDefined`
relies on the same fact.

Two behaviours of the code are easy to misread, and the model follows the
code in both:

* The ray query's box test is `Bounds.IntersectRay`, which tests a half-ray.
  A node lying behind the ray origin can therefore be pruned even though
  points in it pass the line-distance filter. So the ray query is not
  free of false negatives. The model proves soundness, and exactness only
  for a box test that accepts everything; it claims no completeness.
* A merge happens at the first successful removal that brings a node and its
  (childless) children down to NUM_OBJECTS_ALLOWED objects or fewer. It does
  not wait for any later removal.

## Left out

- Floating point: coordinates and lengths are reals. Single-precision rounding (of `SideLength / 4f`, of distances, of the clamped closest point) is not modelled.
- `Bounds.IntersectRay` is Unity engine code that is not part of this model. It is the function parameter `intersects` of the ray query; nothing is assumed about it.
- Unity `Vector3`, `Bounds` and `Ray` are modelled only as far as the octree uses them: per-axis inclusive `Contains`, per-axis clamping for `ClosestPoint`, `Expand` adding to the size, and the cross product of the ray filter (see the `Ray` line below).
- The pre-2017 `#else` branch of point `GetNearby` (lines 158-168) is not modelled; only the closest-point prune is.
- `DrawAllBounds`, `DrawAllObjects` and every `Debug.LogError` call are editor-side effects and are not modelled. The commented-out `GetTotalObjects` is not modelled either; `AllObjects` plays its role.
- The error branch at lines 431-435 cannot fire. `Split` always creates the children, so the model has no such branch.
- The result lists of the queries are values: each query takes the caller's list and returns it with the found payloads appended. Aliasing of that list with the tree is not modelled.
- The children array is a `seq` of nodes and `[]` stands for `null`, so the model does not capture aliasing of an array a caller keeps after `SetChildren`.
- `OctreeObject` is a reference type in C#. The model stores it as a value, and `objects.Remove(objects[i])` becomes removal at index i. The two agree because the list holds each of its entries once.
- The loops of `SubAdd`, `Remove`, `SubRemove`, `Merge`, `ShrinkIfPossible` and both `GetNearby` overloads are split into helper methods (`SplitAndDistribute`, `RemoveInChildren`, `AppendReversed`, `LocalOctant`, `ContentOctant`, `GetNearbyInChildren`, ...). Each keeps its loop and its early exits; only the method boundaries differ.
- `Split`'s eight constructor calls are the loop of `NewChildren`. It creates the same eight nodes in the same order.
- OctreeNodes.OctreeNode.constructor: requires `0 < minSizeVal`. With a non-positive minimum size, nine co-located insertions would recurse forever in the source (the guard at line 419 never stops the split). The model needs the bound for termination.
- OctreeNodes.OctreeNode.SetChildren: requires the eight given nodes to be valid, to own disjoint node sets that do not contain this node, and to lie on this node's octants with its minimum size. The source accepts any eight nodes; arbitrary ones would break the shape every other operation relies on.
- OctreeNodes.OctreeNode.ShrinkIfPossible: requires `ShrinkDefined`, which excludes a node at least `2*minLength` wide that has children but no object anywhere. On such a node line 332 reads `children[-1]` and throws. `ShrinkLemmas.DenseShrinkDefined` shows that this never happens on trees built by the constructor, `Add` and `Remove` only.
- ShrinkLemmas.ShrinkContents: requires `Tidy`. When a node with children also holds local objects (possible only after `SetChildren` on a non-empty node), promoting a child drops those objects.
- QueryLemmas.NearbyRaySound: states soundness only; ray-query completeness is not claimed, for the reason given above.
- Concurrency is not modelled. All operations are sequential.
- `Geometry.Ray` accepts any direction, while Unity's `Ray` always normalises its direction. The ray filter `SqrDistanceToRay` is the squared distance to the ray's line only for a unit direction (`QueryLemmas.SqrDistanceToRayOfUnitRay`). For a direction of any other length it is that distance multiplied by the direction's squared length. The query lemmas hold for every direction and speak of the filter itself; `QueryLemmas.NearbyUnitRayNearLine` restates soundness as a distance for unit rays.
- Payload equality is Dafny's `==` on `T`. The source calls `objects[i].Obj.Equals(obj)` on the stored payload (lines 77 and 463). It therefore throws on a null stored payload, and it evaluates a user-defined `Equals` stored-first, which need not be symmetric. Neither null payloads nor custom `Equals` overrides are modelled.
