/** OctreeNode<T> as the mutable object structure of OctreeNode.cs: every
    node is an object with its own fields, children is null or eight
    nodes, and the methods update the nodes in place. The ghost field model
    is the value of a node and its subtree (a Tree of octree_model.dfy);
    Valid() ties it to the fields and to the children's own models, and
    every method is proved to change it exactly as the matching function of
    OctreeModel says. */
module OctreeNodes {
  import opened Geometry
  import opened OctreeModel

  class OctreeNode<T(==)> {
    var center: Vec3
    var sideLength: real
    var minSize: real
    var bounds: Bounds
    var objects: seq<OctreeObject<T>>
    /** The child nodes: [] where the source has null, otherwise eight. */
    var children: seq<OctreeNode<T>>
    var childBounds: seq<Bounds>
    /** The true size of bounds, for restoring it after the ray query grows it. */
    var actualBoundsSize: Vec3

    /** The node and every node below it. */
    ghost var Repr: set<object>
    /** The value of the node and its subtree. */
    ghost var model: Tree<T>

    /** The object invariant: the box fields agree with the centre and the
        side, model is a well-formed tree whose root carries this node's
        fields, and the children are valid nodes with pairwise disjoint
        footprints whose models are the children of model. */
    ghost predicate Valid()
      reads this, Repr
      ensures Valid() ==> this in Repr
      decreases Repr
    {
      this in Repr &&
      actualBoundsSize == Uniform(sideLength) &&
      bounds == Bounds(center, actualBoundsSize) &&
      childBounds == ChildBounds(center, sideLength) &&
      model.center == center && model.side == sideLength && model.minSize == minSize &&
      model.objects == objects && |model.children| == |children| && WellFormed(model) &&
      (forall i :: 0 <= i < |children| ==>
        children[i] in Repr && children[i].Repr <= Repr && this !in children[i].Repr &&
        children[i].Valid() && children[i].model == model.children[i]) &&
      (forall i, j :: 0 <= i < j < |children| ==> children[i].Repr !! children[j].Repr)
    }

    constructor (baseLengthVal: real, minSizeVal: real, centerVal: Vec3)
      requires 0.0 < minSizeVal
      ensures Valid() && Repr == {this}
      ensures model == Node(centerVal, baseLengthVal, minSizeVal, [], [])
    {
      objects := [];
      children := [];
      Repr := {this};
      model := Node(centerVal, baseLengthVal, minSizeVal, [], []);
      new;
      SetValues(baseLengthVal, minSizeVal, centerVal);
    }

    /** Sets the centre, the side and the minimum size, and derives the
        bounding cube and the eight child boxes from them. */
    method SetValues(baseLengthVal: real, minSizeVal: real, centerVal: Vec3)
      modifies this
      ensures sideLength == baseLengthVal && minSize == minSizeVal && center == centerVal
      ensures actualBoundsSize == Uniform(baseLengthVal) && bounds == Cube(centerVal, baseLengthVal)
      ensures childBounds == ChildBounds(centerVal, baseLengthVal)
      ensures objects == old(objects) && children == old(children)
      ensures Repr == old(Repr) && model == old(model)
    {
      sideLength := baseLengthVal;
      minSize := minSizeVal;
      center := centerVal;
      actualBoundsSize := Uniform(sideLength);
      bounds := Bounds(center, actualBoundsSize);
      var quarter := sideLength / 4.0;
      var childActualLength := sideLength / 2.0;
      var childActualSize := Uniform(childActualLength);
      childBounds := [
        Bounds(Plus(center, Vec3(-quarter, quarter, -quarter)), childActualSize),
        Bounds(Plus(center, Vec3(quarter, quarter, -quarter)), childActualSize),
        Bounds(Plus(center, Vec3(-quarter, quarter, quarter)), childActualSize),
        Bounds(Plus(center, Vec3(quarter, quarter, quarter)), childActualSize),
        Bounds(Plus(center, Vec3(-quarter, -quarter, -quarter)), childActualSize),
        Bounds(Plus(center, Vec3(quarter, -quarter, -quarter)), childActualSize),
        Bounds(Plus(center, Vec3(-quarter, -quarter, quarter)), childActualSize),
        Bounds(Plus(center, Vec3(quarter, -quarter, quarter)), childActualSize)];
    }

    /** The node's own list of objects becomes objs (the list updates of
        SubAdd, Remove and SubRemove); nothing else changes. */
    method ReplaceObjects(objs: seq<OctreeObject<T>>)
      requires Valid()
      modifies this
      ensures Valid() && Repr == old(Repr) && children == old(children)
      ensures objects == objs && model == old(model).(objects := objs)
    {
      objects := objs;
      model := model.(objects := objs);
    }

    // -------------------------------------------------------------------
    // Insertion
    // -------------------------------------------------------------------

    /** Add(obj, objPos): false, and nothing changes, when objPos is outside
        the bounds; otherwise the object is placed and the result is true. */
    method Add(obj: T, objPos: Vec3) returns (added: bool)
      requires Valid()
      modifies Repr
      ensures Valid() && fresh(Repr - old(Repr))
      ensures Updated(added, model) == OctreeModel.Add(old(model), OctreeObject(obj, objPos))
      ensures !added ==> Repr == old(Repr) && unchanged(Repr)
    {
      if !Encapsulates(bounds, objPos) {
        return false;
      }
      SubAdd(obj, objPos);
      return true;
    }

    /** SubAdd: a childless node appends while it holds fewer than
        NUM_OBJECTS_ALLOWED objects or while its children would be smaller
        than minSize; otherwise it splits and moves its objects down first.
        The new object then goes to its best-fit child. */
    method SubAdd(obj: T, objPos: Vec3)
      requires Valid()
      modifies Repr
      ensures Valid() && fresh(Repr - old(Repr))
      ensures model == OctreeModel.SubAdd(old(model), OctreeObject(obj, objPos))
      decreases Levels(sideLength, minSize), 2
    {
      if children == [] {
        if |objects| < NUM_OBJECTS_ALLOWED || sideLength / 2.0 < minSize {
          ReplaceObjects(objects + [OctreeObject(obj, objPos)]);
          return;
        }
        SplitAndDistribute();
      }
      var bestFit := BestFitChild(center, objPos);
      ChildSubAdd(bestFit, obj, objPos);
    }

    /** The split branch of SubAdd: create the eight children, then move
        this node's objects, last one first, into their best-fit children. */
    method SplitAndDistribute()
      requires Valid() && children == [] && minSize <= sideLength / 2.0
      modifies Repr
      ensures Valid() && fresh(Repr - old(Repr))
      ensures model == old(model).(objects := [], children := Distribute(old(model), OctreeModel.Split(old(model)), old(model).objects))
      decreases Levels(sideLength, minSize), 1
    {
      ghost var t0 := model;
      Split();
      var i := |objects| - 1;
      while i >= 0
        invariant -1 <= i < |t0.objects| && objects == t0.objects[..i + 1]
        invariant Valid() && fresh(Repr - old(Repr)) && children != []
        invariant model.center == t0.center && model.side == t0.side && model.minSize == t0.minSize
        invariant Octants(t0, model.children)
        invariant Distribute(t0, model.children, objects) == Distribute(t0, OctreeModel.Split(t0), t0.objects)
        decreases i
      {
        var existingObj := objects[i];
        var bestFitChild := BestFitChild(center, existingObj.pos);
        ChildSubAdd(bestFitChild, existingObj.obj, existingObj.pos);
        ReplaceObjects(objects[..i]);
        i := i - 1;
      }
    }

    /** children[b].SubAdd(obj, objPos), with this node's footprint grown by
        whatever the child allocated. */
    method ChildSubAdd(b: int, obj: T, objPos: Vec3)
      requires Valid() && children != [] && 0 <= b < 8
      modifies Repr
      ensures Valid() && fresh(Repr - old(Repr))
      ensures children == old(children) && objects == old(objects)
      ensures model == old(model).(children := old(model).children[b := OctreeModel.SubAdd(old(model).children[b], OctreeObject(obj, objPos))])
      decreases Levels(sideLength, minSize), 0
    {
      LevelsHalve(sideLength, minSize);
      var child := children[b];
      child.SubAdd(obj, objPos);
      model := model.(children := model.children[b := child.model]);
      Repr := Repr + child.Repr;
      ChildReplaced(b);
    }

    /** After child b changed in place (its footprint may have gained fresh
        objects or lost some), nothing else below this node changed and
        model took over the child's new value, the node is valid again. */
    twostate lemma ChildReplaced(b: int)
      requires old(Valid()) && old(children) != [] && 0 <= b < 8
      requires children == old(children) && objects == old(objects)
      requires center == old(center) && sideLength == old(sideLength) && minSize == old(minSize)
      requires bounds == old(bounds) && childBounds == old(childBounds) && actualBoundsSize == old(actualBoundsSize)
      requires old(Repr) <= Repr <= old(Repr) + children[b].Repr && children[b].Repr <= Repr
      requires children[b].Valid() && fresh(children[b].Repr - old(children[b].Repr))
      requires SameGeometry(children[b].model, old(model).children[b])
      requires unchanged(old(Repr) - old(children[b].Repr) - {this})
      requires model == old(model).(children := old(model).children[b := children[b].model])
      ensures Valid()
    {
      WellFormedReplaceChild(old(model), b, children[b].model);
    }

    /** What Valid() promises about child i. */
    lemma ChildValid(i: int)
      requires Valid() && children != [] && 0 <= i < 8
      ensures children[i].Valid() && children[i].Repr <= Repr && children[i].model == model.children[i]
      ensures children[i].objects == model.children[i].objects
    {
    }

    /** Creates the eight empty children, child i centred on the i-th
        octant centre (ChildCenter). */
    method Split()
      requires Valid() && children == [] && minSize <= sideLength / 2.0
      modifies this
      ensures Valid() && fresh(Repr - old(Repr))
      ensures model == old(model).(children := OctreeModel.Split(old(model)))
    {
      var kids := NewChildren(center, sideLength, minSize);
      children := kids;
      Repr := Repr + set j | 0 <= j < 8 :: kids[j];
      WellFormedSplit(model);
      model := model.(children := OctreeModel.Split(model));
    }

    /** SetChildren(childOctrees): an array of a length other than eight is
        refused and nothing changes; otherwise the eight nodes become the
        children. The nodes must be valid, own disjoint footprints without
        this node, and sit on this node's octants. */
    method SetChildren(childOctrees: seq<OctreeNode<T>>)
      requires Valid()
      requires |childOctrees| == 8 ==> minSize <= sideLength / 2.0
      requires |childOctrees| == 8 ==> forall i :: 0 <= i < 8 ==>
        childOctrees[i].Valid() && this !in childOctrees[i].Repr && IsOctant(model, i, childOctrees[i].model)
      requires |childOctrees| == 8 ==> forall i, j :: 0 <= i < j < 8 ==> childOctrees[i].Repr !! childOctrees[j].Repr
      modifies this
      ensures Valid()
      ensures |childOctrees| != 8 ==> children == old(children) && Repr == old(Repr) && model == old(model)
      ensures |childOctrees| == 8 ==> children == childOctrees && objects == old(objects)
      ensures |childOctrees| == 8 ==>
        model == old(model).(children := ModelsOf(childOctrees))
    {
      if |childOctrees| != 8 {
        return;
      }
      WellFormedWithChildren(model, ModelsOf(childOctrees));
      children, Repr, model := childOctrees, {this} + Footprints(childOctrees), model.(children := ModelsOf(childOctrees));
    }

    /** The union of the footprints of the given nodes. */
    static ghost function Footprints(kids: seq<OctreeNode<T>>): (r: set<object>)
      reads kids
      ensures forall i :: 0 <= i < |kids| ==> kids[i].Repr <= r
    {
      if kids == [] then {} else Footprints(kids[..|kids| - 1]) + kids[|kids| - 1].Repr
    }

    /** The models of the given nodes, in order. */
    static ghost function ModelsOf(kids: seq<OctreeNode<T>>): (ms: seq<Tree<T>>)
      reads kids
      ensures |ms| == |kids| && forall i :: 0 <= i < |kids| ==> ms[i] == kids[i].model
    {
      seq(|kids|, i requires 0 <= i < |kids| reads kids => kids[i].model)
    }

    /** The eight fresh empty nodes of Split, in octant order. */
    static method NewChildren(center: Vec3, sideLength: real, minSize: real) returns (kids: seq<OctreeNode<T>>)
      requires 0.0 < minSize
      ensures |kids| == 8
      ensures forall j :: 0 <= j < 8 ==>
        fresh(kids[j]) && kids[j].Valid() && kids[j].Repr == {kids[j]} && kids[j].children == [] &&
        kids[j].model == Node(ChildCenter(center, sideLength, j), sideLength / 2.0, minSize, [], [])
      ensures forall j, k :: 0 <= j < k < 8 ==> kids[j] != kids[k]
    {
      kids := [];
      while |kids| < 8
        invariant |kids| <= 8
        invariant forall j :: 0 <= j < |kids| ==>
          fresh(kids[j]) && kids[j].Valid() && kids[j].Repr == {kids[j]} && kids[j].children == [] &&
          kids[j].model == Node(ChildCenter(center, sideLength, j), sideLength / 2.0, minSize, [], [])
        invariant forall j, k :: 0 <= j < k < |kids| ==> kids[j] != kids[k]
      {
        var child := new OctreeNode<T>(sideLength / 2.0, minSize, ChildCenter(center, sideLength, |kids|));
        kids := kids + [child];
      }
    }

    // -------------------------------------------------------------------
    // Removal
    // -------------------------------------------------------------------

    /** The scan that opens Remove and SubRemove: the index of the first
        local object carrying payload x, or -1. */
    method FindObject(x: T) returns (k: int)
      ensures k == FirstMatch(objects, x)
    {
      k := 0;
      while k < |objects|
        invariant 0 <= k <= |objects|
        invariant forall j :: 0 <= j < k ==> objects[j].obj != x
      {
        if objects[k].obj == x {
          FirstMatchAt(objects, x, k);
          return;
        }
        k := k + 1;
      }
      FirstMatchNone(objects, x);
      k := -1;
    }

    /** Remove(obj): the first local object carrying obj goes; failing that,
        the children are asked in index order until one removes it; after a
        removal at a node with children, the node merges if it is sparse. */
    method Remove(obj: T) returns (removed: bool)
      requires Valid()
      modifies Repr
      ensures Valid() && Repr <= old(Repr)
      ensures Updated(removed, model) == OctreeModel.Remove(old(model), obj)
      ensures !removed ==> Repr == old(Repr) && unchanged(Repr)
      decreases Repr, 2
    {
      removed := false;
      var i := FindObject(obj);
      if i >= 0 {
        ReplaceObjects(RemoveAt(objects, i));
        removed := true;
      }
      if !removed && children != [] {
        removed := RemoveInChildren(obj);
      }
      if removed && children != [] {
        MergeIfSparse();
      }
    }

    /** The child loop of Remove(obj): children are asked in index order
        until one reports a removal. */
    method RemoveInChildren(obj: T) returns (removed: bool)
      requires Valid() && children != []
      modifies Repr
      ensures Valid() && Repr == old(Repr) && children == old(children)
      ensures (removed, model.children) == RemoveFromChildren(old(model), old(model).children, obj, 0)
      ensures model == old(model).(children := model.children)
      ensures !removed ==> unchanged(Repr)
      decreases Repr, 1
    {
      ghost var t0 := model;
      removed := false;
      var k := 0;
      while k < 8 && !removed
        invariant 0 <= k <= 8
        invariant Valid() && Repr == old(Repr) && children == old(children)
        invariant !removed ==> unchanged(old(Repr))
        invariant !removed ==> RemoveFromChildren(t0, t0.children, obj, k) == RemoveFromChildren(t0, t0.children, obj, 0)
        invariant removed ==> RemoveFromChildren(t0, t0.children, obj, 0) == (true, model.children)
        invariant model == t0.(children := model.children)
      {
        removed := ChildRemove(k, obj);
        k := k + 1;
      }
    }

    /** One step of the child loop of Remove(obj): children[k].Remove(obj). */
    method ChildRemove(k: int, obj: T) returns (removed: bool)
      requires Valid() && children != [] && 0 <= k < 8
      modifies Repr
      ensures Valid() && Repr == old(Repr) && children == old(children)
      ensures var r := OctreeModel.Remove(old(model).children[k], obj);
        removed == r.success && model == old(model).(children := old(model).children[k := r.tree])
      ensures !removed ==> unchanged(old(Repr))
      decreases Repr, 0
    {
      var child := children[k];
      removed := child.Remove(obj);
      if removed {
        model := model.(children := model.children[k := child.model]);
        ChildReplaced(k);
      }
    }

    /** SubRemove(obj, pos): like Remove(obj), but below this node only the
        best-fit child of pos is searched. */
    method SubRemove(obj: T, objPos: Vec3) returns (removed: bool)
      requires Valid()
      modifies Repr
      ensures Valid() && Repr <= old(Repr)
      ensures Updated(removed, model) == OctreeModel.SubRemove(old(model), obj, objPos)
      ensures !removed ==> Repr == old(Repr) && unchanged(Repr)
      decreases Repr, 1
    {
      removed := false;
      var i := FindObject(obj);
      if i >= 0 {
        ReplaceObjects(RemoveAt(objects, i));
        removed := true;
      }
      if !removed && children != [] {
        removed := SubRemoveInChild(obj, objPos);
      }
      if removed && children != [] {
        MergeIfSparse();
      }
    }

    /** The descent of SubRemove: the best-fit child of objPos is asked. */
    method SubRemoveInChild(obj: T, objPos: Vec3) returns (removed: bool)
      requires Valid() && children != []
      modifies Repr
      ensures Valid() && Repr == old(Repr) && children == old(children)
      ensures var b := BestFitChild(old(center), objPos);
        var r := OctreeModel.SubRemove(old(model).children[b], obj, objPos);
        removed == r.success && model == old(model).(children := old(model).children[b := r.tree])
      ensures !removed ==> unchanged(old(Repr))
      decreases Repr, 0
    {
      var bestFitChild := BestFitChild(center, objPos);
      var child := children[bestFitChild];
      removed := child.SubRemove(obj, objPos);
      if removed {
        model := model.(children := model.children[bestFitChild := child.model]);
        ChildReplaced(bestFitChild);
      }
    }

    /** Remove(obj, objPos): false, and nothing changes, when objPos is
        outside the bounds; otherwise SubRemove. */
    method RemoveWithPosition(obj: T, objPos: Vec3) returns (removed: bool)
      requires Valid()
      modifies Repr
      ensures Valid() && Repr <= old(Repr)
      ensures Updated(removed, model) == OctreeModel.RemoveWithPosition(old(model), obj, objPos)
      ensures !removed ==> Repr == old(Repr) && unchanged(Repr)
    {
      if !Encapsulates(bounds, objPos) {
        return false;
      }
      removed := SubRemove(obj, objPos);
    }

    /** The merge check made after a successful removal. */
    method MergeIfSparse()
      requires Valid() && children != []
      modifies this
      ensures Valid() && Repr <= old(Repr)
      ensures model == OctreeModel.MergeIfSparse(old(model))
    {
      var merge := ShouldMerge();
      if merge {
        Merge();
      }
    }

    /** ShouldMerge: false as soon as a child has children of its own,
        otherwise whether the node and its children hold at most
        NUM_OBJECTS_ALLOWED objects together. */
    method ShouldMerge() returns (merge: bool)
      requires Valid()
      ensures merge <==> OctreeModel.ShouldMerge(model)
    {
      var totalObjects := |objects|;
      if children != [] {
        var i := 0;
        while i < 8
          invariant 0 <= i <= 8
          invariant forall j :: 0 <= j < i ==> model.children[j].children == []
          invariant totalObjects == |objects| + |ChildrenObjects(model.children[..i])|
        {
          var child := children[i];
          if child.children != [] {
            assert model.children[i].children != [];
            return false;
          }
          ChildrenObjectsStep(model.children, i);
          totalObjects := totalObjects + |child.objects|;
          i := i + 1;
        }
        assert model.children[..8] == model.children;
      }
      assert totalObjects == |AllObjects(model)|;
      merge := totalObjects <= NUM_OBJECTS_ALLOWED;
    }

    /** Merge: every child's objects, each child's from its last object to
        its first, are appended to this node's, and the children go. */
    method Merge()
      requires Valid() && children != []
      modifies this
      ensures Valid() && Repr == {this}
      ensures model == OctreeModel.Merge(old(model))
    {
      var merged := objects;
      var i := 0;
      while i < 8
        invariant 0 <= i <= 8
        invariant merged == model.objects + MergedObjects(model.children[..i])
        modifies {}
      {
        var curChild := children[i];
        ChildValid(i);
        merged := AppendReversed(merged, curChild.objects);
        MergedObjectsStep(model.objects, model.children, i);
        i := i + 1;
      }
      assert model.children[..8] == model.children;
      DropChildren(merged);
    }

    /** The inner loop of Merge: objs appended to merged from its last
        element to its first. */
    static method AppendReversed(merged: seq<OctreeObject<T>>, objs: seq<OctreeObject<T>>) returns (r: seq<OctreeObject<T>>)
      ensures r == merged + Reversed(objs)
    {
      r := merged;
      var j := |objs| - 1;
      while j >= 0
        invariant -1 <= j < |objs|
        invariant r == merged + Reversed(objs[j + 1..])
      {
        assert objs[j..][1..] == objs[j + 1..];
        r := r + [objs[j]];
        j := j - 1;
      }
      assert objs[0..] == objs;
    }

    /** The end of Merge: the node keeps objs and loses its children. */
    method DropChildren(objs: seq<OctreeObject<T>>)
      requires Valid()
      modifies this
      ensures Valid() && Repr == {this}
      ensures objects == objs && children == [] && model == old(model).(objects := objs, children := [])
    {
      objects := objs;
      children := [];
      model := model.(objects := objs, children := []);
      Repr := {this};
    }

    // -------------------------------------------------------------------
    // Shrinking the root
    // -------------------------------------------------------------------

    /** ShrinkIfPossible(minLength): the node to use as the root from now
        on. It is this node, unchanged, unless the node is at least
        2*minLength wide, holds something, and all of its content lies in
        one octant; then a childless node halves in place around that
        octant and a node with children hands over the child holding the
        content. */
    method ShrinkIfPossible(minLength: real) returns (root: OctreeNode<T>)
      requires Valid() && ShrinkDefined(model, minLength)
      modifies this
      ensures root.Valid() && root.Repr <= old(Repr)
      ensures root == this || root in old(children)
      ensures root.model == Shrink(old(model), minLength)
    {
      root := this;
      if sideLength >= 2.0 * minLength && !(|objects| == 0 && children == []) {
        var oneOctant, bestFit := LocalOctant();
        if oneOctant {
          if children == [] {
            HalveAround(bestFit);
          } else {
            root := ShrinkToChild(minLength, bestFit);
          }
        }
      }
    }

    /** The case of ShrinkIfPossible with children: the one child holding
        content, when it is also the octant of the node's own objects. */
    method ShrinkToChild(minLength: real, bestFit: int) returns (root: OctreeNode<T>)
      requires Valid() && children != [] && ShrinkDefined(model, minLength)
      requires 2.0 * minLength <= sideLength && OneOctant(center, objects)
      requires bestFit == if objects == [] then -1 else BestFitChild(center, objects[0].pos)
      ensures root.Valid() && root.Repr <= Repr
      ensures root == this || root in children
      ensures root.model == Shrink(model, minLength)
    {
      var shrink, fit := ContentOctant(bestFit);
      ShrinkWithChildren(model, minLength, bestFit, shrink, fit);
      root := this;
      if shrink {
        ChildValid(fit);
        root := children[fit];
      }
    }

    /** The childless case of ShrinkIfPossible: the node takes the centre
        and the size of its child box b. */
    method HalveAround(b: int)
      requires Valid() && children == [] && 0 <= b < 8
      modifies this
      ensures Valid() && Repr == old(Repr)
      ensures model == old(model).(side := old(sideLength) / 2.0, center := ChildCenter(old(center), old(sideLength), b))
    {
      SetValues(sideLength / 2.0, minSize, childBounds[b].center);
      model := model.(side := sideLength, center := center);
    }

    /** The object loop of ShrinkIfPossible: whether all local objects fall
        in one octant, and if so that octant (-1 when there are none). */
    method LocalOctant() returns (oneOctant: bool, bestFit: int)
      ensures oneOctant <==> OneOctant(center, objects)
      ensures oneOctant ==> bestFit == if objects == [] then -1 else BestFitChild(center, objects[0].pos)
    {
      bestFit := -1;
      var i := 0;
      while i < |objects|
        invariant 0 <= i <= |objects|
        invariant bestFit == if i == 0 then -1 else BestFitChild(center, objects[0].pos)
        invariant forall k :: 0 <= k < i ==> BestFitChild(center, objects[k].pos) == bestFit
      {
        var newBestFit := BestFitChild(center, objects[i].pos);
        if i == 0 || newBestFit == bestFit {
          if bestFit < 0 {
            bestFit := newBestFit;
          }
        } else {
          return false, bestFit;
        }
        i := i + 1;
      }
      return true, bestFit;
    }

    /** The child loop of ShrinkIfPossible, given the octant bestFit of the
        local objects (-1 for none): the node can shrink when no child holds
        content, or exactly one does and it is in that octant; newFit is
        then the octant to keep. */
    method ContentOctant(bestFit: int) returns (shrink: bool, newFit: int)
      requires Valid() && children != []
      ensures var first := FirstNonEmpty(model.children, 0);
        shrink <==> first == 8 || ((bestFit < 0 || bestFit == first) && FirstNonEmpty(model.children, first + 1) == 8)
      ensures shrink ==> newFit == if FirstNonEmpty(model.children, 0) == 8 then bestFit else FirstNonEmpty(model.children, 0)
    {
      ghost var cs := model.children;
      newFit := bestFit;
      var childHadContent := false;
      var k := 0;
      while k < 8
        invariant 0 <= k <= 8 && ScanState(cs, bestFit, k, childHadContent, newFit)
      {
        ChildValid(k);
        var has := children[k].HasAnyObjects();
        if has {
          if childHadContent {
            ScanSecondContent(cs, bestFit, k, newFit);
            return false, newFit;
          }
          if newFit >= 0 && newFit != k {
            ScanOtherOctant(cs, bestFit, k);
            return false, newFit;
          }
          ScanFirstContent(cs, bestFit, k);
          childHadContent := true;
          newFit := k;
        } else {
          ScanEmptyChild(cs, bestFit, k, childHadContent, newFit);
        }
        k := k + 1;
      }
      ScanDone(cs, bestFit, childHadContent, newFit);
      shrink := true;
    }

    // -------------------------------------------------------------------
    // Queries
    // -------------------------------------------------------------------

    /** HasAnyObjects: whether this node or any node below it holds an object. */
    method HasAnyObjects() returns (has: bool)
      requires Valid()
      ensures has <==> HasContent(model)
      decreases Repr
    {
      if |objects| > 0 {
        return true;
      }
      if children != [] {
        var i := 0;
        while i < 8
          invariant 0 <= i <= 8
          invariant forall j :: 0 <= j < i ==> !HasContent(model.children[j])
        {
          has := children[i].HasAnyObjects();
          if has {
            return true;
          }
          i := i + 1;
        }
      }
      return false;
    }

    /** GetAll(result): result followed by the payloads of the whole
        subtree, in AllObjects order. */
    method GetAll(result: seq<T>) returns (r: seq<T>)
      requires Valid()
      ensures r == result + Payloads(AllObjects(model))
      decreases Repr
    {
      r := result + Payloads(objects);
      if children != [] {
        var i := 0;
        while i < 8
          invariant 0 <= i <= 8
          invariant r == result + Payloads(objects) + Payloads(ChildrenObjects(model.children[..i]))
        {
          r := children[i].GetAll(r);
          AppendChildPayloads(result + Payloads(objects), model.children, i);
          i := i + 1;
        }
      }
      AllPayloads(result, model);
    }

    /** GetNearby(position, maxDistance, result): result followed by the
        payloads NearbyPoint selects. */
    method GetNearby(position: Vec3, maxDistance: real, result: seq<T>) returns (r: seq<T>)
      requires Valid()
      ensures r == result + Payloads(NearbyPoint(model, position, maxDistance))
      decreases Repr, 1
    {
      var sqrMaxDistance := maxDistance * maxDistance;
      r := result;
      if SqrMagnitude(Minus(bounds.ClosestPoint(position), position)) > sqrMaxDistance {
        return;
      }
      var i := 0;
      while i < |objects|
        invariant 0 <= i <= |objects|
        invariant r == result + Payloads(Select(objects[..i], NearPoint(position, maxDistance)))
      {
        AppendSelected(result, objects, i, NearPoint(position, maxDistance));
        if SqrMagnitude(Minus(position, objects[i].pos)) <= sqrMaxDistance {
          r := r + [objects[i].obj];
        }
        i := i + 1;
      }
      r := GetNearbyInChildren(position, maxDistance, r);
      NearbyPointPayloads(result, model, position, maxDistance);
    }

    /** The child loop of GetNearby(position, maxDistance, result). */
    method GetNearbyInChildren(position: Vec3, maxDistance: real, result: seq<T>) returns (r: seq<T>)
      requires Valid()
      ensures r == result + Payloads(ChildrenNearbyPoint(model.children[..|children|], position, maxDistance))
      decreases Repr, 0
    {
      r := result;
      if children != [] {
        var k := 0;
        while k < 8
          invariant 0 <= k <= 8
          invariant r == result + Payloads(ChildrenNearbyPoint(model.children[..k], position, maxDistance))
        {
          r := children[k].GetNearby(position, maxDistance, r);
          AppendChildNearbyPoint(result, model.children, k, position, maxDistance);
          k := k + 1;
        }
      }
    }

    /** GetNearby(ray, maxDistance, result): result followed by the payloads
        NearbyRay selects; the tree ends as it began. */
    method GetNearbyRay(ray: Ray, maxDistance: real, intersects: (Bounds, Ray) -> bool, result: seq<T>) returns (r: seq<T>)
      requires Valid()
      modifies Repr
      ensures unchanged(old(Repr))
      ensures r == result + Payloads(NearbyRay(model, ray, maxDistance, intersects))
      decreases Repr, 1
    {
      r := result;
      var intersected := HitsGrownBounds(ray, maxDistance, intersects);
      if !intersected {
        return;
      }
      StillValid();
      var i := 0;
      while i < |objects|
        invariant 0 <= i <= |objects|
        invariant r == result + Payloads(Select(objects[..i], NearRay(ray, maxDistance)))
        modifies {}
      {
        AppendSelected(result, objects, i, NearRay(ray, maxDistance));
        if SqrDistanceToRay(ray, objects[i].pos) <= maxDistance * maxDistance {
          r := r + [objects[i].obj];
        }
        i := i + 1;
      }
      r := GetNearbyRayInChildren(ray, maxDistance, intersects, r);
      NearbyRayPayloads(result, model, ray, maxDistance, intersects);
    }

    /** A node none of whose objects changed is still valid. */
    twostate lemma StillValid()
      requires old(Valid()) && unchanged(old(Repr))
      ensures Valid() && Repr == old(Repr)
    {
    }

    /** The hit test of GetNearby(ray, ...): the bounds are grown by twice
        maxDistance on every axis, tested with intersects (which stands for
        Bounds.IntersectRay), and given back their true size. */
    method HitsGrownBounds(ray: Ray, maxDistance: real, intersects: (Bounds, Ray) -> bool) returns (intersected: bool)
      requires Valid()
      modifies this
      ensures unchanged(this)
      ensures intersected == intersects(RayTestBounds(model, maxDistance), ray)
    {
      bounds := bounds.Expand(Uniform(maxDistance * 2.0));
      intersected := intersects(bounds, ray);
      bounds := bounds.(size := actualBoundsSize);
    }

    /** The child loop of GetNearby(ray, maxDistance, result). */
    method GetNearbyRayInChildren(ray: Ray, maxDistance: real, intersects: (Bounds, Ray) -> bool, result: seq<T>) returns (r: seq<T>)
      requires Valid()
      modifies Repr
      ensures unchanged(old(Repr))
      ensures r == result + Payloads(ChildrenNearbyRay(model.children[..|children|], ray, maxDistance, intersects))
      decreases Repr, 0
    {
      r := result;
      if children != [] {
        var k := 0;
        while k < 8
          invariant 0 <= k <= 8 && unchanged(old(Repr))
          invariant r == result + Payloads(ChildrenNearbyRay(model.children[..k], ray, maxDistance, intersects))
        {
          StillValid();
          r := children[k].GetNearbyRay(ray, maxDistance, intersects, r);
          AppendChildNearbyRay(result, model.children, k, ray, maxDistance, intersects);
          k := k + 1;
        }
      }
    }
  }
}
