/** What removal promises: Remove(obj) takes out exactly the first object
    carrying obj in GetAll order, Remove(obj, pos) the first one on the
    best-fit path of pos, Merge loses nothing, and both keep every
    invariant of TreeInvariants. */
module RemoveLemmas {
  import opened Geometry
  import opened OctreeModel
  import opened OctantLemmas
  import opened TreeInvariants

  // ---------------------------------------------------------------------
  // Merge
  // ---------------------------------------------------------------------

  /** Merge collects, from childless children, exactly their objects. */
  lemma {:induction false} MergedObjectsContents<T>(cs: seq<Tree<T>>)
    requires forall i :: 0 <= i < |cs| ==> cs[i].children == []
    ensures multiset(MergedObjects(cs)) == multiset(ChildrenObjects(cs))
  {
    if cs != [] {
      var n := |cs| - 1;
      assert forall i :: 0 <= i < n ==> cs[..n][i] == cs[i];
      MergedObjectsContents(cs[..n]);
      ReversedContents(cs[n].objects);
      assert AllObjects(cs[n]) == cs[n].objects;
    }
  }

  /** Merging childless children into their parent keeps the subtree's
      objects and leaves a leaf. */
  lemma MergeContents<T>(t: Tree<T>)
    requires forall i :: 0 <= i < |t.children| ==> t.children[i].children == []
    ensures Merge(t).children == []
    ensures multiset(AllObjects(Merge(t))) == multiset(AllObjects(t))
  {
    MergedObjectsContents(t.children);
    assert AllObjects(Merge(t)) == t.objects + MergedObjects(t.children);
  }

  /** The merge check after a removal never loses or adds an object. */
  lemma MergeIfSparseContents<T>(t: Tree<T>)
    requires WellFormed(t)
    ensures multiset(AllObjects(MergeIfSparse(t))) == multiset(AllObjects(t))
  {
    if t.children != [] && ShouldMerge(t) {
      MergeContents(t);
    }
  }

  // ---------------------------------------------------------------------
  // Remove(obj)
  // ---------------------------------------------------------------------

  /** Remove(obj) succeeds exactly when some object of the subtree carries
      x, and then takes out the first such object in GetAll order, the
      node's own objects before each child's subtree in index order. */
  lemma {:induction false} RemoveContents<T>(t: Tree<T>, x: T)
    requires WellFormed(t)
    ensures Remove(t, x).success <==> FirstMatch(AllObjects(t), x) >= 0
    ensures Remove(t, x).success ==> RemovesFirst(AllObjects(t), AllObjects(Remove(t, x).tree), x)
    decreases t
  {
    var k := FirstMatch(t.objects, x);
    if k >= 0 {
      var u := t.(objects := RemoveAt(t.objects, k));
      RemoveAtFirst(t.objects, x);
      RemovesFirstBefore(t.objects, u.objects, ChildrenObjects(t.children), x);
      MergeIfSparseContents(u);
    } else if t.children == [] {
      assert AllObjects(t) == t.objects;
    } else {
      RemoveFromChildrenContents(t, t.children, x, 0);
      FirstMatchAfter(t.objects, ChildrenObjects(t.children), x);
      var r := RemoveFromChildren(t, t.children, x, 0);
      if r.0 {
        var u := t.(children := r.1);
        RemovesFirstAfter(t.objects, ChildrenObjects(t.children), ChildrenObjects(r.1), x);
        WellFormedWithChildren(t, r.1);
        MergeIfSparseContents(u);
      }
    }
  }

  /** The child loop of Remove(obj), entered at child i with no earlier
      child holding x: it succeeds exactly when some child holds x, and
      then takes out the first such object of the children. */
  lemma {:induction false} RemoveFromChildrenContents<T>(p: Tree<T>, cs: seq<Tree<T>>, x: T, i: nat)
    requires 0.0 < p.minSize <= p.side / 2.0 && Octants(p, cs) && i <= |cs|
    requires forall j :: 0 <= j < i ==> FirstMatch(AllObjects(cs[j]), x) == -1
    ensures RemoveFromChildren(p, cs, x, i).0 <==> FirstMatch(ChildrenObjects(cs), x) >= 0
    ensures RemoveFromChildren(p, cs, x, i).0 ==>
              RemovesFirst(ChildrenObjects(cs), ChildrenObjects(RemoveFromChildren(p, cs, x, i).1), x)
    decreases cs, |cs| - i
  {
    if i == |cs| {
      NoMatchInChildren(cs, x);
    } else {
      RemoveContents(cs[i], x);
      var r := Remove(cs[i], x);
      if r.success {
        RemovesFirstInChild(cs, i, r.tree, x);
      } else {
        RemoveFromChildrenContents(p, cs, x, i + 1);
      }
    }
  }

  // ---------------------------------------------------------------------
  // Remove(obj, pos)
  // ---------------------------------------------------------------------

  /** The objects on the best-fit path of pos, in the order SubRemove
      searches them: the node's own, then those on the path below its
      best-fit child. */
  function PathObjects<T>(t: Tree<T>, pos: Vec3): seq<OctreeObject<T>>
    requires WellFormed(t)
    decreases t
  {
    t.objects + (if t.children == [] then [] else PathObjects(t.children[BestFitChild(t.center, pos)], pos))
  }

  /** SubRemove succeeds exactly when an object on the best-fit path of pos
      carries x, and then takes the first such object out of the subtree. */
  lemma {:induction false} SubRemoveContents<T>(t: Tree<T>, x: T, pos: Vec3)
    requires WellFormed(t)
    ensures SubRemove(t, x, pos).success <==> FirstMatch(PathObjects(t, pos), x) >= 0
    ensures SubRemove(t, x, pos).success ==>
              RemovesOne(AllObjects(t), AllObjects(SubRemove(t, x, pos).tree),
                         PathObjects(t, pos)[FirstMatch(PathObjects(t, pos), x)])
    decreases t
  {
    var k := FirstMatch(t.objects, x);
    var below := if t.children == [] then [] else PathObjects(t.children[BestFitChild(t.center, pos)], pos);
    assert PathObjects(t, pos) == t.objects + below;
    if k >= 0 {
      var u := t.(objects := RemoveAt(t.objects, k));
      FirstMatchBefore(t.objects, below, x);
      RemoveAtFirst(t.objects, x);
      RemovesOneAppend(t.objects, u.objects, ChildrenObjects(t.children), t.objects[k]);
      MergeIfSparseContents(u);
    } else if t.children == [] {
      assert PathObjects(t, pos) == t.objects;
    } else {
      var b := BestFitChild(t.center, pos);
      SubRemoveContents(t.children[b], x, pos);
      FirstMatchAfter(t.objects, below, x);
      var r := SubRemove(t.children[b], x, pos);
      if r.success {
        var e := below[FirstMatch(below, x)];
        var u := t.(children := t.children[b := r.tree]);
        RemovesOneReplaced(t.children, b, r.tree, e);
        RemovesOneAppend(ChildrenObjects(t.children), ChildrenObjects(u.children), t.objects, e);
        WellFormedReplaceChild(t, b, r.tree);
        MergeIfSparseContents(u);
      }
    }
  }

  /** Remove(obj, pos) fails for a position outside the root cube;
      otherwise it behaves as SubRemove. */
  lemma RemoveWithPositionContents<T>(t: Tree<T>, x: T, pos: Vec3)
    requires WellFormed(t)
    ensures RemoveWithPosition(t, x, pos).success <==>
              BoundsOf(t).Contains(pos) && FirstMatch(PathObjects(t, pos), x) >= 0
    ensures RemoveWithPosition(t, x, pos).success ==>
              RemovesOne(AllObjects(t), AllObjects(RemoveWithPosition(t, x, pos).tree),
                         PathObjects(t, pos)[FirstMatch(PathObjects(t, pos), x)])
  {
    SubRemoveContents(t, x, pos);
  }

  /** In a tree whose objects sit on their best-fit paths, an object lies
      on the path of its own position. */
  lemma {:induction false} PlacedOnPath<T>(t: Tree<T>, e: OctreeObject<T>)
    requires WellFormed(t) && Placed(t) && e in AllObjects(t)
    ensures e in PathObjects(t, e.pos)
    decreases t
  {
    if e !in t.objects {
      InChildrenObjects(t.children, e);
      var i :| 0 <= i < |t.children| && e in AllObjects(t.children[i]);
      PlacedOnPath(t.children[i], e);
    }
  }

  /** Removing a stored object by its payload and the position it was added
      at always succeeds. */
  lemma RemoveWithPositionFinds<T>(t: Tree<T>, e: OctreeObject<T>)
    requires Invariant(t) && e in AllObjects(t)
    ensures RemoveWithPosition(t, e.obj, e.pos).success
  {
    AllInBox(t, e);
    PlacedOnPath(t, e);
    SubRemoveContents(t, e.obj, e.pos);
  }

  // ---------------------------------------------------------------------
  // Removal keeps the invariants
  // ---------------------------------------------------------------------

  lemma ChildInvariant<T>(t: Tree<T>, i: int)
    requires Invariant(t) && 0 <= i < |t.children|
    ensures Invariant(t.children[i])
  {
  }

  /** Taking an object out of the node's own list keeps the invariant. */
  lemma LocalRemoveKeeps<T>(t: Tree<T>, k: nat)
    requires Invariant(t) && k < |t.objects|
    ensures Invariant(t.(objects := RemoveAt(t.objects, k)))
  {
    var u := t.(objects := RemoveAt(t.objects, k));
    assert forall i :: 0 <= i < |u.objects| ==> u.objects[i] in t.objects;
    assert PlacedChildren(u.center, u.children);
  }

  /** After the merge check the node still keeps the invariant: a merged
      node is a leaf holding at most NUM_OBJECTS_ALLOWED objects of its own
      cube. */
  lemma MergeIfSparseKeeps<T>(t: Tree<T>)
    requires Invariant(t)
    ensures Invariant(MergeIfSparse(t))
  {
    if t.children != [] && ShouldMerge(t) {
      var m := Merge(t);
      MergeContents(t);
      assert |m.objects| == |AllObjects(t)| by {
        assert AllObjects(m) == m.objects;
        assert |multiset(AllObjects(m))| == |multiset(AllObjects(t))|;
      }
      forall i | 0 <= i < |m.objects|
        ensures BoundsOf(m).Contains(m.objects[i].pos)
      {
        assert m.objects[i] in multiset(AllObjects(m));
        AllInBox(t, m.objects[i]);
      }
    }
  }

  /** Replacing a child by one that keeps the invariant and holds no new
      object keeps the invariant. */
  lemma ReplaceChildKeeps<T>(t: Tree<T>, b: int, c: Tree<T>)
    requires Invariant(t) && t.children != [] && 0 <= b < 8
    requires Invariant(c) && SameGeometry(c, t.children[b])
    requires multiset(AllObjects(c)) <= multiset(AllObjects(t.children[b]))
    ensures Invariant(t.(children := t.children[b := c]))
  {
    var u := t.(children := t.children[b := c]);
    WellFormedReplaceChild(t, b, c);
    forall e | e in AllObjects(c)
      ensures BestFitChild(t.center, e.pos) == b
    {
      assert e in multiset(AllObjects(c));
    }
    assert PlacedChildren(u.center, u.children);
  }

  lemma RemovesOneShrinks<T>(before: seq<OctreeObject<T>>, after: seq<OctreeObject<T>>, e: OctreeObject<T>)
    requires RemovesOne(before, after, e)
    ensures multiset(after) <= multiset(before)
  {
  }

  /** Remove(obj) keeps every invariant. */
  lemma {:induction false} RemoveKeepsInvariant<T>(t: Tree<T>, x: T)
    requires Invariant(t)
    ensures Invariant(Remove(t, x).tree)
    decreases t
  {
    var k := FirstMatch(t.objects, x);
    if k >= 0 {
      LocalRemoveKeeps(t, k);
      MergeIfSparseKeeps(t.(objects := RemoveAt(t.objects, k)));
    } else if t.children != [] {
      RemoveFromChildrenKeeps(t, x, 0);
      var r := RemoveFromChildren(t, t.children, x, 0);
      if r.0 {
        MergeIfSparseKeeps(t.(children := r.1));
      }
    }
  }

  /** The child loop of Remove(obj) leaves children with which the node
      keeps the invariant. */
  lemma {:induction false} RemoveFromChildrenKeeps<T>(t: Tree<T>, x: T, i: nat)
    requires Invariant(t) && t.children != [] && i <= |t.children|
    ensures Invariant(t.(children := RemoveFromChildren(t, t.children, x, i).1))
    decreases t.children, |t.children| - i
  {
    if i == |t.children| {
      assert t.(children := t.children) == t;
    } else {
      var c := t.children[i];
      ChildInvariant(t, i);
      RemoveKeepsInvariant(c, x);
      RemoveContents(c, x);
      var r := Remove(c, x);
      if r.success {
        RemovesOneShrinks(AllObjects(c), AllObjects(r.tree), AllObjects(c)[FirstMatch(AllObjects(c), x)]);
        ReplaceChildKeeps(t, i, r.tree);
      } else {
        RemoveFromChildrenKeeps(t, x, i + 1);
      }
    }
  }

  /** Remove(obj, pos) keeps every invariant. */
  lemma {:induction false} SubRemoveKeepsInvariant<T>(t: Tree<T>, x: T, pos: Vec3)
    requires Invariant(t)
    ensures Invariant(SubRemove(t, x, pos).tree)
    decreases t
  {
    var k := FirstMatch(t.objects, x);
    if k >= 0 {
      LocalRemoveKeeps(t, k);
      MergeIfSparseKeeps(t.(objects := RemoveAt(t.objects, k)));
    } else if t.children != [] {
      var b := BestFitChild(t.center, pos);
      var c := t.children[b];
      ChildInvariant(t, b);
      SubRemoveKeepsInvariant(c, x, pos);
      SubRemoveContents(c, x, pos);
      var r := SubRemove(c, x, pos);
      if r.success {
        RemovesOneShrinks(AllObjects(c), AllObjects(r.tree), PathObjects(c, pos)[FirstMatch(PathObjects(c, pos), x)]);
        ReplaceChildKeeps(t, b, r.tree);
        MergeIfSparseKeeps(t.(children := t.children[b := r.tree]));
      }
    }
  }

  lemma RemoveWithPositionKeepsInvariant<T>(t: Tree<T>, x: T, pos: Vec3)
    requires Invariant(t)
    ensures Invariant(RemoveWithPosition(t, x, pos).tree)
  {
    if BoundsOf(t).Contains(pos) {
      SubRemoveKeepsInvariant(t, x, pos);
    }
  }

  // ---------------------------------------------------------------------
  // The merge check keeps nodes with children dense
  // ---------------------------------------------------------------------

  /** After the merge check a node whose children are dense is dense: it
      keeps its children only when a child has children of its own, and so
      more than NUM_OBJECTS_ALLOWED objects, or when it holds that many. */
  lemma MergeIfSparseDense<T>(u: Tree<T>)
    requires WellFormed(u) && forall i :: 0 <= i < |u.children| ==> Dense(u.children[i])
    ensures Dense(MergeIfSparse(u))
  {
    if u.children != [] && !ShouldMerge(u) && |AllObjects(u)| <= NUM_OBJECTS_ALLOWED {
      var i :| 0 <= i < |u.children| && u.children[i].children != [];
      ChildCount(u.children, i);
    }
  }

  lemma {:induction false} RemoveKeepsDense<T>(t: Tree<T>, x: T)
    requires WellFormed(t) && Dense(t)
    ensures Dense(Remove(t, x).tree)
    decreases t
  {
    var k := FirstMatch(t.objects, x);
    if k >= 0 {
      MergeIfSparseDense(t.(objects := RemoveAt(t.objects, k)));
    } else if t.children != [] {
      RemoveFromChildrenDense(t, x, 0);
      var r := RemoveFromChildren(t, t.children, x, 0);
      if r.0 {
        WellFormedWithChildren(t, r.1);
        MergeIfSparseDense(t.(children := r.1));
      }
    }
  }

  lemma {:induction false} RemoveFromChildrenDense<T>(t: Tree<T>, x: T, i: nat)
    requires WellFormed(t) && Dense(t) && t.children != [] && i <= |t.children|
    ensures forall j :: 0 <= j < 8 ==> Dense(RemoveFromChildren(t, t.children, x, i).1[j])
    decreases t.children, |t.children| - i
  {
    if i < |t.children| {
      var c := t.children[i];
      RemoveKeepsDense(c, x);
      if !Remove(c, x).success {
        RemoveFromChildrenDense(t, x, i + 1);
      }
    }
  }

  lemma {:induction false} SubRemoveKeepsDense<T>(t: Tree<T>, x: T, pos: Vec3)
    requires WellFormed(t) && Dense(t)
    ensures Dense(SubRemove(t, x, pos).tree)
    decreases t
  {
    var k := FirstMatch(t.objects, x);
    if k >= 0 {
      MergeIfSparseDense(t.(objects := RemoveAt(t.objects, k)));
    } else if t.children != [] {
      var b := BestFitChild(t.center, pos);
      var c := t.children[b];
      SubRemoveKeepsDense(c, x, pos);
      var r := SubRemove(c, x, pos);
      if r.success {
        WellFormedReplaceChild(t, b, r.tree);
        MergeIfSparseDense(t.(children := t.children[b := r.tree]));
      }
    }
  }

  lemma RemoveWithPositionKeepsDense<T>(t: Tree<T>, x: T, pos: Vec3)
    requires WellFormed(t) && Dense(t)
    ensures Dense(RemoveWithPosition(t, x, pos).tree)
  {
    if BoundsOf(t).Contains(pos) {
      SubRemoveKeepsDense(t, x, pos);
    }
  }
}
