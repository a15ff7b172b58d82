/** What ShrinkIfPossible promises for a tree built by Add and Remove: the
    new root holds the same objects and keeps every invariant, so every
    object still lies inside the smaller root cube. */
module ShrinkLemmas {
  import opened Geometry
  import opened OctreeModel
  import opened OctantLemmas
  import opened TreeInvariants

  /** When ShrinkIfPossible hands over child j of a tidy node, every other
      child is empty and the subtree's objects are child j's. */
  lemma OnlyChildContent<T>(t: Tree<T>, j: nat)
    requires WellFormed(t) && Tidy(t) && t.children != []
    requires j == FirstNonEmpty(t.children, 0) && j < |t.children| && FirstNonEmpty(t.children, j + 1) == |t.children|
    ensures AllObjects(t) == AllObjects(t.children[j])
  {
    var cs := t.children;
    forall i | 0 <= i < |cs| && i != j
      ensures AllObjects(cs[i]) == []
    {
      HasContentIff(cs[i]);
    }
    ChildrenObjectsSingle(cs, j);
  }

  /** On a tidy tree the shrunken root holds exactly the old objects. */
  lemma ShrinkContents<T>(t: Tree<T>, minLength: real)
    requires WellFormed(t) && Tidy(t) && ShrinkDefined(t, minLength)
    ensures multiset(AllObjects(Shrink(t, minLength))) == multiset(AllObjects(t))
  {
    if 2.0 * minLength <= t.side && (t.objects != [] || t.children != []) && OneOctant(t.center, t.objects) && t.children != [] {
      var j := FirstNonEmpty(t.children, 0);
      if j < |t.children| && FirstNonEmpty(t.children, j + 1) == |t.children| {
        OnlyChildContent(t, j);
      }
    }
  }

  /** Halving a leaf around the octant holding all its objects keeps them
      inside its cube. */
  lemma HalvedInBounds<T>(t: Tree<T>)
    requires WellFormed(t) && InBounds(t) && t.children == [] && t.objects != [] && OneOctant(t.center, t.objects)
    ensures InBounds(t.(side := t.side / 2.0, center := ChildCenter(t.center, t.side, BestFitChild(t.center, t.objects[0].pos))))
  {
    var fit := BestFitChild(t.center, t.objects[0].pos);
    var h := t.(side := t.side / 2.0, center := ChildCenter(t.center, t.side, fit));
    forall i | 0 <= i < |h.objects|
      ensures BoundsOf(h).Contains(h.objects[i].pos)
    {
      BestFitInChildBounds(t.center, t.side, t.objects[i].pos);
    }
  }

  /** ShrinkIfPossible keeps every invariant. */
  lemma ShrinkKeepsInvariant<T>(t: Tree<T>, minLength: real)
    requires Invariant(t) && ShrinkDefined(t, minLength)
    ensures Invariant(Shrink(t, minLength))
  {
    if 2.0 * minLength <= t.side && (t.objects != [] || t.children != []) && OneOctant(t.center, t.objects) {
      if t.children == [] {
        HalvedInBounds(t);
      } else {
        var j := FirstNonEmpty(t.children, 0);
        if j < |t.children| {
          assert Invariant(t.children[j]);
        }
      }
    }
  }

  /** After ShrinkIfPossible on a tree built by Add and Remove, every object
      lies inside the new root cube. */
  lemma ShrinkKeepsObjectsInside<T>(t: Tree<T>, minLength: real, e: OctreeObject<T>)
    requires Invariant(t) && ShrinkDefined(t, minLength) && e in AllObjects(t)
    ensures BoundsOf(Shrink(t, minLength)).Contains(e.pos)
  {
    ShrinkContents(t, minLength);
    ShrinkKeepsInvariant(t, minLength);
    assert e in multiset(AllObjects(t));
    AllInBox(Shrink(t, minLength), e);
  }

  /** A dense tree never meets the case in which ShrinkIfPossible would
      read children[-1]: a node with children holds objects. */
  lemma DenseShrinkDefined<T>(t: Tree<T>, minLength: real)
    requires Dense(t)
    ensures ShrinkDefined(t, minLength)
  {
    HasContentIff(t);
  }

  lemma ShrinkKeepsDense<T>(t: Tree<T>, minLength: real)
    requires WellFormed(t) && Dense(t) && ShrinkDefined(t, minLength)
    ensures Dense(Shrink(t, minLength))
  {
  }
}
