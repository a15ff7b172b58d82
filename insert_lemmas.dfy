/** What insertion promises: Add stores exactly the new object, rejects a
    position outside the root, and SubAdd keeps every invariant of
    TreeInvariants. */
module InsertLemmas {
  import opened Geometry
  import opened OctreeModel
  import opened OctantLemmas
  import opened TreeInvariants

  /** SubAdd adds exactly one object, o, to the subtree. */
  lemma {:induction false} SubAddContents<T>(t: Tree<T>, o: OctreeObject<T>)
    requires WellFormed(t)
    ensures multiset(AllObjects(SubAdd(t, o))) == multiset(AllObjects(t)) + multiset{o}
    decreases Levels(t.side, t.minSize), 1
  {
    if t.children == [] && (|t.objects| < NUM_OBJECTS_ALLOWED || t.side / 2.0 < t.minSize) {
      assert AllObjects(SubAdd(t, o)) == t.objects + [o];
    } else {
      var t1 := if t.children == [] then SplitNode(t) else t;
      if t.children == [] {
        SplitContents(t);
      }
      var b := BestFitChild(t.center, o.pos);
      LevelsHalve(t.side, t.minSize);
      var c := SubAdd(t1.children[b], o);
      SubAddContents(t1.children[b], o);
      ObjectsOfGrown(t1.children, b, c, multiset{o});
    }
  }

  /** Splitting a leaf moves its objects into the new children and loses
      none. */
  lemma {:induction false} SplitContents<T>(t: Tree<T>)
    requires WellFormed(t) && t.children == [] && t.minSize <= t.side / 2.0
    ensures multiset(AllObjects(SplitNode(t))) == multiset(AllObjects(t))
    decreases Levels(t.side, t.minSize), 0, |t.objects| + 1
  {
    DistributeContents(t, Split(t), t.objects);
    SplitHoldsNothing(t);
  }

  /** The redistribution loop hands every object of objs to some child and
      loses none. */
  lemma {:induction false} DistributeContents<T>(p: Tree<T>, cs: seq<Tree<T>>, objs: seq<OctreeObject<T>>)
    requires 0.0 < p.minSize <= p.side / 2.0 && Octants(p, cs)
    ensures multiset(ChildrenObjects(Distribute(p, cs, objs))) == multiset(ChildrenObjects(cs)) + multiset(objs)
    decreases Levels(p.side, p.minSize), 0, |objs|
  {
    if objs != [] {
      var n := |objs| - 1;
      var o := objs[n];
      var b := BestFitChild(p.center, o.pos);
      LevelsHalve(p.side, p.minSize);
      var c := SubAdd(cs[b], o);
      SubAddContents(cs[b], o);
      ObjectsOfGrown(cs, b, c, multiset{o});
      OctantsReplace(p, cs, b, c);
      DistributeContents(p, cs[b := c], objs[..n]);
      AddLast(multiset(ChildrenObjects(Distribute(p, cs[b := c], objs[..n]))),
              multiset(ChildrenObjects(cs[b := c])), multiset(ChildrenObjects(cs)), objs);
    }
  }

  /** An object is in the subtree after SubAdd exactly when it was there
      before or is the new one. */
  lemma SubAddMembers<T>(t: Tree<T>, o: OctreeObject<T>, e: OctreeObject<T>)
    requires WellFormed(t)
    ensures e in AllObjects(SubAdd(t, o)) <==> e in AllObjects(t) || e == o
  {
    SubAddContents(t, o);
    assert e in AllObjects(SubAdd(t, o)) <==> e in multiset(AllObjects(SubAdd(t, o)));
    assert e in AllObjects(t) <==> e in multiset(AllObjects(t));
  }

  /** Add succeeds exactly for a position inside the root cube; it then
      stores o and nothing else, and otherwise leaves the tree alone. */
  lemma AddContents<T>(t: Tree<T>, o: OctreeObject<T>)
    requires WellFormed(t)
    ensures Add(t, o).success <==> BoundsOf(t).Contains(o.pos)
    ensures !Add(t, o).success ==> Add(t, o).tree == t
    ensures Add(t, o).success ==> multiset(AllObjects(Add(t, o).tree)) == multiset(AllObjects(t)) + multiset{o}
  {
    if BoundsOf(t).Contains(o.pos) {
      SubAddContents(t, o);
    }
  }

  // ---------------------------------------------------------------------
  // Every object stays inside its node
  // ---------------------------------------------------------------------

  lemma {:induction false} SubAddInBounds<T>(t: Tree<T>, o: OctreeObject<T>)
    requires WellFormed(t) && InBounds(t) && BoundsOf(t).Contains(o.pos)
    ensures InBounds(SubAdd(t, o))
    decreases Levels(t.side, t.minSize), 1
  {
    if t.children == [] && (|t.objects| < NUM_OBJECTS_ALLOWED || t.side / 2.0 < t.minSize) {
      assert SubAdd(t, o).objects == t.objects + [o];
    } else {
      var t1 := if t.children == [] then SplitNode(t) else t;
      if t.children == [] {
        SplitInBounds(t);
      }
      var b := BestFitChild(t.center, o.pos);
      LevelsHalve(t.side, t.minSize);
      BestFitInChildBounds(t.center, t.side, o.pos);
      assert BoundsOf(t1.children[b]) == ChildBounds(t.center, t.side)[b];
      SubAddInBounds(t1.children[b], o);
    }
  }

  lemma {:induction false} SplitInBounds<T>(t: Tree<T>)
    requires WellFormed(t) && t.children == [] && t.minSize <= t.side / 2.0 && InBounds(t)
    ensures InBounds(SplitNode(t))
    decreases Levels(t.side, t.minSize), 0, |t.objects| + 1
  {
    DistributeInBounds(t, Split(t), t.objects);
  }

  lemma {:induction false} DistributeInBounds<T>(p: Tree<T>, cs: seq<Tree<T>>, objs: seq<OctreeObject<T>>)
    requires 0.0 < p.minSize <= p.side / 2.0 && Octants(p, cs)
    requires forall i :: 0 <= i < 8 ==> InBounds(cs[i])
    requires forall k :: 0 <= k < |objs| ==> BoundsOf(p).Contains(objs[k].pos)
    ensures forall i :: 0 <= i < 8 ==> InBounds(Distribute(p, cs, objs)[i])
    decreases Levels(p.side, p.minSize), 0, |objs|
  {
    if objs != [] {
      var n := |objs| - 1;
      var o := objs[n];
      var b := BestFitChild(p.center, o.pos);
      LevelsHalve(p.side, p.minSize);
      var c := SubAdd(cs[b], o);
      BestFitInChildBounds(p.center, p.side, o.pos);
      assert BoundsOf(cs[b]) == ChildBounds(p.center, p.side)[b];
      SubAddInBounds(cs[b], o);
      OctantsReplace(p, cs, b, c);
      DistributeInBounds(p, cs[b := c], objs[..n]);
    }
  }

  // ---------------------------------------------------------------------
  // Nodes with children hold no objects
  // ---------------------------------------------------------------------

  lemma {:induction false} SubAddTidy<T>(t: Tree<T>, o: OctreeObject<T>)
    requires WellFormed(t) && Tidy(t)
    ensures Tidy(SubAdd(t, o))
    decreases Levels(t.side, t.minSize), 1
  {
    if !(t.children == [] && (|t.objects| < NUM_OBJECTS_ALLOWED || t.side / 2.0 < t.minSize)) {
      var t1 := if t.children == [] then SplitNode(t) else t;
      if t.children == [] {
        SplitTidy(t);
      }
      var b := BestFitChild(t.center, o.pos);
      LevelsHalve(t.side, t.minSize);
      SubAddTidy(t1.children[b], o);
    }
  }

  lemma {:induction false} SplitTidy<T>(t: Tree<T>)
    requires WellFormed(t) && t.children == [] && t.minSize <= t.side / 2.0
    ensures Tidy(SplitNode(t))
    decreases Levels(t.side, t.minSize), 0, |t.objects| + 1
  {
    DistributeTidy(t, Split(t), t.objects);
  }

  lemma {:induction false} DistributeTidy<T>(p: Tree<T>, cs: seq<Tree<T>>, objs: seq<OctreeObject<T>>)
    requires 0.0 < p.minSize <= p.side / 2.0 && Octants(p, cs)
    requires forall i :: 0 <= i < 8 ==> Tidy(cs[i])
    ensures forall i :: 0 <= i < 8 ==> Tidy(Distribute(p, cs, objs)[i])
    decreases Levels(p.side, p.minSize), 0, |objs|
  {
    if objs != [] {
      var n := |objs| - 1;
      var o := objs[n];
      var b := BestFitChild(p.center, o.pos);
      LevelsHalve(p.side, p.minSize);
      var c := SubAdd(cs[b], o);
      SubAddTidy(cs[b], o);
      OctantsReplace(p, cs, b, c);
      DistributeTidy(p, cs[b := c], objs[..n]);
    }
  }

  // ---------------------------------------------------------------------
  // Leaves that can split stay within NUM_OBJECTS_ALLOWED
  // ---------------------------------------------------------------------

  lemma {:induction false} SubAddCapacity<T>(t: Tree<T>, o: OctreeObject<T>)
    requires WellFormed(t) && Capacity(t)
    ensures Capacity(SubAdd(t, o))
    decreases Levels(t.side, t.minSize), 1
  {
    if !(t.children == [] && (|t.objects| < NUM_OBJECTS_ALLOWED || t.side / 2.0 < t.minSize)) {
      var t1 := if t.children == [] then SplitNode(t) else t;
      if t.children == [] {
        SplitCapacity(t);
      }
      var b := BestFitChild(t.center, o.pos);
      LevelsHalve(t.side, t.minSize);
      SubAddCapacity(t1.children[b], o);
    }
  }

  lemma {:induction false} SplitCapacity<T>(t: Tree<T>)
    requires WellFormed(t) && t.children == [] && t.minSize <= t.side / 2.0
    ensures Capacity(SplitNode(t))
    decreases Levels(t.side, t.minSize), 0, |t.objects| + 1
  {
    DistributeCapacity(t, Split(t), t.objects);
  }

  lemma {:induction false} DistributeCapacity<T>(p: Tree<T>, cs: seq<Tree<T>>, objs: seq<OctreeObject<T>>)
    requires 0.0 < p.minSize <= p.side / 2.0 && Octants(p, cs)
    requires forall i :: 0 <= i < 8 ==> Capacity(cs[i])
    ensures forall i :: 0 <= i < 8 ==> Capacity(Distribute(p, cs, objs)[i])
    decreases Levels(p.side, p.minSize), 0, |objs|
  {
    if objs != [] {
      var n := |objs| - 1;
      var o := objs[n];
      var b := BestFitChild(p.center, o.pos);
      LevelsHalve(p.side, p.minSize);
      var c := SubAdd(cs[b], o);
      SubAddCapacity(cs[b], o);
      OctantsReplace(p, cs, b, c);
      DistributeCapacity(p, cs[b := c], objs[..n]);
    }
  }

  // ---------------------------------------------------------------------
  // Objects sit on the best-fit path of their position
  // ---------------------------------------------------------------------

  lemma {:induction false} SubAddPlaced<T>(t: Tree<T>, o: OctreeObject<T>)
    requires WellFormed(t) && Placed(t)
    ensures Placed(SubAdd(t, o))
    decreases Levels(t.side, t.minSize), 1
  {
    if !(t.children == [] && (|t.objects| < NUM_OBJECTS_ALLOWED || t.side / 2.0 < t.minSize)) {
      var t1 := if t.children == [] then SplitNode(t) else t;
      if t.children == [] {
        SplitPlaced(t);
      }
      var b := BestFitChild(t.center, o.pos);
      LevelsHalve(t.side, t.minSize);
      var c := SubAdd(t1.children[b], o);
      SubAddPlaced(t1.children[b], o);
      forall e | e in AllObjects(c)
        ensures BestFitChild(t.center, e.pos) == b
      {
        SubAddMembers(t1.children[b], o, e);
      }
      assert PlacedChildren(t.center, t1.children[b := c]);
    }
  }

  lemma {:induction false} SplitPlaced<T>(t: Tree<T>)
    requires WellFormed(t) && t.children == [] && t.minSize <= t.side / 2.0
    ensures Placed(SplitNode(t))
    decreases Levels(t.side, t.minSize), 0, |t.objects| + 1
  {
    assert forall i :: 0 <= i < 8 ==> AllObjects(Split(t)[i]) == [];
    DistributePlaced(t, Split(t), t.objects);
    assert PlacedChildren(t.center, SplitNode(t).children);
  }

  lemma {:induction false} DistributePlaced<T>(p: Tree<T>, cs: seq<Tree<T>>, objs: seq<OctreeObject<T>>)
    requires 0.0 < p.minSize <= p.side / 2.0 && Octants(p, cs) && PlacedChildren(p.center, cs)
    ensures PlacedChildren(p.center, Distribute(p, cs, objs))
    decreases Levels(p.side, p.minSize), 0, |objs|
  {
    if objs != [] {
      var n := |objs| - 1;
      var o := objs[n];
      var b := BestFitChild(p.center, o.pos);
      LevelsHalve(p.side, p.minSize);
      var c := SubAdd(cs[b], o);
      SubAddPlaced(cs[b], o);
      forall e | e in AllObjects(c)
        ensures BestFitChild(p.center, e.pos) == b
      {
        SubAddMembers(cs[b], o, e);
      }
      OctantsReplace(p, cs, b, c);
      assert PlacedChildren(p.center, cs[b := c]);
      DistributePlaced(p, cs[b := c], objs[..n]);
    }
  }

  /** Add keeps every invariant of a tree. */
  lemma AddKeepsInvariant<T>(t: Tree<T>, o: OctreeObject<T>)
    requires Invariant(t)
    ensures Invariant(Add(t, o).tree)
  {
    if BoundsOf(t).Contains(o.pos) {
      SubAddInBounds(t, o);
      SubAddTidy(t, o);
      SubAddPlaced(t, o);
      SubAddCapacity(t, o);
    }
  }

  // ---------------------------------------------------------------------
  // Only nodes holding more than NUM_OBJECTS_ALLOWED objects have children
  // ---------------------------------------------------------------------

  lemma {:induction false} SubAddDense<T>(t: Tree<T>, o: OctreeObject<T>)
    requires WellFormed(t) && Dense(t)
    ensures Dense(SubAdd(t, o))
    decreases Levels(t.side, t.minSize), 1
  {
    if !(t.children == [] && (|t.objects| < NUM_OBJECTS_ALLOWED || t.side / 2.0 < t.minSize)) {
      var t1 := if t.children == [] then SplitNode(t) else t;
      if t.children == [] {
        SplitDense(t);
        assert AllObjects(t) == t.objects;
      }
      var b := BestFitChild(t.center, o.pos);
      LevelsHalve(t.side, t.minSize);
      SubAddDense(t1.children[b], o);
      SubAddCount(t, o);
    }
  }

  lemma SubAddCount<T>(t: Tree<T>, o: OctreeObject<T>)
    requires WellFormed(t)
    ensures |AllObjects(SubAdd(t, o))| == |AllObjects(t)| + 1
  {
    SubAddContents(t, o);
    assert |AllObjects(SubAdd(t, o))| == |multiset(AllObjects(t)) + multiset{o}|;
  }

  lemma {:induction false} SplitDense<T>(t: Tree<T>)
    requires WellFormed(t) && t.children == [] && t.minSize <= t.side / 2.0
    ensures forall i :: 0 <= i < 8 ==> Dense(SplitNode(t).children[i])
    decreases Levels(t.side, t.minSize), 0, |t.objects| + 1
  {
    DistributeDense(t, Split(t), t.objects);
  }

  lemma {:induction false} DistributeDense<T>(p: Tree<T>, cs: seq<Tree<T>>, objs: seq<OctreeObject<T>>)
    requires 0.0 < p.minSize <= p.side / 2.0 && Octants(p, cs)
    requires forall i :: 0 <= i < 8 ==> Dense(cs[i])
    ensures forall i :: 0 <= i < 8 ==> Dense(Distribute(p, cs, objs)[i])
    decreases Levels(p.side, p.minSize), 0, |objs|
  {
    if objs != [] {
      var n := |objs| - 1;
      var o := objs[n];
      var b := BestFitChild(p.center, o.pos);
      LevelsHalve(p.side, p.minSize);
      var c := SubAdd(cs[b], o);
      SubAddDense(cs[b], o);
      OctantsReplace(p, cs, b, c);
      DistributeDense(p, cs[b := c], objs[..n]);
    }
  }

  lemma AddKeepsDense<T>(t: Tree<T>, o: OctreeObject<T>)
    requires WellFormed(t) && Dense(t)
    ensures Dense(Add(t, o).tree)
  {
    if BoundsOf(t).Contains(o.pos) {
      SubAddDense(t, o);
    }
  }
}
