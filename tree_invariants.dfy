/** The invariants an octree keeps under Add and Remove, and the facts
    about a subtree's contents the other lemma modules share. */
module TreeInvariants {
  import opened Geometry
  import opened OctreeModel
  import opened OctantLemmas

  /** Every object lies inside the cube of the node holding it. */
  predicate InBounds<T>(t: Tree<T>)
    decreases t
  {
    (forall i :: 0 <= i < |t.objects| ==> BoundsOf(t).Contains(t.objects[i].pos)) &&
    forall i :: 0 <= i < |t.children| ==> InBounds(t.children[i])
  }

  /** A node with children holds no objects of its own. */
  predicate Tidy<T>(t: Tree<T>)
    decreases t
  {
    (t.children != [] ==> t.objects == []) &&
    forall i :: 0 <= i < |t.children| ==> Tidy(t.children[i])
  }

  /** Every object below child i of a node has i as its best-fit child
      there: objects sit on the path BestFitChild picks for their position. */
  ghost predicate Placed<T>(t: Tree<T>)
    decreases t
  {
    forall i :: 0 <= i < |t.children| ==>
      (forall o :: o in AllObjects(t.children[i]) ==> BestFitChild(t.center, o.pos) == i) &&
      Placed(t.children[i])
  }

  /** Placed stated for a list of children of a node centred at center. */
  ghost predicate PlacedChildren<T>(center: Vec3, cs: seq<Tree<T>>) {
    forall i :: 0 <= i < |cs| ==>
      (forall o :: o in AllObjects(cs[i]) ==> BestFitChild(center, o.pos) == i) &&
      Placed(cs[i])
  }

  /** A leaf that could still split holds at most NUM_OBJECTS_ALLOWED
      objects; only leaves at the minimum size grow without bound. */
  predicate Capacity<T>(t: Tree<T>)
    decreases t
  {
    (t.children == [] && t.minSize <= t.side / 2.0 ==> |t.objects| <= NUM_OBJECTS_ALLOWED) &&
    forall i :: 0 <= i < |t.children| ==> Capacity(t.children[i])
  }

  /** A node has children only while its subtree holds more than
      NUM_OBJECTS_ALLOWED objects: Split happens at the ninth object and
      the merge check collapses a node once the count drops back. */
  predicate Dense<T>(t: Tree<T>)
    decreases t
  {
    (t.children != [] ==> |AllObjects(t)| > NUM_OBJECTS_ALLOWED) &&
    forall i :: 0 <= i < |t.children| ==> Dense(t.children[i])
  }

  /** Everything a tree built by Add and Remove keeps. */
  ghost predicate Invariant<T>(t: Tree<T>) {
    WellFormed(t) && InBounds(t) && Tidy(t) && Placed(t) && Capacity(t)
  }

  /** The tree the constructor makes, one empty leaf, keeps every invariant. */
  lemma EmptyTreeInvariant<T>(center: Vec3, side: real, minSize: real)
    requires 0.0 < minSize
    ensures var t: Tree<T> := Node(center, side, minSize, [], []); Invariant(t) && Dense(t)
  {
  }

  // ---------------------------------------------------------------------
  // Contents of a subtree
  // ---------------------------------------------------------------------

  /** An object is below a list of children exactly when it is below one
      of them. */
  lemma {:induction false} InChildrenObjects<T>(cs: seq<Tree<T>>, o: OctreeObject<T>)
    ensures o in ChildrenObjects(cs) <==> exists i :: 0 <= i < |cs| && o in AllObjects(cs[i])
  {
    if cs != [] {
      var n := |cs| - 1;
      InChildrenObjects(cs[..n], o);
      assert forall i :: 0 <= i < n ==> cs[..n][i] == cs[i];
    }
  }

  /** Replacing child b trades the objects of the old child for those of
      the new one. */
  lemma {:induction false} ObjectsOfReplaced<T>(cs: seq<Tree<T>>, b: nat, c: Tree<T>)
    requires b < |cs|
    ensures multiset(ChildrenObjects(cs[b := c])) + multiset(AllObjects(cs[b])) ==
            multiset(ChildrenObjects(cs)) + multiset(AllObjects(c))
  {
    var n := |cs| - 1;
    var ds := cs[b := c];
    ChildrenObjectsLast(ds);
    ChildrenObjectsLast(cs);
    if b == n {
      assert ds[..n] == cs[..n];
      SwapLast(ChildrenObjects(cs[..n]), AllObjects(c), AllObjects(cs[n]));
    } else {
      assert ds[..n] == cs[..n][b := c] && ds[n] == cs[n] && cs[..n][b] == cs[b];
      ObjectsOfReplaced(cs[..n], b, c);
      AppendBoth(ChildrenObjects(ds[..n]), AllObjects(cs[b]), ChildrenObjects(cs[..n]), AllObjects(c), AllObjects(cs[n]));
    }
  }

  /** Replacing child b by a node holding m more objects adds m to the
      children's objects. */
  lemma ObjectsOfGrown<T>(cs: seq<Tree<T>>, b: nat, c: Tree<T>, m: multiset<OctreeObject<T>>)
    requires b < |cs| && multiset(AllObjects(c)) == multiset(AllObjects(cs[b])) + m
    ensures multiset(ChildrenObjects(cs[b := c])) == multiset(ChildrenObjects(cs)) + m
  {
    ObjectsOfReplaced(cs, b, c);
    Cancel(multiset(ChildrenObjects(cs[b := c])), multiset(ChildrenObjects(cs)) + m, multiset(AllObjects(cs[b])));
  }

  lemma Cancel<X>(a: multiset<X>, b: multiset<X>, x: multiset<X>)
    requires a + x == b + x
    ensures a == b
  {
    forall e ensures a[e] == b[e] {
      assert (a + x)[e] == (b + x)[e];
    }
  }

  /** The last element of a sequence and the rest make up its multiset. */
  lemma MultisetLast<X>(s: seq<X>)
    requires s != []
    ensures multiset(s) == multiset(s[..|s| - 1]) + multiset{s[|s| - 1]}
  {
    assert s == s[..|s| - 1] + [s[|s| - 1]];
  }

  /** Adding a sequence's objects all but the last, then the last, adds
      the whole sequence. */
  lemma AddLast<X>(a: multiset<X>, b: multiset<X>, c: multiset<X>, s: seq<X>)
    requires s != [] && a == b + multiset(s[..|s| - 1]) && b == c + multiset{s[|s| - 1]}
    ensures a == c + multiset(s)
  {
    MultisetLast(s);
  }

  /** ChildrenObjects unfolded once. */
  lemma ChildrenObjectsLast<T>(cs: seq<Tree<T>>)
    requires cs != []
    ensures ChildrenObjects(cs) == ChildrenObjects(cs[..|cs| - 1]) + AllObjects(cs[|cs| - 1])
  {
  }

  lemma SwapLast<X>(p: seq<X>, u: seq<X>, v: seq<X>)
    ensures multiset(p + u) + multiset(v) == multiset(p + v) + multiset(u)
  {
    calc {
      multiset(p + u) + multiset(v);
      multiset(p) + multiset(u) + multiset(v);
      multiset(p) + multiset(v) + multiset(u);
      multiset(p + v) + multiset(u);
    }
  }

  lemma AppendBoth<X>(a: seq<X>, x: seq<X>, b: seq<X>, y: seq<X>, l: seq<X>)
    requires multiset(a) + multiset(x) == multiset(b) + multiset(y)
    ensures multiset(a + l) + multiset(x) == multiset(b + l) + multiset(y)
  {
    calc {
      multiset(a + l) + multiset(x);
      multiset(a) + multiset(l) + multiset(x);
      (multiset(a) + multiset(x)) + multiset(l);
      (multiset(b) + multiset(y)) + multiset(l);
      multiset(b) + multiset(l) + multiset(y);
      multiset(b + l) + multiset(y);
    }
  }

  /** The lists Split creates hold nothing. */
  lemma SplitHoldsNothing<T>(t: Tree<T>)
    requires 0.0 < t.minSize
    ensures ChildrenObjects(Split(t)) == []
  {
    ChildrenObjectsEmpty(Split(t));
  }

  lemma {:induction false} ReversedContents<X>(s: seq<X>)
    ensures multiset(Reversed(s)) == multiset(s)
  {
    if s != [] {
      ReversedContents(s[1..]);
      assert s == [s[0]] + s[1..];
    }
  }

  lemma RemoveAtContents<X>(s: seq<X>, k: nat)
    requires k < |s|
    ensures multiset(RemoveAt(s, k)) + multiset{s[k]} == multiset(s)
  {
    assert s == s[..k] + [s[k]] + s[k + 1..];
  }

  /** In a well-formed tree whose objects lie inside their nodes, every
      object of the subtree lies inside the root's cube. */
  lemma {:induction false} AllInBox<T>(t: Tree<T>, o: OctreeObject<T>)
    requires WellFormed(t) && InBounds(t) && o in AllObjects(t)
    ensures BoundsOf(t).Contains(o.pos)
    decreases t
  {
    if o !in t.objects {
      InChildrenObjects(t.children, o);
      var i :| 0 <= i < |t.children| && o in AllObjects(t.children[i]);
      AllInBox(t.children[i], o);
      assert BoundsOf(t.children[i]) == ChildBounds(t.center, t.side)[i];
      ChildBoxInside(t.center, t.side, i, o.pos);
    }
  }

  // ---------------------------------------------------------------------
  // Children's objects around one child
  // ---------------------------------------------------------------------

  lemma {:induction false} ChildrenObjectsConcat<T>(a: seq<Tree<T>>, b: seq<Tree<T>>)
    ensures ChildrenObjects(a + b) == ChildrenObjects(a) + ChildrenObjects(b)
    decreases |b|
  {
    if b == [] {
      assert a + b == a;
    } else {
      var n := |b| - 1;
      assert (a + b)[..|a + b| - 1] == a + b[..n];
      ChildrenObjectsConcat(a, b[..n]);
    }
  }

  /** The children's objects are those before child i, those of child i and
      those after it. */
  lemma ChildrenObjectsAround<T>(cs: seq<Tree<T>>, i: nat)
    requires i < |cs|
    ensures ChildrenObjects(cs) == ChildrenObjects(cs[..i]) + AllObjects(cs[i]) + ChildrenObjects(cs[i + 1..])
  {
    assert cs == cs[..i + 1] + cs[i + 1..];
    ChildrenObjectsConcat(cs[..i + 1], cs[i + 1..]);
    ChildrenObjectsStep(cs, i);
  }

  lemma EmptySlice<T>(cs: seq<Tree<T>>, lo: nat, hi: nat)
    requires lo <= hi <= |cs| && forall i :: lo <= i < hi ==> AllObjects(cs[i]) == []
    ensures ChildrenObjects(cs[lo..hi]) == []
  {
    forall i | 0 <= i < hi - lo
      ensures AllObjects(cs[lo..hi][i]) == []
    {
      assert cs[lo..hi][i] == cs[lo + i];
    }
    ChildrenObjectsEmpty(cs[lo..hi]);
  }

  /** When every child but j is empty, the children's objects are child j's. */
  lemma {:induction false} ChildrenObjectsSingle<T>(cs: seq<Tree<T>>, j: nat)
    requires j < |cs|
    requires forall i :: 0 <= i < j ==> AllObjects(cs[i]) == []
    requires forall i :: j < i < |cs| ==> AllObjects(cs[i]) == []
    ensures ChildrenObjects(cs) == AllObjects(cs[j])
  {
    var n := |cs| - 1;
    ChildrenObjectsLast(cs);
    if j == n {
      EmptySlice(cs, 0, n);
      assert cs[0..n] == cs[..n];
    } else {
      var ds := cs[..n];
      assert forall i :: 0 <= i < n ==> ds[i] == cs[i];
      ChildrenObjectsSingle(ds, j);
      assert AllObjects(cs[n]) == [];
    }
  }

  // ---------------------------------------------------------------------
  // Removing one object
  // ---------------------------------------------------------------------

  /** after is before with one occurrence of e taken out. */
  ghost predicate RemovesOne<T>(before: seq<OctreeObject<T>>, after: seq<OctreeObject<T>>, e: OctreeObject<T>) {
    multiset(after) + multiset{e} == multiset(before)
  }

  /** after is before with its first object carrying payload x taken out. */
  ghost predicate RemovesFirst<T>(before: seq<OctreeObject<T>>, after: seq<OctreeObject<T>>, x: T) {
    var k := FirstMatch(before, x);
    k >= 0 && RemovesOne(before, after, before[k])
  }

  /** A sequence's first match lies after a prefix without one. */
  lemma FirstMatchAfter<T>(a: seq<OctreeObject<T>>, b: seq<OctreeObject<T>>, x: T)
    requires FirstMatch(a, x) == -1
    ensures FirstMatch(a + b, x) == if FirstMatch(b, x) == -1 then -1 else |a| + FirstMatch(b, x)
    ensures FirstMatch(b, x) >= 0 ==> (a + b)[|a| + FirstMatch(b, x)] == b[FirstMatch(b, x)]
  {
    var k := FirstMatch(b, x);
    if k == -1 {
      FirstMatchNone(a + b, x);
    } else {
      FirstMatchAt(a + b, x, |a| + k);
    }
  }

  /** A match in a prefix is the first one of the whole sequence. */
  lemma FirstMatchBefore<T>(a: seq<OctreeObject<T>>, b: seq<OctreeObject<T>>, x: T)
    requires FirstMatch(a, x) >= 0
    ensures FirstMatch(a + b, x) == FirstMatch(a, x) && (a + b)[FirstMatch(a, x)] == a[FirstMatch(a, x)]
  {
    FirstMatchAt(a + b, x, FirstMatch(a, x));
  }

  /** No child holding x means the children together hold none. */
  lemma {:induction false} NoMatchInChildren<T>(cs: seq<Tree<T>>, x: T)
    requires forall i :: 0 <= i < |cs| ==> FirstMatch(AllObjects(cs[i]), x) == -1
    ensures FirstMatch(ChildrenObjects(cs), x) == -1
  {
    if cs != [] {
      var n := |cs| - 1;
      assert forall i :: 0 <= i < n ==> cs[..n][i] == cs[i];
      NoMatchInChildren(cs[..n], x);
      FirstMatchAfter(ChildrenObjects(cs[..n]), AllObjects(cs[n]), x);
    }
  }

  lemma RemoveAtFirst<T>(objs: seq<OctreeObject<T>>, x: T)
    requires FirstMatch(objs, x) >= 0
    ensures RemovesFirst(objs, RemoveAt(objs, FirstMatch(objs, x)), x)
  {
    RemoveAtContents(objs, FirstMatch(objs, x));
  }

  lemma RemovesOneAppend<T>(a: seq<OctreeObject<T>>, a2: seq<OctreeObject<T>>, b: seq<OctreeObject<T>>, e: OctreeObject<T>)
    requires RemovesOne(a, a2, e)
    ensures RemovesOne(a + b, a2 + b, e) && RemovesOne(b + a, b + a2, e)
  {
    calc {
      multiset(a2 + b) + multiset{e};
      multiset(a2) + multiset{e} + multiset(b);
      multiset(a + b);
    }
    calc {
      multiset(b + a2) + multiset{e};
      multiset(b) + (multiset(a2) + multiset{e});
      multiset(b + a);
    }
  }

  /** Removing the first match from a prefix removes the first match from
      the whole sequence. */
  lemma RemovesFirstBefore<T>(a: seq<OctreeObject<T>>, a2: seq<OctreeObject<T>>, b: seq<OctreeObject<T>>, x: T)
    requires RemovesFirst(a, a2, x)
    ensures RemovesFirst(a + b, a2 + b, x)
  {
    FirstMatchBefore(a, b, x);
    RemovesOneAppend(a, a2, b, a[FirstMatch(a, x)]);
  }

  /** Behind a prefix without a match, removing the first match of the rest
      removes the first match of the whole sequence. */
  lemma RemovesFirstAfter<T>(a: seq<OctreeObject<T>>, b: seq<OctreeObject<T>>, b2: seq<OctreeObject<T>>, x: T)
    requires FirstMatch(a, x) == -1 && RemovesFirst(b, b2, x)
    ensures RemovesFirst(a + b, a + b2, x)
  {
    FirstMatchAfter(a, b, x);
    RemovesOneAppend(b, b2, a, b[FirstMatch(b, x)]);
  }

  /** Taking e out of child b takes e out of the children's objects. */
  lemma RemovesOneReplaced<T>(cs: seq<Tree<T>>, b: nat, c: Tree<T>, e: OctreeObject<T>)
    requires b < |cs| && RemovesOne(AllObjects(cs[b]), AllObjects(c), e)
    ensures RemovesOne(ChildrenObjects(cs), ChildrenObjects(cs[b := c]), e)
  {
    ObjectsOfGrown(cs[b := c], b, cs[b], multiset{e});
    assert cs[b := c][b := cs[b]] == cs;
  }

  /** Removing the first match from child i, when no earlier child has
      one, removes the first match of all the children's objects. */
  lemma RemovesFirstInChild<T>(cs: seq<Tree<T>>, i: nat, c: Tree<T>, x: T)
    requires i < |cs| && forall j :: 0 <= j < i ==> FirstMatch(AllObjects(cs[j]), x) == -1
    requires RemovesFirst(AllObjects(cs[i]), AllObjects(c), x)
    ensures RemovesFirst(ChildrenObjects(cs), ChildrenObjects(cs[i := c]), x)
  {
    var ds := cs[i := c];
    assert forall j :: 0 <= j < i ==> cs[..i][j] == cs[j];
    NoMatchInChildren(cs[..i], x);
    ChildrenObjectsAround(cs, i);
    ChildrenObjectsAround(ds, i);
    assert ds[..i] == cs[..i] && ds[i + 1..] == cs[i + 1..];
    RemovesFirstMiddle(ChildrenObjects(cs[..i]), AllObjects(cs[i]), AllObjects(c), ChildrenObjects(cs[i + 1..]), x);
  }

  lemma RemovesFirstMiddle<T>(a: seq<OctreeObject<T>>, m: seq<OctreeObject<T>>, m2: seq<OctreeObject<T>>,
                              c: seq<OctreeObject<T>>, x: T)
    requires FirstMatch(a, x) == -1 && RemovesFirst(m, m2, x)
    ensures RemovesFirst(a + m + c, a + m2 + c, x)
  {
    RemovesFirstBefore(m, m2, c, x);
    RemovesFirstAfter(a, m + c, m2 + c, x);
    assert a + m + c == a + (m + c) && a + m2 + c == a + (m2 + c);
  }

  /** A child's subtree holds no more objects than all the children. */
  lemma ChildCount<T>(cs: seq<Tree<T>>, i: nat)
    requires i < |cs|
    ensures |AllObjects(cs[i])| <= |ChildrenObjects(cs)|
  {
    ChildrenObjectsAround(cs, i);
  }
}
