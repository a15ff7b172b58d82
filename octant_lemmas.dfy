/** Properties of the octant arithmetic: BestFitChild, the child centres of
    Split and the child boxes of SetValues. */
module OctantLemmas {
  import opened Geometry
  import opened OctreeModel

  /** BestFitChild read bit by bit: bit 0 says x lies above the centre,
      bit 2 says y lies below it and bit 1 says z lies above it; a point on
      a splitting plane goes to the lower x, the upper y and the lower z. */
  lemma BestFitChildAxes(center: Vec3, p: Vec3)
    ensures var i := BestFitChild(center, p);
      (i % 2 == 1 <==> p.x > center.x) &&
      (i >= 4 <==> p.y < center.y) &&
      (i % 4 >= 2 <==> p.z > center.z)
  {
  }

  /** The eight centres written out, in the order of the tables in Split
      and SetValues. */
  lemma ChildCenterTable(center: Vec3, side: real)
    ensures var q := side / 4.0;
      ChildCenter(center, side, 0) == Plus(center, Vec3(-q, q, -q)) &&
      ChildCenter(center, side, 1) == Plus(center, Vec3(q, q, -q)) &&
      ChildCenter(center, side, 2) == Plus(center, Vec3(-q, q, q)) &&
      ChildCenter(center, side, 3) == Plus(center, Vec3(q, q, q)) &&
      ChildCenter(center, side, 4) == Plus(center, Vec3(-q, -q, -q)) &&
      ChildCenter(center, side, 5) == Plus(center, Vec3(q, -q, -q)) &&
      ChildCenter(center, side, 6) == Plus(center, Vec3(-q, -q, q)) &&
      ChildCenter(center, side, 7) == Plus(center, Vec3(q, -q, q))
  {
  }

  /** Child i that Split creates has exactly the box childBounds[i]. */
  lemma SplitMatchesChildBounds<T>(t: Tree<T>)
    requires 0.0 < t.minSize
    ensures forall i :: 0 <= i < 8 ==> BoundsOf(Split(t)[i]) == ChildBounds(t.center, t.side)[i]
    ensures forall i :: 0 <= i < 8 ==> Split(t)[i].minSize == t.minSize
  {
  }

  /** A position inside a node's cube lies inside the box of its best-fit
      child, boundary included. */
  lemma BestFitInChildBounds(center: Vec3, side: real, p: Vec3)
    requires Cube(center, side).Contains(p)
    ensures ChildBounds(center, side)[BestFitChild(center, p)].Contains(p)
  {
    var i := BestFitChild(center, p);
    var b := ChildBounds(center, side)[i];
    assert b == Cube(ChildCenter(center, side, i), side / 2.0);
    BestFitChildAxes(center, p);
  }

  /** Every child box lies inside the parent cube. */
  lemma ChildBoxInside(center: Vec3, side: real, i: int, p: Vec3)
    requires 0 <= i < 8 && ChildBounds(center, side)[i].Contains(p)
    ensures Cube(center, side).Contains(p)
  {
    assert ChildBounds(center, side)[i] == Cube(ChildCenter(center, side, i), side / 2.0);
  }
}
