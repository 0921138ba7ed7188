/** The logical coordinate system of the hex lattice: integer `(x, z)`
    pairs, the six fixed neighbour offsets, and the adjacency they define. */
module HexCoordinates {

  /** A logical cell coordinate. The lattice is unbounded in every direction. */
  datatype Coord = Coord(x: int, z: int)

  /** The seed coordinate every generation run starts from. */
  const Origin: Coord := Coord(0, 0)

  /** A neighbour direction, numbered clockwise from the top:
      0 top, 1 top-right, 2 bottom-right, 3 bottom, 4 bottom-left, 5 top-left.
      Direction `k` is also the index of the boundary edge shared with that neighbour. */
  type Direction = k: int | 0 <= k < 6

  /** The offset table: entry `k` is the logical step to the neighbour in direction `k`. */
  const CoordOffsets: seq<Coord> :=
    [Coord(0, 2), Coord(1, 1), Coord(1, -1), Coord(0, -2), Coord(-1, -1), Coord(-1, 1)]

  /** The direction after `k`, wrapping from 5 back to 0. */
  function Next(k: Direction): Direction
  {
    (k + 1) % 6
  }

  /** The direction pointing back the way `k` came. */
  function Opposite(k: Direction): Direction
  {
    (k + 3) % 6
  }

  /** The coordinate one step from `c` in direction `k`. */
  function Neighbour(c: Coord, k: Direction): Coord
  {
    Coord(c.x + CoordOffsets[k].x, c.z + CoordOffsets[k].z)
  }

  /** `b` is one of the six neighbours of `a`. */
  predicate Adjacent(a: Coord, b: Coord)
  {
    exists k: Direction :: Neighbour(a, k) == b
  }

  /** The step shape of the lattice: one in x together with one in z,
      or none in x together with two in z. */
  predicate HexStep(dx: int, dz: int)
  {
    ((dx == 1 || dx == -1) && (dz == 1 || dz == -1)) || (dx == 0 && (dz == 2 || dz == -2))
  }

  /** Opposite entries of the offset table cancel out. */
  lemma OffsetsSymmetric(k: Direction)
    ensures CoordOffsets[k].x + CoordOffsets[Opposite(k)].x == 0
    ensures CoordOffsets[k].z + CoordOffsets[Opposite(k)].z == 0
  {
  }

  /** Stepping in direction `k` and then in the opposite direction returns to the start. */
  lemma NeighbourInverse(c: Coord, k: Direction)
    ensures Neighbour(Neighbour(c, k), Opposite(k)) == c
  {
    OffsetsSymmetric(k);
  }

  /** No offset is zero, so a coordinate is never its own neighbour. */
  lemma NeighbourIsOther(c: Coord, k: Direction)
    ensures Neighbour(c, k) != c
  {
  }

  /** The six neighbours of a coordinate are pairwise distinct. */
  lemma NeighboursDistinct(c: Coord, j: Direction, k: Direction)
    ensures Neighbour(c, j) == Neighbour(c, k) <==> j == k
  {
  }

  /** Adjacency is exactly the hex step shape, in both directions. */
  lemma AdjacentIffHexStep(a: Coord, b: Coord)
    ensures Adjacent(a, b) <==> HexStep(b.x - a.x, b.z - a.z)
  {
    var dx, dz := b.x - a.x, b.z - a.z;
    if HexStep(dx, dz) {
      var k: Direction :=
        if dx == 0 && dz == 2 then 0
        else if dx == 1 && dz == 1 then 1
        else if dx == 1 && dz == -1 then 2
        else if dx == 0 && dz == -2 then 3
        else if dx == -1 && dz == -1 then 4
        else 5;
      assert Neighbour(a, k) == b;
    }
  }

  /** Adjacency is symmetric: the neighbour's opposite neighbour is the start. */
  lemma AdjacentSymmetric(a: Coord, b: Coord)
    requires Adjacent(a, b)
    ensures Adjacent(b, a)
  {
    var k: Direction :| Neighbour(a, k) == b;
    NeighbourInverse(a, k);
  }

  /** The directions from `from` up to 5 whose entry in `mask` is set, in increasing order. */
  function DirectionsWhere(mask: seq<bool>, from: nat): (r: seq<Direction>)
    requires |mask| == 6 && from <= 6
    ensures |r| <= 6 - from
    decreases 6 - from
  {
    if from == 6 then []
    else (if mask[from] then [from as Direction] else []) + DirectionsWhere(mask, from + 1)
  }

  /** The selected directions are exactly the set entries of the mask from
      `from` on, each once, in increasing order. */
  lemma DirectionsWhereSpec(mask: seq<bool>, from: nat)
    requires |mask| == 6 && from <= 6
    ensures var r := DirectionsWhere(mask, from);
            && (forall k: Direction :: k in r <==> from <= k && mask[k])
            && (forall i, j :: 0 <= i < j < |r| ==> r[i] < r[j])
  {
    DirectionsWhereMembers(mask, from);
    DirectionsWhereSorted(mask, from);
  }

  lemma {:induction false} DirectionsWhereMembers(mask: seq<bool>, from: nat)
    requires |mask| == 6 && from <= 6
    ensures forall k: Direction :: k in DirectionsWhere(mask, from) <==> from <= k && mask[k]
    decreases 6 - from
  {
    if from < 6 {
      DirectionsWhereMembers(mask, from + 1);
      var head: seq<Direction> := if mask[from] then [from] else [];
      assert DirectionsWhere(mask, from) == head + DirectionsWhere(mask, from + 1);
    }
  }

  lemma {:induction false} DirectionsWhereSorted(mask: seq<bool>, from: nat)
    requires |mask| == 6 && from <= 6
    ensures forall i :: 0 <= i < |DirectionsWhere(mask, from)| ==> from <= DirectionsWhere(mask, from)[i]
    ensures forall i, j :: 0 <= i < j < |DirectionsWhere(mask, from)| ==>
              DirectionsWhere(mask, from)[i] < DirectionsWhere(mask, from)[j]
    decreases 6 - from
  {
    if from < 6 {
      DirectionsWhereSorted(mask, from + 1);
      var head: seq<Direction> := if mask[from] then [from] else [];
      assert DirectionsWhere(mask, from) == head + DirectionsWhere(mask, from + 1);
    }
  }

  /** With every entry set, all six directions are selected in order. */
  lemma DirectionsWhereAll(mask: seq<bool>)
    requires |mask| == 6
    requires forall k: Direction :: mask[k]
    ensures DirectionsWhere(mask, 0) == [0, 1, 2, 3, 4, 5]
  {
    assert DirectionsWhere(mask, 6) == [];
    assert DirectionsWhere(mask, 5) == [5];
    assert DirectionsWhere(mask, 4) == [4, 5];
    assert DirectionsWhere(mask, 3) == [3, 4, 5];
    assert DirectionsWhere(mask, 2) == [2, 3, 4, 5];
    assert DirectionsWhere(mask, 1) == [1, 2, 3, 4, 5];
  }
}
