/** Realising one cell: the six neighbour accessors, which resolve
    neighbours through the owning registry, and the generation step that
    appends the cell's six corners and the index pairs of every boundary
    edge not already drawn by a realised neighbour. */
module HexCellGeneration {
  import opened Wrappers
  import opened HexCoordinates
  import opened HexCells
  import opened HexRegistry
  import opened HexMesh

  /** The registered neighbour of `c` in direction `k`, through the offset table. */
  function NeighbourCell(g: Registry, c: Coord, k: Direction): Option<Cell>
  {
    Lookup(g, Neighbour(c, k))
  }

  function Top(g: Registry, cell: Cell): (r: Option<Cell>)
    ensures r == NeighbourCell(g, cell.coord, 0)
  {
    GetCellFromCoord(g, cell.coord.x, cell.coord.z + 2)
  }

  function TopLeft(g: Registry, cell: Cell): (r: Option<Cell>)
    ensures r == NeighbourCell(g, cell.coord, 5)
  {
    GetCellFromCoord(g, cell.coord.x - 1, cell.coord.z + 1)
  }

  function TopRight(g: Registry, cell: Cell): (r: Option<Cell>)
    ensures r == NeighbourCell(g, cell.coord, 1)
  {
    GetCellFromCoord(g, cell.coord.x + 1, cell.coord.z + 1)
  }

  function Bottom(g: Registry, cell: Cell): (r: Option<Cell>)
    ensures r == NeighbourCell(g, cell.coord, 3)
  {
    GetCellFromCoord(g, cell.coord.x, cell.coord.z - 2)
  }

  function BottomLeft(g: Registry, cell: Cell): (r: Option<Cell>)
    ensures r == NeighbourCell(g, cell.coord, 4)
  {
    GetCellFromCoord(g, cell.coord.x - 1, cell.coord.z - 1)
  }

  function BottomRight(g: Registry, cell: Cell): (r: Option<Cell>)
    ensures r == NeighbourCell(g, cell.coord, 2)
  {
    GetCellFromCoord(g, cell.coord.x + 1, cell.coord.z - 1)
  }

  /** The shared edge still has to be drawn: the neighbour is missing, or
      registered but not realised (so it has drawn nothing yet). */
  predicate NeedsEdge(n: Option<Cell>)
  {
    n.None? || n.value.vertices.None?
  }

  predicate EdgeOpen(g: Registry, c: Coord, k: Direction)
  {
    NeedsEdge(NeighbourCell(g, c, k))
  }

  /** Which of the six edges of the cell at `c` are open, by direction. */
  function OpenMask(g: Registry, c: Coord): (m: seq<bool>)
    ensures |m| == 6 && forall k: Direction :: m[k] == EdgeOpen(g, c, k)
  {
    [EdgeOpen(g, c, 0), EdgeOpen(g, c, 1), EdgeOpen(g, c, 2),
     EdgeOpen(g, c, 3), EdgeOpen(g, c, 4), EdgeOpen(g, c, 5)]
  }

  /** The edges of the cell at `c` that realising it draws, in direction order. */
  function OpenDirections(g: Registry, c: Coord): seq<Direction>
  {
    DirectionsWhere(OpenMask(g, c), 0)
  }

  /** Realises `cell`: its six corners are appended to the buffer and become
      its vertices; then, edge by edge in the order top, top-right,
      bottom-right, bottom, bottom-left, top-left, the index pair of the edge
      is appended when the neighbour across it still needs the edge drawn
      (see `AccessorEdges`).
      The owning mesh index is accepted by the source but never stored, so
      it is not a parameter here. */
  function GenerateHexCell(g: Registry, cell: Cell, buf: Buffer): (r: (Cell, Buffer))
    ensures r.0 == Cell(cell.coord, Some(Corners(cell.coord)))
    ensures |r.1.vertices| == |buf.vertices| + 6
    ensures r.1.vertices[..|buf.vertices|] == buf.vertices
    ensures r.1.vertices[|buf.vertices|..] == Corners(cell.coord)
    ensures r.1.indices == buf.indices + EdgePairs(|buf.vertices|, OpenDirections(g, cell.coord))
    ensures |r.1.indices| - |buf.indices| == 2 * |OpenDirections(g, cell.coord)| <= 12
    ensures forall i :: |buf.indices| <= i < |r.1.indices| ==>
              |buf.vertices| <= r.1.indices[i] < |r.1.vertices|
  {
    var c := cell.coord;
    var vs := buf.vertices + Corners(c);
    var n := |vs|;
    var added := AccessorEdges(g, cell, n);
    assert vs[..|buf.vertices|] == buf.vertices;
    (Cell(c, Some(Corners(c))), Buffer(vs, buf.indices + added))
  }

  /** The edge index pairs realising `cell` appends when its six corners end
      at position `n`: the neighbours are asked through the six accessors,
      one by one, and the edge towards each neighbour that still needs it is
      emitted. The result is exactly the open edges of the offset table, in
      direction order. */
  function AccessorEdges(g: Registry, cell: Cell, n: int): (r: seq<int>)
    ensures r == EdgePairs(n - 6, OpenDirections(g, cell.coord))
  {
    var c, base := cell.coord, n - 6;
    AccessorChunk(g, c, 0, Top(g, cell), base, n - 6, n - 5);
    AccessorChunk(g, c, 1, TopRight(g, cell), base, n - 5, n - 4);
    AccessorChunk(g, c, 2, BottomRight(g, cell), base, n - 4, n - 3);
    AccessorChunk(g, c, 3, Bottom(g, cell), base, n - 3, n - 2);
    AccessorChunk(g, c, 4, BottomLeft(g, cell), base, n - 2, n - 1);
    AccessorChunk(g, c, 5, TopLeft(g, cell), base, n - 1, n - 6);
    MaskEdgePairsUnfold(OpenMask(g, c), base);
    Emit(Top(g, cell), n - 6, n - 5)
    + (Emit(TopRight(g, cell), n - 5, n - 4)
    + (Emit(BottomRight(g, cell), n - 4, n - 3)
    + (Emit(Bottom(g, cell), n - 3, n - 2)
    + (Emit(BottomLeft(g, cell), n - 2, n - 1)
    + Emit(TopLeft(g, cell), n - 1, n - 6)))))
  }

  /** One accessor's test: the index pair (a, b) when the neighbour still
      needs the shared edge drawn, nothing otherwise. */
  function Emit(neighbour: Option<Cell>, a: int, b: int): seq<int>
  {
    if NeedsEdge(neighbour) then [a, b] else []
  }

  /** The pair an accessor's test emits is the edge chunk of the open mask. */
  lemma AccessorChunk(g: Registry, c: Coord, k: Direction, neighbour: Option<Cell>, base: int, a: int, b: int)
    requires neighbour == NeighbourCell(g, c, k) && [a, b] == EdgePair(base, k)
    ensures Emit(neighbour, a, b) == EdgeChunk(OpenMask(g, c), base, k)
  {
  }

  /** Realising a cell emits edge `k`, as the pair (n-6+k, n-6+Next(k))
      where n is the vertex count after the append, exactly when the
      neighbour in direction `k` is unregistered or not yet realised. */
  lemma EdgeEmittedIff(g: Registry, cell: Cell, buf: Buffer, k: Direction)
    ensures var r := GenerateHexCell(g, cell, buf);
            var added, n := r.1.indices[|buf.indices|..], |r.1.vertices|;
            (exists j :: 0 <= j < |added| / 2 && added[2 * j] == n - 6 + k && added[2 * j + 1] == n - 6 + Next(k))
            <==> (Lookup(g, Neighbour(cell.coord, k)).None? || !Realised(Lookup(g, Neighbour(cell.coord, k)).value))
  {
    var r := GenerateHexCell(g, cell, buf);
    var ks := OpenDirections(g, cell.coord);
    assert r.1.indices[|buf.indices|..] == EdgePairs(|buf.vertices|, ks);
    EdgePairsContain(|buf.vertices|, ks, k);
    DirectionsWhereSpec(OpenMask(g, cell.coord), 0);
  }

  /** A cell whose six neighbours are all realised draws no edge at all. */
  lemma SurroundedCellDrawsNothing(g: Registry, cell: Cell, buf: Buffer)
    requires forall k: Direction :: Lookup(g, Neighbour(cell.coord, k)).Some?
                                 && Realised(Lookup(g, Neighbour(cell.coord, k)).value)
    ensures GenerateHexCell(g, cell, buf).1.indices == buf.indices
  {
    assert forall k: Direction :: !EdgeOpen(g, cell.coord, k);
    DirectionsWhereSpec(OpenMask(g, cell.coord), 0);
  }

  /** A cell with no registered neighbour draws all six edges, closing the
      hexagon: twelve indices, pair `j` running from corner `j` to corner `Next(j)`. */
  lemma IsolatedCellDrawsAllEdges(g: Registry, cell: Cell, buf: Buffer)
    requires forall k: Direction :: Lookup(g, Neighbour(cell.coord, k)).None?
    ensures var r, m, base := GenerateHexCell(g, cell, buf).1, |buf.indices|, |buf.vertices|;
            && |r.indices| == m + 12
            && r.indices[..m] == buf.indices
            && forall j: Direction :: r.indices[m + 2 * j] == base + j && r.indices[m + 2 * j + 1] == base + Next(j)
  {
    var c, base := cell.coord, |buf.vertices|;
    DirectionsWhereAll(OpenMask(g, c));
    var ks := OpenDirections(g, c);
    assert ks[0] == 0 && ks[1] == 1 && ks[2] == 2 && ks[3] == 3 && ks[4] == 4 && ks[5] == 5;
    forall j: Direction
      ensures EdgePairs(base, ks)[2 * j] == base + j && EdgePairs(base, ks)[2 * j + 1] == base + Next(j)
    {
      EdgePairsAt(base, ks, j);
    }
  }

  /** The index pair edge `k` contributes when its mask entry is set, and nothing otherwise. */
  function EdgeChunk(mask: seq<bool>, base: int, k: Direction): seq<int>
    requires |mask| == 6
  {
    if mask[k] then EdgePair(base, k) else []
  }

  lemma EdgePairsAppend(base: int, a: seq<Direction>, b: seq<Direction>)
    ensures EdgePairs(base, a + b) == EdgePairs(base, a) + EdgePairs(base, b)
  {
    if a == [] {
      assert a + b == b;
    } else {
      assert (a + b)[1..] == a[1..] + b;
      EdgePairsAppend(base, a[1..], b);
    }
  }

  /** The selected edges' index pairs, written out edge by edge. */
  lemma MaskEdgePairsUnfold(mask: seq<bool>, base: int)
    requires |mask| == 6
    ensures EdgePairs(base, DirectionsWhere(mask, 0))
            == EdgeChunk(mask, base, 0) + (EdgeChunk(mask, base, 1) + (EdgeChunk(mask, base, 2)
             + (EdgeChunk(mask, base, 3) + (EdgeChunk(mask, base, 4) + EdgeChunk(mask, base, 5)))))
  {
    MaskEdgePairsFrom(mask, base, 0);
    var e0, e1, e2 := EdgeChunk(mask, base, 0), EdgeChunk(mask, base, 1), EdgeChunk(mask, base, 2);
    var e3, e4, e5 := EdgeChunk(mask, base, 3), EdgeChunk(mask, base, 4), EdgeChunk(mask, base, 5);
    assert EdgeChunksFrom(mask, base, 5) == e5;
    assert EdgeChunksFrom(mask, base, 4) == e4 + e5;
    assert EdgeChunksFrom(mask, base, 3) == e3 + (e4 + e5);
    assert EdgeChunksFrom(mask, base, 2) == e2 + (e3 + (e4 + e5));
    assert EdgeChunksFrom(mask, base, 1) == e1 + (e2 + (e3 + (e4 + e5)));
  }

  /** Unfolds the selected edges' index pairs from direction `from` to the end. */
  lemma {:induction false} MaskEdgePairsFrom(mask: seq<bool>, base: int, from: nat)
    requires |mask| == 6 && from <= 6
    ensures EdgePairs(base, DirectionsWhere(mask, from)) == EdgeChunksFrom(mask, base, from)
    decreases 6 - from
  {
    if from < 6 {
      var k := from as Direction;
      EdgePairsAppend(base, if mask[k] then [k] else [], DirectionsWhere(mask, from + 1));
      MaskEdgePairsFrom(mask, base, from + 1);
    }
  }

  /** The edge chunks from direction `from` to 5, concatenated. */
  function EdgeChunksFrom(mask: seq<bool>, base: int, from: nat): seq<int>
    requires |mask| == 6 && from <= 6
    decreases 6 - from
  {
    if from == 6 then [] else EdgeChunk(mask, base, from) + EdgeChunksFrom(mask, base, from + 1)
  }
}
