/** The data carried by one hex cell. World geometry is abstracted away:
    a vertex is identified by the cell and corner that produced it, which is
    all the generator needs to know about it. */
module HexCells {
  import opened Wrappers
  import opened HexCoordinates

  /** The world-space position of corner `corner` of the cell at `cell`
      (centre plus a rotated radius, with the terrain height sampled there),
      kept opaque. Corner `k` and corner `Next(k)` bound edge `k`. */
  datatype Vertex = Vertex(cell: Coord, corner: Direction)

  /** A cell of the grid. `vertices` is `None` until the cell is realised;
      the source signals the same with a null vertex array. */
  datatype Cell = Cell(coord: Coord, vertices: Option<seq<Vertex>>)

  /** A freshly discovered cell: registered coordinate, no geometry yet. */
  function NewCell(c: Coord): Cell
  {
    Cell(c, None)
  }

  predicate Realised(cell: Cell)
  {
    cell.vertices.Some?
  }

  /** The six corners of the cell at `c`, in winding order starting at the top-left corner of the top edge. */
  function Corners(c: Coord): seq<Vertex>
  {
    [Vertex(c, 0), Vertex(c, 1), Vertex(c, 2), Vertex(c, 3), Vertex(c, 4), Vertex(c, 5)]
  }
}
