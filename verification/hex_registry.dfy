/** The grid registry: a sparse two-level dictionary from logical `x` to
    logical `z` to cell. It is the single record of which coordinates have
    been visited. */
module HexRegistry {
  import opened Wrappers
  import opened HexCoordinates
  import opened HexCells

  /** Outer keys are logical `x`, inner keys logical `z`. */
  datatype Registry = Registry(rows: map<int, map<int, Cell>>)

  /** The registry a generation run starts from. */
  const EmptyRegistry: Registry := Registry(map[])

  /** Raised when a coordinate is registered a second time. */
  datatype RegisterError = DuplicateKey(coord: Coord)

  /** Both levels of the dictionary hold the coordinate. */
  predicate Registered(g: Registry, c: Coord)
  {
    c.x in g.rows && c.z in g.rows[c.x]
  }

  /** The cell filed under a registered coordinate. */
  function CellAt(g: Registry, c: Coord): Cell
    requires Registered(g, c)
  {
    g.rows[c.x][c.z]
  }

  /** Every registered coordinate, as one finite set. */
  function Coords(g: Registry): (s: set<Coord>)
    ensures forall c :: c in s <==> Registered(g, c)
  {
    set x, z | x in g.rows && z in g.rows[x] :: Coord(x, z)
  }

  /** The registry seen as one flat map from coordinate to cell. */
  function View(g: Registry): map<Coord, Cell>
  {
    map c | c in Coords(g) :: CellAt(g, c)
  }

  /** Every cell is filed under its own coordinate. */
  ghost predicate WellFormed(g: Registry)
  {
    forall c :: Registered(g, c) ==> CellAt(g, c).coord == c
  }

  /** The registered cell at `(x, z)`, or `None` when either level lacks the key. */
  function GetCellFromCoord(g: Registry, x: int, z: int): (r: Option<Cell>)
    ensures r.Some? <==> Registered(g, Coord(x, z))
    ensures r.Some? ==> r.value == CellAt(g, Coord(x, z))
  {
    if x in g.rows && z in g.rows[x] then Some(g.rows[x][z]) else None
  }

  /** `GetCellFromCoord` addressed by a coordinate value. */
  function Lookup(g: Registry, c: Coord): Option<Cell>
  {
    GetCellFromCoord(g, c.x, c.z)
  }

  /** Files `cell` under its coordinate, creating the inner dictionary for
      its `x` when there is none. The inner insertion refuses a key that is
      already present rather than overwriting it. */
  function RegisterCellToGrid(g: Registry, cell: Cell): (r: Result<Registry, RegisterError>)
    ensures r.Failure? <==> Registered(g, cell.coord)
    ensures r.Failure? ==> r.error == DuplicateKey(cell.coord)
    ensures r.Success? ==> forall c :: Registered(r.value, c) <==> Registered(g, c) || c == cell.coord
    ensures r.Success? ==> forall c :: Registered(r.value, c) ==>
              CellAt(r.value, c) == if c == cell.coord then cell else CellAt(g, c)
  {
    var x, z := cell.coord.x, cell.coord.z;
    var row := if x in g.rows then g.rows[x] else map[];
    if z in row then
      Failure(DuplicateKey(cell.coord))
    else
      Success(Registry(g.rows[x := row[z := cell]]))
  }

  /** Replaces the cell stored under an already registered coordinate. The
      source shares one cell object between the registry and the frontier
      queue, so realising the dequeued cell is visible through the registry;
      this is that write. */
  function StoreCell(g: Registry, cell: Cell): (r: Registry)
    requires Registered(g, cell.coord)
    ensures forall c :: Registered(r, c) <==> Registered(g, c)
    ensures forall c :: Registered(r, c) ==> CellAt(r, c) == if c == cell.coord then cell else CellAt(g, c)
  {
    var x, z := cell.coord.x, cell.coord.z;
    Registry(g.rows[x := g.rows[x][z := cell]])
  }

  /** The two-level lookup answers exactly as the flat view does. */
  lemma LookupMatchesView(g: Registry, c: Coord)
    ensures Lookup(g, c) == if c in View(g) then Some(View(g)[c]) else None
  {
  }

  /** Registration, seen through the flat view, adds one entry and leaves
      every other entry unchanged. */
  lemma RegisterUpdatesView(g: Registry, cell: Cell)
    requires RegisterCellToGrid(g, cell).Success?
    ensures View(RegisterCellToGrid(g, cell).value) == View(g)[cell.coord := cell]
  {
    var g' := RegisterCellToGrid(g, cell).value;
    assert Coords(g') == Coords(g) + {cell.coord};
  }

  /** A successful registration adds exactly one coordinate, one that was
      not registered before, so the registry grows by one. */
  lemma RegisterGrowsCoords(g: Registry, cell: Cell)
    requires RegisterCellToGrid(g, cell).Success?
    ensures Coords(RegisterCellToGrid(g, cell).value) == Coords(g) + {cell.coord}
    ensures cell.coord !in Coords(g)
    ensures |Coords(RegisterCellToGrid(g, cell).value)| == |Coords(g)| + 1
  {
  }

  /** Registration keeps every cell filed under its own coordinate. */
  lemma RegisterPreservesWellFormed(g: Registry, cell: Cell)
    requires WellFormed(g)
    requires RegisterCellToGrid(g, cell).Success?
    ensures WellFormed(RegisterCellToGrid(g, cell).value)
  {
  }

  /** After a successful registration the new cell is found under its
      coordinate and every other lookup answers as before. */
  lemma RegisterThenLookup(g: Registry, cell: Cell, c: Coord)
    requires RegisterCellToGrid(g, cell).Success?
    ensures Lookup(RegisterCellToGrid(g, cell).value, c) ==
            (if c == cell.coord then Some(cell) else Lookup(g, c))
  {
  }

  /** A coordinate registered once cannot be registered again, whatever cell is offered. */
  lemma RegisterTwiceFails(g: Registry, first: Cell, second: Cell)
    requires RegisterCellToGrid(g, first).Success?
    requires second.coord == first.coord
    ensures RegisterCellToGrid(RegisterCellToGrid(g, first).value, second) == Failure(DuplicateKey(first.coord))
  {
  }
}
