# Hex grid generator — a verified model

This project models the core of a Unity hex-grid generator: the breadth-first
flood fill that covers a terrain with hexagonal cells and draws their outlines
as line meshes. It is written in Dafny.

- Cells are keyed by integer logical coordinates `(x, z)`.
- A fixed table of six offsets names a cell's neighbours. Six accessors on a
  cell look those neighbours up in the grid's registry.
- The registry is a sparse two-level dictionary from coordinate to cell. It
  is the only record of which coordinates have been visited.
- The frontier loop starts from the seed cell `(0, 0)`. It repeatedly
  dequeues a cell and realises it: six corner vertices are appended to the
  active buffer, and the index pair of each boundary edge is appended when the
  neighbour across that edge has not drawn it yet. The loop then registers
  and enqueues every in-region neighbour not seen before.
- The active vertex/index buffer pair is sealed and restarted once it holds
  more than 64950 vertices. The last buffer is sealed after the loop.

Modules, in dependency order:

- `Wrappers`: `Option` and `Result`.
- `HexCoordinates`: coordinates, directions, the offset table, adjacency, and
  the selection of the directions a mask marks.
- `HexCells`: an opaque vertex (the cell and corner that produced it) and the
  cell record with its optional vertex array.
- `HexRegistry`: the two-level registry, lookup and registration, with a
  flat-map view.
- `HexMesh`: buffers in line topology, and the segments an index list draws.
- `HexCellGeneration`: the six neighbour accessors and cell realisation.
- `HexDrawing`: a reference definition of what a run draws, given only the
  order in which cells were realised, and the exactly-once edge theorems.
- `HexGridGeneration`: neighbour discovery, the frontier loop with rollover,
  and its invariants.

The main results:

- `GenerateHexGrid` ends with a registry that is seeded at the origin, grows
  only inside the region, and is closed under in-region neighbours.
- Every registered cell is realised exactly once, the seed first. Each later
  cell neighbours one realised before it, so every registered coordinate is
  reached from the seed by neighbour steps through registered cells
  (`RegisteredReachableFromSeed`).
- Discovery appends the fresh in-region neighbours to the queue in direction
  order 0 to 5.
- Every sealed buffer except the last holds exactly 64956 vertices. Every
  buffer holds a whole number of cells and at most 65000 vertices, and all its
  indices are valid.
- The buffers together hold the corners of the realised cells in realisation
  order. They draw exactly the reference drawing.
- Therefore (`GridDrawsEachEdgeOnce`), an edge shared by two realised cells is
  drawn exactly once in total, and an edge facing the region's border is
  drawn exactly once.

Notes on the code as written, and how the model treats each point:

- **Discovery order.** Discovery evaluates the containment test before it
  checks the registry (`HexGrid.cs:239-244`). The containment test is a pure
  predicate here, so the order does not change the outcome.
- **Realisation.** Every dequeued cell is realised without checking whether
  it already is (`HexGrid.cs:178-180`). The model proves that a dequeued cell
  is never already realised (`FrontierOk`).
- **Final buffer.** The final buffer is sealed whatever it holds
  (`HexGrid.cs:195`). When the last realised cell has just triggered a
  rollover, this seals an empty buffer; the model allows that.
- **Mesh index.** `GenearteHexCell` takes a mesh index that it never stores
  (`HexCell.cs:54`), so the model makes no statement about a cell's mesh index.
- **Call arity.** The call sites pass three arguments to `GenearteHexCell`
  but the declaration takes four (`HexCell.cs:54`, `HexGrid.cs:180`). The
  model follows the evident intent: neighbours are resolved through the
  owning grid.

## Model

| member | source | states |
|---|---|---|
| HexCoordinates.OffsetsSymmetric | Assets/Scripts/HexCell.cs:38 | opposite entries of the offset table cancel: entry k plus entry (k+3) mod 6 is (0, 0) |
| HexCoordinates.NeighbourInverse | Assets/Scripts/HexCell.cs:38 | stepping in direction k and then in the opposite direction returns to the start |
| HexCoordinates.NeighbourIsOther | Assets/Scripts/HexCell.cs:38 | no offset is zero, so a cell is never its own neighbour |
| HexCoordinates.NeighboursDistinct | Assets/Scripts/HexCell.cs:38 | two directions give the same neighbour if and only if they are the same direction |
| HexCoordinates.AdjacentIffHexStep | Assets/Scripts/HexCell.cs:38 | b is one of a's six neighbours exactly when b − a is (±1, ±1) or (0, ±2) |
| HexCoordinates.AdjacentSymmetric | Assets/Scripts/HexCell.cs:38 | adjacency through the offset table is symmetric |
| HexCoordinates.DirectionsWhereSpec | Assets/Scripts/HexCell.cs:70-81 | the edges chosen are exactly the directions whose test passed, each once, in increasing direction order (the order of the six tests) |
| HexRegistry.GetCellFromCoord | Assets/Scripts/HexGrid.cs:31-37 | a cell is returned exactly when (x, z) is registered, and then it is the cell filed there; otherwise the result is absent, and the lookup never fails |
| HexRegistry.LookupMatchesView | Assets/Scripts/HexGrid.cs:31-37 | the two-level lookup agrees with the registry read as one flat map |
| HexRegistry.RegisterCellToGrid | Assets/Scripts/HexGrid.cs:255-261 | registration fails (DuplicateKey) exactly when the coordinate is already registered; otherwise it adds that one coordinate, files the cell there, and leaves every other entry unchanged |
| HexRegistry.RegisterUpdatesView | Assets/Scripts/HexGrid.cs:255-261 | as a flat map, a successful registration is the old map updated at the cell's coordinate |
| HexRegistry.RegisterGrowsCoords | Assets/Scripts/HexGrid.cs:255-261 | a successful registration adds to the set of registered coordinates exactly the new cell's coordinate, which was not there before, so the registry holds one coordinate more |
| HexRegistry.RegisterPreservesWellFormed | Assets/Scripts/HexGrid.cs:255-261 | registration keeps every cell filed under its own coordinate |
| HexRegistry.RegisterThenLookup | Assets/Scripts/HexGrid.cs:255-261 | after registering, looking up the new coordinate gives the new cell and every other lookup answers as before |
| HexRegistry.RegisterTwiceFails | Assets/Scripts/HexGrid.cs:260 | registering a coordinate a second time fails with DuplicateKey, whatever cell is offered, instead of overwriting |
| HexRegistry.StoreCell | Assets/Scripts/HexGrid.cs:178-180 | writing back the realised front cell (the queue and registry share one object) keeps the same key set and changes only that cell |
| HexCellGeneration.Top | Assets/Scripts/HexCell.cs:45 | the Top accessor is the registry lookup of the neighbour in direction 0 of the offset table |
| HexCellGeneration.TopLeft | Assets/Scripts/HexCell.cs:46 | the TopLeft accessor is the lookup of the neighbour in direction 5 |
| HexCellGeneration.TopRight | Assets/Scripts/HexCell.cs:47 | the TopRight accessor is the lookup of the neighbour in direction 1 |
| HexCellGeneration.Bottom | Assets/Scripts/HexCell.cs:48 | the Bottom accessor is the lookup of the neighbour in direction 3 |
| HexCellGeneration.BottomLeft | Assets/Scripts/HexCell.cs:49 | the BottomLeft accessor is the lookup of the neighbour in direction 4 |
| HexCellGeneration.BottomRight | Assets/Scripts/HexCell.cs:50 | the BottomRight accessor is the lookup of the neighbour in direction 2 |
| HexCellGeneration.AccessorEdges | Assets/Scripts/HexCell.cs:70-81 | the six accessor tests, in source order, emit exactly the index pairs of the open edges in direction order |
| HexCellGeneration.GenerateHexCell | Assets/Scripts/HexCell.cs:54-82 | the cell becomes realised with its six corners; exactly six vertices are appended and earlier ones are untouched; the appended indices are the open edges' pairs, an even count between 0 and 12, each in [n−6, n) |
| HexCellGeneration.EdgeEmittedIff | Assets/Scripts/HexCell.cs:70-81 | edge k is emitted, as the pair (n−6+k, n−6+(k+1) mod 6), if and only if neighbour k is unregistered or registered but unrealised |
| HexCellGeneration.SurroundedCellDrawsNothing | Assets/Scripts/HexCell.cs:70-81 | when all six neighbours are realised, no index is appended |
| HexCellGeneration.IsolatedCellDrawsAllEdges | Assets/Scripts/HexCell.cs:70-81 | when no neighbour is registered, twelve indices are appended, pair j running from corner j to corner (j+1) mod 6 |
| HexMesh.EdgePairs | Assets/Scripts/HexCell.cs:70-81 | the listed edges contribute two indices each, all within the cell's six new vertices |
| HexMesh.SegmentsOfExtend | Assets/Scripts/HexCell.cs:66 | appending vertices never changes what the indices already present draw |
| HexMesh.SegmentsOfAppend | Assets/Scripts/HexCell.cs:71 | the segments drawn by concatenated index lists are the two lists' segments concatenated |
| HexMesh.EdgePairsDrawSides | Assets/Scripts/HexCell.cs:70-81 | the emitted index pairs, read against the new corners, draw exactly the cell's chosen side segments |
| HexMesh.AppendCellSegments | Assets/Scripts/HexCell.cs:61-81 | realising a cell keeps the buffer's indices valid and adds the chosen sides after everything already drawn |
| HexMesh.EdgePairsAt | Assets/Scripts/HexCell.cs:70-81 | pair j of the emitted indices is the pair of the j-th chosen edge |
| HexMesh.EdgePairsContain | Assets/Scripts/HexCell.cs:70-81 | edge k's pair occurs at a pair boundary if and only if k is among the chosen edges |
| HexDrawing.CornersOf | Assets/Scripts/HexCell.cs:62-67 | the reference vertex list holds six corners per realised cell |
| HexDrawing.Drawn | Assets/Scripts/HexCell.cs:69-81 | the reference drawing of a realisation order: each realised cell draws only sides facing cells not realised before it, so at most six segments per realised cell |
| HexDrawing.SideSegmentInjective | Assets/Scripts/HexCell.cs:61-67 | two side segments are equal only when both the cell and the edge agree |
| HexDrawing.SideSegmentsCount | Assets/Scripts/HexCell.cs:70-81 | among one cell's chosen sides, each side occurs once if chosen and not at all otherwise |
| HexDrawing.DrawnCountStep | Assets/Scripts/HexGrid.cs:180 | realising one more cell adds edge k of c once, exactly when that cell is c and neighbour k was not realised before it |
| HexDrawing.DrawnCount | Assets/Scripts/HexCell.cs:70-81 | in a duplicate-free order, edge k of c is drawn once if c was realised before neighbour k (or that neighbour never was), and never otherwise |
| HexDrawing.ExactlyOneFirst | Assets/Scripts/HexGrid.cs:176-181 | of two distinct realised cells, exactly one was realised before the other |
| HexDrawing.SharedEdgeDrawnOnce | Assets/Scripts/HexCell.cs:69-81 | the edge shared by two realised neighbours is drawn exactly once in total, counting its occurrences as a side of either cell |
| HexDrawing.BoundaryEdgeDrawnOnce | Assets/Scripts/HexCell.cs:69-81 | an edge of a realised cell facing a cell that is never realised is drawn exactly once |
| HexGridGeneration.DiscoverNeighbours | Assets/Scripts/HexGrid.cs:227-253 | discovery registers as fresh unrealised cells, and enqueues once each, exactly the in-region neighbours not registered before; what it appends to the queue is those neighbours in direction order 0 to 5; the queue only grows at its end; registered cells are unchanged; afterwards every in-region neighbour is registered |
| HexGridGeneration.DiscoverStep | Assets/Scripts/HexGrid.cs:239-250 | looking in one direction registers and enqueues the neighbour when it is inside the region and unregistered, and skips it otherwise, keeping the discovery invariant |
| HexGridGeneration.DiscoverOrderStep | Assets/Scripts/HexGrid.cs:234-250 | the six neighbours being distinct, registering the neighbour of one direction does not change whether a later direction's neighbour is fresh, so the cells enqueued so far are the fresh neighbours of the directions looked at, in direction order |
| HexGridGeneration.FreshNeighboursSameKeys | Assets/Scripts/HexGrid.cs:239-244 | which neighbours discovery finds fresh depends only on the set of registered coordinates, not on the cells stored there, so writing back the realised cell does not change what is enqueued |
| HexGridGeneration.EdgesAgreeWithOrder | Assets/Scripts/HexGrid.cs:178-180 | the edges a cell chooses through the registry are the ones facing cells not yet realised in the run's order |
| HexGridGeneration.RealiseKeepsDrawing | Assets/Scripts/HexGrid.cs:180 | realising one more cell keeps the buffers equal to the reference corners and reference drawing |
| HexGridGeneration.SealKeepsDrawing | Assets/Scripts/HexGrid.cs:188 | sealing the active buffer moves it to the output without changing what the buffers hold or draw |
| HexGridGeneration.UnvisitedShrinks | Assets/Scripts/HexGrid.cs:176 | registering a new coordinate of the finite universe leaves fewer unregistered ones, which is why the loop terminates |
| HexGridGeneration.SeedFrontierOk | Assets/Scripts/HexGrid.cs:172-174 | after the seed is registered and enqueued, the frontier invariant holds with nothing realised |
| HexGridGeneration.StoreKeepsFrontier | Assets/Scripts/HexGrid.cs:178-180 | dequeuing and realising the front cell keeps the registry/queue/order bookkeeping |
| HexGridGeneration.DiscoverKeepsFrontier | Assets/Scripts/HexGrid.cs:181 | discovering the realised cell's neighbours restores closure under in-region neighbours and keeps the bookkeeping |
| HexGridGeneration.ReachedStep | Assets/Scripts/HexGrid.cs:178-181 | dequeuing the front cell into the realisation order and enqueueing neighbours of it keeps every realised cell after the seed, and every queued cell, a neighbour of a cell realised before it |
| HexGridGeneration.WalkToEveryCell | Assets/Scripts/HexGrid.cs:172-181 | when each realised cell after the first neighbours an earlier one, every realised cell is reached from the first by a walk of neighbour steps through cells realised no later than itself |
| HexGridGeneration.RegisteredReachableFromSeed | Assets/Scripts/HexGrid.cs:163-196 | at the end of a run every registered coordinate is reached from (0, 0) by a walk of neighbour steps through registered cells, each of them the seed or inside the region |
| HexGridGeneration.AdvanceFrontier | Assets/Scripts/HexGrid.cs:178-181 | one dequeue–realise–discover step keeps the frontier invariant, appends the cell to the realisation order, leaves as the new queue the old tail followed by the cell's fresh in-region neighbours in direction order 0 to 5, and decreases the termination measure |
| HexGridGeneration.FullBufferSize | Assets/Scripts/HexGrid.cs:184 | a buffer of whole cells within the threshold that one more cell takes past it holds exactly 64950 vertices |
| HexGridGeneration.SealedSizes | Assets/Scripts/HexGrid.cs:188 | sealing a full buffer keeps every sealed buffer full |
| HexGridGeneration.SealFullBuffer | Assets/Scripts/HexGrid.cs:188-191 | sealing a full buffer and starting empty lists keeps the buffer invariant |
| HexGridGeneration.RealiseThenSeal | Assets/Scripts/HexGrid.cs:184-191 | a realisation that passes the threshold leaves exactly 64956 vertices, and the rollover keeps the buffer invariant |
| HexGridGeneration.RealiseStaysActive | Assets/Scripts/HexGrid.cs:180-184 | a realisation within the threshold keeps the buffer invariant with the buffer still active |
| HexGridGeneration.SealFinalBuffer | Assets/Scripts/HexGrid.cs:195 | sealing the last buffer, whatever it holds, yields buffers of whole cells within 65000 vertices, all but the last full, holding and drawing exactly what the run realised |
| HexGridGeneration.ProcessFrontCell | Assets/Scripts/HexGrid.cs:176-193 | one loop iteration keeps the frontier and buffer invariants, realises the front cell next, leaves as the new queue the old tail followed by the front cell's neighbours that are inside the region and were unregistered, in direction order 0 to 5, and decreases the termination measure |
| HexGridGeneration.FrontierDone | Assets/Scripts/HexGrid.cs:176 | when the queue is empty, the registered cells are exactly the realised ones, each holding its corners, each after the seed a neighbour of one realised earlier, and the registry is closed under in-region neighbours |
| HexGridGeneration.GenerateHexGrid | Assets/Scripts/HexGrid.cs:163-196 | the registry is seeded at (0, 0), stays inside the region and is closed under in-region neighbours; every registered cell is realised exactly once, seed first, and each later one next to a cell realised before it (so no registered cell is cut off from the seed); there are gameMeshIndex + 1 buffers, all but the last holding exactly 64956 vertices, all of whole cells within 65000 vertices, with valid indices; together they hold the realised corners and draw the reference drawing |
| HexGridGeneration.GridDrawsEachEdgeOnce | Assets/Scripts/HexGrid.cs:163-196 | in the generated buffers, an edge shared by two realised cells appears exactly once in total, and an edge towards an unrealised cell appears exactly once |

## Left out

- Camera control, the `Start` timing log, the FPS text and `Update`: input, UI and frame timing, with no generator logic.
- `CreateGridObject` and `AddSubMesh`: Unity mesh, renderer and material plumbing. Sealing a buffer is modelled as appending the vertex/index pair to the output sequence.
- `IsPositionInBounds`: a physics raycast against the terrain, cast downward from 10 units above the tested point over 100 units (`HexGrid.cs:144-156`). The model replaces it by a pure predicate `inBounds` over logical coordinates. The source tests a world point built from the discovering cell: its centre and the midpoint of its first two corners, whose heights come from the terrain (`HexGrid.cs:232-238`, `HexCell.cs:65`). Two cells that discover the same coordinate can therefore produce different test points. The model assumes the containment outcome for a coordinate does not depend on which cell discovers it.
- World geometry: the quaternion corner rotation, `Terrain.SampleHeight`, the `Vector3.Lerp` midpoints and the `startPos` world point. This is floating point. A vertex is the opaque pair (cell, corner), and neighbour identity is carried by the integer offset table.
- `ComputeWordToLogicalRatios` and `GetHexCellHit`: float-based picking outside the generator. Their defects are out of scope: the z ratio is applied to the y component, and either candidate may be absent when dereferenced. `ConvertWorldToLogical` is not part of this model.
- The world-space value dictionaries and sorted lists: never used by generation.
- The list capacities passed to the vertex and index list constructors: they affect allocation only.
- `MeshIndex` of a cell: never written during generation, so nothing is claimed about it.
- GenerateHexGrid: requires a finite set `bounds` covering every coordinate where `inBounds` holds. The source stops whenever the in-region cells connected to the seed are finitely many. The model asks for the stronger condition that the whole region is finite, which a finite terrain meets.
- GenerateHexGrid: returns the realisation order as an extra output. The source keeps no such list, but the order is what the exactly-once statements are stated against.
- DiscoverNeighbours: asks `inBounds` about the neighbour's coordinate, not about the world point computed from the discovering cell. It is faithful under the assumption stated for `IsPositionInBounds`: the answer for a coordinate must not depend on the discovering cell, and where the terrain makes it depend on the path, the model does not cover that run.
- GenerateHexGrid: does not state, as one postcondition, that the realisation order is exactly breadth-first. It states that the seed comes first, that each later cell neighbours an earlier one, and that every registered coordinate is reachable from the seed. The queue discipline behind breadth-first order is stated step by step. `AdvanceFrontier` and `ProcessFrontCell` each state the exact queue after one iteration: the old tail followed by the fresh in-region neighbours in direction order.
- GenerateHexGrid: starts from an empty registry and an empty output sequence. The source fills the object's `Coord2GridPiece` and appends to its `GridMeshes` (`HexGrid.cs:174`, `188`, `195`). `Start` creates both empty just before the only call (`HexGrid.cs:43-45`), so the two agree for that call. A call on an already filled registry is not modelled.
- Integer widths: C# `int` coordinates and `List.Count` are 32-bit, and the model uses unbounded integers. Coordinates change by at most 2 per step, so wrap-around would need a region about 2^31 cells across. Buffer counts stay below 65000 by the rollover rule.
