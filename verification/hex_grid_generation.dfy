/** The frontier generator: a breadth-first flood fill over the logical
    lattice from the seed (0, 0), bounded by a containment predicate, which
    realises every discovered cell once and packs the emitted vertices and
    indices into mesh buffers that roll over before the per-mesh vertex
    ceiling. */
module HexGridGeneration {
  import opened Wrappers
  import opened HexCoordinates
  import opened HexCells
  import opened HexRegistry
  import opened HexMesh
  import opened HexCellGeneration
  import opened HexDrawing

  /** The active buffer is sealed once its vertex count exceeds this. */
  const RolloverThreshold: nat := 64950

  /** The most vertices one mesh may hold. */
  const MeshVertexCeiling: nat := 65000

  /** The vertices of all buffers, in buffer order. */
  function AllVertices(meshes: seq<Buffer>): seq<Vertex>
  {
    if meshes == [] then [] else AllVertices(meshes[..|meshes| - 1]) + meshes[|meshes| - 1].vertices
  }

  predicate AllIndicesValid(meshes: seq<Buffer>)
  {
    forall i :: 0 <= i < |meshes| ==> IndicesValid(meshes[i])
  }

  /** The segments all buffers draw, in buffer order. */
  function AllSegments(meshes: seq<Buffer>): seq<Segment>
    requires AllIndicesValid(meshes)
  {
    if meshes == [] then [] else AllSegments(meshes[..|meshes| - 1]) + Segments(meshes[|meshes| - 1])
  }

  /** Looks at the six neighbours of the cell at `c` in direction order. A
      neighbour inside the containment region that is not yet registered is
      created unrealised, enqueued and registered in the same step; one
      already registered is skipped, so no coordinate is enqueued twice. */
  method DiscoverNeighbours(g: Registry, queue: seq<Coord>, c: Coord, inBounds: Coord -> bool)
    returns (g': Registry, queue': seq<Coord>)
    requires WellFormed(g)
    ensures WellFormed(g')
    ensures |queue| <= |queue'| && queue'[..|queue|] == queue
    ensures forall i :: |queue| <= i < |queue'| ==>
              !Registered(g, queue'[i]) && inBounds(queue'[i]) && Adjacent(c, queue'[i])
    ensures forall i, j :: |queue| <= i < j < |queue'| ==> queue'[i] != queue'[j]
    ensures forall p :: Registered(g', p) <==> Registered(g, p) || p in queue'[|queue|..]
    ensures forall p :: Registered(g, p) ==> CellAt(g', p) == CellAt(g, p)
    ensures forall p :: Registered(g', p) && !Registered(g, p) ==> CellAt(g', p) == NewCell(p)
    ensures forall k: Direction :: inBounds(Neighbour(c, k)) ==> Registered(g', Neighbour(c, k))
    ensures queue'[|queue|..] == FreshNeighbours(g, c, inBounds, 0)
  {
    g', queue' := g, queue;
    ghost var added: seq<Coord> := [];
    var i := 0;
    while i < 6
      invariant 0 <= i <= 6
      invariant queue' == queue + added
      invariant DiscoveredSoFar(g, g', added, c, inBounds, i)
      invariant DiscoveredInOrder(g, added, c, inBounds, i)
    {
      var p := Neighbour(c, i);
      ghost var (before, addedBefore) := (g', added);
      if inBounds(p) {
        if !Registered(g', p) {
          var cell := NewCell(p);
          ConcatAssociative(queue, added, [cell.coord]);
          queue' := queue' + [cell.coord];
          added := added + [cell.coord];
          g' := RegisterCellToGrid(g', cell).value;
        }
      }
      DiscoverStep(g, before, addedBefore, c, inBounds, i, g', added);
      DiscoverOrderStep(g, before, addedBefore, c, inBounds, i, added);
      i := i + 1;
    }
    assert queue'[|queue|..] == added;
  }

  /** The neighbours of `c` in directions `from` to 5, in direction order,
      that lie inside the region and are not registered in `g`. */
  function FreshNeighbours(g: Registry, c: Coord, inBounds: Coord -> bool, from: nat): seq<Coord>
    requires from <= 6
    decreases 6 - from
  {
    if from == 6 then []
    else FreshIn(g, c, inBounds, from) + FreshNeighbours(g, c, inBounds, from + 1)
  }

  /** The neighbour of `c` in direction `k` when it is inside the region and
      not registered in `g`, and nothing otherwise. */
  function FreshIn(g: Registry, c: Coord, inBounds: Coord -> bool, k: Direction): seq<Coord>
  {
    if inBounds(Neighbour(c, k)) && !Registered(g, Neighbour(c, k)) then [Neighbour(c, k)] else []
  }

  /** Fresh neighbours depend only on which coordinates are registered. */
  lemma {:induction false} FreshNeighboursSameKeys(g1: Registry, g2: Registry, c: Coord, inBounds: Coord -> bool, from: nat)
    requires from <= 6
    requires forall p :: Registered(g1, p) <==> Registered(g2, p)
    ensures FreshNeighbours(g1, c, inBounds, from) == FreshNeighbours(g2, c, inBounds, from)
    decreases 6 - from
  {
    if from < 6 {
      FreshNeighboursSameKeys(g1, g2, c, inBounds, from + 1);
    }
  }

  /** What discovery has established after looking in the first `i`
      directions: `added` lists, without repetition, the newly registered
      coordinates, each unregistered before, inside the region and adjacent
      to `c`; they were registered as fresh unrealised cells; nothing
      registered before changed; and every in-region neighbour looked at is
      registered. */
  ghost predicate DiscoveredSoFar(g: Registry, g': Registry, added: seq<Coord>, c: Coord,
                                  inBounds: Coord -> bool, i: int)
  {
    && WellFormed(g')
    && (forall j :: 0 <= j < |added| ==> !Registered(g, added[j]) && inBounds(added[j]) && Adjacent(c, added[j]))
    && (forall a, b :: 0 <= a < b < |added| ==> added[a] != added[b])
    && (forall p :: Registered(g', p) <==> Registered(g, p) || p in added)
    && (forall p :: Registered(g, p) ==> CellAt(g', p) == CellAt(g, p))
    && (forall p :: Registered(g', p) && !Registered(g, p) ==> CellAt(g', p) == NewCell(p))
    && (forall k: Direction :: k < i && inBounds(Neighbour(c, k)) ==> Registered(g', Neighbour(c, k)))
  }

  /** Looking in direction `i`: the neighbour is registered and listed when
      it is inside the region and not yet registered, and skipped otherwise. */
  lemma DiscoverStep(g: Registry, g1: Registry, added: seq<Coord>, c: Coord, inBounds: Coord -> bool,
                     i: Direction, g2: Registry, added2: seq<Coord>)
    requires DiscoveredSoFar(g, g1, added, c, inBounds, i)
    requires var p := Neighbour(c, i);
             if inBounds(p) && !Registered(g1, p)
             then added2 == added + [p] && RegisterCellToGrid(g1, NewCell(p)).Success?
                  && g2 == RegisterCellToGrid(g1, NewCell(p)).value
             else added2 == added && g2 == g1
    ensures DiscoveredSoFar(g, g2, added2, c, inBounds, i + 1)
  {
    var p := Neighbour(c, i);
    if inBounds(p) && !Registered(g1, p) {
      RegisterPreservesWellFormed(g1, NewCell(p));
      assert Adjacent(c, p);
      assert forall q :: q in added2 <==> q in added || q == p;
    }
  }

  /** After looking in the first `i` directions, `added` is the fresh
      neighbours of those directions in direction order, and holds no
      neighbour of a direction not yet looked at. */
  ghost predicate DiscoveredInOrder(g: Registry, added: seq<Coord>, c: Coord, inBounds: Coord -> bool, i: int)
  {
    && 0 <= i <= 6
    && added + FreshNeighbours(g, c, inBounds, i) == FreshNeighbours(g, c, inBounds, 0)
    && (forall k: Direction :: i <= k ==> Neighbour(c, k) !in added)
  }

  /** Since the six neighbours are distinct, registering one of them does not
      change whether a later one is fresh, so the listing follows direction
      order. */
  lemma DiscoverOrderStep(g: Registry, g1: Registry, added: seq<Coord>, c: Coord, inBounds: Coord -> bool,
                          i: Direction, added2: seq<Coord>)
    requires DiscoveredInOrder(g, added, c, inBounds, i)
    requires forall p :: Registered(g1, p) <==> Registered(g, p) || p in added
    requires var p := Neighbour(c, i);
             if inBounds(p) && !Registered(g1, p) then added2 == added + [p] else added2 == added
    ensures DiscoveredInOrder(g, added2, c, inBounds, i + 1)
  {
    var p := Neighbour(c, i);
    var rest := FreshNeighbours(g, c, inBounds, i + 1);
    assert FreshNeighbours(g, c, inBounds, i) == FreshIn(g, c, inBounds, i) + rest;
    if inBounds(p) && !Registered(g1, p) {
      assert FreshIn(g, c, inBounds, i) == [p];
      ConcatAssociative(added, [p], rest);
      forall k: Direction | i + 1 <= k
        ensures Neighbour(c, k) !in added2
      {
        NeighboursDistinct(c, i, k);
      }
    } else {
      assert p !in added;
      assert FreshIn(g, c, inBounds, i) == [];
      assert FreshIn(g, c, inBounds, i) + rest == rest;
    }
  }

  /** The realised cell's edges, chosen through the registry, are the ones
      facing cells not yet realised in the run's order. */
  lemma EdgesAgreeWithOrder(g: Registry, order: seq<Coord>, c: Coord)
    requires forall p :: p in order ==> Registered(g, p)
    requires forall p :: Registered(g, p) ==> (Realised(CellAt(g, p)) <==> p in order)
    ensures OpenDirections(g, c) == OpenAgainst(order, c)
  {
    assert OpenMask(g, c) == DoneMask(order, c);
  }

  /** Realising one more cell into the active buffer keeps the buffers in
      step with the reference vertex list and drawing of the run. */
  lemma RealiseKeepsDrawing(meshes: seq<Buffer>, buf: Buffer, buf': Buffer, order: seq<Coord>, c: Coord)
    requires AllIndicesValid(meshes) && IndicesValid(buf)
    requires AllVertices(meshes) + buf.vertices == CornersOf(order)
    requires AllSegments(meshes) + Segments(buf) == Drawn(order)
    requires buf'.vertices == buf.vertices + Corners(c)
    requires buf'.indices == buf.indices + EdgePairs(|buf.vertices|, OpenAgainst(order, c))
    ensures IndicesValid(buf')
    ensures AllVertices(meshes) + buf'.vertices == CornersOf(order + [c])
    ensures AllSegments(meshes) + Segments(buf') == Drawn(order + [c])
  {
    var ks := OpenAgainst(order, c);
    AppendCellSegments(buf, c, ks);
    var next := order + [c];
    assert next[..|next| - 1] == order && next[|next| - 1] == c;
    assert CornersOf(next) == CornersOf(order) + Corners(c);
    assert Drawn(next) == Drawn(order) + SideSegments(c, ks);
    var vs, segs := AllVertices(meshes), AllSegments(meshes);
    ConcatAssociative(vs, buf.vertices, Corners(c));
    ConcatAssociative(segs, Segments(buf), SideSegments(c, ks));
  }

  lemma ConcatAssociative<T>(a: seq<T>, b: seq<T>, c: seq<T>)
    ensures a + (b + c) == (a + b) + c
  {
  }

  /** Sealing the active buffer moves it to the sealed list without changing
      what the buffers hold in total. */
  lemma SealKeepsDrawing(meshes: seq<Buffer>, buf: Buffer)
    requires AllIndicesValid(meshes) && IndicesValid(buf)
    ensures AllIndicesValid(meshes + [buf])
    ensures AllVertices(meshes + [buf]) == AllVertices(meshes) + buf.vertices
    ensures AllSegments(meshes + [buf]) == AllSegments(meshes) + Segments(buf)
  {
    assert (meshes + [buf])[..|meshes|] == meshes;
  }

  /** A sequence is its prefix of length `n` followed by the rest. */
  lemma SplitAt<T>(s: seq<T>, n: nat)
    requires n <= |s|
    ensures s == s[..n] + s[n..]
  {
  }

  /** Registering more coordinates of a finite universe leaves fewer unregistered ones. */
  lemma UnvisitedShrinks(universe: set<Coord>, a: set<Coord>, b: set<Coord>)
    requires a <= b <= universe && a != b
    ensures |universe - b| < |universe - a|
  {
    assert universe - a == (universe - b) + (b - a);
    assert (universe - b) !! (b - a);
    assert b - a != {};
  }

  /** The frontier loop's invariant over the registry, the queue and the
      realisation order: the registry side of `FrontierRegistry`, and every
      cell realised or queued, apart from the seed, found from a realised
      neighbour. */
  ghost predicate FrontierOk(g: Registry, queue: seq<Coord>, order: seq<Coord>,
                             inBounds: Coord -> bool, universe: set<Coord>)
  {
    FrontierRegistry(g, queue, order, inBounds, universe) && Reached(queue, order)
  }

  /** The bookkeeping of `FrontierCore`, every in-region neighbour of a
      realised cell registered, and the seed first. */
  ghost predicate FrontierRegistry(g: Registry, queue: seq<Coord>, order: seq<Coord>,
                                   inBounds: Coord -> bool, universe: set<Coord>)
  {
    && FrontierCore(g, queue, order, inBounds, universe)
    && Closed(g, order, inBounds)
    && (if order == [] then queue == [Origin] else order[0] == Origin)
  }

  /** `p` is a neighbour of some coordinate in `done`. */
  ghost predicate Discovered(done: seq<Coord>, p: Coord)
  {
    exists k: Direction :: Neighbour(p, k) in done
  }

  /** Each realised cell after the first is a neighbour of a cell realised
      before it. */
  ghost predicate FoundFromEarlier(order: seq<Coord>)
  {
    forall i :: 0 < i < |order| ==> Discovered(order[..i], order[i])
  }

  /** Every realised cell after the first, and every queued cell other than
      the seed, was found as the neighbour of a cell realised before it. */
  ghost predicate Reached(queue: seq<Coord>, order: seq<Coord>)
  {
    && FoundFromEarlier(order)
    && (forall i :: 0 <= i < |queue| && queue[i] != Origin ==> Discovered(order, queue[i]))
  }

  /** Dequeuing the front cell into the realisation order and enqueueing
      neighbours of it keeps every cell found from a realised neighbour:
      the front cell is the seed only while nothing is realised yet. */
  lemma ReachedStep(queue: seq<Coord>, order: seq<Coord>, queue': seq<Coord>)
    requires Reached(queue, order) && |queue| > 0
    requires if order == [] then queue == [Origin] else order[0] == Origin
    requires queue[0] !in order
    requires |queue| - 1 <= |queue'| && queue'[..|queue| - 1] == queue[1..]
    requires forall i :: |queue| - 1 <= i < |queue'| ==> Adjacent(queue[0], queue'[i])
    ensures Reached(queue', order + [queue[0]])
  {
    var c, order' := queue[0], order + [queue[0]];
    forall i | 0 < i < |order'|
      ensures Discovered(order'[..i], order'[i])
    {
      if i < |order| {
        assert order'[..i] == order[..i];
      } else {
        assert order'[..i] == order;
        assert c != Origin;
      }
    }
    forall i | 0 <= i < |queue'| && queue'[i] != Origin
      ensures Discovered(order', queue'[i])
    {
      if i < |queue| - 1 {
        assert queue'[i] == queue[i + 1];
        var k: Direction :| Neighbour(queue[i + 1], k) in order;
        assert Neighbour(queue'[i], k) in order';
      } else {
        AdjacentSymmetric(c, queue'[i]);
        var k: Direction :| Neighbour(queue'[i], k) == c;
        assert Neighbour(queue'[i], k) in order';
      }
    }
  }

  /** A non-empty walk of neighbour steps through cells of `within`. */
  ghost predicate WalkWithin(path: seq<Coord>, within: seq<Coord>)
  {
    && |path| > 0
    && (forall j :: 0 < j < |path| ==> Adjacent(path[j - 1], path[j]))
    && (forall j :: 0 <= j < |path| ==> path[j] in within)
  }

  /** When each realised cell after the first is a neighbour of an earlier
      one, every realised cell is reached from the first by a walk of
      neighbour steps through cells realised no later than itself. */
  lemma {:induction false} WalkToEveryCell(order: seq<Coord>, i: nat)
    requires FoundFromEarlier(order) && i < |order|
    ensures exists path :: WalkWithin(path, order[..i + 1]) && path[0] == order[0] && path[|path| - 1] == order[i]
    decreases i
  {
    if i == 0 {
      assert WalkWithin([order[0]], order[..1]);
    } else {
      assert Discovered(order[..i], order[i]);
      var k: Direction :| Neighbour(order[i], k) in order[..i];
      var q := Neighbour(order[i], k);
      var m :| 0 <= m < i && order[m] == q;
      WalkToEveryCell(order, m);
      var path :| WalkWithin(path, order[..m + 1]) && path[0] == order[0] && path[|path| - 1] == q;
      NeighbourInverse(order[i], k);
      WalkExtend(path, q, order, m, i);
      assert (path + [order[i]])[0] == order[0];
    }
  }

  /** In a finished run, where the realised cells are exactly the registered
      ones and the seed comes first, every registered coordinate is reached
      from the seed by a walk of neighbour steps through registered cells
      (each of which is the seed or inside the region). */
  lemma RegisteredReachableFromSeed(g: Registry, order: seq<Coord>, p: Coord)
    requires FoundFromEarlier(order) && |order| > 0 && order[0] == Origin
    requires forall q :: q in order <==> Registered(g, q)
    requires Registered(g, p)
    ensures exists path :: WalkWithin(path, order) && path[0] == Origin && path[|path| - 1] == p
  {
    var i :| 0 <= i < |order| && order[i] == p;
    WalkToEveryCell(order, i);
    var path :| WalkWithin(path, order[..i + 1]) && path[0] == order[0] && path[|path| - 1] == order[i];
    assert forall j :: 0 <= j < |path| ==> path[j] in order[..i + 1] ==> path[j] in order;
    assert WalkWithin(path, order);
  }

  /** A walk within the first `m + 1` cells, extended by one neighbour step
      to `order[i]`, is a walk within the first `i + 1` cells. */
  lemma WalkExtend(path: seq<Coord>, q: Coord, order: seq<Coord>, m: nat, i: nat)
    requires m < i < |order|
    requires WalkWithin(path, order[..m + 1]) && path[|path| - 1] == q && Adjacent(q, order[i])
    ensures WalkWithin(path + [order[i]], order[..i + 1])
  {
    var path' := path + [order[i]];
    forall j | 0 <= j < |path'|
      ensures path'[j] in order[..i + 1]
    {
      if j < |path| {
        assert path[j] in order[..m + 1];
      }
    }
  }

  /** The seed is registered; every registered coordinate lies in `universe`
      and, apart from the seed, inside the region; a registered cell is
      realised exactly when it is in `order`, and then holds its six corners;
      every registered cell is realised or queued; queued cells are
      registered and unrealised; nothing is queued or realised twice. */
  ghost predicate FrontierCore(g: Registry, queue: seq<Coord>, order: seq<Coord>,
                               inBounds: Coord -> bool, universe: set<Coord>)
  {
    && WellFormed(g)
    && Registered(g, Origin)
    && (forall p :: Registered(g, p) ==> p in universe && (p == Origin || inBounds(p)))
    && (forall p :: p in order ==> Registered(g, p) && CellAt(g, p) == Cell(p, Some(Corners(p))))
    && (forall p :: Registered(g, p) ==> (Realised(CellAt(g, p)) <==> p in order))
    && (forall p :: Registered(g, p) ==> p in order || p in queue)
    && (forall i :: 0 <= i < |queue| ==> Registered(g, queue[i]) && !Realised(CellAt(g, queue[i])))
    && NoDuplicates(queue) && NoDuplicates(order)
  }

  /** Every in-region neighbour of the given cells is registered. */
  ghost predicate Closed(g: Registry, cells: seq<Coord>, inBounds: Coord -> bool)
  {
    forall p, k: Direction :: p in cells && inBounds(Neighbour(p, k)) ==> Registered(g, Neighbour(p, k))
  }

  /** The buffer invariant: every sealed buffer holds exactly
      `RolloverThreshold + 6` vertices, the active one at most
      `RolloverThreshold` and a whole number of cells, all indices are valid,
      and together the buffers hold the corners of the realised cells and
      draw the reference drawing of `order`. */
  ghost predicate BuffersOk(meshes: seq<Buffer>, buf: Buffer, order: seq<Coord>)
  {
    && AllIndicesValid(meshes) && IndicesValid(buf)
    && (forall i :: 0 <= i < |meshes| ==> |meshes[i].vertices| == RolloverThreshold + 6)
    && |buf.vertices| <= RolloverThreshold && |buf.vertices| % 6 == 0
    && AllVertices(meshes) + buf.vertices == CornersOf(order)
    && AllSegments(meshes) + Segments(buf) == Drawn(order)
  }

  /** Sealing the last buffer, whatever it holds, leaves every buffer a
      whole number of cells within the vertex ceiling, all but the last
      full, and together holding and drawing what the run realised. */
  lemma SealFinalBuffer(meshes: seq<Buffer>, buf: Buffer, order: seq<Coord>)
    requires BuffersOk(meshes, buf, order)
    ensures var all := meshes + [buf];
            && AllIndicesValid(all)
            && (forall i :: 0 <= i < |all| - 1 ==> |all[i].vertices| == RolloverThreshold + 6)
            && |all[|all| - 1].vertices| <= RolloverThreshold
            && (forall i :: 0 <= i < |all| ==> |all[i].vertices| % 6 == 0)
            && (forall i :: 0 <= i < |all| ==> |all[i].vertices| <= MeshVertexCeiling)
            && AllVertices(all) == CornersOf(order)
            && AllSegments(all) == Drawn(order)
  {
    SealKeepsDrawing(meshes, buf);
    var all := meshes + [buf];
    forall i | 0 <= i < |all|
      ensures |all[i].vertices| % 6 == 0 && |all[i].vertices| <= MeshVertexCeiling
      ensures i < |all| - 1 ==> |all[i].vertices| == RolloverThreshold + 6
    {
      if i < |meshes| {
        assert all[i] == meshes[i];
        FullBufferWholeCells();
      }
    }
  }

  /** A full buffer holds a whole number of cells. */
  lemma FullBufferWholeCells()
    ensures (RolloverThreshold + 6) % 6 == 0
  {
  }

  /** A realisation that takes the active buffer past the threshold: the
      grown buffer holds exactly `RolloverThreshold + 6` vertices, and
      sealing it and beginning an empty one keeps the buffer invariant. */
  lemma RealiseThenSeal(meshes: seq<Buffer>, buf: Buffer, buf': Buffer, order: seq<Coord>, c: Coord)
    requires BuffersOk(meshes, buf, order)
    requires buf'.vertices == buf.vertices + Corners(c)
    requires buf'.indices == buf.indices + EdgePairs(|buf.vertices|, OpenAgainst(order, c))
    requires |buf'.vertices| > RolloverThreshold
    ensures |buf'.vertices| == RolloverThreshold + 6
    ensures BuffersOk(meshes + [buf'], EmptyBuffer, order + [c])
  {
    RealiseKeepsDrawing(meshes, buf, buf', order, c);
    FullBufferSize(|buf.vertices|);
    SealFullBuffer(meshes, buf', order + [c]);
  }

  /** A realisation that leaves the active buffer within the threshold
      keeps the buffer invariant with the grown buffer still active. */
  lemma RealiseStaysActive(meshes: seq<Buffer>, buf: Buffer, buf': Buffer, order: seq<Coord>, c: Coord)
    requires BuffersOk(meshes, buf, order)
    requires buf'.vertices == buf.vertices + Corners(c)
    requires buf'.indices == buf.indices + EdgePairs(|buf.vertices|, OpenAgainst(order, c))
    requires |buf'.vertices| <= RolloverThreshold
    ensures BuffersOk(meshes, buf', order + [c])
  {
    RealiseKeepsDrawing(meshes, buf, buf', order, c);
    WholeCellsStep(|buf.vertices|);
  }

  /** Sealing a buffer that holds exactly `RolloverThreshold + 6` vertices
      and starting an empty one keeps the buffer invariant. */
  lemma SealFullBuffer(meshes: seq<Buffer>, buf: Buffer, order: seq<Coord>)
    requires AllIndicesValid(meshes) && IndicesValid(buf)
    requires forall i :: 0 <= i < |meshes| ==> |meshes[i].vertices| == RolloverThreshold + 6
    requires |buf.vertices| == RolloverThreshold + 6
    requires AllVertices(meshes) + buf.vertices == CornersOf(order)
    requires AllSegments(meshes) + Segments(buf) == Drawn(order)
    ensures BuffersOk(meshes + [buf], EmptyBuffer, order)
  {
    SealKeepsDrawing(meshes, buf);
    var sealed := meshes + [buf];
    SealedSizes(meshes, buf);
    assert Segments(EmptyBuffer) == [];
    assert AllVertices(sealed) + EmptyBuffer.vertices == AllVertices(sealed);
    assert AllSegments(sealed) + Segments(EmptyBuffer) == AllSegments(sealed);
  }

  /** Sealing a full buffer keeps every sealed buffer full. */
  lemma SealedSizes(meshes: seq<Buffer>, buf: Buffer)
    requires forall i :: 0 <= i < |meshes| ==> |meshes[i].vertices| == RolloverThreshold + 6
    requires |buf.vertices| == RolloverThreshold + 6
    ensures forall i :: 0 <= i < |meshes + [buf]| ==> |(meshes + [buf])[i].vertices| == RolloverThreshold + 6
  {
  }

  /** A whole number of cells at most the threshold, which one more cell
      takes past it, is exactly the threshold (64950 being a multiple of 6). */
  lemma FullBufferSize(n: nat)
    requires n <= RolloverThreshold && n % 6 == 0 && n + 6 > RolloverThreshold
    ensures n == RolloverThreshold
  {
  }

  lemma WholeCellsStep(n: nat)
    requires n % 6 == 0
    ensures (n + 6) % 6 == 0
  {
  }

  /** The seed state: only the origin registered and queued, nothing realised. */
  lemma SeedFrontierOk(g: Registry, inBounds: Coord -> bool, universe: set<Coord>)
    requires RegisterCellToGrid(EmptyRegistry, NewCell(Origin)).Success?
    requires g == RegisterCellToGrid(EmptyRegistry, NewCell(Origin)).value
    requires Origin in universe
    ensures FrontierOk(g, [Origin], [], inBounds, universe)
  {
  }

  /** Writing the realised front cell back and moving it from the queue to
      the realisation order keeps the bookkeeping; only the closure for the
      moved cell itself is still owed. */
  lemma StoreKeepsFrontier(g: Registry, queue: seq<Coord>, order: seq<Coord>, stored: Registry,
                           inBounds: Coord -> bool, universe: set<Coord>)
    requires FrontierRegistry(g, queue, order, inBounds, universe) && |queue| > 0
    requires Registered(g, queue[0])
    requires stored == StoreCell(g, Cell(queue[0], Some(Corners(queue[0]))))
    ensures FrontierCore(stored, queue[1..], order + [queue[0]], inBounds, universe)
    ensures Closed(stored, order, inBounds)
    ensures (order + [queue[0]])[0] == Origin
  {
    var c, rest, order' := queue[0], queue[1..], order + [queue[0]];
    assert c !in order;
    assert forall i :: 0 <= i < |rest| ==> rest[i] == queue[i + 1];
    assert forall p :: p in queue ==> p == c || p in rest;
    assert forall p :: p in order' <==> p in order || p == c;
    assert NoDuplicates(order') by {
      forall i, j | 0 <= i < j < |order'|
        ensures order'[i] != order'[j]
      {
        if j == |order| {
          assert order'[i] == order[i];
        }
      }
    }
  }

  /** Discovering the moved cell's neighbours settles the closure still
      owed for it, and keeps the bookkeeping. */
  lemma DiscoverKeepsFrontier(stored: Registry, rest: seq<Coord>, order: seq<Coord>, c: Coord,
                              g': Registry, queue': seq<Coord>, inBounds: Coord -> bool, universe: set<Coord>)
    requires FrontierCore(stored, rest, order + [c], inBounds, universe)
    requires Closed(stored, order, inBounds)
    requires (order + [c])[0] == Origin
    requires forall p :: inBounds(p) ==> p in universe
    requires WellFormed(g')
    requires |rest| <= |queue'| && queue'[..|rest|] == rest
    requires forall i :: |rest| <= i < |queue'| ==> !Registered(stored, queue'[i]) && inBounds(queue'[i])
    requires forall i, j :: |rest| <= i < j < |queue'| ==> queue'[i] != queue'[j]
    requires forall p :: Registered(g', p) <==> Registered(stored, p) || p in queue'[|rest|..]
    requires forall p :: Registered(stored, p) ==> CellAt(g', p) == CellAt(stored, p)
    requires forall p :: Registered(g', p) && !Registered(stored, p) ==> CellAt(g', p) == NewCell(p)
    requires forall k: Direction :: inBounds(Neighbour(c, k)) ==> Registered(g', Neighbour(c, k))
    ensures FrontierRegistry(g', queue', order + [c], inBounds, universe)
  {
    var order' := order + [c];
    var added := queue'[|rest|..];
    assert forall p :: p in queue' <==> p in rest || p in added;
    assert forall i :: 0 <= i < |added| ==> added[i] == queue'[|rest| + i];
    assert forall p :: p in order' <==> p in order || p == c;
    assert NoDuplicates(queue') by {
      forall i, j | 0 <= i < j < |queue'|
        ensures queue'[i] != queue'[j]
      {
        if j >= |rest| && i < |rest| {
          assert queue'[i] == rest[i];
        } else if j < |rest| {
          assert queue'[i] == rest[i] && queue'[j] == rest[j];
        }
      }
    }
  }

  /** The registry half of one loop iteration: the front cell, already
      realised as `realised`, is written back, dequeued and appended to the
      realisation order, and its neighbours are discovered. The number of
      unregistered coordinates of `universe` shrinks, or stays while the
      queue shrinks. */
  method AdvanceFrontier(g: Registry, queue: seq<Coord>, order: seq<Coord>, realised: Cell,
                         inBounds: Coord -> bool, ghost universe: set<Coord>)
    returns (g': Registry, queue': seq<Coord>, order': seq<Coord>)
    requires FrontierOk(g, queue, order, inBounds, universe)
    requires forall c :: inBounds(c) ==> c in universe
    requires |queue| > 0 && realised == Cell(queue[0], Some(Corners(queue[0])))
    ensures FrontierOk(g', queue', order', inBounds, universe)
    ensures order' == order + [queue[0]]
    ensures queue' == queue[1..] + FreshNeighbours(StoreCell(g, realised), queue[0], inBounds, 0)
    ensures || |universe - Coords(g')| < |universe - Coords(g)|
            || (|universe - Coords(g')| == |universe - Coords(g)| && |queue'| < |queue|)
  {
    var c := queue[0];
    var rest := queue[1..];
    var stored := StoreCell(g, realised);
    StoreKeepsFrontier(g, queue, order, stored, inBounds, universe);
    order' := order + [c];
    g', queue' := DiscoverNeighbours(stored, rest, c, inBounds);
    DiscoverKeepsFrontier(stored, rest, order, c, g', queue', inBounds, universe);
    ReachedStep(queue, order, queue');
    SplitAt(queue', |rest|);
    if |queue'| > |rest| {
      assert queue'[|rest|] in queue'[|rest|..];
      UnvisitedShrinks(universe, Coords(g), Coords(g'));
    } else {
      assert Coords(g') == Coords(g);
    }
  }

  /** One iteration of the frontier loop: the front cell is dequeued and
      realised into the active buffer, its neighbours are discovered, and
      the active buffer is sealed and restarted once it holds more than
      `RolloverThreshold` vertices. */
  method ProcessFrontCell(g: Registry, queue: seq<Coord>, order: seq<Coord>, meshes: seq<Buffer>,
                          buf: Buffer, meshIndex: nat, inBounds: Coord -> bool, ghost universe: set<Coord>)
    returns (g': Registry, queue': seq<Coord>, order': seq<Coord>, meshes': seq<Buffer>,
             buf': Buffer, meshIndex': nat)
    requires FrontierOk(g, queue, order, inBounds, universe) && |queue| > 0
    requires forall c :: inBounds(c) ==> c in universe
    requires BuffersOk(meshes, buf, order) && |meshes| == meshIndex
    ensures FrontierOk(g', queue', order', inBounds, universe)
    ensures BuffersOk(meshes', buf', order') && |meshes'| == meshIndex'
    ensures order' == order + [queue[0]]
    ensures queue' == queue[1..] + FreshNeighbours(g, queue[0], inBounds, 0)
    ensures || |universe - Coords(g')| < |universe - Coords(g)|
            || (|universe - Coords(g')| == |universe - Coords(g)| && |queue'| < |queue|)
  {
    var c := queue[0];
    var cell := CellAt(g, c);
    EdgesAgreeWithOrder(g, order, c);
    var (realised, grown) := GenerateHexCell(g, cell, buf);
    g', queue', order' := AdvanceFrontier(g, queue, order, realised, inBounds, universe);
    FreshNeighboursSameKeys(StoreCell(g, realised), g, c, inBounds, 0);

    if |grown.vertices| > RolloverThreshold {
      RealiseThenSeal(meshes, buf, grown, order, c);
      meshes', buf', meshIndex' := meshes + [grown], EmptyBuffer, meshIndex + 1;
    } else {
      RealiseStaysActive(meshes, buf, grown, order, c);
      meshes', buf', meshIndex' := meshes, grown, meshIndex;
    }
  }

  /** With the queue empty, every registered cell is realised, with its
      corners, and the registry is closed under in-region neighbours. */
  lemma FrontierDone(g: Registry, order: seq<Coord>, inBounds: Coord -> bool, universe: set<Coord>)
    requires FrontierOk(g, [], order, inBounds, universe)
    ensures WellFormed(g) && Registered(g, Origin)
    ensures forall p :: Registered(g, p) ==> p == Origin || inBounds(p)
    ensures forall p, k: Direction :: Registered(g, p) && inBounds(Neighbour(p, k)) ==> Registered(g, Neighbour(p, k))
    ensures NoDuplicates(order) && |order| > 0 && order[0] == Origin
    ensures FoundFromEarlier(order)
    ensures forall p :: p in order <==> Registered(g, p)
    ensures forall p :: Registered(g, p) ==> CellAt(g, p) == Cell(p, Some(Corners(p)))
  {
    forall p, k: Direction | Registered(g, p) && inBounds(Neighbour(p, k))
      ensures Registered(g, Neighbour(p, k))
    {
      assert p in order;
    }
  }

  /** Generates the whole grid. The seed cell (0, 0) is registered and
      enqueued first; then, until the frontier queue is empty, the front
      cell is dequeued, realised into the active buffer and its neighbours
      discovered; whenever the active buffer holds more than
      `RolloverThreshold` vertices it is sealed and a fresh one begun. The
      last buffer is sealed after the loop, whatever it holds.

      `inBounds` is the containment test, a pure predicate over logical
      coordinates; `bounds` is any finite set covering the coordinates where
      it holds, which is what makes the flood fill stop. */
  method GenerateHexGrid(inBounds: Coord -> bool, ghost bounds: set<Coord>)
    returns (meshes: seq<Buffer>, g: Registry, order: seq<Coord>, meshIndex: nat)
    requires forall c :: inBounds(c) ==> c in bounds
    // the registry: seeded at the origin, grown only inside the region, closed under in-region neighbours
    ensures WellFormed(g)
    ensures Registered(g, Origin)
    ensures forall p :: Registered(g, p) ==> p == Origin || inBounds(p)
    ensures forall p, k: Direction :: Registered(g, p) && inBounds(Neighbour(p, k)) ==> Registered(g, Neighbour(p, k))
    // every registered cell realised, exactly once, seed first, each later one next to an earlier one
    ensures NoDuplicates(order) && |order| > 0 && order[0] == Origin
    ensures FoundFromEarlier(order)
    ensures forall p :: p in order <==> Registered(g, p)
    ensures forall p :: Registered(g, p) ==> CellAt(g, p) == Cell(p, Some(Corners(p)))
    // the buffers
    ensures |meshes| == meshIndex + 1
    ensures AllIndicesValid(meshes)
    ensures forall i :: 0 <= i < |meshes| - 1 ==> |meshes[i].vertices| == RolloverThreshold + 6
    ensures |meshes[|meshes| - 1].vertices| <= RolloverThreshold
    ensures forall i :: 0 <= i < |meshes| ==> |meshes[i].vertices| % 6 == 0
    ensures forall i :: 0 <= i < |meshes| ==> |meshes[i].vertices| <= MeshVertexCeiling
    ensures AllVertices(meshes) == CornersOf(order)
    ensures AllSegments(meshes) == Drawn(order)
  {
    meshIndex := 0;
    meshes := [];
    var buf := EmptyBuffer;
    var seed := NewCell(Origin);
    var queue := [seed.coord];
    g := RegisterCellToGrid(EmptyRegistry, seed).value;
    order := [];
    ghost var universe := bounds + {Origin};
    SeedFrontierOk(g, inBounds, universe);

    while |queue| > 0
      invariant FrontierOk(g, queue, order, inBounds, universe)
      invariant BuffersOk(meshes, buf, order)
      invariant |meshes| == meshIndex
      decreases |universe - Coords(g)|, |queue|
    {
      g, queue, order, meshes, buf, meshIndex :=
        ProcessFrontCell(g, queue, order, meshes, buf, meshIndex, inBounds, universe);
    }
    FrontierDone(g, order, inBounds, universe);
    SealFinalBuffer(meshes, buf, order);
    meshes := meshes + [buf];
  }

  /** What the generated buffers draw, for a cell `c` the run realised:
      the edge it shares with a realised neighbour appears exactly once in
      total, as a side of one cell or the other, and an edge towards a cell
      the run never realised appears exactly once. */
  lemma GridDrawsEachEdgeOnce(meshes: seq<Buffer>, order: seq<Coord>, c: Coord, k: Direction)
    requires AllIndicesValid(meshes) && AllSegments(meshes) == Drawn(order)
    requires NoDuplicates(order) && c in order
    ensures Neighbour(c, k) in order ==>
              (Occurrences(AllSegments(meshes), SideSegment(c, k))
               + Occurrences(AllSegments(meshes), SideSegment(Neighbour(c, k), Opposite(k))) == 1)
    ensures Neighbour(c, k) !in order ==> Occurrences(AllSegments(meshes), SideSegment(c, k)) == 1
  {
    if Neighbour(c, k) in order {
      SharedEdgeDrawnOnce(order, c, k);
    } else {
      BoundaryEdgeDrawnOnce(order, c, k);
    }
  }
}
