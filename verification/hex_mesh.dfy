/** Mesh buffers: a flat vertex list plus a line-list index list, in which
    consecutive index pairs name the two ends of one drawn segment. */
module HexMesh {
  import opened HexCoordinates
  import opened HexCells

  /** A growing (or sealed) vertex/index buffer pair. */
  datatype Buffer = Buffer(vertices: seq<Vertex>, indices: seq<int>)

  /** A buffer with no vertices and no indices, as opened after a rollover. */
  const EmptyBuffer: Buffer := Buffer([], [])

  /** A drawn line segment, as its two end vertices. */
  type Segment = (Vertex, Vertex)

  /** Line topology: indices come in pairs and each refers to a vertex of the same buffer. */
  predicate IndicesValid(b: Buffer)
  {
    && |b.indices| % 2 == 0
    && forall i :: 0 <= i < |b.indices| ==> 0 <= b.indices[i] < |b.vertices|
  }

  /** The index pair of edge `k` of a cell whose six corners start at position `base`. */
  function EdgePair(base: int, k: Direction): seq<int>
  {
    [base + k, base + Next(k)]
  }

  /** The index pairs of the listed edges, in list order. */
  function EdgePairs(base: int, ks: seq<Direction>): (r: seq<int>)
    ensures |r| == 2 * |ks|
    ensures forall i :: 0 <= i < |r| ==> base <= r[i] < base + 6
  {
    if ks == [] then [] else EdgePair(base, ks[0]) + EdgePairs(base, ks[1..])
  }

  /** The segment bounding edge `k` of the cell at `c`. */
  function SideSegment(c: Coord, k: Direction): Segment
  {
    (Vertex(c, k), Vertex(c, Next(k)))
  }

  /** The segments bounding the listed edges of the cell at `c`, in list order. */
  function SideSegments(c: Coord, ks: seq<Direction>): (r: seq<Segment>)
    ensures |r| == |ks|
    ensures forall i :: 0 <= i < |ks| ==> r[i] == SideSegment(c, ks[i])
  {
    if ks == [] then [] else [SideSegment(c, ks[0])] + SideSegments(c, ks[1..])
  }

  /** The segments an index list draws over a vertex list: pair `j` of the
      index list becomes the segment between the two vertices it names. */
  function SegmentsOf(vs: seq<Vertex>, idx: seq<int>): seq<Segment>
    requires |idx| % 2 == 0
    requires forall i :: 0 <= i < |idx| ==> 0 <= idx[i] < |vs|
    decreases |idx|
  {
    if idx == [] then [] else [(vs[idx[0]], vs[idx[1]])] + SegmentsOf(vs, idx[2..])
  }

  /** The segments a buffer draws. */
  function Segments(b: Buffer): seq<Segment>
    requires IndicesValid(b)
  {
    SegmentsOf(b.vertices, b.indices)
  }

  /** Appending vertices never changes what existing indices draw. */
  lemma {:induction false} SegmentsOfExtend(vs: seq<Vertex>, more: seq<Vertex>, idx: seq<int>)
    requires |idx| % 2 == 0
    requires forall i :: 0 <= i < |idx| ==> 0 <= idx[i] < |vs|
    ensures SegmentsOf(vs + more, idx) == SegmentsOf(vs, idx)
    decreases |idx|
  {
    if idx != [] {
      SegmentsOfExtend(vs, more, idx[2..]);
    }
  }

  /** Segments of concatenated index lists are the concatenated segments. */
  lemma {:induction false} SegmentsOfAppend(vs: seq<Vertex>, a: seq<int>, b: seq<int>)
    requires |a| % 2 == 0 && |b| % 2 == 0
    requires forall i :: 0 <= i < |a| ==> 0 <= a[i] < |vs|
    requires forall i :: 0 <= i < |b| ==> 0 <= b[i] < |vs|
    ensures SegmentsOf(vs, a + b) == SegmentsOf(vs, a) + SegmentsOf(vs, b)
    decreases |a|
  {
    if a == [] {
      assert a + b == b;
    } else {
      assert (a + b)[2..] == a[2..] + b;
      SegmentsOfAppend(vs, a[2..], b);
    }
  }

  /** The edge index pairs of a cell whose corners sit at `base` draw exactly
      that cell's side segments. */
  lemma {:induction false} EdgePairsDrawSides(vs: seq<Vertex>, c: Coord, ks: seq<Direction>)
    ensures SegmentsOf(vs + Corners(c), EdgePairs(|vs|, ks)) == SideSegments(c, ks)
    decreases |ks|
  {
    if ks != [] {
      var w := vs + Corners(c);
      assert EdgePairs(|vs|, ks)[2..] == EdgePairs(|vs|, ks[1..]);
      assert w[|vs| + ks[0]] == Vertex(c, ks[0]);
      assert w[|vs| + Next(ks[0])] == Vertex(c, Next(ks[0]));
      EdgePairsDrawSides(vs, c, ks[1..]);
    }
  }

  /** Realising a cell into a buffer adds that cell's chosen side segments
      after everything the buffer already drew. */
  lemma AppendCellSegments(b: Buffer, c: Coord, ks: seq<Direction>)
    requires IndicesValid(b)
    ensures IndicesValid(Buffer(b.vertices + Corners(c), b.indices + EdgePairs(|b.vertices|, ks)))
    ensures Segments(Buffer(b.vertices + Corners(c), b.indices + EdgePairs(|b.vertices|, ks)))
            == Segments(b) + SideSegments(c, ks)
  {
    var w := b.vertices + Corners(c);
    var e := EdgePairs(|b.vertices|, ks);
    var idx := b.indices + e;
    EvenAfterPairs(|b.indices|, |ks|);
    forall i | 0 <= i < |idx|
      ensures 0 <= idx[i] < |w|
    {
      if i >= |b.indices| {
        assert idx[i] == e[i - |b.indices|];
      }
    }
    SegmentsOfAppend(w, b.indices, e);
    SegmentsOfExtend(b.vertices, Corners(c), b.indices);
    EdgePairsDrawSides(b.vertices, c, ks);
  }

  /** Appending whole index pairs keeps an index count even. */
  lemma EvenAfterPairs(n: nat, pairs: nat)
    requires n % 2 == 0
    ensures (n + 2 * pairs) % 2 == 0
  {
  }

  /** Pair `j` of the emitted indices is the index pair of the `j`-th listed edge. */
  lemma {:induction false} EdgePairsAt(base: int, ks: seq<Direction>, j: nat)
    requires j < |ks|
    ensures EdgePairs(base, ks)[2 * j] == base + ks[j]
    ensures EdgePairs(base, ks)[2 * j + 1] == base + Next(ks[j])
  {
    if j > 0 {
      EdgePairsAt(base, ks[1..], j - 1);
    }
  }

  /** Edge `k`'s index pair occurs (at a pair boundary) among the emitted
      indices exactly when `k` is one of the listed edges. */
  lemma EdgePairsContain(base: int, ks: seq<Direction>, k: Direction)
    ensures (exists j :: 0 <= j < |ks| && EdgePairs(base, ks)[2 * j] == base + k
                                       && EdgePairs(base, ks)[2 * j + 1] == base + Next(k))
            <==> k in ks
  {
    if k in ks {
      var j :| 0 <= j < |ks| && ks[j] == k;
      EdgePairsAt(base, ks, j);
    }
    forall j | 0 <= j < |ks| && EdgePairs(base, ks)[2 * j] == base + k
      ensures k in ks
    {
      EdgePairsAt(base, ks, j);
    }
  }
}
