/** Reference definitions of what a generation run draws, given only the
    order in which cells were realised, and the proof that every edge
    between two realised cells is drawn exactly once. */
module HexDrawing {
  import opened HexCoordinates
  import opened HexCells
  import opened HexMesh

  /** No coordinate occurs twice. */
  predicate NoDuplicates(s: seq<Coord>)
  {
    forall i, j :: 0 <= i < j < |s| ==> s[i] != s[j]
  }

  /** The position of `c` in a sequence that holds it. */
  function IndexOf(s: seq<Coord>, c: Coord): (i: nat)
    requires c in s
    ensures i < |s| && s[i] == c && c !in s[..i]
  {
    if s[0] == c then 0 else
      var j := IndexOf(s[1..], c);
      assert s[1..][..j] == s[1..j + 1];
      j + 1
  }

  /** The cells realised before `c`. */
  function Before(order: seq<Coord>, c: Coord): seq<Coord>
    requires c in order
  {
    order[..IndexOf(order, c)]
  }

  /** Which edges of `c` face a cell not among `done`, by direction. */
  function DoneMask(done: seq<Coord>, c: Coord): (m: seq<bool>)
    ensures |m| == 6 && forall k: Direction :: m[k] == (Neighbour(c, k) !in done)
  {
    [Neighbour(c, 0) !in done, Neighbour(c, 1) !in done, Neighbour(c, 2) !in done,
     Neighbour(c, 3) !in done, Neighbour(c, 4) !in done, Neighbour(c, 5) !in done]
  }

  /** The edges of `c` to draw when the cells in `done` are already realised:
      those facing a cell that is not, in direction order. */
  function OpenAgainst(done: seq<Coord>, c: Coord): seq<Direction>
  {
    DirectionsWhere(DoneMask(done, c), 0)
  }

  /** The corners of the cells in realisation order, six per cell. */
  function CornersOf(order: seq<Coord>): (r: seq<Vertex>)
    ensures |r| == 6 * |order|
  {
    if order == [] then [] else CornersOf(order[..|order| - 1]) + Corners(order[|order| - 1])
  }

  /** The segments drawn when cells are realised in `order`: each cell draws
      its edges facing cells not realised before it, so at most six. */
  function Drawn(order: seq<Coord>): (r: seq<Segment>)
    ensures |r| <= 6 * |order|
  {
    if order == [] then []
    else
      var prior, c := order[..|order| - 1], order[|order| - 1];
      Drawn(prior) + SideSegments(c, OpenAgainst(prior, c))
  }

  /** How many times `x` occurs in `s`. */
  function Occurrences<T(==)>(s: seq<T>, x: T): nat
  {
    if s == [] then 0 else (if s[0] == x then 1 else 0) + Occurrences(s[1..], x)
  }

  /** Occurrences in a concatenation add up. */
  lemma {:induction false} OccurrencesAppend<T>(a: seq<T>, b: seq<T>, x: T)
    ensures Occurrences(a + b, x) == Occurrences(a, x) + Occurrences(b, x)
    decreases |a|
  {
    if a == [] {
      assert a + b == b;
    } else {
      assert (a + b)[1..] == a[1..] + b;
      OccurrencesAppend(a[1..], b, x);
    }
  }

  /** A side segment names its cell and edge: two are equal only when both agree. */
  lemma SideSegmentInjective(c: Coord, k: Direction, d: Coord, j: Direction)
    ensures SideSegment(c, k) == SideSegment(d, j) <==> c == d && k == j
  {
  }

  /** How often a given side segment occurs among a cell's listed edges. */
  lemma {:induction false} SideSegmentsCount(c: Coord, ks: seq<Direction>, d: Coord, k: Direction)
    requires forall i, j :: 0 <= i < j < |ks| ==> ks[i] < ks[j]
    ensures Occurrences(SideSegments(c, ks), SideSegment(d, k)) == if c == d && k in ks then 1 else 0
    decreases |ks|
  {
    if ks != [] {
      SideSegmentsCount(c, ks[1..], d, k);
      SideSegmentInjective(c, ks[0], d, k);
      if k == ks[0] {
        assert k !in ks[1..];
      }
    }
  }

  /** Realising one more cell adds edge `k` of `c` once exactly when that
      cell is `c` and the neighbour across the edge was not realised before. */
  lemma DrawnCountStep(prior: seq<Coord>, last: Coord, c: Coord, k: Direction)
    ensures Occurrences(Drawn(prior + [last]), SideSegment(c, k))
            == Occurrences(Drawn(prior), SideSegment(c, k))
             + (if c == last && Neighbour(c, k) !in prior then 1 else 0)
  {
    var order := prior + [last];
    assert order[..|order| - 1] == prior;
    var ks := OpenAgainst(prior, last);
    DirectionsWhereSpec(DoneMask(prior, last), 0);
    SideSegmentsCount(last, ks, c, k);
    OccurrencesAppend(Drawn(prior), SideSegments(last, ks), SideSegment(c, k));
  }

  /** Edge `k` of `c` is drawn once when `c` was realised and the neighbour
      across it was not realised earlier, and never otherwise. */
  lemma {:induction false} DrawnCount(order: seq<Coord>, c: Coord, k: Direction)
    requires NoDuplicates(order)
    ensures Occurrences(Drawn(order), SideSegment(c, k))
            == if c in order && Neighbour(c, k) !in Before(order, c) then 1 else 0
    decreases |order|
  {
    if order != [] {
      var prior, last := order[..|order| - 1], order[|order| - 1];
      assert order == prior + [last];
      NoDuplicatesSplit(order);
      DrawnCountStep(prior, last, c, k);
      DrawnCount(prior, c, k);
      if c == last {
        IndexOfUnique(order, c, |order| - 1);
      } else if c in prior {
        BeforeInPrefix(order, |order| - 1, c);
      } else {
        assert c !in order;
      }
    }
  }

  /** Dropping the last element keeps a sequence duplicate-free, and the
      dropped element does not occur before it. */
  lemma NoDuplicatesSplit(s: seq<Coord>)
    requires NoDuplicates(s) && s != []
    ensures NoDuplicates(s[..|s| - 1]) && s[|s| - 1] !in s[..|s| - 1]
  {
  }

  /** A cell already present in a prefix has the same predecessors in the whole sequence. */
  lemma BeforeInPrefix(s: seq<Coord>, n: nat, c: Coord)
    requires n <= |s| && c in s[..n]
    ensures Before(s, c) == Before(s[..n], c)
  {
    var i := IndexOf(s[..n], c);
    assert s[..n][..i] == s[..i];
    IndexOfUnique(s, c, i);
  }

  /** In a sequence without duplicates an element sits at one position only. */
  lemma IndexOfUnique(s: seq<Coord>, c: Coord, i: nat)
    requires i < |s| && s[i] == c && c !in s[..i]
    ensures IndexOf(s, c) == i
  {
  }

  /** Of two distinct cells in a duplicate-free order, exactly one comes first. */
  lemma ExactlyOneFirst(order: seq<Coord>, a: Coord, b: Coord)
    requires NoDuplicates(order)
    requires a in order && b in order && a != b
    ensures (b in Before(order, a)) != (a in Before(order, b))
  {
    var i, j := IndexOf(order, a), IndexOf(order, b);
    assert i != j;
    if j < i {
      assert Before(order, a)[j] == b;
      assert a !in Before(order, b);
    } else {
      assert Before(order, b)[i] == a;
      assert b !in Before(order, a);
    }
  }

  /** The edge shared by two adjacent realised cells is drawn exactly once
      overall, as a side of one cell or the other (`DrawnCount` says which). */
  lemma SharedEdgeDrawnOnce(order: seq<Coord>, c: Coord, k: Direction)
    requires NoDuplicates(order)
    requires c in order && Neighbour(c, k) in order
    ensures Occurrences(Drawn(order), SideSegment(c, k))
          + Occurrences(Drawn(order), SideSegment(Neighbour(c, k), Opposite(k))) == 1
  {
    var d := Neighbour(c, k);
    NeighbourInverse(c, k);
    NeighbourIsOther(c, k);
    DrawnCount(order, c, k);
    DrawnCount(order, d, Opposite(k));
    ExactlyOneFirst(order, c, d);
  }

  /** An edge of a realised cell facing a cell that is never realised is drawn exactly once. */
  lemma BoundaryEdgeDrawnOnce(order: seq<Coord>, c: Coord, k: Direction)
    requires NoDuplicates(order)
    requires c in order && Neighbour(c, k) !in order
    ensures Occurrences(Drawn(order), SideSegment(c, k)) == 1
  {
    DrawnCount(order, c, k);
  }
}
