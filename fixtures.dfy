/** Worked boards: the small layouts the board's own tests use, with the
    outcome each of them must have, derived from the contracts of the model. */
module Fixtures {
  import opened Points
  import opened Tiles
  import opened Grids
  import opened Boards
  import opened Placement

  // ---------------------------------------------------------------------
  // A tile on its own.
  // ---------------------------------------------------------------------

  /** A new tile is closed and safe; opening it twice leaves it opened, and
      setting the blackhole flag twice leaves it set. */
  method TileLifecycleFixture() returns (first: bool, second: bool, clear: bool, hole: bool)
    ensures first && second && clear && hole
  {
    var t := new Tile();
    assert !t.IsOpened() && !t.IsBlackhole();
    t.Open();
    first := t.IsOpened();
    t.Open();
    second := t.IsOpened();
    t.Blackhole(false);
    clear := !t.IsBlackhole();
    t.Blackhole(true);
    t.Blackhole(true);
    hole := t.IsBlackhole();
  }

  // ---------------------------------------------------------------------
  // A single reveal on a 2 x 2 board.
  // ---------------------------------------------------------------------

  /** On a board without blackholes, revealing a tile reports no blackhole. */
  method OpenSafeTileFixture() returns (r: Result<bool>)
    ensures r == Success(false)
  {
    var b := NewBoard(2, 0, Fixed([]));
    r := b.OpenTile(NewPoint(2, 1));
  }

  /** On a board made only of blackholes, revealing a tile reports one. */
  method OpenBlackholeFixture() returns (r: Result<bool>)
    ensures r == Success(true)
  {
    var b := NewBoard(2, 0, Fixed([NewPoint(1, 1), NewPoint(2, 1), NewPoint(1, 2), NewPoint(2, 2)]));
    r := b.OpenTile(NewPoint(2, 1));
  }

  /** A point beyond the side of the board is out of bounds. */
  method OutOfBoundsFixture() returns (r: Result<bool>)
    ensures r == Failure(OutOfBounds(Point(3, 1)))
  {
    var b := NewBoard(2, 0, Fixed([]));
    r := b.OpenTile(NewPoint(3, 1));
  }

  // ---------------------------------------------------------------------
  // Neighbour lists on 3 x 3 and 5 x 5 boards.
  // ---------------------------------------------------------------------

  /** The top left corner has three neighbours. */
  lemma CornerNeighbors()
    ensures Neighbors(3, Point(1, 1)) == {Point(2, 1), Point(1, 2), Point(2, 2)}
  {
    forall q ensures q in Neighbors(3, Point(1, 1)) <==> q in {Point(2, 1), Point(1, 2), Point(2, 2)} {
    }
  }

  /** The bottom right corner has three neighbours. */
  lemma OppositeCornerNeighbors()
    ensures Neighbors(3, Point(3, 3)) == {Point(2, 2), Point(3, 2), Point(2, 3)}
  {
    forall q ensures q in Neighbors(3, Point(3, 3)) <==> q in {Point(2, 2), Point(3, 2), Point(2, 3)} {
    }
  }

  /** The top right corner has three neighbours. */
  lemma TopRightNeighbors()
    ensures Neighbors(3, Point(3, 1)) == {Point(2, 1), Point(2, 2), Point(3, 2)}
  {
    forall q ensures q in Neighbors(3, Point(3, 1)) <==> q in {Point(2, 1), Point(2, 2), Point(3, 2)} {
    }
  }

  /** The bottom left corner has three neighbours. */
  lemma BottomLeftNeighbors()
    ensures Neighbors(3, Point(1, 3)) == {Point(1, 2), Point(2, 2), Point(2, 3)}
  {
    forall q ensures q in Neighbors(3, Point(1, 3)) <==> q in {Point(1, 2), Point(2, 2), Point(2, 3)} {
    }
  }

  /** A tile away from the border has all eight neighbours. */
  lemma SurroundedNeighbors()
    ensures Neighbors(5, Point(2, 3)) ==
            {Point(1, 2), Point(2, 2), Point(3, 2), Point(1, 3), Point(3, 3), Point(1, 4), Point(2, 4), Point(3, 4)}
  {
    forall q ensures q in Neighbors(5, Point(2, 3)) <==>
                     q in {Point(1, 2), Point(2, 2), Point(3, 2), Point(1, 3), Point(3, 3), Point(1, 4), Point(2, 4), Point(3, 4)} {
    }
  }

  /** A list of the neighbours of the top left corner of a 3 x 3 board
      without repetitions holds exactly its three neighbours. */
  lemma CornerList(ns: seq<Point>)
    requires Distinct(ns) && forall q :: q in ns <==> q in Neighbors(3, Point(1, 1))
    ensures |ns| == 3
    ensures forall q :: q in ns <==> q in {Point(2, 1), Point(1, 2), Point(2, 2)}
  {
    CornerNeighbors();
    DistinctSize(ns);
    assert Elements(ns) == {Point(2, 1), Point(1, 2), Point(2, 2)};
  }

  /** The neighbour list of the top left corner of a 3 x 3 board holds its
      three neighbours once each. */
  method CornerNeighborsFixture() returns (ns: seq<Point>)
    ensures |ns| == 3
    ensures forall q :: q in ns <==> q in {Point(2, 1), Point(1, 2), Point(2, 2)}
  {
    var b := NewBoard(3, 0, Fixed([]));
    ns := b.NeighborPoints(NewPoint(1, 1));
    CornerList(ns);
  }

  // ---------------------------------------------------------------------
  // Reveals on a 4 x 4 board.
  // ---------------------------------------------------------------------

  /** The blackholes of the first reveal layout. */
  const AloneHoles: set<Point> := {Point(4, 1), Point(1, 2), Point(3, 3)}

  /** On that layout the tile (3, 2) does not cascade, so revealing it
      opens it alone. */
  lemma AloneFixture(counts: map<Point, int>, after: set<Point>)
    requires CountsConsistent(4, AloneHoles, counts)
    requires CascadeOutcome(4, {}, after, Zeros(4, AloneHoles, counts), Point(3, 2))
    ensures after == {Point(3, 2)}
  {
    TouchingBlackhole(4, AloneHoles, counts, Point(3, 2), Point(3, 3));
    OpensAlone(4, {}, after, Zeros(4, AloneHoles, counts), Point(3, 2));
  }

  /** Of the three blackholes of that layout, two touch (3, 2). */
  lemma AloneAround()
    ensures Neighbors(4, Point(3, 2)) * AloneHoles == {Point(4, 1), Point(3, 3)}
  {
    forall q ensures q in Neighbors(4, Point(3, 2)) * AloneHoles <==> q in {Point(4, 1), Point(3, 3)} {
    }
  }

  /** So the adjacency pass gives (3, 2) the count 2. */
  lemma AloneCount(counts: map<Point, int>)
    requires CountsConsistent(4, AloneHoles, counts)
    ensures counts[Point(3, 2)] == 2
  {
    assert InGrid(4, Point(3, 2)) && Point(3, 2) !in AloneHoles;
    AloneAround();
  }

  /** A tile with blackholes around it is opened on its own:

        1 1 1 H
        H 2 X 2
        1 2 H 1
        0 1 1 1 */
  method OpenAloneFixture() returns (b: Board, r: Result<bool>)
    ensures b.Valid() && r == Success(false)
    ensures b.Opened() == {Point(3, 2)} && b.Counts()[Point(3, 2)] == 2
  {
    assert Point(3, 2) !in AloneHoles;
    b := NewBoard(4, 0, Fixed([NewPoint(4, 1), NewPoint(1, 2), NewPoint(3, 3)]));
    assert b.Blackholes() == AloneHoles;
    r := b.OpenTile(NewPoint(3, 2));
    AloneFixture(b.Counts(), b.Opened());
    AloneCount(b.Counts());
  }

  /** The blackholes of the cascade layout, and what revealing (3, 1)
      opens:

        H + X +
        1 + + +
        0 + + +
        0 1 H 1 */
  const FloodHoles: set<Point> := {Point(1, 1), Point(3, 4)}

  const FloodZeros: set<Point> := {Point(3, 1), Point(4, 1), Point(3, 2), Point(4, 2)}

  const FloodBorder: set<Point> := {Point(2, 1), Point(2, 2), Point(2, 3), Point(3, 3), Point(4, 3)}

  /** Which tiles of the opened area cascade: the four of the top right
      block, and none of the tiles bordering a blackhole. */
  lemma FloodZerosFixture(counts: map<Point, int>)
    requires CountsConsistent(4, FloodHoles, counts)
    ensures FloodZeros <= Zeros(4, FloodHoles, counts)
    ensures FloodBorder !! Zeros(4, FloodHoles, counts)
  {
    forall q | q in FloodZeros ensures q in Zeros(4, FloodHoles, counts) {
      ZeroCount(counts, q);
    }
    forall q | q in FloodBorder ensures q !in Zeros(4, FloodHoles, counts) {
      BorderCount(counts, q);
    }
  }

  /** No tile of the top right block touches a blackhole. */
  lemma ZeroCount(counts: map<Point, int>, q: Point)
    requires CountsConsistent(4, FloodHoles, counts) && q in FloodZeros
    ensures counts[q] == 0
  {
    assert Neighbors(4, q) * FloodHoles == {};
  }

  /** Every tile of the border of the opened area touches a blackhole. */
  lemma BorderCount(counts: map<Point, int>, q: Point)
    requires CountsConsistent(4, FloodHoles, counts) && q in FloodBorder
    ensures counts[q] > 0
  {
    var h := BorderHole(q);
    TouchingBlackhole(4, FloodHoles, counts, q, h);
  }

  /** The blackhole that a tile of the border touches. */
  function BorderHole(q: Point): (h: Point)
    requires q in FloodBorder
    ensures InGrid(4, q) && q !in FloodHoles && h in FloodHoles && InGrid(4, h) && Adjacent(q, h)
  {
    if q.y <= 2 then Point(1, 1) else Point(3, 4)
  }

  /** Every zero tile of the opened area has its neighbours inside it. */
  lemma FloodClosed(z: Point)
    requires z in FloodZeros
    ensures Neighbors(4, z) <= FloodZeros + FloodBorder
  {
  }

  /** Every tile of the opened area is reached from (3, 1), through (3, 2)
      for the third row. */
  lemma FloodReaches(closed: set<Point>, zeros: set<Point>, q: Point)
    requires FloodZeros <= zeros && FloodZeros + FloodBorder <= closed && q in FloodZeros + FloodBorder
    ensures Reaches(closed, zeros, Point(3, 1), q)
  {
    var path := if q == Point(3, 1) then [q]
                else if q.y <= 2 then [Point(3, 1), q]
                else [Point(3, 1), Point(3, 2), q];
    assert IsCascadePath(closed, zeros, path);
  }

  /** The cascade from (3, 1) through a closed 4 x 4 board opens the top
      right block and its border, and nothing else. */
  lemma FloodFixture(closed: set<Point>, zeros: set<Point>)
    requires FloodZeros + FloodBorder <= closed <= Grid(4)
    requires FloodZeros <= zeros && FloodBorder !! zeros
    ensures FloodRegion(4, closed, zeros, Point(3, 1)) == FloodZeros + FloodBorder
  {
    var area := FloodZeros + FloodBorder;
    forall z | z in area && z in zeros ensures Neighbors(4, z) <= area {
      FloodClosed(z);
    }
    FloodWithin(4, closed, zeros, Point(3, 1), area);
    forall q | q in area ensures Reaches(closed, zeros, Point(3, 1), q) {
      FloodReaches(closed, zeros, q);
    }
  }

  /** The opened area lies on the board. */
  lemma AreaOnBoard(closed: set<Point>)
    requires closed == Grid(4)
    ensures FloodZeros + FloodBorder <= closed <= Grid(4)
  {
    forall q | q in FloodZeros + FloodBorder ensures q in closed {
      assert InGrid(4, q);
    }
  }

  /** The reveal of (3, 1) on that layout, whatever order it opens the
      tiles in, ends with the block and its border opened. */
  lemma FloodOutcome(zeros: set<Point>, after: set<Point>)
    requires FloodZeros <= zeros && FloodBorder !! zeros
    requires after == FloodRegion(4, Grid(4), zeros, Point(3, 1))
    ensures after == FloodZeros + FloodBorder
  {
    var closed := Grid(4);
    AreaOnBoard(closed);
    FloodFixture(closed, zeros);
  }

  /** Revealing (3, 1) opens the nine tiles of the top right block and its
      border, all of them safe. */
  method OpenFloodFixture() returns (b: Board, r: Result<bool>)
    ensures b.Valid() && r == Success(false)
    ensures b.Opened() == FloodZeros + FloodBorder
  {
    assert Point(3, 1) !in FloodHoles;
    b := NewBoard(4, 0, Fixed([NewPoint(1, 1), NewPoint(3, 4)]));
    assert b.Blackholes() == FloodHoles;
    r := b.OpenTile(NewPoint(3, 1));
    ghost var zeros, after := Zeros(4, FloodHoles, b.Counts()), b.Opened();
    FloodZerosFixture(b.Counts());
    CascadeOnClosedBoard(4, after, zeros, Point(3, 1));
    FloodOutcome(zeros, after);
  }
}
