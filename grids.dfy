/** Geometry of a square board of side `size`: the set of its points, the
    row-major slot of each point (and the byte arithmetic that computes it),
    the neighbour relation, and the specification of the cascade that
    revealing a tile with no surrounding blackholes triggers. */
module Grids {
  import opened Points

  /** The largest side for which none of the board's byte arithmetic wraps:
      15 * 15 = 225 slots still fit in a byte. */
  const MaxSide := 15

  predicate InGrid(size: int, p: Point)
  {
    1 <= p.x <= size && 1 <= p.y <= size
  }

  /** All points of a board of side `size`. */
  function Grid(size: Byte): (g: set<Point>)
    ensures forall p :: p in g <==> InGrid(size, p)
  {
    assert forall p | InGrid(size, p) :: p == Point(p.x, p.y);
    set x: int, y: int | 1 <= x <= size && 1 <= y <= size :: Point(x, y)
  }

  // ---------------------------------------------------------------------
  // Slots: the flat row-major layout of the tiles.
  // ---------------------------------------------------------------------

  /** Row-major slot of a point, in unbounded arithmetic. */
  function Slot(size: int, p: Point): int
  {
    (p.y - 1) * size + (p.x - 1)
  }

  /** The slot expression as Go evaluates it on bytes: every operation wraps. */
  function ByteSlot(size: Byte, p: Point): Byte
  {
    ByteAdd(ByteMul(ByteSub(p.y, 1), size), ByteSub(p.x, 1))
  }

  /** The point at slot `i`: column `i % size + 1`, row `i / size + 1`. This is
      also the order in which the random placement enumerates the board. */
  function SlotPoint(size: Byte, i: int): (p: Point)
    requires 1 <= size && 0 <= i < size * size
    ensures InGrid(size, p) && Slot(size, p) == i
  {
    DivBelow(i, size);
    Point(i % size + 1, i / size + 1)
  }

  lemma DivBelow(i: int, s: int)
    requires 1 <= s && 0 <= i < s * s
    ensures i / s < s
  {
    if i / s >= s {
      MulMono(s, i / s, s);
    }
  }

  lemma MulMono(a: int, b: int, s: int)
    requires a <= b && 0 <= s
    ensures a * s <= b * s
  {
    assert b * s - a * s == (b - a) * s;
  }

  /** Division and remainder recover the row and column of a slot. */
  lemma {:induction false} DivModUnique(a: int, b: int, s: int)
    requires 0 <= b < s
    ensures (a * s + b) / s == a && (a * s + b) % s == b
  {
    var n := a * s + b;
    var q, r := n / s, n % s;
    assert n == q * s + r;
    assert (a - q) * s == r - b;
    if a - q >= 1 {
      MulMono(1, a - q, s);
    } else if a - q <= -1 {
      MulMono(a - q, -1, s);
    }
  }

  /** Every point of the board has its own slot below `size * size`, and the
      slot identifies the point: the layout is a bijection between the board
      and the slots `0 .. size*size-1`. */
  lemma SlotBijection(size: Byte, p: Point)
    requires 1 <= size && InGrid(size, p)
    ensures 0 <= Slot(size, p) < size * size
    ensures SlotPoint(size, Slot(size, p)) == p
  {
    MulMono(p.y - 1, size - 1, size);
    DivModUnique(p.y - 1, p.x - 1, size);
  }

  /** Two distinct points of the board never share a slot. */
  lemma SlotInjective(size: Byte, p: Point, q: Point)
    requires 1 <= size && InGrid(size, p) && InGrid(size, q)
    requires Slot(size, p) == Slot(size, q)
    ensures p == q
  {
    SlotBijection(size, p);
    SlotBijection(size, q);
  }

  /** On a board of side at most 15 the byte slot never wraps. */
  lemma ByteSlotNoWrap(size: Byte, p: Point)
    requires 1 <= size <= MaxSide && InGrid(size, p)
    ensures ByteSlot(size, p) == Slot(size, p)
  {
    MulMono(p.y - 1, size - 1, size);
    MulMono(size - 1, MaxSide - 1, size);
    MulMono(size, MaxSide, MaxSide - 1);
  }

  /** Where a lookup of the tile at a point goes. */
  datatype Lookup = OffBoard | AtSlot(slot: Byte)

  /** The tile lookup as it is written: only the upper bound of each axis is
      checked, and the slot is computed on bytes. */
  function UpperBoundLookup(size: Byte, p: Point): (r: Lookup)
    ensures r.OffBoard? <==> p.x > size || p.y > size
    ensures 1 <= size <= MaxSide && InGrid(size, p) ==> r == AtSlot(Slot(size, p))
  {
    if p.x > size || p.y > size then OffBoard
    else
      if 1 <= size <= MaxSide && InGrid(size, p) then ByteSlotNoWrap(size, p); AtSlot(ByteSlot(size, p))
      else AtSlot(ByteSlot(size, p))
  }

  /** A 0 axis passes that check and underflows: on a board of side 4 the
      point (0, 2) lands on the slot of (4, 1), and (0, 1) on slot 255, far
      past the 16 tiles. */
  lemma ZeroAxisAliases()
    ensures !InGrid(4, Point(0, 2)) && !InGrid(4, Point(0, 1))
    ensures UpperBoundLookup(4, Point(0, 2)) == UpperBoundLookup(4, Point(4, 1)) == AtSlot(3)
    ensures UpperBoundLookup(4, Point(0, 1)) == AtSlot(255)
  {
  }

  // ---------------------------------------------------------------------
  // The size of the board.
  // ---------------------------------------------------------------------

  /** The points at the first `n` slots. */
  function FirstSlots(size: Byte, n: nat): set<Point>
    requires 1 <= size && n <= size * size
  {
    set i | 0 <= i < n :: SlotPoint(size, i)
  }

  lemma {:induction false} FirstSlotsSize(size: Byte, n: nat)
    requires 1 <= size && n <= size * size
    ensures |FirstSlots(size, n)| == n
  {
    if n > 0 {
      FirstSlotsSize(size, n - 1);
      var last := SlotPoint(size, n - 1);
      assert FirstSlots(size, n) == FirstSlots(size, n - 1) + {last};
      assert last !in FirstSlots(size, n - 1);
    }
  }

  /** A board of side `size` has `size * size` points. */
  lemma GridSize(size: Byte)
    ensures |Grid(size)| == size * size
  {
    if size == 0 {
      assert Grid(size) == {};
    } else {
      FirstSlotsSize(size, size * size);
      forall p | p in Grid(size) ensures p in FirstSlots(size, size * size) {
        SlotBijection(size, p);
      }
      assert Grid(size) == FirstSlots(size, size * size);
    }
  }

  // ---------------------------------------------------------------------
  // Neighbours and adjacency counts.
  // ---------------------------------------------------------------------

  /** `q` touches `p` horizontally, vertically or diagonally. */
  predicate Adjacent(p: Point, q: Point)
  {
    p != q && -1 <= q.x - p.x <= 1 && -1 <= q.y - p.y <= 1
  }

  /** The points of the board around `p`. */
  function Neighbors(size: Byte, p: Point): (ns: set<Point>)
    ensures forall q :: q in ns <==> InGrid(size, q) && Adjacent(p, q)
  {
    set q | q in Grid(size) && Adjacent(p, q)
  }

  /** The eight directions around a point, in the order the neighbour list
      takes them: the row above left to right, then left and right, then the
      row below left to right. */
  const Directions: seq<(int, int)> := [(-1, -1), (0, -1), (1, -1), (-1, 0), (1, 0), (-1, 1), (0, 1), (1, 1)]

  /** A coordinate may step down only from above 1 and up only from below
      `size`; staying put is always allowed. */
  predicate CanMove(size: Byte, a: Byte, d: int)
  {
    (d < 0 ==> a > 1) && (d > 0 ==> a < size)
  }

  /** One step of a coordinate, in byte arithmetic. */
  function Move(a: Byte, d: int): Byte
  {
    if d < 0 then ByteSub(a, 1) else if d > 0 then ByteAdd(a, 1) else a
  }

  /** The neighbour list of `p` built from the first `k` directions. */
  function Listed(size: Byte, p: Point, k: nat): seq<Point>
    requires k <= |Directions|
  {
    if k == 0 then []
    else
      var (dx, dy) := Directions[k - 1];
      Listed(size, p, k - 1) +
      (if CanMove(size, p.x, dx) && CanMove(size, p.y, dy) then [Point(Move(p.x, dx), Move(p.y, dy))] else [])
  }

  /** Position of `q` around `p` in row-major order, from -4 to 4. */
  function Rank(p: Point, q: Point): int
  {
    3 * (q.y - p.y) + (q.x - p.x)
  }

  /** The rank of the last of the first `k` directions. */
  function RankBound(k: nat): int
    requires k <= |Directions|
  {
    if k == 0 then -5 else 3 * Directions[k - 1].1 + Directions[k - 1].0
  }

  /** `q` lies in a direction whose guard lets the list include it. */
  predicate Reachable(size: Byte, p: Point, q: Point)
  {
    Adjacent(p, q) && CanMove(size, p.x, q.x - p.x) && CanMove(size, p.y, q.y - p.y)
  }

  /** Each direction is one step of each coordinate at most, and their ranks
      rise strictly in list order. */
  lemma DirectionStep(k: nat)
    requires 1 <= k <= |Directions|
    ensures var (dx, dy) := Directions[k - 1];
            -1 <= dx <= 1 && -1 <= dy <= 1 && (dx, dy) != (0, 0) &&
            RankBound(k) == 3 * dy + dx && RankBound(k - 1) < RankBound(k)
  {
  }

  /** A step the guard allows does not wrap around. */
  lemma MoveExact(size: Byte, a: Byte, d: int)
    requires -1 <= d <= 1 && CanMove(size, a, d)
    ensures Move(a, d) == a + d
  {
  }

  /** Ranks tell the directions apart: a point around `p` has rank up to
      that of direction `k - 1` exactly when it has rank up to that of the
      direction before, or lies in direction `k - 1`. */
  lemma RankStep(p: Point, q: Point, k: nat)
    requires 1 <= k <= |Directions| && Adjacent(p, q)
    ensures Rank(p, q) <= RankBound(k) <==>
            Rank(p, q) <= RankBound(k - 1) || (q.x - p.x, q.y - p.y) == Directions[k - 1]
  {
  }

  /** The list from the first `k` directions holds exactly the reachable
      points up to that rank, and no more than `k` of them. */
  lemma {:induction false} ListedMembers(size: Byte, p: Point, k: nat)
    requires k <= |Directions|
    ensures forall q :: q in Listed(size, p, k) <==> Reachable(size, p, q) && Rank(p, q) <= RankBound(k)
    ensures |Listed(size, p, k)| <= k
  {
    if k > 0 {
      ListedMembers(size, p, k - 1);
      var (dx, dy) := Directions[k - 1];
      DirectionStep(k);
      if CanMove(size, p.x, dx) && CanMove(size, p.y, dy) {
        MoveExact(size, p.x, dx);
        MoveExact(size, p.y, dy);
      }
      forall q ensures q in Listed(size, p, k) <==> Reachable(size, p, q) && Rank(p, q) <= RankBound(k) {
        if Adjacent(p, q) {
          RankStep(p, q, k);
        }
      }
    }
  }

  /** No point occurs twice in the list: each new entry has a higher rank
      than every earlier one. */
  lemma {:induction false} ListedDistinct(size: Byte, p: Point, k: nat)
    requires k <= |Directions|
    ensures Distinct(Listed(size, p, k))
  {
    if k > 0 {
      ListedDistinct(size, p, k - 1);
      ListedMembers(size, p, k - 1);
      var (dx, dy) := Directions[k - 1];
      DirectionStep(k);
      if CanMove(size, p.x, dx) && CanMove(size, p.y, dy) {
        MoveExact(size, p.x, dx);
        MoveExact(size, p.y, dy);
        var c := Point(Move(p.x, dx), Move(p.y, dy));
        assert Rank(p, c) == RankBound(k);
        DistinctAppend(Listed(size, p, k - 1), c);
      }
    }
  }

  /** For a point of the board the full list holds its neighbours, each once. */
  lemma ListedNeighbors(size: Byte, p: Point)
    requires InGrid(size, p)
    ensures forall q :: q in Listed(size, p, 8) <==> q in Neighbors(size, p)
    ensures Distinct(Listed(size, p, 8)) && |Listed(size, p, 8)| <= 8
  {
    ListedMembers(size, p, 8);
    ListedDistinct(size, p, 8);
  }

  /** How many of `blackholes` surround `p`. */
  function BlackholesAround(size: Byte, blackholes: set<Point>, p: Point): nat
  {
    |Neighbors(size, p) * blackholes|
  }

  /** The count the adjacency pass leaves on `q`, which carried `count`
      before: a blackhole and a tile without blackholes around keep theirs,
      any other tile gets the number of blackholes around it. */
  function AdjacencyCount(size: Byte, blackholes: set<Point>, count: int, q: Point): int
  {
    if q in blackholes || BlackholesAround(size, blackholes, q) == 0 then count
    else BlackholesAround(size, blackholes, q)
  }

  /** `q` comes before column `col` of row `row` in row-major order. */
  predicate Visited(q: Point, row: int, col: int)
  {
    q.y < row || (q.y == row && q.x < col)
  }

  /** The counts once the adjacency pass has visited every point before
      column `col` of row `row`. */
  function AdjacencyPass(size: Byte, blackholes: set<Point>, counts: map<Point, int>, row: int, col: int): (m: map<Point, int>)
    requires Grid(size) <= counts.Keys
    ensures m.Keys == Grid(size)
  {
    map q | q in Grid(size) :: if Visited(q, row, col) then AdjacencyCount(size, blackholes, counts[q], q) else counts[q]
  }

  /** Visiting the point at column `col` of row `row` changes that point
      alone: a blackhole, or a tile with no blackhole around, keeps its count,
      any other tile gets the number of blackholes around it. */
  lemma AdjacencyPassStep(size: Byte, blackholes: set<Point>, counts: map<Point, int>, row: int, col: int,
                          before: map<Point, int>, after: map<Point, int>)
    requires Grid(size) <= counts.Keys && 1 <= row <= size && 1 <= col <= size
    requires before == AdjacencyPass(size, blackholes, counts, row, col)
    requires var p := Point(col, row);
             var n := BlackholesAround(size, blackholes, p);
             if p in blackholes || n == 0 then after == before else after == before[p := n]
    ensures after == AdjacencyPass(size, blackholes, counts, row, col + 1)
  {
    var p := Point(col, row);
    var next := AdjacencyPass(size, blackholes, counts, row, col + 1);
    assert p in Grid(size);
    assert after.Keys == before.Keys;
    forall q | q in Grid(size) ensures next[q] == after[q] {
      if q == p {
        assert !Visited(p, row, col) && Visited(p, row, col + 1);
        assert before[p] == counts[p];
      } else {
        assert Visited(q, row, col + 1) == Visited(q, row, col);
        assert after[q] == before[q];
      }
    }
    assert next.Keys == after.Keys;
  }

  /** Before the first row nothing has been visited. */
  lemma AdjacencyPassStart(size: Byte, blackholes: set<Point>, counts: map<Point, int>)
    requires counts.Keys == Grid(size)
    ensures AdjacencyPass(size, blackholes, counts, 1, 1) == counts
  {
  }

  /** Past the last column of a row the pass goes on with the next row. */
  lemma AdjacencyPassNextRow(size: Byte, blackholes: set<Point>, counts: map<Point, int>, row: int)
    requires Grid(size) <= counts.Keys
    ensures AdjacencyPass(size, blackholes, counts, row, size + 1) ==
            AdjacencyPass(size, blackholes, counts, row + 1, 1)
  {
  }

  /** The counts the adjacency pass leaves behind, point by point. */
  function AdjacencyCounts(size: Byte, blackholes: set<Point>, counts: map<Point, int>): (m: map<Point, int>)
    requires Grid(size) <= counts.Keys
    ensures m.Keys == Grid(size)
  {
    map q | q in Grid(size) :: AdjacencyCount(size, blackholes, counts[q], q)
  }

  /** After the last row every point has been visited. */
  lemma AdjacencyPassDone(size: Byte, blackholes: set<Point>, counts: map<Point, int>)
    requires Grid(size) <= counts.Keys
    ensures AdjacencyPass(size, blackholes, counts, size + 1, 1) == AdjacencyCounts(size, blackholes, counts)
  {
  }

  /** Every tile of the board carries the count its surroundings call for:
      a blackhole keeps 0, any other tile the number of blackholes around it. */
  ghost predicate CountsConsistent(size: Byte, blackholes: set<Point>, counts: map<Point, int>)
  {
    forall q :: q in Grid(size) ==>
      q in counts && counts[q] == if q in blackholes then 0 else BlackholesAround(size, blackholes, q)
  }

  /** On a board whose tiles all start at 0, the adjacency pass leaves every
      tile with the count its surroundings call for. */
  lemma AdjacencyCountsConsistent(size: Byte, blackholes: set<Point>, counts: map<Point, int>)
    requires Grid(size) <= counts.Keys
    requires forall q :: q in Grid(size) ==> counts[q] == 0
    ensures CountsConsistent(size, blackholes, AdjacencyCounts(size, blackholes, counts))
  {
  }

  /** Running the adjacency pass a second time changes nothing. */
  lemma AdjacencyCountsIdempotent(size: Byte, blackholes: set<Point>, counts: map<Point, int>)
    requires Grid(size) <= counts.Keys
    ensures var once := AdjacencyCounts(size, blackholes, counts);
            AdjacencyCounts(size, blackholes, once) == once
  {
  }

  /** With consistent counts, a safe tile next to a blackhole carries a
      positive count, so its reveal does not cascade. */
  lemma TouchingBlackhole(size: Byte, blackholes: set<Point>, counts: map<Point, int>, q: Point, h: Point)
    requires CountsConsistent(size, blackholes, counts)
    requires InGrid(size, q) && q !in blackholes && h in blackholes && InGrid(size, h) && Adjacent(q, h)
    ensures counts[q] > 0 && q !in Zeros(size, blackholes, counts)
  {
    assert h in Neighbors(size, q) * blackholes;
  }

  /** The tiles whose reveal cascades: not a blackhole, count 0. */
  function Zeros(size: Byte, blackholes: set<Point>, counts: map<Point, int>): set<Point>
  {
    set q | q in Grid(size) && q !in blackholes && q in counts && counts[q] == 0
  }

  // ---------------------------------------------------------------------
  // The cascade.
  // ---------------------------------------------------------------------

  /** A walk through `region` in which every step leaves a tile of `zeros`
      for one of its neighbours. */
  ghost predicate IsCascadePath(region: set<Point>, zeros: set<Point>, path: seq<Point>)
  {
    |path| >= 1 &&
    (forall i :: 0 <= i < |path| ==> path[i] in region) &&
    (forall i :: 0 <= i < |path| - 1 ==> path[i] in zeros && Adjacent(path[i], path[i + 1]))
  }

  /** The cascade started at `p` inside `region` can arrive at `q`. */
  ghost predicate Reaches(region: set<Point>, zeros: set<Point>, p: Point, q: Point)
  {
    exists path :: IsCascadePath(region, zeros, path) && path[0] == p && path[|path| - 1] == q
  }

  /** Everything a cascade from `p` through the closed tiles `closed` reveals:
      the connected zero-count region around `p` together with its border. */
  ghost function FloodRegion(size: Byte, closed: set<Point>, zeros: set<Point>, p: Point): set<Point>
  {
    set q | q in Grid(size) && Reaches(closed, zeros, p, q)
  }

  /** What revealing the closed tile `p` does to the set of opened tiles:
      nothing is closed again, `p` is opened, every newly opened zero tile has
      all its neighbours opened, and every newly opened tile was reached by
      the cascade through newly opened tiles. */
  ghost predicate CascadeOutcome(size: Byte, before: set<Point>, after: set<Point>, zeros: set<Point>, p: Point)
  {
    before <= after && p in after &&
    (forall q :: q in after && q !in before && q in zeros ==> Neighbors(size, q) <= after) &&
    (forall q :: q in after && q !in before ==> Reaches(after - before, zeros, p, q))
  }

  /** A walk whose first tile is opened afterwards, and which only crosses
      tiles that were closed before, stays among the opened tiles. */
  lemma {:induction false} CascadePathOpened(size: Byte, before: set<Point>, after: set<Point>, zeros: set<Point>,
                                             p: Point, path: seq<Point>, k: nat)
    requires CascadeOutcome(size, before, after, zeros, p)
    requires IsCascadePath(Grid(size) - before, zeros, path) && path[0] == p
    requires k < |path|
    ensures path[k] in after
  {
    if k > 0 {
      CascadePathOpened(size, before, after, zeros, p, path, k - 1);
      assert path[k] in Neighbors(size, path[k - 1]);
    }
  }

  /** The outcome of a cascade is determined: the tiles it opens are exactly
      the flood region of `p` among the tiles that were closed. */
  lemma CascadeOutcomeIsFlood(size: Byte, before: set<Point>, after: set<Point>, zeros: set<Point>, p: Point)
    requires before <= Grid(size) && after <= Grid(size)
    requires p !in before
    requires CascadeOutcome(size, before, after, zeros, p)
    ensures after == before + FloodRegion(size, Grid(size) - before, zeros, p)
  {
    var closed := Grid(size) - before;
    forall q | q in after && q !in before ensures q in FloodRegion(size, closed, zeros, p) {
      var path :| IsCascadePath(after - before, zeros, path) && path[0] == p && path[|path| - 1] == q;
      assert IsCascadePath(closed, zeros, path);
    }
    forall q | q in FloodRegion(size, closed, zeros, p) ensures q in after {
      var path :| IsCascadePath(closed, zeros, path) && path[0] == p && path[|path| - 1] == q;
      CascadePathOpened(size, before, after, zeros, p, path, |path| - 1);
    }
  }

  /** On a board where nothing is opened yet, a reveal opens exactly the
      flood region of `p` over the whole board. */
  lemma CascadeOnClosedBoard(size: Byte, after: set<Point>, zeros: set<Point>, p: Point)
    requires after <= Grid(size)
    requires CascadeOutcome(size, {}, after, zeros, p)
    ensures after == FloodRegion(size, Grid(size), zeros, p)
  {
    CascadeOutcomeIsFlood(size, {}, after, zeros, p);
    assert Grid(size) - {} == Grid(size);
  }

  /** A walk that starts on a safe tile and only leaves tiles with no
      blackhole around them never steps on a blackhole. */
  lemma {:induction false} CascadePathSafe(size: Byte, blackholes: set<Point>, counts: map<Point, int>,
                                           region: set<Point>, path: seq<Point>, k: nat)
    requires CountsConsistent(size, blackholes, counts)
    requires region <= Grid(size)
    requires IsCascadePath(region, Zeros(size, blackholes, counts), path) && path[0] !in blackholes
    requires k < |path|
    ensures path[k] !in blackholes
  {
    if k > 0 {
      CascadePathSafe(size, blackholes, counts, region, path, k - 1);
      var z := path[k - 1];
      assert path[k] in Neighbors(size, z);
      assert |Neighbors(size, z) * blackholes| == 0;
      assert path[k] !in Neighbors(size, z) * blackholes;
    }
  }

  /** With consistent counts, the cascade from a safe tile never reaches a
      blackhole. */
  lemma CascadeAvoidsBlackholes(size: Byte, blackholes: set<Point>, counts: map<Point, int>,
                                closed: set<Point>, p: Point)
    requires CountsConsistent(size, blackholes, counts)
    requires closed <= Grid(size) && p !in blackholes
    ensures FloodRegion(size, closed, Zeros(size, blackholes, counts), p) !! blackholes
  {
    var zeros := Zeros(size, blackholes, counts);
    forall q | q in FloodRegion(size, closed, zeros, p) ensures q !in blackholes {
      var path :| IsCascadePath(closed, zeros, path) && path[0] == p && path[|path| - 1] == q;
      CascadePathSafe(size, blackholes, counts, closed, path, |path| - 1);
    }
  }

  /** A tile with blackholes around it does not cascade: revealing it opens
      that tile alone. */
  lemma OpensAlone(size: Byte, before: set<Point>, after: set<Point>, zeros: set<Point>, p: Point)
    requires CascadeOutcome(size, before, after, zeros, p) && p !in before && p !in zeros
    ensures after == before + {p}
  {
    forall q | q in after && q !in before ensures q == p {
      var path :| IsCascadePath(after - before, zeros, path) && path[0] == p && path[|path| - 1] == q;
      assert |path| == 1;
    }
  }

  /** A walk from inside `region` stays inside it when every zero tile of the
      region has all its neighbours in the region. */
  lemma {:induction false} PathWithin(size: Byte, closed: set<Point>, zeros: set<Point>, region: set<Point>,
                                      path: seq<Point>, k: nat)
    requires IsCascadePath(closed, zeros, path) && closed <= Grid(size) && path[0] in region
    requires forall z :: z in region && z in zeros ==> Neighbors(size, z) <= region
    requires k < |path|
    ensures path[k] in region
  {
    if k > 0 {
      PathWithin(size, closed, zeros, region, path, k - 1);
      assert path[k] in Neighbors(size, path[k - 1]);
    }
  }

  /** A region that holds `p` and the neighbours of each of its zero tiles
      bounds every cascade from `p`. */
  lemma FloodWithin(size: Byte, closed: set<Point>, zeros: set<Point>, p: Point, region: set<Point>)
    requires closed <= Grid(size) && p in region
    requires forall z :: z in region && z in zeros ==> Neighbors(size, z) <= region
    ensures FloodRegion(size, closed, zeros, p) <= region
  {
    forall q | q in FloodRegion(size, closed, zeros, p) ensures q in region {
      var path :| IsCascadePath(closed, zeros, path) && path[0] == p && path[|path| - 1] == q;
      PathWithin(size, closed, zeros, region, path, |path| - 1);
    }
  }

  // ---------------------------------------------------------------------
  // The cascade while it runs: the recursive reveal visits the neighbours of
  // a zero tile one after the other.
  // ---------------------------------------------------------------------

  /** A cascade from the closed tile `p` that has opened `p` and part of what
      it will open: everything but `p` is already closed under the cascade. */
  ghost predicate CascadeInProgress(size: Byte, before: set<Point>, now: set<Point>, zeros: set<Point>, p: Point)
  {
    before <= now && p in now && p !in before &&
    (forall q :: q in now && q !in before && q != p && q in zeros ==> Neighbors(size, q) <= now) &&
    (forall q :: q in now && q !in before ==> Reaches(now - before, zeros, p, q))
  }

  /** Opening `p` starts the cascade. */
  lemma CascadeStart(size: Byte, before: set<Point>, zeros: set<Point>, p: Point)
    requires p !in before
    ensures CascadeInProgress(size, before, before + {p}, zeros, p)
  {
    assert IsCascadePath({p}, zeros, [p]);
    assert (before + {p}) - before == {p};
  }

  /** Revealing one neighbour `n` of the zero tile `p` -- either a no-op on an
      opened tile or a complete cascade of its own -- keeps the cascade from `p`
      in progress, and leaves `n` opened. */
  lemma CascadeStep(size: Byte, before: set<Point>, now: set<Point>, after: set<Point>,
                    zeros: set<Point>, p: Point, n: Point)
    requires CascadeInProgress(size, before, now, zeros, p)
    requires p in zeros && Adjacent(p, n)
    requires if n in now then after == now else CascadeOutcome(size, now, after, zeros, n)
    ensures CascadeInProgress(size, before, after, zeros, p) && now <= after && n in after
  {
    forall q | q in after && q !in before ensures Reaches(after - before, zeros, p, q) {
      if q in now {
        var path :| IsCascadePath(now - before, zeros, path) && path[0] == p && path[|path| - 1] == q;
        assert IsCascadePath(after - before, zeros, path);
      } else {
        var path :| IsCascadePath(after - now, zeros, path) && path[0] == n && path[|path| - 1] == q;
        var longer := [p] + path;
        assert IsCascadePath(after - before, zeros, longer);
      }
    }
  }

  /** Once every neighbour of a zero `p` is opened the cascade is complete. */
  lemma CascadeFinish(size: Byte, before: set<Point>, now: set<Point>, zeros: set<Point>, p: Point)
    requires CascadeInProgress(size, before, now, zeros, p)
    requires p in zeros ==> Neighbors(size, p) <= now
    ensures CascadeOutcome(size, before, now, zeros, p)
  {
  }

  // ---------------------------------------------------------------------
  // Counting.
  // ---------------------------------------------------------------------

  predicate Distinct(s: seq<Point>)
  {
    forall i, j :: 0 <= i < j < |s| ==> s[i] != s[j]
  }

  /** Appending a point not yet present keeps a sequence free of repeats. */
  lemma DistinctAppend(s: seq<Point>, x: Point)
    requires Distinct(s) && x !in s
    ensures Distinct(s + [x])
  {
    var t := s + [x];
    forall i, j | 0 <= i < j < |t| ensures t[i] != t[j] {
      assert t[i] == s[i];
      if j < |s| {
        assert t[j] == s[j];
      }
    }
  }

  /** How many elements of `s` lie in `b`, counted from the front. */
  function CountIn(s: seq<Point>, b: set<Point>): nat
  {
    if s == [] then 0 else CountIn(s[..|s| - 1], b) + (if s[|s| - 1] in b then 1 else 0)
  }

  /** Counting one element further along a list. */
  lemma CountInStep(s: seq<Point>, b: set<Point>, k: nat)
    requires k < |s|
    ensures CountIn(s[..k + 1], b) == CountIn(s[..k], b) + (if s[k] in b then 1 else 0)
  {
    assert s[..k + 1][..k] == s[..k];
  }

  /** The points of a list, as a set. */
  function Elements(s: seq<Point>): set<Point>
  {
    set x | x in s
  }

  /** Taking one more element of a list adds it to the prefix's elements. */
  lemma ElementsStep(s: seq<Point>, i: nat)
    requires i < |s|
    ensures Elements(s[..i + 1]) == Elements(s[..i]) + {s[i]}
  {
    assert s[..i + 1] == s[..i] + [s[i]];
  }

  /** Adding a new element to a set adds one to its intersection with `b`
      exactly when the element lies in `b`. */
  lemma IntersectionAddOne(e: set<Point>, b: set<Point>, x: Point)
    requires x !in e
    ensures |(e + {x}) * b| == |e * b| + (if x in b then 1 else 0)
  {
    if x in b {
      assert (e + {x}) * b == e * b + {x};
    } else {
      assert (e + {x}) * b == e * b;
    }
  }

  /** Counting the members of a list without repetitions counts a set. */
  lemma {:induction false} CountInDistinct(s: seq<Point>, b: set<Point>)
    requires Distinct(s)
    ensures CountIn(s, b) == |Elements(s) * b|
  {
    if s != [] {
      var init, last := s[..|s| - 1], s[|s| - 1];
      assert Distinct(init);
      CountInDistinct(init, b);
      ElementsStep(s, |s| - 1);
      assert s[..|s| - 1 + 1] == s;
      assert last !in Elements(init);
      IntersectionAddOne(Elements(init), b, last);
    }
  }

  /** A set that lacks an element of a superset is smaller. */
  lemma SubsetSmaller<T>(a: set<T>, b: set<T>, x: T)
    requires a <= b && x in b && x !in a
    ensures |a| < |b|
  {
    assert b == a + (b - a);
    assert x in b - a;
  }

  lemma SubsetNoLarger<T>(a: set<T>, b: set<T>)
    requires a <= b
    ensures |a| <= |b|
  {
    assert b == a + (b - a);
  }

  /** Opening one closed tile adds one safe tile, or none for a blackhole. */
  lemma SafeTilesOne(before: set<Point>, blackholes: set<Point>, p: Point)
    requires p !in before
    ensures |((before + {p}) - before) - blackholes| == if p in blackholes then 0 else 1
  {
    if p in blackholes {
      assert ((before + {p}) - before) - blackholes == {};
    } else {
      assert ((before + {p}) - before) - blackholes == {p};
    }
  }

  /** The tiles newly opened by two consecutive steps, without blackholes,
      add up. */
  lemma SafeTilesAdd(before: set<Point>, now: set<Point>, after: set<Point>, blackholes: set<Point>)
    requires before <= now <= after
    ensures |(after - before) - blackholes| == |(now - before) - blackholes| + |(after - now) - blackholes|
  {
    assert (after - before) - blackholes == ((now - before) - blackholes) + ((after - now) - blackholes);
    assert ((now - before) - blackholes) !! ((after - now) - blackholes);
  }

  /** Opening more tiles adds the safe ones among them to the safe opened
      tiles. */
  lemma SafeTilesGrow(before: set<Point>, after: set<Point>, blackholes: set<Point>)
    requires before <= after
    ensures |after - blackholes| == |before - blackholes| + |(after - before) - blackholes|
  {
    assert after - blackholes == (before - blackholes) + ((after - before) - blackholes);
    assert (before - blackholes) !! ((after - before) - blackholes);
  }
}
