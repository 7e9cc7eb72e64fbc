/** The game board: a flat, row-major store of tiles addressed by 1-based
    points, the reveal operation with its cascade, and the one-time pass that
    counts the blackholes around every tile. */
module Boards {
  import opened Points
  import opened Tiles
  import opened Grids

  /** The engine's only error: a point outside the board. */
  datatype Error = OutOfBounds(p: Point)

  datatype Result<T> = Success(value: T) | Failure(error: Error)

  /** One step of the cascade loop: revealing the neighbour `ns[i]` keeps the
      cascade from `p` in progress, opens `ns[i]` on top of the earlier
      neighbours, and adds the safe tiles it opens to the count. */
  lemma NeighborStep(size: Byte, before: set<Point>, start: set<Point>, now: set<Point>, after: set<Point>,
                     zeros: set<Point>, blackholes: set<Point>, p: Point, ns: seq<Point>, i: nat)
    requires CascadeInProgress(size, before, now, zeros, p) && start <= now
    requires i < |ns| && p in zeros && Adjacent(p, ns[i])
    requires forall k :: 0 <= k < i ==> ns[k] in now
    requires if ns[i] in now then after == now else CascadeOutcome(size, now, after, zeros, ns[i])
    ensures CascadeInProgress(size, before, after, zeros, p) && start <= after
    ensures forall k :: 0 <= k < i + 1 ==> ns[k] in after
    ensures |(after - start) - blackholes| == |(now - start) - blackholes| + |(after - now) - blackholes|
  {
    CascadeStep(size, before, now, after, zeros, p, ns[i]);
    SafeTilesAdd(start, now, after, blackholes);
  }

  /** Counting the blackholes along a list of the neighbours of `p` without
      repetitions counts the blackholes around `p`. */
  lemma NeighborCount(size: Byte, blackholes: set<Point>, p: Point, ns: seq<Point>)
    requires Distinct(ns) && forall q :: q in ns <==> q in Neighbors(size, p)
    ensures CountIn(ns, blackholes) == BlackholesAround(size, blackholes, p)
  {
    CountInDistinct(ns, blackholes);
    assert Elements(ns) == Neighbors(size, p);
  }

  class Board {
    const size: Byte
    const tiles: seq<Tile>
    /** Number of opened tiles that are not blackholes. */
    var openedTilesCount: nat
    /** The slot of every tile; it shows that no tile is stored twice. */
    ghost const index: map<Tile, int>

    /** The board covers `size * size` tiles, each in its own slot. */
    ghost predicate Valid()
    {
      1 <= size <= MaxSide && |tiles| == size * size &&
      forall i :: 0 <= i < |tiles| ==> tiles[i] in index && index[tiles[i]] == i
    }

    /** Allocates `size * size` fresh tiles in their default state; the
        product is a byte product, so only sides up to 15 yield a valid board. */
    constructor (size: Byte)
      ensures this.size == size && openedTilesCount == 0
      ensures |tiles| == ByteMul(size, size)
      ensures forall i :: 0 <= i < |tiles| ==> fresh(tiles[i])
      ensures forall t :: t in tiles ==> !t.isOpened && !t.isBlackhole && t.surroundingBlackholesCount == 0
      ensures 1 <= size <= MaxSide ==> Valid()
    {
      var n := ByteMul(size, size);
      var ts: seq<Tile> := [];
      ghost var slots: map<Tile, int> := map[];
      for i := 0 to n
        invariant |ts| == i
        invariant forall j :: 0 <= j < i ==> fresh(ts[j])
        invariant forall t :: t in ts ==> !t.isOpened && !t.isBlackhole && t.surroundingBlackholesCount == 0
        invariant forall j :: 0 <= j < i ==> ts[j] in slots && slots[ts[j]] == j
      {
        var t := new Tile();
        ts := ts + [t];
        slots := slots[t := i];
      }
      this.size := size;
      tiles := ts;
      index := slots;
      openedTilesCount := 0;
      if 1 <= size <= MaxSide {
        MulMono(size, MaxSide, size);
        MulMono(size, MaxSide, MaxSide);
      }
    }

    /** The tile that the board stores for a point of the board. */
    ghost function TileOf(p: Point): (t: Tile)
      requires Valid() && InGrid(size, p)
      ensures t in tiles
    {
      SlotBijection(size, p);
      tiles[Slot(size, p)]
    }

    /** Distinct points are backed by distinct tiles. */
    lemma TilesDistinct(p: Point, q: Point)
      requires Valid() && InGrid(size, p) && InGrid(size, q) && p != q
      ensures TileOf(p) != TileOf(q)
    {
      SlotBijection(size, p);
      SlotBijection(size, q);
      if TileOf(p) == TileOf(q) {
        SlotInjective(size, p, q);
      }
    }

    /** Opening the tile of `p`, and changing nothing else, adds `p` to the
        opened points and leaves the blackholes and the counts as they were. */
    twostate lemma OnlyTileOpened(p: Point)
      requires Valid() && InGrid(size, p)
      requires forall t :: t in tiles && t != TileOf(p) ==> unchanged(t)
      requires TileOf(p).isOpened
      requires TileOf(p).isBlackhole == old(TileOf(p).isBlackhole)
      requires TileOf(p).surroundingBlackholesCount == old(TileOf(p).surroundingBlackholesCount)
      ensures Opened() == old(Opened()) + {p}
      ensures Blackholes() == old(Blackholes()) && Counts() == old(Counts())
    {
      forall q | InGrid(size, q) && q != p ensures unchanged(TileOf(q)) {
        TilesDistinct(p, q);
      }
    }

    /** Marking the tile of `p` as a blackhole, and changing nothing else,
        adds `p` to the blackholes and leaves the rest of the board alone. */
    twostate lemma OnlyTileMarked(p: Point)
      requires Valid() && InGrid(size, p)
      requires forall t :: t in tiles && t != TileOf(p) ==> unchanged(t)
      requires TileOf(p).isBlackhole
      requires TileOf(p).isOpened == old(TileOf(p).isOpened)
      requires TileOf(p).surroundingBlackholesCount == old(TileOf(p).surroundingBlackholesCount)
      ensures Blackholes() == old(Blackholes()) + {p}
      ensures Opened() == old(Opened()) && Counts() == old(Counts())
    {
      forall q | InGrid(size, q) && q != p ensures unchanged(TileOf(q)) {
        TilesDistinct(p, q);
      }
    }

    /** Setting the count of the tile of `p`, and changing nothing else,
        changes the counts at `p` alone. */
    twostate lemma OnlyCountSet(p: Point)
      requires Valid() && InGrid(size, p)
      requires forall t :: t in tiles && t != TileOf(p) ==> unchanged(t)
      requires TileOf(p).isOpened == old(TileOf(p).isOpened)
      requires TileOf(p).isBlackhole == old(TileOf(p).isBlackhole)
      ensures Opened() == old(Opened()) && Blackholes() == old(Blackholes())
      ensures Counts() == old(Counts())[p := TileOf(p).surroundingBlackholesCount]
    {
      forall q | InGrid(size, q) && q != p ensures unchanged(TileOf(q)) {
        TilesDistinct(p, q);
      }
    }

    /** On a board whose tiles are all in their default state nothing is
        opened, nothing is a blackhole and every count is 0. */
    lemma DefaultViews()
      requires Valid()
      requires forall t :: t in tiles ==> !t.isOpened && !t.isBlackhole && t.surroundingBlackholesCount == 0
      ensures Opened() == {} && Blackholes() == {}
      ensures forall q :: q in Grid(size) ==> Counts()[q] == 0
    {
    }

    /** A point is a blackhole exactly when its tile says so. */
    lemma BlackholeAt(q: Point)
      requires Valid() && InGrid(size, q)
      ensures TileOf(q).isBlackhole <==> q in Blackholes()
    {
    }

    /** The opened points of the board. */
    ghost function Opened(): (s: set<Point>)
      requires Valid()
      reads tiles
      ensures s <= Grid(size)
    {
      set q | q in Grid(size) && TileOf(q).isOpened
    }

    /** The points with a blackhole behind them. */
    ghost function Blackholes(): (s: set<Point>)
      requires Valid()
      reads tiles
      ensures s <= Grid(size)
    {
      set q | q in Grid(size) && TileOf(q).isBlackhole
    }

    /** The stored surrounding-blackhole count of every point. */
    ghost function Counts(): (c: map<Point, int>)
      requires Valid()
      reads tiles
      ensures c.Keys == Grid(size)
    {
      map q | q in Grid(size) :: TileOf(q).surroundingBlackholesCount
    }

    /** The counter agrees with the tiles: it counts the opened tiles that
        are not blackholes. */
    ghost predicate CounterAgrees()
      requires Valid()
      reads this, tiles
    {
      openedTilesCount == |Opened() - Blackholes()|
    }

    function Size(): Coordinate
    {
      size
    }

    /** Reports how many tiles are opened, blackholes excluded. */
    function OpenedTilesCount(): (n: nat)
      requires Valid() && CounterAgrees()
      reads this, tiles
      ensures n == |Opened() - Blackholes()|
      ensures n <= size * size
    {
      GridSize(size);
      SubsetNoLarger(Opened() - Blackholes(), Grid(size));
      openedTilesCount
    }

    /** The tile at a point. A point off the board on either axis, on
        either side, is out of bounds; inside the board the byte slot does
        not wrap, so the tile is the one the row-major layout assigns to the
        point. */
    function TileAt(p: Point): (r: Result<Tile>)
      requires Valid()
      ensures r.Failure? <==> !InGrid(size, p)
      ensures r.Failure? ==> r.error == OutOfBounds(p)
      ensures r.Success? ==> r.value == TileOf(p)
      ensures 1 <= p.X() && 1 <= p.Y() ==> (r.Failure? <==> p.X() > size || p.Y() > size)
    {
      if p.X() < 1 || p.Y() < 1 || p.X() > size || p.Y() > size then
        Failure(OutOfBounds(p))
      else
        ByteSlotNoWrap(size, p);
        SlotBijection(size, p);
        Success(tiles[ByteSlot(size, p)])
    }

    /** For points whose axes are at least 1, the lookup as written and the
        bounds-checked one agree: the same points are out of bounds, and the
        others reach the same tile. */
    lemma LookupsAgree(p: Point)
      requires Valid() && 1 <= p.X() && 1 <= p.Y()
      ensures TileAt(p).Failure? <==> UpperBoundLookup(size, p).OffBoard?
      ensures TileAt(p).Success? ==>
                UpperBoundLookup(size, p).AtSlot? && UpperBoundLookup(size, p).slot < |tiles| &&
                TileAt(p).value == tiles[UpperBoundLookup(size, p).slot]
    {
      if InGrid(size, p) {
        SlotBijection(size, p);
      }
    }

    /** The points around `p`: the row above, the left and right tiles and
        the row below, each taken only when it lies on the board, so in
        row-major order and without repetitions. */
    function NeighborPoints(p: Point): (ns: seq<Point>)
      ensures ns == Listed(size, p, 8)
      ensures InGrid(size, p) ==> forall q :: q in ns <==> q in Neighbors(size, p)
      ensures Distinct(ns) && |ns| <= 8
    {
      ListedMembers(size, p, 8);
      ListedDistinct(size, p, 8);
      var ns := UpperRow(p) + SideTiles(p) + LowerRow(p);
      if InGrid(size, p) then
        ListedNeighbors(size, p);
        ns
      else
        ns
    }

    /** The neighbours of `p` in the row above it, left to right. */
    function UpperRow(p: Point): (ns: seq<Point>)
      ensures ns == Listed(size, p, 3)
    {
      var x, y := p.X(), p.Y();
      var left := if x > 1 && y > 1 then [NewPoint(ByteSub(x, 1), ByteSub(y, 1))] else [];
      assert left == Listed(size, p, 1);
      var above := if y > 1 then [NewPoint(x, ByteSub(y, 1))] else [];
      assert left + above == Listed(size, p, 2);
      var right := if x < size && y > 1 then [NewPoint(ByteAdd(x, 1), ByteSub(y, 1))] else [];
      left + above + right
    }

    /** The neighbours of `p` to its left and to its right. */
    function SideTiles(p: Point): (ns: seq<Point>)
      ensures Listed(size, p, 3) + ns == Listed(size, p, 5)
    {
      var x, y := p.X(), p.Y();
      var left := if x > 1 then [NewPoint(ByteSub(x, 1), y)] else [];
      assert Listed(size, p, 3) + left == Listed(size, p, 4);
      var right := if x < size then [NewPoint(ByteAdd(x, 1), y)] else [];
      left + right
    }

    /** The neighbours of `p` in the row below it, left to right. */
    function LowerRow(p: Point): (ns: seq<Point>)
      ensures Listed(size, p, 5) + ns == Listed(size, p, 8)
    {
      var x, y := p.X(), p.Y();
      var left := if x > 1 && y < size then [NewPoint(ByteSub(x, 1), ByteAdd(y, 1))] else [];
      assert Listed(size, p, 5) + left == Listed(size, p, 6);
      var below := if y < size then [NewPoint(x, ByteAdd(y, 1))] else [];
      assert Listed(size, p, 5) + left + below == Listed(size, p, 7);
      var right := if x < size && y < size then [NewPoint(ByteAdd(x, 1), ByteAdd(y, 1))] else [];
      left + below + right
    }

    /** Counts the blackholes among the neighbours of `p`, one neighbour at a
        time. */
    method CountBlackholesAround(p: Point) returns (n: Byte)
      requires Valid() && InGrid(size, p)
      ensures n == BlackholesAround(size, Blackholes(), p)
      ensures n <= 8
    {
      ghost var blackholes := Blackholes();
      var ns := NeighborPoints(p);
      n := 0;
      for k := 0 to |ns|
        invariant n == CountIn(ns[..k], blackholes) && n <= k
      {
        var q := ns[k];
        assert InGrid(size, q) by {
          assert q in Neighbors(size, p);
        }
        var hole := IsBlackholeAt(q);
        CountInStep(ns, blackholes, k);
        if hole {
          n := n + 1;
        }
      }
      assert n == BlackholesAround(size, blackholes, p) by {
        assert ns[..|ns|] == ns;
        NeighborCount(size, blackholes, p, ns);
      }
    }

    /** Looks up the tile of a point of the board and reports whether it is
        a blackhole. */
    method IsBlackholeAt(q: Point) returns (hole: bool)
      requires Valid() && InGrid(size, q)
      ensures hole == (q in Blackholes())
    {
      var t := TileAt(q);
      BlackholeAt(q);
      hole := t.value.IsBlackhole();
    }

    /** The state of the adjacency pass before column `col` of row `row`:
        the points visited so far carry their new counts, and the opened
        tiles and the blackholes are as they were. */
    ghost predicate PassedUpTo(visible: set<Point>, blackholes: set<Point>, counts: map<Point, int>, row: int, col: int)
      reads tiles
    {
      Valid() && Grid(size) <= counts.Keys &&
      Opened() == visible && Blackholes() == blackholes &&
      Counts() == AdjacencyPass(size, blackholes, counts, row, col)
    }

    /** The one-time pass that visits the board row by row and writes into
        every tile that is not a blackhole the number of blackholes around it,
        when that number is not 0. */
    method CalculateAdjacentBlackholes()
      requires Valid()
      modifies tiles
      ensures Opened() == old(Opened()) && Blackholes() == old(Blackholes())
      ensures Counts() == AdjacencyCounts(size, old(Blackholes()), old(Counts()))
    {
      ghost var visible, blackholes, counts := Opened(), Blackholes(), Counts();
      AdjacencyPassStart(size, blackholes, counts);
      for row := 1 to size + 1
        invariant PassedUpTo(visible, blackholes, counts, row, 1)
      {
        UpdateRow(row, visible, blackholes, counts);
        AdjacencyPassNextRow(size, blackholes, counts, row);
      }
      AdjacencyPassDone(size, blackholes, counts);
    }

    /** The inner loop of the pass: visits the points of row `row` from left
        to right. */
    method UpdateRow(row: Byte, ghost visible: set<Point>, ghost blackholes: set<Point>, ghost counts: map<Point, int>)
      requires 1 <= row <= size
      requires PassedUpTo(visible, blackholes, counts, row, 1)
      modifies tiles
      ensures PassedUpTo(visible, blackholes, counts, row, size + 1)
    {
      for col := 1 to size + 1
        invariant PassedUpTo(visible, blackholes, counts, row, col)
      {
        var p := NewPoint(col, row);
        ghost var current := Counts();
        UpdateSurroundingCount(p);
        AdjacencyPassStep(size, blackholes, counts, row, col, current, Counts());
      }
    }

    /** The visit of the pass to the point `p`: a blackhole is skipped, and
        any other tile with blackholes around it gets their number. */
    method UpdateSurroundingCount(p: Point)
      requires Valid() && InGrid(size, p)
      modifies tiles
      ensures Opened() == old(Opened()) && Blackholes() == old(Blackholes())
      ensures var n := BlackholesAround(size, Blackholes(), p);
              if p in Blackholes() || n == 0 then Counts() == old(Counts())
              else Counts() == old(Counts())[p := n]
    {
      var t := TileAt(p);
      var tile := t.value;
      BlackholeAt(p);
      if tile.IsBlackhole() {
        return;
      }
      var n := CountBlackholesAround(p);
      if n > 0 {
        tile.SetSurroundingBlackholesCount(n);
        OnlyCountSet(p);
      }
    }

    /** Reveals the tile at `p` and returns whether it hides a blackhole.
        An opened tile is left alone; a blackhole is opened on its own;
        any other tile is opened and counted, and when no blackhole surrounds
        it its neighbours are revealed in turn. */
    method OpenTile(p: Point) returns (r: Result<bool>)
      requires Valid()
      modifies this, tiles
      decreases |Grid(size) - Opened()|, 2
      ensures r.Failure? <==> !InGrid(size, p)
      ensures r.Failure? ==> r.error == OutOfBounds(p)
      ensures Blackholes() == old(Blackholes()) && Counts() == old(Counts())
      ensures !InGrid(size, p) || p in old(Opened()) ==> Opened() == old(Opened())
      ensures InGrid(size, p) && p in old(Opened()) ==> r == Success(false)
      ensures InGrid(size, p) && p !in old(Opened()) ==> r == Success(p in Blackholes())
      ensures InGrid(size, p) && p in Blackholes() ==> Opened() == old(Opened()) + {p}
      ensures InGrid(size, p) && p !in old(Opened()) ==>
                CascadeOutcome(size, old(Opened()), Opened(), Zeros(size, Blackholes(), Counts()), p)
      ensures openedTilesCount == old(openedTilesCount) + |(Opened() - old(Opened())) - Blackholes()|
      ensures old(Opened()) <= Opened()
      ensures old(CounterAgrees()) ==> CounterAgrees()
    {
      var t := TileAt(p);
      if t.Failure? {
        r := Failure(t.error);
      } else if t.value.IsOpened() {
        r := Success(false);
        assert old(Opened()) + {p} == old(Opened());
      } else {
        var hole := RevealTile(p, t.value);
        r := Success(hole);
      }
      SafeTilesGrow(old(Opened()), Opened(), Blackholes());
    }

    /** The rest of `OpenTile` for a closed tile: opens it; a blackhole stays
        alone, any other tile is counted, and when no blackhole surrounds it
        its neighbours are revealed in turn. */
    method RevealTile(p: Point, tile: Tile) returns (hole: bool)
      requires Valid() && InGrid(size, p) && tile == TileOf(p) && p !in Opened()
      modifies this, tiles
      decreases |Grid(size) - Opened()|, 1
      ensures hole == (p in Blackholes())
      ensures Blackholes() == old(Blackholes()) && Counts() == old(Counts())
      ensures hole ==> Opened() == old(Opened()) + {p}
      ensures CascadeOutcome(size, old(Opened()), Opened(), Zeros(size, Blackholes(), Counts()), p)
      ensures openedTilesCount == old(openedTilesCount) + |(Opened() - old(Opened())) - Blackholes()|
    {
      ghost var before, blackholes, counts := Opened(), Blackholes(), Counts();
      ghost var zeros := Zeros(size, blackholes, counts);
      tile.Open();
      if tile.IsBlackhole() {
        OnlyTileOpened(p);
        CascadeStart(size, before, zeros, p);
        SafeTilesOne(before, blackholes, p);
        CascadeFinish(size, before, Opened(), zeros, p);
        return true;
      }
      openedTilesCount := openedTilesCount + 1;
      OnlyTileOpened(p);
      CascadeStart(size, before, zeros, p);
      SafeTilesOne(before, blackholes, p);
      if tile.SurroundingBlackholesCount() == 0 {
        ghost var first := Opened();
        OpenNeighbors(p, before, zeros);
        SafeTilesAdd(before, first, Opened(), blackholes);
      }
      CascadeFinish(size, before, Opened(), zeros, p);
      return false;
    }

    /** The cascade of `OpenTile`: reveals, one after the other, every
        neighbour of the just opened tile `p`, around which no blackhole
        lies. Afterwards all of them are opened and the cascade from `p` is
        still one that only opened what it reached. */
    method OpenNeighbors(p: Point, ghost before: set<Point>, ghost zeros: set<Point>)
      requires Valid() && InGrid(size, p) && p in zeros
      requires zeros == Zeros(size, Blackholes(), Counts())
      requires CascadeInProgress(size, before, Opened(), zeros, p)
      modifies this, tiles
      decreases |Grid(size) - before|, 0
      ensures Blackholes() == old(Blackholes()) && Counts() == old(Counts())
      ensures CascadeInProgress(size, before, Opened(), zeros, p)
      ensures Neighbors(size, p) <= Opened()
      ensures openedTilesCount == old(openedTilesCount) + |(Opened() - old(Opened())) - Blackholes()|
    {
      ghost var start, blackholes, counts := Opened(), Blackholes(), Counts();
      var ns := NeighborPoints(p);
      ghost var now := start;
      for i := 0 to |ns|
        invariant now == Opened() && start <= now
        invariant Blackholes() == blackholes && Counts() == counts
        invariant CascadeInProgress(size, before, now, zeros, p)
        invariant forall k :: 0 <= k < i ==> ns[k] in now
        invariant openedTilesCount == old(openedTilesCount) + |(now - start) - blackholes|
      {
        var n := ns[i];
        assert n in Neighbors(size, p);
        SubsetSmaller(Grid(size) - now, Grid(size) - before, p);
        var _ := OpenTile(n);
        ghost var after := Opened();
        assert Zeros(size, Blackholes(), Counts()) == zeros;
        NeighborStep(size, before, start, now, after, zeros, blackholes, p, ns, i);
        now := after;
      }
    }
  }
}
