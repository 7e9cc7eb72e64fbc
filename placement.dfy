/** Putting blackholes on a new board: the random strategy that shuffles
    all points and takes the first `count`, a strategy that marks a given
    list of points, and the board constructor that runs a strategy and then
    the adjacency pass. */
module Placement {
  import opened Points
  import opened Tiles
  import opened Grids
  import opened Boards

  // ---------------------------------------------------------------------
  // The row-major list of all points, and the shuffle.
  // ---------------------------------------------------------------------

  /** Every point of a board of side `size`, slot by slot. */
  function Enumeration(size: Byte): (s: seq<Point>)
    requires 1 <= size
    ensures |s| == size * size
    ensures forall i :: 0 <= i < |s| ==> s[i] == SlotPoint(size, i)
  {
    seq(size * size, i requires 0 <= i < size * size => SlotPoint(size, i))
  }

  /** The enumeration lists every point of the board exactly once. */
  lemma EnumerationIsGrid(size: Byte)
    requires 1 <= size
    ensures Elements(Enumeration(size)) == Grid(size)
    ensures Distinct(Enumeration(size))
  {
    var s := Enumeration(size);
    forall p | p in Grid(size) ensures p in Elements(s) {
      SlotBijection(size, p);
      assert s[Slot(size, p)] == p;
    }
    forall i, j | 0 <= i < j < |s| ensures s[i] != s[j] {
      assert Slot(size, s[i]) == i && Slot(size, s[j]) == j;
    }
  }

  /** `s` with the elements at `i` and `j` exchanged. */
  function Swap(s: seq<Point>, i: nat, j: nat): (r: seq<Point>)
    requires i < |s| && j < |s|
    ensures |r| == |s|
  {
    s[i := s[j]][j := s[i]]
  }

  /** An exchange keeps the elements and their multiplicities. */
  lemma SwapPermutes(s: seq<Point>, i: nat, j: nat)
    requires i < |s| && j < |s|
    ensures multiset(Swap(s, i, j)) == multiset(s)
  {
    var t := s[i := s[j]];
    assert multiset(t) == multiset(s) - multiset{s[i]} + multiset{s[j]};
    assert multiset(t[j := s[i]]) == multiset(t) - multiset{t[j]} + multiset{s[i]};
  }

  /** The Fisher-Yates pass from position `i` down to 1: position `k` is
      exchanged with position `pick(k) % (k + 1)`, where `pick` stands for
      the random source. */
  function ShuffleDown(s: seq<Point>, i: nat, pick: nat -> nat): seq<Point>
    requires i < |s| || i == 0
    decreases i
  {
    if i == 0 then s else ShuffleDown(Swap(s, i, pick(i) % (i + 1)), i - 1, pick)
  }

  /** The whole shuffle of `s`. */
  function Shuffled(s: seq<Point>, pick: nat -> nat): seq<Point>
  {
    if |s| == 0 then s else ShuffleDown(s, |s| - 1, pick)
  }

  /** Whatever the random source, the shuffle is a permutation. */
  lemma {:induction false} ShuffleDownPermutes(s: seq<Point>, i: nat, pick: nat -> nat)
    requires i < |s| || i == 0
    ensures multiset(ShuffleDown(s, i, pick)) == multiset(s)
    ensures |ShuffleDown(s, i, pick)| == |s|
    decreases i
  {
    if i > 0 {
      var j := pick(i) % (i + 1);
      SwapPermutes(s, i, j);
      ShuffleDownPermutes(Swap(s, i, j), i - 1, pick);
    }
  }

  lemma ShuffledPermutes(s: seq<Point>, pick: nat -> nat)
    ensures multiset(Shuffled(s, pick)) == multiset(s) && |Shuffled(s, pick)| == |s|
  {
    if |s| > 0 {
      ShuffleDownPermutes(s, |s| - 1, pick);
    }
  }

  /** A permutation of a list without repetitions has none either, and the
      same elements. */
  lemma PermutationDistinct(s: seq<Point>, t: seq<Point>)
    requires multiset(s) == multiset(t) && Distinct(s)
    ensures Distinct(t) && Elements(t) == Elements(s)
  {
    forall x ensures x in t <==> x in s {
      assert x in multiset(t) <==> x in multiset(s);
    }
    forall i, j | 0 <= i < j < |t| ensures t[i] != t[j] {
      if t[i] == t[j] {
        CountTwice(t, i, j);
        DistinctOnce(s, t[i]);
        assert false;
      }
    }
  }

  /** A value at two positions occurs at least twice. */
  lemma CountTwice(t: seq<Point>, i: nat, j: nat)
    requires i < j < |t| && t[i] == t[j]
    ensures multiset(t)[t[i]] >= 2
  {
    assert t == t[..i] + [t[i]] + t[i + 1..j] + [t[j]] + t[j + 1..];
  }

  /** In a list without repetitions every value occurs at most once. */
  lemma {:induction false} DistinctOnce(s: seq<Point>, x: Point)
    requires Distinct(s)
    ensures multiset(s)[x] <= 1
  {
    if s != [] {
      var init := s[..|s| - 1];
      assert s == init + [s[|s| - 1]];
      assert Distinct(init);
      DistinctOnce(init, x);
      if x == s[|s| - 1] {
        assert x !in init;
      }
    }
  }

  /** A list without repetitions has as many distinct elements as
      positions. */
  lemma {:induction false} DistinctSize(s: seq<Point>)
    requires Distinct(s)
    ensures |Elements(s)| == |s|
  {
    if s != [] {
      var init, last := s[..|s| - 1], s[|s| - 1];
      assert Distinct(init);
      DistinctSize(init);
      assert Elements(s) == Elements(init) + {last};
      assert last !in Elements(init);
    }
  }

  // ---------------------------------------------------------------------
  // Strategies.
  // ---------------------------------------------------------------------

  /** How a new board gets its blackholes: the random strategy, fed by a
      source of random choices, or a fixed list of points. */
  datatype Placer = Random(pick: nat -> nat) | Fixed(points: seq<Point>)

  /** Whatever the random source, the shuffled enumeration lists every
      point of the board exactly once. */
  lemma ShuffledGrid(size: Byte, pick: nat -> nat)
    requires 1 <= size
    ensures |Shuffled(Enumeration(size), pick)| == size * size
    ensures Distinct(Shuffled(Enumeration(size), pick))
    ensures Elements(Shuffled(Enumeration(size), pick)) == Grid(size)
  {
    EnumerationIsGrid(size);
    ShuffledPermutes(Enumeration(size), pick);
    PermutationDistinct(Enumeration(size), Shuffled(Enumeration(size), pick));
  }

  /** The points the random strategy turns into blackholes: the first
      `count` of the shuffled enumeration. */
  function RandomlyPlaced(size: Byte, count: nat, pick: nat -> nat): set<Point>
    requires 1 <= size && count <= size * size
  {
    ShuffledPermutes(Enumeration(size), pick);
    Elements(Shuffled(Enumeration(size), pick)[..count])
  }

  /** The random strategy places exactly `count` blackholes, all on the
      board, whatever the random source. */
  lemma RandomlyPlacedCount(size: Byte, count: nat, pick: nat -> nat)
    requires 1 <= size && count <= size * size
    ensures |RandomlyPlaced(size, count, pick)| == count
    ensures RandomlyPlaced(size, count, pick) <= Grid(size)
  {
    var s := Shuffled(Enumeration(size), pick);
    ShuffledGrid(size, pick);
    assert Distinct(s[..count]);
    DistinctSize(s[..count]);
    assert forall x :: x in s[..count] ==> x in s;
  }

  /** The blackholes a placer puts on a fresh board of side `size`. */
  function Placed(size: Byte, count: nat, placer: Placer): set<Point>
    requires 1 <= size
    requires placer.Random? ==> count <= size * size
  {
    match placer
    case Random(pick) => RandomlyPlaced(size, count, pick)
    case Fixed(points) => Elements(points)
  }

  /** Shuffles the array in place, as the random source dictates. */
  method Shuffle(a: array<Point>, pick: nat -> nat)
    modifies a
    ensures a[..] == Shuffled(old(a[..]), pick)
  {
    if a.Length == 0 {
      return;
    }
    ghost var goal := Shuffled(a[..], pick);
    var i := a.Length - 1;
    while i > 0
      invariant 0 <= i < a.Length
      invariant ShuffleDown(a[..], i, pick) == goal
      decreases i
    {
      var j := pick(i) % (i + 1);
      ghost var before := a[..];
      a[i], a[j] := a[j], a[i];
      assert a[..] == Swap(before, i, j);
      i := i - 1;
    }
  }

  /** The loop body both strategies share: marks the tile of `p` as a
      blackhole. */
  method MarkBlackhole(b: Board, p: Point)
    requires b.Valid() && InGrid(b.size, p)
    modifies b.tiles
    ensures b.Opened() == old(b.Opened()) && b.Counts() == old(b.Counts())
    ensures b.Blackholes() == old(b.Blackholes()) + {p}
  {
    var t := b.TileAt(p);
    t.value.Blackhole(true);
    b.OnlyTileMarked(p);
  }

  /** The first step of the random strategy: every point of the board, in
      row-major order, in a new array. */
  method AllPoints(size: Byte) returns (a: array<Point>)
    requires 1 <= size <= MaxSide
    ensures fresh(a) && a[..] == Enumeration(size)
  {
    var totalTiles := ByteMul(size, size);
    MulMono(size, MaxSide, size);
    MulMono(size, MaxSide, MaxSide);
    a := new Point[totalTiles];
    for i := 0 to totalTiles
      invariant forall k :: 0 <= k < i ==> a[k] == SlotPoint(size, k)
    {
      a[i] := NewPoint(i % size + 1, i / size + 1);
    }
  }

  /** The random strategy: lists every point of the board, shuffles the
      list and marks the first `count` points as blackholes. */
  method RandomBlackholesPlaceStrategy(b: Board, count: nat, pick: nat -> nat)
    requires b.Valid() && count <= b.size * b.size
    modifies b.tiles
    ensures b.Opened() == old(b.Opened()) && b.Counts() == old(b.Counts())
    ensures b.Blackholes() == old(b.Blackholes()) + RandomlyPlaced(b.size, count, pick)
  {
    var activeIndexes := AllPoints(b.Size());
    Shuffle(activeIndexes, pick);
    assert unchanged(b.tiles);
    ShuffledGrid(b.size, pick);
    MarkBlackholes(b, activeIndexes[..count]);
  }

  /** Marks each listed point as a blackhole: the last step of the random
      strategy, and on its own a strategy that places the blackholes at
      given points. */
  method MarkBlackholes(b: Board, points: seq<Point>)
    requires b.Valid() && forall p :: p in points ==> InGrid(b.size, p)
    modifies b.tiles
    ensures b.Opened() == old(b.Opened()) && b.Counts() == old(b.Counts())
    ensures b.Blackholes() == old(b.Blackholes()) + Elements(points)
  {
    for i := 0 to |points|
      invariant b.Opened() == old(b.Opened()) && b.Counts() == old(b.Counts())
      invariant b.Blackholes() == old(b.Blackholes()) + Elements(points[..i])
    {
      var p := points[i];
      MarkBlackhole(b, p);
      ElementsStep(points, i);
    }
    assert points[..|points|] == points;
  }

  // ---------------------------------------------------------------------
  // The board constructor.
  // ---------------------------------------------------------------------

  /** A new board: fresh closed tiles, the blackholes the placer chooses,
      then the adjacency pass. Every tile ends up with the count its
      surroundings call for, and nothing is opened yet. */
  method NewBoard(size: Byte, blackholesCount: nat, placer: Placer) returns (b: Board)
    requires 1 <= size <= MaxSide
    requires placer.Random? ==> blackholesCount <= size * size
    requires placer.Fixed? ==> forall p :: p in placer.points ==> InGrid(size, p)
    ensures fresh(b) && b.Valid() && b.size == size
    ensures forall i :: 0 <= i < |b.tiles| ==> fresh(b.tiles[i])
    ensures b.Opened() == {} && b.openedTilesCount == 0 && b.CounterAgrees()
    ensures b.Blackholes() == Placed(size, blackholesCount, placer)
    ensures CountsConsistent(size, b.Blackholes(), b.Counts())
  {
    b := new Board(size);
    b.DefaultViews();
    match placer {
      case Random(pick) =>
        RandomBlackholesPlaceStrategy(b, blackholesCount, pick);
      case Fixed(points) =>
        MarkBlackholes(b, points);
    }
    ghost var counts := b.Counts();
    b.CalculateAdjacentBlackholes();
    AdjacencyCountsConsistent(size, b.Blackholes(), counts);
  }
}
