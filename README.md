# proxx-game engine, modelled in Dafny

This project models the engine of proxx-game, a minesweeper-style puzzle. The player reveals tiles on a square board; some tiles hide blackholes. The model covers:

- the board: a flat, row-major store of tiles addressed by 1-based points;
- the tile lookup with its bounds check;
- the list of up to eight neighbours of a tile;
- the one-time pass that writes into every safe tile the number of blackholes around it;
- `OpenTile`, which reveals a tile and keeps a counter of opened safe tiles. A revealed tile with no blackhole around it makes the reveal cascade to its neighbours;
- the tile record and the point value;
- the random placement strategy: enumerate every point, shuffle, and mark the first `count` as blackholes;
- the validator of the game configuration.

Modules, one per source file, plus two shared ones:

- `Points` (`internal/game/point.go`): `Coordinate` is a Go `byte`. Byte addition, subtraction and multiplication are written out modulo 256.
- `Tiles` (`internal/game/tile.go`): a class whose setters change one field each.
- `Boards` (`internal/game/board.go`): a class `Board`.
  - The tiles are a sequence of `Tile` objects; `openedTilesCount` is a field.
  - `Opened()`, `Blackholes()` and `Counts()` are ghost views of the tiles, taken point by point.
  - `OpenTile` is a recursive method. Its termination measure is the number of closed tiles.
  - Parts of a Go function that were split out for the proof (`RevealTile`, `OpenNeighbors`, `UpdateRow`, `UpdateSurroundingCount`, `CountBlackholesAround`, `IsBlackholeAt`, and `UpperRow`/`SideTiles`/`LowerRow` for the three blocks of `neighborPoints`) keep the Go statements in order.
- `Grids`: the geometry the board relies on. It holds:
  - the set of points of a board;
  - the row-major slot of a point, in plain and in byte arithmetic;
  - the neighbour relation;
  - the specification of the adjacency pass;
  - the specification of the cascade: `CascadeOutcome`, the flood region `FloodRegion`, and the lemmas that tie them together.
- `Placement` (`internal/game/blackholes_strategy.go` and `NewBoard` of `internal/game/board.go`):
  - the shuffle, as the Fisher–Yates pass `rand.Shuffle` performs, with the random draws passed in as a function `pick`;
  - both placement strategies;
  - the board constructor.
- `Configuration` (`internal/app/configuration.go`): the validator, as written and corrected (see Findings).
- `Fixtures`: the layouts of `internal/game/board_test.go` and `internal/game/tile_test.go`, each with the outcome the contracts force.

The board is modelled for sides 1 to 15 (`Grids.MaxSide`). There `15 * 15 = 225` still fits in a byte, so the tile count and the slot `(y-1)*size+(x-1)` do not wrap. `Grids.ByteSlotNoWrap` proves this.

## Model

| member | source | states |
|---|---|---|
| Points.ByteAdd | internal/game/point.go:4 | byte addition equals the sum below 256 and the sum minus 256 above |
| Points.ByteSub | internal/game/point.go:4 | byte subtraction equals the difference when it is not negative, and wraps to the difference plus 256 otherwise |
| Points.ByteMul | internal/game/board.go:51-52 | byte product equals the product below 256 and is congruent to it modulo 256 always |
| Points.NewPoint | internal/game/point.go:10-20 | any pair of bytes, 0 included, is accepted, and `X()`/`Y()` give the two axes back |
| Points.PointEquality | internal/game/point.go:5-8 | two points are equal exactly when both axes match |
| Points.NewPointOfAxes | internal/game/point.go:10-20 | building a point from its own axes gives the same point |
| Tiles.Tile.constructor | internal/game/tile.go:33-36 | a new tile is closed, safe and has count 0 |
| Tiles.Tile.NewBlackholeTile | internal/game/tile.go:38-43 | a blackhole tile is closed, a blackhole and has count 0 |
| Tiles.Tile.Blackhole | internal/game/tile.go:45-47 | afterwards the blackhole flag is `v`; opened flag and count unchanged |
| Tiles.Tile.Open | internal/game/tile.go:57-59 | afterwards the tile is opened; blackhole flag and count unchanged, so a second call changes nothing |
| Tiles.Tile.SetSurroundingBlackholesCount | internal/game/tile.go:65-67 | afterwards the count is the given one; the two flags unchanged |
| Grids.SlotPoint | internal/game/blackholes_strategy.go:11-13 | the point `(i % size + 1, i / size + 1)` lies on the board and has slot `i` |
| Grids.SlotBijection | internal/game/board.go:107 | every point of the board has a slot below `size*size`, and `SlotPoint` gives the point back from it |
| Grids.SlotInjective | internal/game/board.go:107 | two points of the board with the same slot are the same point |
| Grids.ByteSlotNoWrap | internal/game/board.go:107 | for sides up to 15 the byte-arithmetic slot equals the true slot |
| Grids.UpperBoundLookup | internal/game/board.go:103-107 | the lookup as written is off the board exactly when an axis exceeds the side; on the board it reaches the true slot |
| Grids.ZeroAxisAliases | internal/game/board.go:103-107 | (0, 2) on side 4 passes the bounds check and reaches the slot of (4, 1); (0, 1) reaches slot 255 |
| Grids.GridSize | internal/game/board.go:51-54 | a board of side `size` has exactly `size*size` points |
| Grids.Neighbors | internal/game/board.go:110 | the neighbours of `p` are the points of the board other than `p` that differ from it by at most 1 on each axis |
| Grids.ListedMembers | internal/game/board.go:111-147 | the list built from the first `k` guarded directions holds exactly the reachable points up to that direction, and at most `k` of them |
| Grids.ListedDistinct | internal/game/board.go:111-147 | the guarded-direction list has no repetitions |
| Grids.ListedNeighbors | internal/game/board.go:111-147 | for a point of the board, the full list holds exactly its neighbours, once each, at most 8 |
| Grids.AdjacencyPassStep | internal/game/board.go:155-170 | visiting one point of the pass changes that point alone: blackholes and tiles with 0 blackholes around keep their count, other tiles get the number of blackholes around them |
| Grids.AdjacencyPassStart | internal/game/board.go:154 | before the first row the pass has changed nothing |
| Grids.AdjacencyPassNextRow | internal/game/board.go:154-155 | the end of a row is the start of the next one |
| Grids.AdjacencyPassDone | internal/game/board.go:154-172 | after the last row every point carries its final count |
| Grids.AdjacencyCountsConsistent | internal/game/board.go:149-173 | starting from all zero counts, the pass gives each safe tile the number of blackholes around it and leaves each blackhole at 0 |
| Grids.AdjacencyCountsIdempotent | internal/game/board.go:149-173 | running the pass again on its own result changes nothing |
| Grids.TouchingBlackhole | internal/game/board.go:77 | with consistent counts, a safe tile next to a blackhole has a positive count and does not cascade |
| Grids.CascadePathOpened | internal/game/board.go:77-83 | every tile on a cascade walk from the revealed tile through closed tiles is opened afterwards |
| Grids.CascadeOutcomeIsFlood | internal/game/board.go:77-83 | the tiles a reveal opens are exactly the earlier opened ones plus the flood region of the revealed tile among the closed tiles |
| Grids.CascadeOnClosedBoard | internal/game/board.go:77-83 | on a board with nothing opened, the tiles a reveal opens are exactly the flood region of the revealed tile over the whole board |
| Grids.CascadePathSafe | internal/game/board.go:79-81 | a cascade walk from a safe tile never steps on a blackhole |
| Grids.CascadeAvoidsBlackholes | internal/game/board.go:79-81 | with consistent counts, the flood region of a safe tile contains no blackhole |
| Grids.OpensAlone | internal/game/board.go:77 | revealing a closed tile that does not cascade opens that tile alone |
| Grids.PathWithin | internal/game/board.go:77-83 | a cascade walk from inside a region stays inside it when the region holds every neighbour of each of its zero tiles |
| Grids.FloodWithin | internal/game/board.go:77-83 | such a region bounds the whole flood region |
| Grids.CascadeStart | internal/game/board.go:71 | opening the revealed tile starts a cascade in progress |
| Grids.CascadeStep | internal/game/board.go:78-82 | revealing one neighbour of a zero tile keeps the cascade in progress, grows the opened set and opens that neighbour |
| Grids.CascadeFinish | internal/game/board.go:77-85 | once every neighbour of a zero tile is opened, the cascade meets `CascadeOutcome` |
| Grids.CountInDistinct | internal/game/board.go:162-167 | counting the members of `b` along a list without repetitions gives the size of the list's set of points intersected with `b` |
| Grids.SafeTilesOne | internal/game/board.go:72-75 | opening one closed tile adds one safe tile, or none for a blackhole |
| Grids.SafeTilesAdd | internal/game/board.go:75-83 | the safe tiles opened by two successive steps add up |
| Grids.SafeTilesGrow | internal/game/board.go:19-20 | growing the opened set adds the safe tiles among the new ones to the safe opened tiles |
| Grids.SubsetSmaller | internal/game/board.go:78-81 | opening a closed tile makes the set of closed tiles strictly smaller, which is the measure of the recursion |
| Boards.NeighborStep | internal/game/board.go:78-82 | one iteration of the cascade loop keeps the cascade in progress, opens that neighbour and adds its safe tiles to the counter |
| Boards.NeighborCount | internal/game/board.go:162-167 | counting blackholes along a repetition-free neighbour list gives the number of blackholes around the point |
| Boards.Board.constructor | internal/game/board.go:48-54 | allocates `size*size` fresh tiles (byte product), all closed, safe, with count 0; for sides 1..15 the board is valid |
| Boards.Board.TilesDistinct | internal/game/board.go:51-54 | distinct points of the board are backed by distinct tiles |
| Boards.Board.OnlyTileOpened | internal/game/board.go:71 | opening the tile of `p` adds exactly `p` to the opened points and changes no blackhole and no count |
| Boards.Board.OnlyTileMarked | internal/game/blackholes_strategy.go:20-21 | marking the tile of `p` adds exactly `p` to the blackholes and changes no opened flag and no count |
| Boards.Board.OnlyCountSet | internal/game/board.go:169 | setting the count of the tile of `p` changes the count of `p` alone |
| Boards.Board.DefaultViews | internal/game/board.go:51-54 | a board of default tiles has nothing opened, no blackhole and every count 0 |
| Boards.Board.BlackholeAt | internal/game/board.go:159 | a point is a blackhole exactly when its tile's flag says so |
| Boards.Board.OpenedTilesCount | internal/game/board.go:88-90 | the reported count is the number of opened tiles that are not blackholes, at most `size*size` |
| Boards.Board.TileAt | internal/game/board.go:99-108 | out of bounds exactly for points off the board; for axes from 1, exactly when an axis exceeds the side; otherwise the tile the row-major layout assigns to the point |
| Boards.Board.LookupsAgree | internal/game/board.go:103-107 | for axes from 1 the lookup as written and the bounds-checked one reject the same points and reach the same tile |
| Boards.Board.NeighborPoints | internal/game/board.go:111-147 | the list is the guarded-direction list in row-major order; for a point of the board it holds exactly its neighbours, without repetition, at most 8 |
| Boards.Board.UpperRow | internal/game/board.go:116-125 | the row above, left to right, is the first three guarded directions |
| Boards.Board.SideTiles | internal/game/board.go:127-133 | left and right tiles continue the list with the fourth and fifth guarded directions |
| Boards.Board.LowerRow | internal/game/board.go:135-144 | the row below completes the list with the last three guarded directions |
| Boards.Board.CountBlackholesAround | internal/game/board.go:156-167 | the loop counts exactly the blackholes around the point, at most 8 |
| Boards.Board.IsBlackholeAt | internal/game/board.go:163-164 | reports exactly whether the point is a blackhole |
| Boards.Board.CalculateAdjacentBlackholes | internal/game/board.go:150-173 | opened flags and blackholes unchanged; the counts become the adjacency-pass counts of the old counts |
| Boards.Board.UpdateRow | internal/game/board.go:155-171 | the inner loop carries the pass from the start to the end of one row |
| Boards.Board.UpdateSurroundingCount | internal/game/board.go:156-170 | a blackhole, or a tile with no blackhole around, keeps its count; any other tile gets the number of blackholes around it |
| Boards.Board.OpenTile | internal/game/board.go:62-86 | out of bounds exactly off the board, changing nothing. An opened tile gives `false` and changes nothing. A closed tile gives whether it is a blackhole; a blackhole opens alone; any other tile meets `CascadeOutcome`. Blackholes and counts never change and no tile is closed again. The counter grows by the safe tiles opened and keeps agreeing with the tiles |
| Boards.Board.RevealTile | internal/game/board.go:71-85 | reports whether the closed tile is a blackhole, opens a blackhole alone, and otherwise leaves a complete cascade with the counter grown by the safe tiles opened |
| Boards.Board.OpenNeighbors | internal/game/board.go:77-83 | after the loop every neighbour of the zero tile is opened, the cascade is still in progress and the counter grew by the safe tiles opened |
| Placement.Enumeration | internal/game/blackholes_strategy.go:8-13 | the list has `size*size` points, the `i`-th at slot `i` |
| Placement.EnumerationIsGrid | internal/game/blackholes_strategy.go:8-13 | the enumeration lists every point of the board exactly once |
| Placement.Swap | internal/game/blackholes_strategy.go:15-17 | an exchange keeps the length |
| Placement.SwapPermutes | internal/game/blackholes_strategy.go:15-17 | an exchange keeps the multiset of points |
| Placement.ShuffleDownPermutes | internal/game/blackholes_strategy.go:15-17 | whatever the draws, the Fisher–Yates pass is a permutation of its input |
| Placement.ShuffledPermutes | internal/game/blackholes_strategy.go:15-17 | the whole shuffle is a permutation of its input |
| Placement.PermutationDistinct | internal/game/blackholes_strategy.go:15-17 | a permutation of a list without repetitions has none and the same points |
| Placement.DistinctSize | internal/game/blackholes_strategy.go:19-22 | a list without repetitions has as many distinct points as positions |
| Placement.ShuffledGrid | internal/game/blackholes_strategy.go:8-17 | the shuffled enumeration has `size*size` entries and lists every point of the board once |
| Placement.RandomlyPlacedCount | internal/game/blackholes_strategy.go:19-22 | the random strategy chooses exactly `count` distinct points, all on the board, whatever the draws |
| Placement.Shuffle | internal/game/blackholes_strategy.go:15-17 | the array ends as the Fisher–Yates shuffle of its old contents under the draws `pick` |
| Placement.MarkBlackhole | internal/game/blackholes_strategy.go:20-21 | marks `p` as a blackhole and changes nothing else |
| Placement.AllPoints | internal/game/blackholes_strategy.go:8-13 | a fresh array holding the enumeration of the board |
| Placement.RandomBlackholesPlaceStrategy | internal/game/blackholes_strategy.go:7-23 | the blackholes become the old ones plus the first `count` points of the shuffled enumeration; opened flags and counts unchanged |
| Placement.MarkBlackholes | internal/game/blackholes_strategy.go:19-22 | the blackholes become the old ones plus the listed points; nothing else changes and no tile is unmarked |
| Placement.NewBoard | internal/game/board.go:47-60 | a fresh valid board: nothing opened, counter 0 and agreeing, blackholes exactly those the placer chooses, every count consistent with the blackholes |
| Configuration.ValidateConfig | internal/app/configuration.go:21-30 | the size error comes exactly for sides outside 3..99, whatever the count; accepted exactly when the side is in 3..99 and the count is below the byte product of the side |
| Configuration.ValidateConfigWide | internal/app/configuration.go:21-30 | accepted exactly when the side is in 3..99 and the count leaves a tile free; the size error comes exactly for bad sides |
| Configuration.ValidationsAgree | internal/app/configuration.go:25 | for sides up to 15 the validation as written and the corrected one agree |
| Configuration.ValidateConfigRejectsSide16 | internal/app/configuration.go:25 | side 16 is refused for every count as written, while the corrected check accepts side 16 without blackholes |
| Configuration.ValidateConfigRejectsSide20 | internal/app/configuration.go:25 | side 20 with 144 blackholes is refused as written, the byte product being 144, and accepted by the corrected check, which counts the 400 points of the side |
| Configuration.ValidateConfigAcceptsWrappedBoards | internal/app/configuration.go:21-30 | side 17 with 32 blackholes is accepted as written, yet its board gets 33 tiles: (17, 2) has slot 33 and every (x, 3) with x <= 14 a slot of 34 or more, so no run of the adjacency pass completes; the corrected check accepts side 16 without blackholes, whose board has 0 tiles |
| Configuration.AcceptedConfigFitsBoard | internal/app/configuration.go:21-30 | an accepted configuration of side up to 15 fits a board: side in range, count below the number of tiles, and accepted as written too |
| Fixtures.TileLifecycleFixture | internal/game/tile_test.go:37-56 | opening twice leaves a tile opened; unsetting a clear flag keeps it clear; setting it twice leaves it set |
| Fixtures.OpenSafeTileFixture | internal/game/board_test.go:17-27 | on a 2x2 board without blackholes, revealing (2, 1) gives `false` and no error |
| Fixtures.OpenBlackholeFixture | internal/game/board_test.go:28-36 | on a 2x2 board of blackholes, revealing (2, 1) gives `true` and no error |
| Fixtures.OutOfBoundsFixture | internal/game/board.go:103-104 | revealing (3, 1) on a 2x2 board gives the out-of-bounds error for that point |
| Fixtures.CornerNeighbors | internal/game/board_test.go:125-136 | the top left corner of a 3x3 board has the neighbours (2,1), (1,2), (2,2) |
| Fixtures.TopRightNeighbors | internal/game/board_test.go:137-148 | the top right corner has (2,1), (2,2), (3,2) |
| Fixtures.BottomLeftNeighbors | internal/game/board_test.go:149-160 | the bottom left corner has (1,2), (2,2), (2,3) |
| Fixtures.OppositeCornerNeighbors | internal/game/board_test.go:161-172 | the bottom right corner has (2,2), (3,2), (2,3) |
| Fixtures.SurroundedNeighbors | internal/game/board_test.go:173-189 | (2, 3) on a 5x5 board has all eight neighbours |
| Fixtures.CornerList | internal/game/board_test.go:125-136 | a repetition-free list of the corner's neighbours has exactly those three points |
| Fixtures.CornerNeighborsFixture | internal/game/board_test.go:125-136 | the neighbour list of (1, 1) on a 3x3 board holds its three neighbours once each |
| Fixtures.AloneFixture | internal/game/board_test.go:54-75 | on the first 4x4 layout, revealing (3, 2) opens it alone |
| Fixtures.AloneAround | internal/game/board_test.go:55-60 | two of the three blackholes, (4,1) and (3,3), touch (3, 2) |
| Fixtures.AloneCount | internal/game/board_test.go:55-60 | consistent counts give (3, 2) the count 2 |
| Fixtures.OpenAloneFixture | internal/game/board_test.go:54-75 | built with the layout's placer, revealing (3, 2) gives `false`, opens only (3, 2), and its count is 2 |
| Fixtures.FloodZerosFixture | internal/game/board_test.go:76-82 | on the cascade layout the four top right tiles have count 0 and the five border tiles have a positive count |
| Fixtures.ZeroCount | internal/game/board_test.go:76-82 | no tile of the top right block touches a blackhole |
| Fixtures.BorderCount | internal/game/board_test.go:76-82 | every border tile touches a blackhole |
| Fixtures.BorderHole | internal/game/board_test.go:76-82 | names a blackhole adjacent to each border tile |
| Fixtures.FloodClosed | internal/game/board_test.go:76-82 | each zero tile of the area has all its neighbours inside the area |
| Fixtures.FloodReaches | internal/game/board_test.go:76-82 | every tile of the area is reached from (3, 1) by a cascade walk |
| Fixtures.FloodFixture | internal/game/board_test.go:76-106 | the flood region of (3, 1) is exactly the nine expected tiles |
| Fixtures.AreaOnBoard | internal/game/board_test.go:95-105 | the nine expected tiles lie on the 4x4 board |
| Fixtures.FloodOutcome | internal/game/board_test.go:76-106 | whatever order the reveal opens them in, it ends with the nine expected tiles opened |
| Fixtures.OpenFloodFixture | internal/game/board_test.go:76-113 | built with the layout's placer, revealing (3, 1) gives `false` and opens exactly (2,1), (3,1), (4,1), (2,2), (3,2), (4,2), (2,3), (3,3), (4,3) |

## Left out

- The terminal user interface, flag parsing, goroutines, the timer and the win check in `cmd/proxx-game`: they only drive the engine.
- The randomness of `rand.Shuffle`. The draws are a parameter `pick`, and position `i` is exchanged with position `pick(i) % (i + 1)`. Every property of the strategy holds for every `pick`.
- The error message texts of `internal/game/errors.go` and of `fmt.Errorf`. An error is a datatype constructor: `OutOfBounds(p)`, `InvalidBoardSize` or `TooManyBlackholes`.
- Go interface plumbing, the compile-time interface checks and the package variable `DefaultBlackholesPlaceStrategy`.
- Boards.Board.constructor: for sides above 15 the byte product `size*size` wraps. The board gets fewer tiles than points, and the slot `(y-1)*size+(x-1)` wraps too. Such boards are not modelled: `Valid()` requires a side from 1 to 15.
- Placement.NewBoard: it requires a side from 1 to 15, for the same reason.
- Placement.NewBoard: the placer callback is replaced by the datatype `Placer`. It is either the random strategy with its draws, or a fixed list of points to mark, which covers every callback the tests use. A callback that unmarks or opens tiles is not modelled.
- Placement.RandomBlackholesPlaceStrategy: a `count` above `size*size` makes `activeIndexes[:count]` panic in Go. Here it is a precondition.
- Boards.Board.OpenedTilesCount: the counter is a `nat`, not a `uint16`. A modelled board has at most 225 tiles, so it cannot wrap.
- `Size()` and the tile getters `IsBlackhole`, `IsOpened` and `SurroundingBlackholesCount` are modelled as functions that return their field; they have no contract of their own.
- Boards.Board.OpenTile: it looks its tile up through the corrected `TileAt`, so a point with a 0 axis gives `OutOfBounds`. As written, the program would open the aliased tile, or index past the slice when the cascade reaches (0, 1) (see Findings).
- The running `byte` counter of `calculateAdjacentBlackholes` is modelled as a `Byte`. It never exceeds 8, so it cannot wrap.

## Findings

| source | as written | input that shows it | evidently intended | confidence | as-written member | corrected member |
|---|---|---|---|---|---|---|
| internal/app/configuration.go:25 | the number of tiles is `BoardSize*BoardSize` in `byte` arithmetic, wrapping modulo 256 | sides 16..99 pass the size check, but the engine computes the tile count (internal/game/board.go:51-52) and the slot (internal/game/board.go:107) in the same byte arithmetic, which only works up to side 15. Side 17 with 32 blackholes is accepted and its board gets 33 tiles, one of them safe. No run of the adjacency pass completes: it indexes past the 33 tiles either at (17, 2), slot 33, or, when the one safe tile is (c, 2) with c <= 15, earlier at its first row-3 neighbour, slot 34 or more. Side 16 refuses every count, because its product is 0 | compare the count with the true number of tiles, `BoardSize*BoardSize` without wrapping. This only makes sense if the board also counts its tiles and computes their slots without wrapping; the corrected check accepts (16, 0), and the board as written gives side 16 no tile at all | not executed; the byte product follows from `Coordinate = byte` | Configuration.ValidateConfigAcceptsWrappedBoards | Configuration.ValidateConfigWide |
| internal/game/board.go:103 | `TileAt` rejects only axes above the side; a 0 axis underflows in the byte slot | on a 4x4 board (0, 2) reaches the tile of (4, 1), and (0, 1) reaches slot 255 of a 16-tile slice | report every point off the board as out of bounds; `Boards.Board.OpenTile`, which looks its tile up through `TileAt`, takes on the correction as well | not executed; the interface only passes axes from 1 | Grids.ZeroAxisAliases | Boards.Board.TileAt |
