/** One cell of the board: whether it is revealed, whether a blackhole hides
    behind it, and how many blackholes surround it. */
module Tiles {
  import opened Points

  class Tile {
    var isOpened: bool
    var isBlackhole: bool
    var surroundingBlackholesCount: Byte

    /** A closed, empty tile with no surrounding blackholes (Go's zero value). */
    constructor ()
      ensures !isOpened && !isBlackhole && surroundingBlackholesCount == 0
    {
      isOpened := false;
      isBlackhole := false;
      surroundingBlackholesCount := 0;
    }

    /** A closed tile with a blackhole behind it. */
    constructor NewBlackholeTile()
      ensures !isOpened && isBlackhole && surroundingBlackholesCount == 0
    {
      isOpened := false;
      isBlackhole := true;
      surroundingBlackholesCount := 0;
    }

    /** Marks the tile as a blackhole, or unmarks it when `v` is false. */
    method Blackhole(v: bool)
      modifies this
      ensures isBlackhole == v
      ensures isOpened == old(isOpened)
      ensures surroundingBlackholesCount == old(surroundingBlackholesCount)
    {
      isBlackhole := v;
    }

    function IsBlackhole(): bool
      reads this
    {
      isBlackhole
    }

    function IsOpened(): bool
      reads this
    {
      isOpened
    }

    /** Reveals the tile; revealing it again has no further effect. */
    method Open()
      modifies this
      ensures isOpened
      ensures isBlackhole == old(isBlackhole)
      ensures surroundingBlackholesCount == old(surroundingBlackholesCount)
    {
      isOpened := true;
    }

    function SurroundingBlackholesCount(): Byte
      reads this
    {
      surroundingBlackholesCount
    }

    method SetSurroundingBlackholesCount(count: Byte)
      modifies this
      ensures surroundingBlackholesCount == count
      ensures isOpened == old(isOpened)
      ensures isBlackhole == old(isBlackhole)
    {
      surroundingBlackholesCount := count;
    }
  }
}
