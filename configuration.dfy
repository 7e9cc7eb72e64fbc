/** The game configuration and its validation: the side of the board must lie
    between the supported bounds, and at least one tile must stay free of
    blackholes. */
module Configuration {
  import opened Points
  import opened Grids

  /** Smallest and largest supported side of the board. */
  const MinBoardSize: Coordinate := 3
  const MaxBoardSize: Coordinate := 99

  /** Go's `uint16`, the type of tile counts. */
  type BoardArea = n: int | 0 <= n < 0x1_0000

  datatype Configuration = Configuration(boardSize: Coordinate, blackholesCount: BoardArea)

  /** Why a configuration is refused. */
  datatype ConfigError = InvalidBoardSize | TooManyBlackholes

  /** Go's `error` result: none, or the reason for the refusal. */
  datatype Outcome = Accepted | Rejected(error: ConfigError)

  /** The validation as it is written: the number of tiles is the side
      squared in byte arithmetic, so it wraps for sides from 16 on. */
  function ValidateConfig(config: Configuration): (r: Outcome)
    ensures r == Rejected(InvalidBoardSize) <==>
              config.boardSize < MinBoardSize || config.boardSize > MaxBoardSize
    ensures r.Accepted? <==>
              MinBoardSize <= config.boardSize <= MaxBoardSize &&
              config.blackholesCount < ByteMul(config.boardSize, config.boardSize)
  {
    if config.boardSize < MinBoardSize || config.boardSize > MaxBoardSize then
      Rejected(InvalidBoardSize)
    else if config.blackholesCount >= ByteMul(config.boardSize, config.boardSize) then
      Rejected(TooManyBlackholes)
    else
      Accepted
  }

  /** The validation with the number of tiles computed without wrapping:
      a configuration is accepted exactly when its side is supported and it
      leaves at least one tile without a blackhole; a bad side is reported
      before a bad count. */
  function ValidateConfigWide(config: Configuration): (r: Outcome)
    ensures r.Accepted? <==>
              MinBoardSize <= config.boardSize <= MaxBoardSize &&
              config.blackholesCount < config.boardSize * config.boardSize
    ensures r == Rejected(InvalidBoardSize) <==>
              config.boardSize < MinBoardSize || config.boardSize > MaxBoardSize
  {
    if config.boardSize < MinBoardSize || config.boardSize > MaxBoardSize then
      Rejected(InvalidBoardSize)
    else if config.blackholesCount >= config.boardSize * config.boardSize then
      Rejected(TooManyBlackholes)
    else
      Accepted
  }

  /** On the sides the board supports the two validations agree, since the
      byte product does not wrap there. */
  lemma ValidationsAgree(config: Configuration)
    requires config.boardSize <= MaxSide
    ensures ValidateConfig(config) == ValidateConfigWide(config)
  {
    MulMono(config.boardSize, MaxSide, config.boardSize);
    MulMono(config.boardSize, MaxSide, MaxSide);
  }

  /** A side of 16 squares to 0 in byte arithmetic, so the validation as
      written refuses every count for it, even a board without blackholes. */
  lemma ValidateConfigRejectsSide16(count: BoardArea)
    ensures ValidateConfig(Configuration(16, count)) == Rejected(TooManyBlackholes)
    ensures ValidateConfigWide(Configuration(16, 0)).Accepted?
  {
  }

  /** A side of 20 has 400 points, but the byte product is 144, so 144
      blackholes are refused as written. The corrected check accepts them:
      on a board that counted its 400 tiles without wrapping, 256 would stay
      free (the board as written also gets only 144 tiles). */
  lemma ValidateConfigRejectsSide20()
    ensures ValidateConfig(Configuration(20, 144)) == Rejected(TooManyBlackholes)
    ensures ValidateConfigWide(Configuration(20, 144)).Accepted?
  {
  }

  /** From side 16 on, the board built for an accepted configuration wraps
      as well: side 17 with 32 blackholes is accepted as written and the
      board gets 17 * 17 mod 256 = 33 tiles, of which one is safe. No run of
      the adjacency pass completes: it indexes past the 33 tiles either at
      (17, 2), slot 33, or, when the one safe tile is (c, 2) with c <= 15,
      earlier at its first row-3 neighbour (x, 3), x <= 14, slot 34 or more.
      The corrected check accepts side 16 without blackholes, whose board
      has no tile at all. */
  lemma ValidateConfigAcceptsWrappedBoards()
    ensures ValidateConfig(Configuration(17, 32)) == Accepted
    ensures ByteMul(17, 17) == 33 && InGrid(17, Point(17, 2)) && ByteSlot(17, Point(17, 2)) == ByteMul(17, 17)
    ensures forall x | 1 <= x <= 14 :: InGrid(17, Point(x, 3)) && ByteSlot(17, Point(x, 3)) >= 34
    ensures ValidateConfigWide(Configuration(16, 0)) == Accepted && ByteMul(16, 16) == 0
  {
  }

  /** An accepted configuration on a side the board supports is one a new
      board can be built from with the random strategy, and it leaves at
      least one tile safe. */
  lemma AcceptedConfigFitsBoard(config: Configuration)
    requires ValidateConfigWide(config).Accepted? && config.boardSize <= MaxSide
    ensures 1 <= config.boardSize <= MaxSide
    ensures config.blackholesCount + 1 <= config.boardSize * config.boardSize
    ensures ValidateConfig(config).Accepted?
  {
    ValidationsAgree(config);
  }
}
