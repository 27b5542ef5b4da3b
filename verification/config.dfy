/** The configuration resolver: hand size and deck count for each player count,
    and the bid bounds derived from the hand size. */
module Config {
  import opened GameTypes

  const MinPlayers: nat := 2
  const MaxPlayers: nat := 12
  const DeckSize: nat := 52
  /** A player never holds more than a full suit's worth of cards. */
  const MaxHandSize: nat := 13

  function Min(a: int, b: int): int { if a <= b then a else b }

  /** The fixed lookup table. Every player count in range gets one deck up to eight
      players and two from nine on, and each player gets as many cards as the pool
      allows an equal share of, capped at thirteen; these two facts pin down every
      row of the table. */
  function CalculateGameConfig(playerCount: int): (r: Result<GameConfig>)
    ensures r.Err? <==> playerCount < MinPlayers || playerCount > MaxPlayers
    ensures r.Err? ==> r.error == InvalidPlayerCount
    ensures r.Ok? ==> r.value.playerCount == playerCount
    ensures r.Ok? ==> r.value.deckCount == if playerCount <= 8 then 1 else 2
    ensures r.Ok? ==> r.value.cardsPerPlayer
                      == Min(MaxHandSize, DeckSize * r.value.deckCount / playerCount)
    ensures r.Ok? ==> 1 <= r.value.cardsPerPlayer
    ensures r.Ok? ==> r.value.playerCount * r.value.cardsPerPlayer <= DeckSize * r.value.deckCount
  {
    if playerCount < 2 || playerCount > 12 then Err(InvalidPlayerCount)
    else
      var pair :=
        if playerCount == 2 then (1, 13)
        else if playerCount == 3 then (1, 13)
        else if playerCount == 4 then (1, 13)
        else if playerCount == 5 then (1, 10)
        else if playerCount == 6 then (1, 8)
        else if playerCount == 7 then (1, 7)
        else if playerCount == 8 then (1, 6)
        else if playerCount == 9 then (2, 11)
        else if playerCount == 10 then (2, 10)
        else if playerCount == 11 then (2, 9)
        else (2, 8);
      Ok(GameConfig(playerCount, pair.1, pair.0))
  }

  /** A configuration the resolver can produce. */
  predicate ValidConfig(config: GameConfig)
  {
    CalculateGameConfig(config.playerCount) == Ok(config)
  }

  /** The smallest bid: one trick, whatever the hand size. */
  function MinimumBid(cardsPerPlayer: nat): (r: int)
    ensures r == 1
  {
    1
  }

  /** The largest bid: every trick of the round, one per card in hand. */
  function MaximumBid(cardsPerPlayer: nat): (r: int)
    ensures r == cardsPerPlayer
  {
    cardsPerPlayer
  }

  /** The bid range is never empty: for every configuration the resolver produces,
      a player can bid anything from one up to the full hand. */
  lemma BidRangeNonEmpty(config: GameConfig)
    requires ValidConfig(config)
    ensures MinimumBid(config.cardsPerPlayer) == 1
    ensures MinimumBid(config.cardsPerPlayer) <= MaximumBid(config.cardsPerPlayer)
    ensures MaximumBid(config.cardsPerPlayer) == config.cardsPerPlayer <= MaxHandSize
  {
  }

  /** The table row by row: hand size and deck count for each seat count. */
  lemma ConfigTable()
    ensures CalculateGameConfig(2) == Ok(GameConfig(2, 13, 1))
    ensures CalculateGameConfig(3) == Ok(GameConfig(3, 13, 1))
    ensures CalculateGameConfig(4) == Ok(GameConfig(4, 13, 1))
    ensures CalculateGameConfig(5) == Ok(GameConfig(5, 10, 1))
    ensures CalculateGameConfig(6) == Ok(GameConfig(6, 8, 1))
    ensures CalculateGameConfig(7) == Ok(GameConfig(7, 7, 1))
    ensures CalculateGameConfig(8) == Ok(GameConfig(8, 6, 1))
    ensures CalculateGameConfig(9) == Ok(GameConfig(9, 11, 2))
    ensures CalculateGameConfig(10) == Ok(GameConfig(10, 10, 2))
    ensures CalculateGameConfig(11) == Ok(GameConfig(11, 9, 2))
    ensures CalculateGameConfig(12) == Ok(GameConfig(12, 8, 2))
  {
  }
}
