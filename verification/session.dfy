/** The session state machine: immutable snapshot transitions from a new game in
    the lobby, through dealing and bidding, to trick play and round scoring. */
module Session {
  import opened Text
  import opened GameTypes
  import opened Config
  import opened Deck
  import opened Rules

  // ---------------------------------------------------------------------------
  // Seats
  // ---------------------------------------------------------------------------

  /** `players.findIndex(p => p.id === id)`: the first seat with that id. */
  function FindPlayer(players: seq<Player>, id: string): (r: Option<nat>)
    ensures r.Some? ==> r.value < |players| && players[r.value].id == id
    ensures r.Some? ==> forall k :: 0 <= k < r.value ==> players[k].id != id
    ensures r.None? <==> forall k :: 0 <= k < |players| ==> players[k].id != id
  {
    if |players| == 0 then None
    else if players[0].id == id then Some(0)
    else
      match FindPlayer(players[1..], id)
      case None => None
      case Some(k) => Some(k + 1)
  }

  /** Seat lookup only looks at ids: two seatings with the same ids agree on it. */
  lemma FindPlayerSameIds(a: seq<Player>, b: seq<Player>, id: string)
    requires |a| == |b| && forall k :: 0 <= k < |a| ==> a[k].id == b[k].id
    ensures FindPlayer(a, id) == FindPlayer(b, id)
  {
    var ra, rb := FindPlayer(a, id), FindPlayer(b, id);
    if ra.Some? && rb.Some? {
      assert !(ra.value < rb.value) && !(rb.value < ra.value);
    }
  }

  /** Every entry of the trick was played by someone seated. */
  predicate TrickSeated(players: seq<Player>, trick: Trick)
  {
    forall j :: 0 <= j < |trick.cards| ==> FindPlayer(players, trick.cards[j].playerId).Some?
  }

  /** Two seatings differ at most in hands, trick counts and scores. */
  predicate SameSeats(a: seq<Player>, b: seq<Player>)
  {
    && |a| == |b|
    && forall k :: 0 <= k < |a| ==>
         a[k].id == b[k].id && a[k].name == b[k].name && a[k].isReady == b[k].isReady
  }

  /** The tricks won so far in the round, summed over the table. */
  function TotalTricks(players: seq<Player>): nat
  {
    if |players| == 0 then 0
    else TotalTricks(players[..|players| - 1]) + players[|players| - 1].tricksWon
  }

  /** Changing one seat's trick count changes the total by the same amount. */
  lemma {:induction false} TotalTricksUpdate(a: seq<Player>, b: seq<Player>, i: int)
    requires |a| == |b| && 0 <= i < |a|
    requires forall k :: 0 <= k < |a| && k != i ==> a[k].tricksWon == b[k].tricksWon
    ensures TotalTricks(b) + a[i].tricksWon == TotalTricks(a) + b[i].tricksWon
    decreases |a|
  {
    var n := |a| - 1;
    if i < n {
      TotalTricksUpdate(a[..n], b[..n], i);
    } else {
      TotalTricksSame(a[..n], b[..n]);
    }
  }

  /** Seatings with the same trick counts have the same total. */
  lemma {:induction false} TotalTricksSame(a: seq<Player>, b: seq<Player>)
    requires |a| == |b|
    requires forall k :: 0 <= k < |a| ==> a[k].tricksWon == b[k].tricksWon
    ensures TotalTricks(a) == TotalTricks(b)
    decreases |a|
  {
    if |a| > 0 {
      TotalTricksSame(a[..|a| - 1], b[..|b| - 1]);
    }
  }

  /** The invariant every snapshot reachable from `CreateGameState` keeps: the
      configuration is the resolver's for the seat count, the turn points at a
      seat, and the open trick is shorter than the table and played by seated
      players. */
  predicate Inv(gs: GameState)
  {
    && ValidConfig(gs.config)
    && |gs.players| == gs.config.playerCount
    && gs.currentPlayerIndex < |gs.players|
    && |gs.currentTrick.cards| < |gs.players|
    && TrickSeated(gs.players, gs.currentTrick)
  }

  // ---------------------------------------------------------------------------
  // Creating a game
  // ---------------------------------------------------------------------------

  /** The fallback name of seat `seat` (counted from zero): `Player ${seat + 1}`. */
  function DefaultName(seat: nat): string
  {
    "Player " + NatToString(seat + 1)
  }

  /** `playerNames[seat] || ...`: the given name unless it is missing or empty. */
  function SeatName(names: seq<string>, seat: nat): (name: string)
    ensures name != ""
    ensures seat < |names| && names[seat] != "" ==> name == names[seat]
    ensures seat >= |names| || names[seat] == "" ==> name == "Player " + NatToString(seat + 1)
  {
    if seat < |names| && names[seat] != "" then names[seat] else DefaultName(seat)
  }

  /** Fallback names never collide, so a table of unnamed players is still
      told apart by name, and no seat is ever left with an empty name. */
  lemma DefaultNamesDistinct(names: seq<string>, i: nat, j: nat)
    ensures SeatName(names, i) != ""
    ensures i != j ==> DefaultName(i) != DefaultName(j)
  {
    if i != j && DefaultName(i) == DefaultName(j) {
      var pre := "Player ";
      assert DefaultName(i)[|pre|..] == NatToString(i + 1);
      assert DefaultName(j)[|pre|..] == NatToString(j + 1);
      NatToStringInjective(i + 1, j + 1);
    }
  }

  /** A seat as it joins the lobby: no cards, no bid, nothing won or scored. */
  function NewPlayer(id: string, name: string): Player
  {
    Player(id, name, [], None, 0, 0.0, false)
  }

  /** `createGameState`: the game id comes from the caller. Fails exactly when
      the resolver refuses the seat count; otherwise seats every id in order,
      in the lobby, before the first round, and satisfies the invariant. */
  function CreateGameState(gameId: string, playerIds: seq<string>, playerNames: seq<string>)
    : (r: Result<GameState>)
    ensures r.Err? <==> |playerIds| < MinPlayers || |playerIds| > MaxPlayers
    ensures r.Err? ==> r.error == InvalidPlayerCount
    ensures r.Ok? ==> Inv(r.value)
    ensures r.Ok? ==> var gs := r.value;
      && gs.id == gameId && gs.phase == Lobby && gs.currentRound == 0
      && gs.currentTrick == NoTrick && gs.currentPlayerIndex == 0
      && gs.config.playerCount == |playerIds|
      && |gs.players| == |playerIds|
      && forall i :: 0 <= i < |playerIds| ==>
           && gs.players[i].id == playerIds[i]
           && gs.players[i].name == SeatName(playerNames, i)
           && gs.players[i].hand == [] && gs.players[i].bid.None?
           && gs.players[i].tricksWon == 0 && gs.players[i].score == 0.0
           && !gs.players[i].isReady
  {
    var config :- CalculateGameConfig(|playerIds|);
    var players := seq(|playerIds|, i requires 0 <= i < |playerIds| =>
                         NewPlayer(playerIds[i], SeatName(playerNames, i)));
    Ok(GameState(gameId, players, 0, NoTrick, 0, Lobby, config))
  }

  // ---------------------------------------------------------------------------
  // Starting a round
  // ---------------------------------------------------------------------------

  /** The hands of a seating, seat by seat. */
  function Hands(players: seq<Player>): (hands: seq<seq<Card>>)
    ensures |hands| == |players|
    ensures forall i :: 0 <= i < |players| ==> hands[i] == players[i].hand
  {
    seq(|players|, i requires 0 <= i < |players| => players[i].hand)
  }

  /** The first `seats` dealt hands, each sorted: every hand has the configured
      size, is in display order, holds only cards of the pool, and no id appears
      twice across the table. */
  function DealSortedHands(config: GameConfig, seats: nat, draws: seq<real>): (hands: seq<seq<Card>>)
    requires seats <= config.playerCount
    requires config.playerCount * config.cardsPerPlayer <= DeckSize * config.deckCount
    requires UnitDraws(draws) && DeckSize * config.deckCount <= |draws| + 1
    ensures |hands| == seats
    ensures forall i :: 0 <= i < seats ==>
              |hands[i]| == config.cardsPerPlayer && SortedByKey(hands[i])
    ensures forall i, k :: 0 <= i < seats && 0 <= k < |hands[i]| ==>
              hands[i][k] in CreateMultipleDecks(config.deckCount)
    ensures HandsIdsDistinct(hands)
  {
    var dealt := DealCards(config.playerCount, config.cardsPerPlayer, config.deckCount, draws);
    var first := dealt[..seats];
    var sorted := seq(seats, i requires 0 <= i < seats => SortHand(first[i]));
    SortedHandsIdsDistinct(first, sorted);
    SortedHandsFromPool(first, sorted, CreateMultipleDecks(config.deckCount));
    sorted
  }

  /** `startNewRound`: deals a fresh round with the given shuffle draws, sorts
      every hand, clears bids and trick counts, and opens bidding at seat 0.
      The source deals `config.playerCount` hands and hands them out by seat, so
      it needs no more seats than that, and a pool large enough for the deal. */
  function StartNewRound(gs: GameState, draws: seq<real>): (r: GameState)
    requires |gs.players| <= gs.config.playerCount
    requires gs.config.playerCount * gs.config.cardsPerPlayer <= DeckSize * gs.config.deckCount
    requires UnitDraws(draws) && DeckSize * gs.config.deckCount <= |draws| + 1
    ensures r.id == gs.id && r.config == gs.config
    ensures r.currentRound == gs.currentRound + 1
    ensures r.phase == Bidding && r.currentPlayerIndex == 0 && r.currentTrick == NoTrick
    ensures SameSeats(gs.players, r.players)
    ensures forall i :: 0 <= i < |r.players| ==>
              && r.players[i].bid.None? && r.players[i].tricksWon == 0
              && r.players[i].score == gs.players[i].score
              && |r.players[i].hand| == gs.config.cardsPerPlayer
              && SortedByKey(r.players[i].hand)
    ensures forall i, k :: 0 <= i < |r.players| && 0 <= k < |r.players[i].hand| ==>
              r.players[i].hand[k] in CreateMultipleDecks(gs.config.deckCount)
    ensures HandsIdsDistinct(Hands(r.players))
  {
    var hands := DealSortedHands(gs.config, |gs.players|, draws);
    var players := seq(|gs.players|, i requires 0 <= i < |gs.players| =>
                         gs.players[i].(hand := hands[i], bid := None, tricksWon := 0));
    assert Hands(players) == hands;
    GameState(gs.id, players, gs.currentRound + 1, NoTrick, 0, Bidding, gs.config)
  }

  /** Starting a round keeps the invariant. */
  lemma StartNewRoundPreservesInv(gs: GameState, draws: seq<real>)
    requires Inv(gs)
    requires UnitDraws(draws) && DeckSize * gs.config.deckCount <= |draws| + 1
    ensures gs.config.playerCount * gs.config.cardsPerPlayer <= DeckSize * gs.config.deckCount
    ensures Inv(StartNewRound(gs, draws))
  {
  }

  // ---------------------------------------------------------------------------
  // Bidding
  // ---------------------------------------------------------------------------

  /** Every seat has placed a bid (`every(p => p.bid !== null)`). */
  predicate AllBid(players: seq<Player>)
  {
    forall k :: 0 <= k < |players| ==> players[k].bid.Some?
  }

  /** `processBid`: fails for an unknown player and for a bid outside
      [MinimumBid, MaximumBid] of the hand size; otherwise records the bid for
      that seat only. Bidding closes, and play opens at seat 0, exactly when
      every seat has bid; until then the turn passes to the next seat. Neither
      the phase nor the turn is checked. */
  function ProcessBid(gs: GameState, playerId: string, bid: int): (r: Result<GameState>)
    ensures r == Err(PlayerNotFound) <==> FindPlayer(gs.players, playerId).None?
    ensures r == Err(InvalidBid) <==>
              FindPlayer(gs.players, playerId).Some?
              && !(MinimumBid(gs.config.cardsPerPlayer) <= bid <= MaximumBid(gs.config.cardsPerPlayer))
    ensures r.Ok? <==>
              FindPlayer(gs.players, playerId).Some?
              && MinimumBid(gs.config.cardsPerPlayer) <= bid <= MaximumBid(gs.config.cardsPerPlayer)
    ensures r.Ok? && FindPlayer(gs.players, playerId).Some? ==>
      var seat := FindPlayer(gs.players, playerId).value;
      var after := r.value;
      && |after.players| == |gs.players|
      && after.players[seat] == gs.players[seat].(bid := Some(bid))
      && (forall k :: 0 <= k < |gs.players| && k != seat ==> after.players[k] == gs.players[k])
      && (after.phase == Playing <==> AllBid(after.players))
      && (after.phase != Playing ==> after.phase == Bidding
                                     && after.currentPlayerIndex == (seat + 1) % |gs.players|)
      && (after.phase == Playing ==> after.currentPlayerIndex == 0)
      && after.id == gs.id && after.config == gs.config && after.currentRound == gs.currentRound
      && after.currentTrick == gs.currentTrick
  {
    match FindPlayer(gs.players, playerId)
    case None => Err(PlayerNotFound)
    case Some(seat) =>
      if bid < 1 || bid > gs.config.cardsPerPlayer then Err(InvalidBid)
      else
        var players := gs.players[seat := gs.players[seat].(bid := Some(bid))];
        var allBidsPlaced := AllBid(players);
        Ok(gs.(players := players,
               phase := if allBidsPlaced then Playing else Bidding,
               currentPlayerIndex := if allBidsPlaced then 0 else (seat + 1) % |gs.players|))
  }

  /** Placing the same bid again changes nothing. */
  lemma ProcessBidIdempotent(gs: GameState, playerId: string, bid: int)
    requires ProcessBid(gs, playerId, bid).Ok?
    ensures ProcessBid(ProcessBid(gs, playerId, bid).value, playerId, bid) == ProcessBid(gs, playerId, bid)
  {
    var once := ProcessBid(gs, playerId, bid).value;
    FindPlayerSameIds(gs.players, once.players, playerId);
    var seat := FindPlayer(gs.players, playerId).value;
    assert once.players[seat := once.players[seat].(bid := Some(bid))] == once.players;
  }

  /** Bidding keeps the invariant. */
  lemma ProcessBidPreservesInv(gs: GameState, playerId: string, bid: int)
    requires Inv(gs) && ProcessBid(gs, playerId, bid).Ok?
    ensures Inv(ProcessBid(gs, playerId, bid).value)
  {
    var after := ProcessBid(gs, playerId, bid).value;
    forall id ensures FindPlayer(after.players, id) == FindPlayer(gs.players, id) {
      FindPlayerSameIds(gs.players, after.players, id);
    }
  }

  // ---------------------------------------------------------------------------
  // Playing a card
  // ---------------------------------------------------------------------------

  /** `hand.filter(c => c.id !== id)`: drops every card with that id and keeps
      every other card, in order. */
  function RemoveId(hand: seq<Card>, id: string): (r: seq<Card>)
    ensures |r| <= |hand|
    decreases |hand|
  {
    if |hand| == 0 then []
    else
      var rest := RemoveId(hand[1..], id);
      if hand[0].id == id then rest else [hand[0]] + rest
  }

  /** The filtered hand holds exactly the cards of the hand with another id. */
  lemma {:induction false} RemoveIdMembers(hand: seq<Card>, id: string)
    ensures forall x :: x in RemoveId(hand, id) <==> x in hand && x.id != id
    decreases |hand|
  {
    if |hand| > 0 {
      RemoveIdMembers(hand[1..], id);
      assert hand == [hand[0]] + hand[1..];
    }
  }

  /** The filter works piece by piece: filtering a concatenation concatenates
      the filtered pieces, so the kept cards stay in their order. */
  lemma {:induction false} RemoveIdConcat(a: seq<Card>, b: seq<Card>, id: string)
    ensures RemoveId(a + b, id) == RemoveId(a, id) + RemoveId(b, id)
    decreases |a|
  {
    if |a| == 0 {
      assert a + b == b;
    } else {
      assert (a + b)[0] == a[0] && (a + b)[1..] == a[1..] + b;
      RemoveIdConcat(a[1..], b, id);
      RemoveIdStep(a + b, id);
      RemoveIdStep(a, id);
    }
  }

  /** The filter keeps every copy of every card with another id and no copy of
      a card with that id. */
  lemma {:induction false} RemoveIdCounts(hand: seq<Card>, id: string)
    ensures forall x :: multiset(RemoveId(hand, id))[x] == if x.id == id then 0 else multiset(hand)[x]
    decreases |hand|
  {
    if |hand| > 0 {
      RemoveIdCounts(hand[1..], id);
      RemoveIdStep(hand, id);
      assert hand == [hand[0]] + hand[1..];
      assert multiset(hand) == multiset{hand[0]} + multiset(hand[1..]);
    }
  }

  /** A card at or below every key of a hand stays so after filtering. */
  lemma {:induction false} RemoveIdLowerBound(hand: seq<Card>, id: string, x: Card)
    requires forall j :: 0 <= j < |hand| ==> SortKey(x) <= SortKey(hand[j])
    ensures forall j :: 0 <= j < |RemoveId(hand, id)| ==> SortKey(x) <= SortKey(RemoveId(hand, id)[j])
    decreases |hand|
  {
    if |hand| > 0 {
      assert forall j :: 0 <= j < |hand[1..]| ==> hand[1..][j] == hand[j + 1];
      RemoveIdLowerBound(hand[1..], id, x);
      RemoveIdStep(hand, id);
    }
  }

  /** A sorted sequence with a card at or below all its keys in front is sorted. */
  lemma SortedCons(x: Card, rest: seq<Card>)
    requires SortedByKey(rest)
    requires forall j :: 0 <= j < |rest| ==> SortKey(x) <= SortKey(rest[j])
    ensures SortedByKey([x] + rest)
  {
    var r := [x] + rest;
    forall i, j | 0 <= i < j < |r| ensures SortKey(r[i]) <= SortKey(r[j]) {
      assert r[j] == rest[j - 1];
      if i > 0 {
        assert r[i] == rest[i - 1];
      }
    }
  }

  /** Filtering a sorted hand leaves it sorted. */
  lemma {:induction false} RemoveIdKeepsSorted(hand: seq<Card>, id: string)
    requires SortedByKey(hand)
    ensures SortedByKey(RemoveId(hand, id))
    decreases |hand|
  {
    if |hand| > 0 {
      var tail := hand[1..];
      assert forall j :: 0 <= j < |tail| ==> tail[j] == hand[j + 1];
      assert SortedByKey(tail);
      RemoveIdKeepsSorted(tail, id);
      RemoveIdStep(hand, id);
      if hand[0].id != id {
        RemoveIdLowerBound(tail, id, hand[0]);
        SortedCons(hand[0], RemoveId(tail, id));
      }
    }
  }

  /** Removing an id the hand does not hold leaves the hand as it was. */
  lemma {:induction false} RemoveUnheldId(hand: seq<Card>, id: string)
    requires forall k :: 0 <= k < |hand| ==> hand[k].id != id
    ensures RemoveId(hand, id) == hand
    decreases |hand|
  {
    if |hand| > 0 {
      RemoveUnheldId(hand[1..], id);
    }
  }

  /** The tail of a hand with distinct ids has distinct ids. */
  lemma IdsDistinctTail(hand: seq<Card>)
    requires IdsDistinct(hand) && |hand| > 0
    ensures IdsDistinct(hand[1..])
  {
    forall i, j | 0 <= i < j < |hand[1..]| ensures hand[1..][i].id != hand[1..][j].id {
      assert hand[1..][i] == hand[i + 1] && hand[1..][j] == hand[j + 1];
    }
  }

  /** One step of the filter: the first card is dropped or kept by its id. */
  lemma RemoveIdStep(hand: seq<Card>, id: string)
    requires |hand| > 0
    ensures RemoveId(hand, id) == (if hand[0].id == id then [] else [hand[0]]) + RemoveId(hand[1..], id)
  {
  }

  /** Removing the first card's id from a hand with distinct ids leaves its tail. */
  lemma RemoveHeldFirst(hand: seq<Card>)
    requires IdsDistinct(hand) && |hand| > 0
    ensures RemoveId(hand, hand[0].id) == hand[1..]
  {
    forall k | 0 <= k < |hand[1..]| ensures hand[1..][k].id != hand[0].id {
      assert hand[1..][k] == hand[k + 1];
    }
    RemoveIdStep(hand, hand[0].id);
    RemoveUnheldId(hand[1..], hand[0].id);
  }

  /** Removing the id of the card at position i of a hand with distinct ids
      removes that card and nothing else. */
  lemma {:induction false} RemoveHeldAt(hand: seq<Card>, i: nat)
    requires IdsDistinct(hand) && i < |hand|
    ensures multiset(RemoveId(hand, hand[i].id)) + multiset{hand[i]} == multiset(hand)
    ensures |RemoveId(hand, hand[i].id)| == |hand| - 1
    decreases i
  {
    var tail := hand[1..];
    assert hand == [hand[0]] + tail;
    if i == 0 {
      RemoveHeldFirst(hand);
    } else {
      var id := hand[i].id;
      IdsDistinctTail(hand);
      RemoveIdStep(hand, id);
      assert tail[i - 1] == hand[i];
      RemoveHeldAt(tail, i - 1);
      var rest := RemoveId(tail, id);
      assert RemoveId(hand, id) == [hand[0]] + rest;
      assert multiset([hand[0]] + rest) == multiset{hand[0]} + multiset(rest);
    }
  }

  /** In a hand with distinct ids, removing a held card's id removes exactly that
      one card. */
  lemma RemoveHeldCard(hand: seq<Card>, card: Card)
    requires IdsDistinct(hand) && card in hand
    ensures multiset(RemoveId(hand, card.id)) + multiset{card} == multiset(hand)
    ensures |RemoveId(hand, card.id)| == |hand| - 1
  {
    var i :| 0 <= i < |hand| && hand[i] == card;
    RemoveHeldAt(hand, i);
  }

  /** `calculateRoundScore(p.bid!, ...)` on a seat that never bid: the null bid
      counts as 0 in JavaScript arithmetic. */
  function BidValue(bid: Option<int>): (r: int)
    ensures bid.None? ==> r == 0
    ensures bid.Some? ==> r == bid.value
  {
    match bid
    case None => 0
    case Some(b) => b
  }

  /** The end-of-round scoring applied to every seat. */
  function RoundScores(players: seq<Player>): (r: seq<Player>)
    ensures |r| == |players|
    ensures forall k :: 0 <= k < |r| ==>
              r[k] == players[k].(score := players[k].score
                                   + CalculateRoundScore(BidValue(players[k].bid), players[k].tricksWon))
  {
    seq(|players|, k requires 0 <= k < |players| =>
      players[k].(score := players[k].score
                   + CalculateRoundScore(BidValue(players[k].bid), players[k].tricksWon)))
  }

  /** The trick after `playerId` adds `card`: the lead suit keeps its value and
      only the first card sets it. */
  function AddToTrick(trick: Trick, playerId: string, card: Card): (t: Trick)
    ensures t.cards == trick.cards + [Play(playerId, card)]
    ensures trick.leadSuit.Some? ==> t.leadSuit == trick.leadSuit
    ensures trick.leadSuit.None? ==> t.leadSuit == Some(card.suit)
    ensures t.winnerId == trick.winnerId
  {
    trick.(leadSuit := if trick.leadSuit.Some? then trick.leadSuit else Some(card.suit),
           cards := trick.cards + [Play(playerId, card)])
  }

  /** A seated player's card keeps the trick played by seated players only. */
  lemma AddToTrickSeated(players: seq<Player>, trick: Trick, playerId: string, card: Card)
    requires TrickSeated(players, trick) && FindPlayer(players, playerId).Some?
    ensures TrickSeated(players, AddToTrick(trick, playerId, card))
  {
    var t := AddToTrick(trick, playerId, card);
    forall j | 0 <= j < |t.cards| ensures FindPlayer(players, t.cards[j].playerId).Some? {
      if j < |trick.cards| {
        assert t.cards[j] == trick.cards[j];
      }
    }
  }

  /** The completed trick is scored: its winner gains a trick and leads next,
      the trick is cleared, and the round may end. Seats, bids and hands are
      left as they were. */
  function FinishTrick(gs: GameState, players: seq<Player>, trick: Trick): (r: Result<GameState>)
    requires |players| == |gs.players| > 0 && |trick.cards| > 0
    requires TrickSeated(gs.players, trick)
    ensures r.Ok?
    ensures r.Ok? ==>
      && r.value.id == gs.id && r.value.config == gs.config && r.value.currentRound == gs.currentRound
      && |r.value.players| == |players|
      && (forall k :: 0 <= k < |players| ==>
            r.value.players[k] == players[k].(tricksWon := r.value.players[k].tricksWon,
                                              score := r.value.players[k].score))
  {
    var winnerId := DetermineTrickWinner(trick).value;
    var w := FindPlayer(gs.players, winnerId).value;
    var counted := players[w := players[w].(tricksWon := players[w].tricksWon + 1)];
    var cleared := Trick(None, [], Some(winnerId));
    if |counted[0].hand| == 0 then
      Ok(gs.(players := RoundScores(counted), currentTrick := cleared,
             currentPlayerIndex := w, phase := RoundEnd))
    else
      Ok(gs.(players := counted, currentTrick := cleared, currentPlayerIndex := w))
  }

  /** Who wins a finished trick: the reference winner of the trick is recorded
      and leads the next trick from its seat, and that seat, and no other, gains
      exactly one trick. */
  lemma FinishTrickWinner(gs: GameState, players: seq<Player>, trick: Trick)
    requires |players| == |gs.players| > 0 && |trick.cards| > 0
    requires TrickSeated(gs.players, trick)
    ensures var after := FinishTrick(gs, players, trick).value;
      && after.currentTrick.leadSuit.None? && after.currentTrick.cards == []
      && (exists i :: IsTrickWinner(trick.cards, trick.leadSuit, i)
                     && after.currentTrick.winnerId == Some(trick.cards[i].playerId)
                     && FindPlayer(gs.players, trick.cards[i].playerId) == Some(after.currentPlayerIndex))
      && after.currentPlayerIndex < |players|
      && after.players[after.currentPlayerIndex].tricksWon == players[after.currentPlayerIndex].tricksWon + 1
      && (forall k :: 0 <= k < |players| && k != after.currentPlayerIndex ==>
            after.players[k].tricksWon == players[k].tricksWon)
      && TotalTricks(after.players) == TotalTricks(players) + 1
  {
    var after := FinishTrick(gs, players, trick).value;
    var winnerId := DetermineTrickWinner(trick).value;
    var w := FindPlayer(gs.players, winnerId).value;
    assert after.currentPlayerIndex == w;
    TotalTricksUpdate(players, after.players, w);
  }

  /** When a finished trick ends the round: exactly when seat 0 has no cards
      left, and then every seat is scored by its bid and tricks; otherwise
      phase and scores stay. */
  lemma FinishTrickEndsRound(gs: GameState, players: seq<Player>, trick: Trick)
    requires |players| == |gs.players| > 0 && |trick.cards| > 0
    requires TrickSeated(gs.players, trick)
    ensures var after := FinishTrick(gs, players, trick).value;
      && (|players[0].hand| == 0 ==> after.phase == RoundEnd)
      && (|players[0].hand| != 0 ==> after.phase == gs.phase)
      && (forall k :: 0 <= k < |players| ==>
            if |players[0].hand| == 0
            then after.players[k].score == players[k].score
                   + CalculateRoundScore(BidValue(players[k].bid), after.players[k].tricksWon)
            else after.players[k].score == players[k].score)
  {
  }

  /** The seats after `card` leaves the hand of seat `seat`. */
  function TakeFromHand(players: seq<Player>, seat: nat, card: Card): (r: seq<Player>)
    requires seat < |players|
    ensures |r| == |players|
    ensures forall k :: 0 <= k < |players| && k != seat ==> r[k] == players[k]
    ensures r[seat] == players[seat].(hand := RemoveId(players[seat].hand, card.id))
  {
    players[seat := players[seat].(hand := RemoveId(players[seat].hand, card.id))]
  }

  /** A legal play by the seat whose turn it is: the card joins the trick and
      leaves the mover's hand; a trick that now has a card from every seat is
      finished, otherwise the turn passes to the next seat. */
  function MoveCard(gs: GameState, seat: nat, playerId: string, card: Card): (r: Result<GameState>)
    requires seat < |gs.players| && FindPlayer(gs.players, playerId) == Some(seat)
    requires TrickSeated(gs.players, gs.currentTrick)
    ensures r.Ok?
    ensures r.Ok? ==>
      && r.value.id == gs.id && r.value.config == gs.config && r.value.currentRound == gs.currentRound
      && |r.value.players| == |gs.players|
      && (forall k :: 0 <= k < |gs.players| ==>
            r.value.players[k] == gs.players[k].(
              hand := if k == seat then RemoveId(gs.players[seat].hand, card.id) else gs.players[k].hand,
              tricksWon := r.value.players[k].tricksWon,
              score := r.value.players[k].score))
  {
    var trick := AddToTrick(gs.currentTrick, playerId, card);
    var players := TakeFromHand(gs.players, seat, card);
    if |trick.cards| == |gs.players| then
      AddToTrickSeated(gs.players, gs.currentTrick, playerId, card);
      FinishTrick(gs, players, trick)
    else
      Ok(gs.(players := players, currentTrick := trick,
             currentPlayerIndex := (seat + 1) % |gs.players|))
  }

  /** `playCard`: fails for an unknown player, out of turn, and for a card the
      follow-suit rule refuses, in that order of precedence. Otherwise only the
      mover's hand changes, by losing every card with the played id; seats,
      names, bids and the round stay as they were. The source assumes the open
      trick was played by seated players. */
  function PlayCard(gs: GameState, playerId: string, card: Card): (r: Result<GameState>)
    requires TrickSeated(gs.players, gs.currentTrick)
    ensures r == Err(PlayerNotFound) <==> FindPlayer(gs.players, playerId).None?
    ensures r == Err(NotYourTurn) <==>
              FindPlayer(gs.players, playerId).Some?
              && FindPlayer(gs.players, playerId).value != gs.currentPlayerIndex
    ensures r == Err(IllegalCard) <==>
              FindPlayer(gs.players, playerId) == Some(gs.currentPlayerIndex)
              && !CanPlayCard(card, gs.players[gs.currentPlayerIndex].hand, gs.currentTrick)
    ensures r.Ok? <==>
              FindPlayer(gs.players, playerId) == Some(gs.currentPlayerIndex)
              && CanPlayCard(card, gs.players[gs.currentPlayerIndex].hand, gs.currentTrick)
    ensures r.Ok? ==> r == MoveCard(gs, gs.currentPlayerIndex, playerId, card)
  {
    match FindPlayer(gs.players, playerId)
    case None => Err(PlayerNotFound)
    case Some(seat) =>
      if seat != gs.currentPlayerIndex then Err(NotYourTurn)
      else if !CanPlayCard(card, gs.players[seat].hand, gs.currentTrick) then Err(IllegalCard)
      else MoveCard(gs, seat, playerId, card)
  }

  /** A successful play changes nothing but hands, trick counts and scores, and
      of the hands only the mover's, which loses every card with the played id. */
  lemma PlayCardFrame(gs: GameState, playerId: string, card: Card, after: GameState)
    requires TrickSeated(gs.players, gs.currentTrick) && PlayCard(gs, playerId, card) == Ok(after)
    ensures var seat := gs.currentPlayerIndex;
      && seat < |gs.players| && gs.players[seat].id == playerId
      && after.id == gs.id && after.config == gs.config && after.currentRound == gs.currentRound
      && SameSeats(gs.players, after.players)
      && (forall k :: 0 <= k < |gs.players| ==> after.players[k].bid == gs.players[k].bid)
      && after.players[seat].hand == RemoveId(gs.players[seat].hand, card.id)
      && (forall k :: 0 <= k < |gs.players| && k != seat ==> after.players[k].hand == gs.players[k].hand)
  {
  }

  /** Hands that are sorted before a play are sorted after it: the mover's hand
      only loses cards, and no other hand changes. */
  lemma PlayCardKeepsHandsSorted(gs: GameState, playerId: string, card: Card, after: GameState)
    requires TrickSeated(gs.players, gs.currentTrick) && PlayCard(gs, playerId, card) == Ok(after)
    requires forall k :: 0 <= k < |gs.players| ==> SortedByKey(gs.players[k].hand)
    ensures |after.players| == |gs.players|
    ensures forall k :: 0 <= k < |after.players| ==> SortedByKey(after.players[k].hand)
  {
    PlayCardFrame(gs, playerId, card, after);
    RemoveIdKeepsSorted(gs.players[gs.currentPlayerIndex].hand, card.id);
  }

  /** A play that leaves the trick short of a card from every seat appends the
      card to the trick, keeps any lead suit already set (the first card sets
      it), and passes the turn to the next seat; no trick count, score or phase
      changes. */
  lemma PlayCardContinuesTrick(gs: GameState, playerId: string, card: Card, after: GameState)
    requires TrickSeated(gs.players, gs.currentTrick) && PlayCard(gs, playerId, card) == Ok(after)
    requires |gs.currentTrick.cards| + 1 != |gs.players|
    ensures
      && after.currentTrick.cards == gs.currentTrick.cards + [Play(playerId, card)]
      && (gs.currentTrick.leadSuit.Some? ==> after.currentTrick.leadSuit == gs.currentTrick.leadSuit)
      && (gs.currentTrick.leadSuit.None? ==> after.currentTrick.leadSuit == Some(card.suit))
      && after.currentTrick.winnerId == gs.currentTrick.winnerId
      && after.currentPlayerIndex == (gs.currentPlayerIndex + 1) % |gs.players|
      && after.phase == gs.phase
      && |after.players| == |gs.players|
      && (forall k :: 0 <= k < |gs.players| ==>
            after.players[k].tricksWon == gs.players[k].tricksWon
            && after.players[k].score == gs.players[k].score)
  {
  }

  /** The play that completes a trick is the trick's finish applied to the table
      with the card taken from the mover's hand. */
  lemma PlayCardFinishes(gs: GameState, playerId: string, card: Card, after: GameState)
    requires TrickSeated(gs.players, gs.currentTrick) && PlayCard(gs, playerId, card) == Ok(after)
    requires |gs.currentTrick.cards| + 1 == |gs.players|
    ensures gs.currentPlayerIndex < |gs.players|
    ensures TrickSeated(gs.players, AddToTrick(gs.currentTrick, playerId, card))
    ensures Ok(after) == FinishTrick(gs, TakeFromHand(gs.players, gs.currentPlayerIndex, card),
                                     AddToTrick(gs.currentTrick, playerId, card))
  {
    AddToTrickSeated(gs.players, gs.currentTrick, playerId, card);
  }

  /** The winner facts of a finished trick, carried back over the removal of
      the played card, which does not touch trick counts. */
  lemma TakenTrickWinner(gs: GameState, seat: nat, card: Card, full: Trick, after: GameState)
    requires seat < |gs.players| && |full.cards| > 0 && TrickSeated(gs.players, full)
    requires Ok(after) == FinishTrick(gs, TakeFromHand(gs.players, seat, card), full)
    ensures after.currentTrick.leadSuit.None? && after.currentTrick.cards == []
    ensures exists i :: IsTrickWinner(full.cards, full.leadSuit, i)
                        && after.currentTrick.winnerId == Some(full.cards[i].playerId)
                        && FindPlayer(gs.players, full.cards[i].playerId) == Some(after.currentPlayerIndex)
    ensures after.currentPlayerIndex < |gs.players| == |after.players|
    ensures after.players[after.currentPlayerIndex].tricksWon == gs.players[after.currentPlayerIndex].tricksWon + 1
    ensures forall k :: 0 <= k < |gs.players| && k != after.currentPlayerIndex ==>
              after.players[k].tricksWon == gs.players[k].tricksWon
    ensures TotalTricks(after.players) == TotalTricks(gs.players) + 1
  {
    var players := TakeFromHand(gs.players, seat, card);
    FinishTrickWinner(gs, players, full);
    assert forall k :: 0 <= k < |players| ==> players[k].tricksWon == gs.players[k].tricksWon;
    TotalTricksSame(gs.players, players);
  }

  /** The play that gives the trick a card from every seat finishes it: the
      reference winner of the full trick is recorded and leads next, and that
      seat alone gains one trick, so the table's total grows by exactly one. */
  lemma PlayCardCompletesTrick(gs: GameState, playerId: string, card: Card, after: GameState)
    requires TrickSeated(gs.players, gs.currentTrick) && PlayCard(gs, playerId, card) == Ok(after)
    requires |gs.currentTrick.cards| + 1 == |gs.players|
    ensures var full := AddToTrick(gs.currentTrick, playerId, card);
      && after.currentTrick.leadSuit.None? && after.currentTrick.cards == []
      && (exists i :: IsTrickWinner(full.cards, full.leadSuit, i)
                     && after.currentTrick.winnerId == Some(full.cards[i].playerId)
                     && FindPlayer(gs.players, full.cards[i].playerId) == Some(after.currentPlayerIndex))
    ensures after.currentPlayerIndex < |gs.players| == |after.players|
    ensures after.players[after.currentPlayerIndex].tricksWon == gs.players[after.currentPlayerIndex].tricksWon + 1
    ensures forall k :: 0 <= k < |gs.players| && k != after.currentPlayerIndex ==>
              after.players[k].tricksWon == gs.players[k].tricksWon
    ensures TotalTricks(after.players) == TotalTricks(gs.players) + 1
  {
    PlayCardFinishes(gs, playerId, card, after);
    TakenTrickWinner(gs, gs.currentPlayerIndex, card, AddToTrick(gs.currentTrick, playerId, card), after);
  }

  /** After the trick is finished, the round ends exactly when seat 0 is out of
      cards, and then every seat is scored on its bid (a missing bid counting as
      0) and the tricks it won; otherwise scores and phase stay. */
  lemma PlayCardEndsRound(gs: GameState, playerId: string, card: Card, after: GameState)
    requires TrickSeated(gs.players, gs.currentTrick) && PlayCard(gs, playerId, card) == Ok(after)
    requires |gs.currentTrick.cards| + 1 == |gs.players|
    ensures |after.players| == |gs.players| > 0
    ensures |after.players[0].hand| == 0 ==> after.phase == RoundEnd
    ensures |after.players[0].hand| != 0 ==> after.phase == gs.phase
    ensures forall k :: 0 <= k < |gs.players| ==>
              if |after.players[0].hand| == 0
              then after.players[k].score == gs.players[k].score
                     + CalculateRoundScore(BidValue(gs.players[k].bid), after.players[k].tricksWon)
              else after.players[k].score == gs.players[k].score
  {
    PlayCardFinishes(gs, playerId, card, after);
    var players := TakeFromHand(gs.players, gs.currentPlayerIndex, card);
    FinishTrickEndsRound(gs, players, AddToTrick(gs.currentTrick, playerId, card));
  }

  /** Playing a card keeps the invariant. */
  lemma PlayCardPreservesInv(gs: GameState, playerId: string, card: Card, after: GameState)
    requires Inv(gs) && PlayCard(gs, playerId, card) == Ok(after)
    ensures Inv(after)
  {
    PlayCardFrame(gs, playerId, card, after);
    forall id ensures FindPlayer(after.players, id) == FindPlayer(gs.players, id) {
      FindPlayerSameIds(gs.players, after.players, id);
    }
    if |gs.currentTrick.cards| + 1 == |gs.players| {
      PlayCardFinishes(gs, playerId, card, after);
      PlayCardCompletesTrick(gs, playerId, card, after);
    } else {
      PlayCardContinuesTrick(gs, playerId, card, after);
      AddToTrickSeated(gs.players, gs.currentTrick, playerId, card);
    }
  }

  /** The mover's hand shrinks by exactly the played card when the hand holds it
      and its ids are distinct; a card the hand does not hold is still accepted
      when the follow-suit rule allows it, and then the hand is left unchanged,
      since the source never checks that the card is held. */
  lemma PlayCardHandEffect(gs: GameState, playerId: string, card: Card, after: GameState)
    requires TrickSeated(gs.players, gs.currentTrick) && PlayCard(gs, playerId, card) == Ok(after)
    ensures gs.currentPlayerIndex < |gs.players| == |after.players|
    ensures var seat := gs.currentPlayerIndex;
      var hand := gs.players[seat].hand;
      && (IdsDistinct(hand) && card in hand ==>
            multiset(after.players[seat].hand) + multiset{card} == multiset(hand))
      && ((forall k :: 0 <= k < |hand| ==> hand[k].id != card.id) ==> after.players[seat].hand == hand)
  {
    PlayCardFrame(gs, playerId, card, after);
    var hand := gs.players[gs.currentPlayerIndex].hand;
    if IdsDistinct(hand) && card in hand {
      RemoveHeldCard(hand, card);
    }
    if forall k :: 0 <= k < |hand| ==> hand[k].id != card.id {
      RemoveUnheldId(hand, card.id);
    }
  }
}
