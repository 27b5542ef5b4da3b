# Call Break rules engine in Dafny

A model of the game-rules engine of a Call Break card game: the pure core that
the game server calls into. It covers four pieces.

- **Configuration** (`Config`): the fixed table from seat count (2 to 12) to
  hand size and number of 52-card decks, and the bid bounds.
- **Deck engine** (`Deck`): building one deck or a pool of several decks with
  ids unique across copies (`SUIT-RANK` and `SUIT-RANK-i`), the Fisher–Yates
  shuffle, the round-robin deal, and sorting a hand for display (spades,
  hearts, diamonds, clubs, then rank).
- **Trick and round rules** (`Rules`): who takes a trick (spades are always
  trump), the follow-suit rule, and round scoring (bid plus a tenth per extra
  trick, or minus the bid).
- **Session state machine** (`Session`): immutable snapshot transitions.
  `CreateGameState` seats players in the lobby, `StartNewRound` deals and
  opens bidding, `ProcessBid` records bids, and `PlayCard` plays a card,
  finishes tricks and scores rounds.

Shared vocabulary is in `GameTypes` (suits, ranks, cards, players, tricks, the
game state, phases, the rank value table, and a `Result` type for the engine's
failures). `Text` renders numbers the way JavaScript template literals do.
Each thrown error of the source becomes an `Err` carrying a `GameError`.

The trick winner is given an independent reference definition,
`Rules.IsTrickWinner`. Take the controlling suit: trump if any trump was
played, otherwise the lead suit if someone followed it, otherwise the first
card's suit. The winner holds the highest card of that suit, and the earliest
such card on ties. The source's left fold is proved to pick exactly that entry.

The session operations keep an invariant, `Session.Inv`, from game creation
on:
- the configuration is the resolver's for the seat count;
- the turn points at a seat;
- the open trick is shorter than the table, and every card in it was played by
  a seated player.

Behaviours of the source that the model keeps as written:
- The round ends when seat 0's hand is empty; the other seats are not
  consulted.
- `playCard` never checks that the card is in the mover's hand.
  `Session.PlayCardHandEffect` shows that an unheld card passing the
  follow-suit rule is accepted and leaves the hand unchanged.
- `processBid` checks neither the phase nor whose turn it is.
- A seat that never bid is scored as if it had bid 0. In JavaScript arithmetic
  the null bid behaves as 0.
- A trick in progress still carries the previous trick's `winnerId`. The
  field is only replaced when the trick is completed.

## Model

| member | source | states |
|---|---|---|
| `Text.NatToString` | src/game/deck.ts:37 | The rendering of a deck index in an id is a non-empty string of decimal digits, and a single digit exactly for indices below ten |
| `Text.NatToStringInjective` | src/game/deck.ts:37 | Two different deck indices never render to the same text, which the uniqueness of pool ids rests on |
| `GameTypes.RankValue` | src/types/game.ts:72-86 | Every rank's value lies in 2..14, and the rank with value v is the (v-2)-th rank in declaration order |
| `GameTypes.SuitPos` | src/game/deck.ts:10 | Every suit has a position in the enum's declaration order |
| `GameTypes.RankPos` | src/game/deck.ts:96 | `rankOrder.indexOf(rank)` lands on that rank in declaration order |
| `GameTypes.SuitsEnumerated` | src/types/game.ts:3-8 | There are exactly four suits, each listed once |
| `GameTypes.RanksDistinct` | src/types/game.ts:10-24 | The thirteen ranks are pairwise different |
| `GameTypes.RanksEnumerated` | src/types/game.ts:10-24 | There are exactly thirteen ranks, and every rank is listed exactly once |
| `GameTypes.RankValueFollowsDeclaration` | src/types/game.ts:72-86 | `RANK_VALUES` is i+2 at declaration position i, so it is strictly increasing and injective: display order and trick order agree, and two different ranks never tie |
| `Config.CalculateGameConfig` | src/game/config.ts:12-61 | Fails with InvalidPlayerCount exactly outside 2..12. Otherwise it keeps the seat count, uses one deck up to eight seats and two from nine, deals the smaller of 13 and an equal share of the pool, deals at least one card, and never needs more cards than the pool holds |
| `Config.ConfigTable` | src/game/config.ts:21-55 | The eleven rows of the table, each as (seats, hand size, decks) |
| `Config.MinimumBid` | src/game/config.ts:67-69 | The smallest legal bid is one trick for every hand size |
| `Config.MaximumBid` | src/game/config.ts:74-76 | The largest legal bid is the hand size, one trick per card |
| `Config.BidRangeNonEmpty` | src/game/config.ts:67-76 | For every configuration the resolver produces, the minimum bid is 1, the maximum is the hand size, and 1 ≤ maximum ≤ 13 |
| `Deck.SuitNameInjective` | src/types/game.ts:3-8 | Different suits have different string values |
| `Deck.RankNameInjective` | src/types/game.ts:10-24 | Different ranks have different string values |
| `Deck.DeckCardIdInjective` | src/game/deck.ts:18 | An id `SUIT-RANK` determines its suit and rank |
| `Deck.PoolCardIdInjective` | src/game/deck.ts:37 | An id `SUIT-RANK-i` determines its suit, rank and deck copy |
| `Deck.CreateDeck` | src/game/deck.ts:8-24 | A deck has 52 cards |
| `Deck.DeckPositionOfPair` | src/game/deck.ts:13-20 | Position p of a deck holds suit p/13 and rank p%13, so two positions with the same suit and rank coincide |
| `Deck.CreateDeckExactlyOnce` | src/game/deck.ts:8-24 | A deck holds every (suit, rank) pair exactly once, each card with id `SUIT-RANK`, and its ids are pairwise distinct |
| `Deck.NumberedDeck` | src/game/deck.ts:33-38 | A renumbered deck copy still has 52 cards |
| `Deck.CreateMultipleDecks` | src/game/deck.ts:29-43 | The pool has 52·n cards, and position k holds card k%52 of copy k/52 |
| `Deck.PoolIdsDistinct` | src/game/deck.ts:29-43 | The pool holds a card for every (suit, rank, copy) with id `SUIT-RANK-copy`, and all 52·n ids are pairwise distinct across copies |
| `Deck.Swap` | src/game/deck.ts:53 | The destructuring swap exchanges two positions, leaves the others alone and preserves the multiset |
| `Deck.DrawIndex` | src/game/deck.ts:52 | `Math.floor(random * (i + 1))` is an index in 0..i for a draw in [0, 1) |
| `Deck.FisherYates` | src/game/deck.ts:51-54 | Every run of the shuffle loop keeps the length and the multiset of cards |
| `Deck.Shuffle` | src/game/deck.ts:48-57 | The shuffle, whatever the random draws, returns a rearrangement of its input: same length and same multiset |
| `Deck.DistinctIdsPermutation` | src/game/deck.ts:67-68 | Rearranging a sequence with distinct ids keeps its ids distinct |
| `Deck.Deal` | src/game/deck.ts:70-80 | Dealing c cards to p players gives p hands of exactly c cards |
| `Deck.DealRoundRobin` | src/game/deck.ts:77-80 | Shuffled card i (i < p·c) goes to hand i%p as its (i/p)-th card, and cards from position p·c on are never dealt |
| `Deck.DealIdsDistinct` | src/game/deck.ts:77-80 | A deal from a deck with distinct ids hands out no id twice across all hands |
| `Deck.DealCards` | src/game/deck.ts:62-83 | When the pool is large enough, every hand gets exactly c cards, every dealt card comes from the pool, and no id is dealt twice |
| `Deck.SuitOrderPos` | src/game/deck.ts:89-93 | `suitOrder.indexOf(suit)` lands on that suit in the display order spades, hearts, diamonds, clubs |
| `Deck.CompareCards` | src/game/deck.ts:92-97 | The comparator puts a before b exactly when a's suit comes first in display order, or the suits agree and a's rank comes first; it is zero exactly on two cards of the same suit and rank |
| `Deck.CompareCardsIsKeyOrder` | src/game/deck.ts:92-97 | The comparator's sign is the order of (suit position, rank position), so it is a total preorder |
| `Deck.SortKeyIsSuitAndRank` | src/game/deck.ts:92-97 | Two cards compare equal exactly when they have the same suit and rank |
| `Deck.InsertCard` | src/game/deck.ts:92 | One insertion step adds exactly that card to the multiset |
| `Deck.InsertCardSorted` | src/game/deck.ts:92-97 | Inserting into a sorted hand keeps it sorted |
| `Deck.SortHand` | src/game/deck.ts:88-98 | The sorted hand is a permutation of the input, ordered by suit in display order and then by rank |
| `Deck.SortHandStable` | src/game/deck.ts:92 | The sort is stable: cards that compare equal keep their input order, as `Array.prototype.sort` guarantees |
| `Deck.StableSortUnique` | src/game/deck.ts:92-97 | Two sorted sequences with the same cards in the same order within each key are equal, so any stable sort yields the same hand |
| `Deck.SortedHandsIdsDistinct` | src/game/logic.ts:140-145 | Sorting each dealt hand keeps all ids on the table distinct |
| `Rules.Beats` | src/game/logic.ts:33-51 | A card replaces the running winner only if it is a trump, of the winner's suit, or of the lead suit |
| `Rules.WinnerIndex` | src/game/logic.ts:28-52 | The winner fold always lands on an entry of the trick |
| `Rules.WinnerIndexIsTrickWinner` | src/game/logic.ts:28-54 | After every step of the fold, the running winner is the reference winner of the cards seen so far |
| `Rules.TrickWinnerUnique` | src/game/logic.ts:28-54 | An entry is the reference winner if and only if it is the one the fold picks |
| `Rules.DetermineTrickWinner` | src/game/logic.ts:22-55 | Fails with EmptyTrick exactly on an empty trick, and otherwise returns the player of the reference winner |
| `Rules.HighestTrumpWins` | src/game/logic.ts:34-43 | With a spade in the trick, the winner played a spade of the highest value, and any equal spade (two decks) was played after it |
| `Rules.HighestLeadSuitWins` | src/game/logic.ts:39-51 | With no spade and the first card of the lead suit, the winner played the highest lead-suit card, the earliest among equals, so off-suit cards never win |
| `Rules.CanPlayCard` | src/game/logic.ts:60-80 | Any card may lead. After that, a card is refused exactly when the hand holds the lead suit and the card is not of it, and trump gets no other treatment |
| `Rules.SomeCardIsPlayable` | src/game/logic.ts:72-79 | A non-empty hand always has a legal card, and a hand void in the lead suit may play any card |
| `Rules.CalculateRoundScore` | src/game/logic.ts:87-97 | A made bid scores at least the bid, ten times the score being 9·bid + tricks. A missed bid scores exactly minus the bid |
| `Rules.RoundScoreExamples` | __tests__/logic.test.ts:93-108 | (5,5) scores 5, (3,3) scores 3, (5,7) scores 5.2, (5,3) scores -5 and (8,7) scores -8 |
| `Rules.RoundScoreMonotone` | src/game/logic.ts:87-97 | For a non-negative bid, more tricks never score less, and a made positive bid scores above zero while a missed one scores below |
| `Session.FindPlayer` | src/game/logic.ts:169 | `findIndex` returns the first seat with the id, and returns nothing exactly when no seat has it |
| `Session.FindPlayerSameIds` | src/game/logic.ts:169 | Seat lookup depends only on the seats' ids |
| `Session.TotalTricksUpdate` | src/game/logic.ts:243-246 | Changing one seat's trick count changes the table total by the same amount |
| `Session.SeatName` | src/game/logic.ts:105-107 | A seat's name is the given one when it is present and non-empty, otherwise `Player n` with n the seat number counted from 1; never empty |
| `Session.DefaultNamesDistinct` | src/game/logic.ts:107 | No seat gets an empty name, and the fallback names `Player n` of different seats differ |
| `Session.CreateGameState` | src/game/logic.ts:102-128 | Fails with InvalidPlayerCount exactly outside 2..12 seats. Otherwise it seats every id in order with its name (or the fallback), with an empty hand, no bid, no tricks and no score, in the lobby, at round 0, with the given game id and the invariant established |
| `Session.DealSortedHands` | src/game/logic.ts:134-145 | Each seat's dealt hand, once sorted, has the configured size and display order and holds only pool cards, with no id repeated across seats |
| `Session.StartNewRound` | src/game/logic.ts:133-159 | The round number grows by exactly one. Bidding opens at seat 0 with an empty trick. Bids and trick counts are cleared, while scores, ids and names stay. Every hand is a sorted hand of the configured size drawn from the pool, with ids distinct across the table |
| `Session.StartNewRoundPreservesInv` | src/game/logic.ts:133-159 | From a snapshot satisfying the invariant, the pool always suffices and the new round satisfies the invariant |
| `Session.ProcessBid` | src/game/logic.ts:164-194 | Fails with PlayerNotFound for an unknown id, and with InvalidBid exactly when the bid lies outside [MinimumBid, MaximumBid]. Otherwise only that seat's bid changes. The phase becomes PLAYING (turn 0) exactly when every seat has bid; otherwise it is BIDDING and the turn passes to the next seat |
| `Session.ProcessBidIdempotent` | src/game/logic.ts:179-193 | Placing the same bid twice gives the same snapshot as placing it once |
| `Session.ProcessBidPreservesInv` | src/game/logic.ts:179-193 | Bidding keeps the invariant |
| `Session.RemoveId` | src/game/logic.ts:221 | The filtered hand is never longer than the hand; its contents are stated by `Session.RemoveIdMembers` |
| `Session.RemoveIdMembers` | src/game/logic.ts:221 | The filtered hand holds exactly the cards of the hand whose id differs from the played one |
| `Session.RemoveIdConcat` | src/game/logic.ts:221 | Filtering a concatenation concatenates the filtered parts, so the kept cards stay in their order |
| `Session.RemoveIdCounts` | src/game/logic.ts:221 | The filter keeps every copy of each card with another id, and no copy of a card with the played id |
| `Session.RemoveIdKeepsSorted` | src/game/logic.ts:221 | Filtering a sorted hand leaves it sorted |
| `Session.RemoveUnheldId` | src/game/logic.ts:221 | Filtering out an id the hand does not hold leaves the hand unchanged |
| `Session.RemoveHeldCard` | src/game/logic.ts:221 | In a hand with distinct ids, filtering out a held card's id removes exactly that one card |
| `Session.BidValue` | src/game/logic.ts:255 | `p.bid!` in arithmetic: a missing bid counts as 0, and a placed bid counts as itself |
| `Session.TakeFromHand` | src/game/logic.ts:230-234 | Only the mover's seat changes, and its hand becomes the filtered hand |
| `Session.AddToTrick` | src/game/logic.ts:224-228 | The play is appended at the end of the trick; the lead suit is set by the first card only and kept afterwards; the recorded winner is carried over |
| `Session.RoundScores` | src/game/logic.ts:253-256 | Every seat, in order, gains the round score of its bid (a missing bid counting as 0) and its tricks; nothing else about it changes |
| `Session.FinishTrick` | src/game/logic.ts:239-281 | Finishing a trick always succeeds, and changes only trick counts and scores of the seats, never ids, names, bids or hands |
| `Session.FinishTrickWinner` | src/game/logic.ts:239-281 | The finished trick is cleared and records its reference winner, who leads next. That seat alone gains one trick, so the table's total grows by one |
| `Session.FinishTrickEndsRound` | src/game/logic.ts:248-281 | The round ends, with every seat scored on its bid and tricks, exactly when seat 0 has no cards left; otherwise phase and scores stay |
| `Session.MoveCard` | src/game/logic.ts:220-290 | A legal play changes only the mover's hand (by the filter) plus trick counts and scores |
| `Session.PlayCard` | src/game/logic.ts:199-291 | Fails with PlayerNotFound, NotYourTurn and IllegalCard, in that precedence, exactly on an unknown id, a seat that is not on turn, and a card the follow-suit rule refuses. It succeeds otherwise |
| `Session.PlayCardFrame` | src/game/logic.ts:220-234 | A successful play keeps the game id, configuration, round, seats, names and bids. The mover's hand loses every card with the played id, and every other hand stays |
| `Session.PlayCardKeepsHandsSorted` | src/game/logic.ts:220-234 | If every hand is sorted before a play, every hand is still sorted after it |
| `Session.PlayCardContinuesTrick` | src/game/logic.ts:224-290 | Short of a full trick, the card is appended and the first card's suit stays the lead suit. The recorded winner stays, the turn passes to the next seat, and trick counts, scores and phase stay |
| `Session.PlayCardFinishes` | src/game/logic.ts:236-241 | The play that fills the trick hands the filled trick, played by seated players only, to the trick finish |
| `Session.PlayCardCompletesTrick` | src/game/logic.ts:236-246 | Filling the trick clears it, records the reference winner and gives that seat the lead. That seat alone gains one trick, so the table's total grows by exactly one |
| `Session.PlayCardEndsRound` | src/game/logic.ts:248-268 | After a filled trick, the phase becomes ROUND_END exactly when seat 0 is out of cards. Every seat then gains the round score of its bid (none counting as 0) and tricks; otherwise scores and phase stay |
| `Session.PlayCardPreservesInv` | src/game/logic.ts:199-291 | Playing a card keeps the invariant |
| `Session.PlayCardHandEffect` | src/game/logic.ts:214-221 | A held card with distinct ids leaves the hand exactly once. An unheld card that the follow-suit rule allows is accepted and leaves the hand unchanged |

## Left out

- `generateGameId` (src/game/logic.ts:296-303) draws from `crypto` or `Math.random`; the game id is a parameter of `Session.CreateGameState`.
- The random numbers of the shuffle are a parameter `draws`, each in [0, 1); the model does not claim the shuffle is uniform.
- Scores are Dafny `real`s: the IEEE-754 rounding of the 0.1 bonus is not modelled.
- `Config.CalculateGameConfig` takes an integer seat count. The source's `number` also admits NaN or fractional counts, such as 2.5. These pass the range check and fall through to the last branch, which gives 2 decks and 8 cards.
- Bids are integers: the source's `number` also admits fractional or NaN bids, which the range check alone would not refuse.
- `Deck.DealCards` requires a pool at least as large as the deal. The source would otherwise deal `undefined` entries; the configuration table never asks for that.
- `Session.StartNewRound` requires no more seats than `config.playerCount` and a pool large enough for the deal. The source would otherwise pass `undefined` to `sortHand` and throw a TypeError, or deal `undefined` cards. `Session.StartNewRoundPreservesInv` shows that every snapshot satisfying the invariant meets these requirements.
- `Session.PlayCard` requires that the open trick was played by seated players, which the invariant keeps. Otherwise, when a card from an unseated id wins the trick, the source throws a TypeError reading `tricksWon` of `newPlayers[-1]`.
- The error messages of thrown exceptions are replaced by `GameError` constructors.
- Sorting uses insertion sort instead of the engine's `Array.prototype.sort`. Both are stable sorts by the same key, and `Deck.StableSortUnique` shows that all stable sorts give the same hand.
- `GAME_END` exists as a phase but no core operation enters it.
- `isReady` is carried unchanged; only the server's `player-ready` handler sets it.
- `server/index.ts` (socket transport, room map, phase guards, join and disconnect handling), `main.py`, `App.tsx`, the screens and components are I/O and rendering, not rules.
