/** The game's vocabulary: suits, ranks, cards, players, tricks, the aggregate game
    state, its phases, the rank value table, and the typed failures of the engine. */
module GameTypes {

  datatype Option<+T> = None | Some(value: T)

  /** The engine's failures; each is returned to the caller, none is fatal. */
  datatype GameError =
    | InvalidPlayerCount
    | InvalidBid
    | PlayerNotFound
    | NotYourTurn
    | IllegalCard
    | EmptyTrick

  datatype Result<+T> = Ok(value: T) | Err(error: GameError) {
    predicate IsFailure() { Err? }

    function PropagateFailure<U>(): Result<U>
      requires Err?
    {
      Err(error)
    }

    function Extract(): T
      requires Ok?
    {
      value
    }
  }

  datatype Suit = Spades | Hearts | Diamonds | Clubs

  datatype Rank = Two | Three | Four | Five | Six | Seven | Eight | Nine | Ten
                | Jack | Queen | King | Ace

  /** The suits in declaration order, which is the order enumerating the enum yields. */
  const Suits: seq<Suit> := [Spades, Hearts, Diamonds, Clubs]

  /** The ranks in declaration order, which is the order enumerating the enum yields. */
  const Ranks: seq<Rank> := [Two, Three, Four, Five, Six, Seven, Eight, Nine, Ten,
                             Jack, Queen, King, Ace]

  /** The enum's string value of a suit. */
  function SuitName(s: Suit): string
  {
    match s
    case Spades => "SPADES"
    case Hearts => "HEARTS"
    case Diamonds => "DIAMONDS"
    case Clubs => "CLUBS"
  }

  /** The enum's string value of a rank. */
  function RankName(r: Rank): string
  {
    match r
    case Two => "2"
    case Three => "3"
    case Four => "4"
    case Five => "5"
    case Six => "6"
    case Seven => "7"
    case Eight => "8"
    case Nine => "9"
    case Ten => "10"
    case Jack => "J"
    case Queen => "Q"
    case King => "K"
    case Ace => "A"
  }

  /** The rank value table used for every in-suit comparison: TWO..ACE are 2..14,
      that is, a rank's value is its declaration position plus two. */
  function RankValue(r: Rank): (v: nat)
    ensures 2 <= v <= 14
    ensures Ranks[v - 2] == r
  {
    match r
    case Two => 2
    case Three => 3
    case Four => 4
    case Five => 5
    case Six => 6
    case Seven => 7
    case Eight => 8
    case Nine => 9
    case Ten => 10
    case Jack => 11
    case Queen => 12
    case King => 13
    case Ace => 14
  }

  /** Position of a suit in declaration order. */
  function SuitPos(s: Suit): (i: nat)
    ensures i < |Suits| && Suits[i] == s
  {
    match s
    case Spades => 0
    case Hearts => 1
    case Diamonds => 2
    case Clubs => 3
  }

  /** Position of a rank in declaration order (`indexOf` over the enum's values). */
  function RankPos(r: Rank): (i: nat)
    ensures i < |Ranks| && Ranks[i] == r
  {
    match r
    case Two => 0
    case Three => 1
    case Four => 2
    case Five => 3
    case Six => 4
    case Seven => 5
    case Eight => 6
    case Nine => 7
    case Ten => 8
    case Jack => 9
    case Queen => 10
    case King => 11
    case Ace => 12
  }

  datatype Card = Card(suit: Suit, rank: Rank, id: string)

  datatype Player = Player(
    id: string,
    name: string,
    hand: seq<Card>,
    bid: Option<int>,
    tricksWon: nat,
    score: real,
    isReady: bool)

  datatype GameConfig = GameConfig(playerCount: nat, cardsPerPlayer: nat, deckCount: nat)

  /** One entry of a trick: who played which card. */
  datatype Play = Play(playerId: string, card: Card)

  datatype Trick = Trick(leadSuit: Option<Suit>, cards: seq<Play>, winnerId: Option<string>)

  /** A trick with no cards, no lead suit and no recorded winner. */
  const NoTrick: Trick := Trick(None, [], None)

  datatype Phase = Lobby | Bidding | Playing | RoundEnd | GameEnd

  datatype GameState = GameState(
    id: string,
    players: seq<Player>,
    currentRound: nat,
    currentTrick: Trick,
    currentPlayerIndex: nat,
    phase: Phase,
    config: GameConfig)

  /** The enumerations are exactly four suits and thirteen ranks, each listed once. */
  lemma SuitsEnumerated()
    ensures |Suits| == 4
    ensures forall s: Suit :: s in Suits
    ensures forall i, j :: 0 <= i < j < |Suits| ==> Suits[i] != Suits[j]
  {
    forall s: Suit ensures s in Suits {
      match s
      case Spades => assert Suits[0] == s;
      case Hearts => assert Suits[1] == s;
      case Diamonds => assert Suits[2] == s;
      case Clubs => assert Suits[3] == s;
    }
  }

  lemma RanksDistinct()
    ensures |Ranks| == 13
    ensures forall i, j :: 0 <= i < j < |Ranks| ==> Ranks[i] != Ranks[j]
  {
  }

  lemma RanksEnumerated()
    ensures |Ranks| == 13
    ensures forall r: Rank :: r in Ranks
    ensures forall i, j :: 0 <= i < j < |Ranks| ==> Ranks[i] != Ranks[j]
  {
    RanksDistinct();
    forall r: Rank ensures r in Ranks {
      assert Ranks[RankValue(r) - 2] == r;
    }
  }

  /** The value table follows declaration order exactly, so the order a hand is
      sorted in and the order tricks are won in agree, and two different ranks
      never tie. */
  lemma RankValueFollowsDeclaration()
    ensures forall i :: 0 <= i < |Ranks| ==> RankValue(Ranks[i]) == i + 2
    ensures forall i, j :: 0 <= i < j < |Ranks| ==> RankValue(Ranks[i]) < RankValue(Ranks[j])
    ensures forall r, q :: RankValue(r) == RankValue(q) ==> r == q
  {
    RanksDistinct();
    forall i | 0 <= i < |Ranks| ensures RankValue(Ranks[i]) == i + 2 {
      var v := RankValue(Ranks[i]);
      assert Ranks[v - 2] == Ranks[i];
    }
  }
}
