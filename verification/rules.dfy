/** Trick-taking rules: who wins a trick (spades are always trump), which cards
    may legally be played, and how a round is scored. */
module Rules {
  import opened GameTypes

  const Trump: Suit := Spades

  function Value(play: Play): nat
  {
    RankValue(play.card.rank)
  }

  // ---------------------------------------------------------------------------
  // Trick winner
  // ---------------------------------------------------------------------------

  /** One step of the winner fold: does the newly played `current` replace the
      running `winning` entry? Trump beats non-trump; a non-trump never beats a
      trump; within a suit the strictly higher value wins; a lead-suit card beats
      a running winner that is neither trump nor of the lead suit. */
  predicate Beats(current: Play, winning: Play, leadSuit: Option<Suit>)
    ensures Beats(current, winning, leadSuit) ==>
              current.card.suit == Trump || current.card.suit == winning.card.suit
              || Some(current.card.suit) == leadSuit
  {
    if current.card.suit == Trump && winning.card.suit != Trump then true
    else if winning.card.suit == Trump && current.card.suit != Trump then false
    else if current.card.suit == winning.card.suit then Value(current) > Value(winning)
    else
      Some(current.card.suit) == leadSuit
      && winning.card.suit != Trump
      && Some(winning.card.suit) != leadSuit
  }

  /** The loop of `determineTrickWinner`: the position of the running winner after
      the first |cards| entries have been folded in. */
  function WinnerIndex(cards: seq<Play>, leadSuit: Option<Suit>): (w: nat)
    requires |cards| > 0
    ensures w < |cards|
  {
    if |cards| == 1 then 0
    else
      var last := |cards| - 1;
      var w := WinnerIndex(cards[..last], leadSuit);
      if Beats(cards[last], cards[w], leadSuit) then last else w
  }

  predicate HasSuit(cards: seq<Play>, s: Suit)
  {
    exists j :: 0 <= j < |cards| && cards[j].card.suit == s
  }

  /** The suit whose highest card takes the trick: trump when any was played;
      otherwise the lead suit when some card follows it; otherwise the suit of
      the first card. */
  function ControllingSuit(cards: seq<Play>, leadSuit: Option<Suit>): Suit
    requires |cards| > 0
  {
    if HasSuit(cards, Trump) then Trump
    else if leadSuit.Some? && HasSuit(cards, leadSuit.value) then leadSuit.value
    else cards[0].card.suit
  }

  /** Reference definition of the winning entry: a card of the controlling suit
      with the greatest value, the earliest played among equal values. */
  predicate IsTrickWinner(cards: seq<Play>, leadSuit: Option<Suit>, i: int)
  {
    && 0 <= i < |cards|
    && var t := ControllingSuit(cards, leadSuit);
    && cards[i].card.suit == t
    && (forall j :: 0 <= j < |cards| && cards[j].card.suit == t ==> Value(cards[j]) <= Value(cards[i]))
    && (forall j :: 0 <= j < i && cards[j].card.suit == t ==> Value(cards[j]) < Value(cards[i]))
  }

  /** The new card takes control of the trick away from the suit `t` that had
      it: a trump against a non-trump suit, or a lead-suit card against a suit
      that is neither trump nor the lead suit. */
  predicate Overrides(current: Play, t: Suit, leadSuit: Option<Suit>)
  {
    current.card.suit != t
    && (current.card.suit == Trump || (Some(current.card.suit) == leadSuit && t != Trump && Some(t) != leadSuit))
  }

  /** A step of the fold replaces the running winner exactly when the new card
      is higher in the winner's suit or takes control away from that suit. */
  lemma BeatsStep(current: Play, winning: Play, leadSuit: Option<Suit>)
    ensures Beats(current, winning, leadSuit) <==>
              (current.card.suit == winning.card.suit && Value(current) > Value(winning))
              || Overrides(current, winning.card.suit, leadSuit)
  {
  }

  /** How the controlling suit moves when a card is added: it stays unless the
      card takes control, and then the card is the first of the new suit. */
  lemma ControllingSuitStep(cards: seq<Play>, leadSuit: Option<Suit>)
    requires |cards| > 1
    ensures var last := |cards| - 1;
            var t := ControllingSuit(cards[..last], leadSuit);
            var c := cards[last];
            && (!Overrides(c, t, leadSuit) ==> ControllingSuit(cards, leadSuit) == t)
            && (Overrides(c, t, leadSuit) ==>
                  ControllingSuit(cards, leadSuit) == c.card.suit
                  && forall j :: 0 <= j < last ==> cards[j].card.suit != c.card.suit)
  {
    var last := |cards| - 1;
    var prefix := cards[..last];
    var c := cards[last];
    assert forall j :: 0 <= j < last ==> prefix[j] == cards[j];
    assert HasSuit(cards, Trump) <==> HasSuit(prefix, Trump) || c.card.suit == Trump;
    assert leadSuit.Some? ==>
      (HasSuit(cards, leadSuit.value) <==> HasSuit(prefix, leadSuit.value) || c.card.suit == leadSuit.value);
    assert cards[0] == prefix[0];
  }

  /** A fold step that keeps the running winner keeps the reference winner. */
  lemma FoldKeepsWinner(cards: seq<Play>, leadSuit: Option<Suit>, w: nat)
    requires |cards| > 1
    requires IsTrickWinner(cards[..|cards| - 1], leadSuit, w)
    requires !Beats(cards[|cards| - 1], cards[w], leadSuit)
    ensures IsTrickWinner(cards, leadSuit, w)
  {
    var last := |cards| - 1;
    var prefix := cards[..last];
    var c := cards[last];
    assert forall j :: 0 <= j < last ==> prefix[j] == cards[j];
    BeatsStep(c, cards[w], leadSuit);
    ControllingSuitStep(cards, leadSuit);
  }

  /** A fold step that replaces the running winner lands on the reference winner. */
  lemma FoldReplacesWinner(cards: seq<Play>, leadSuit: Option<Suit>, w: nat)
    requires |cards| > 1
    requires IsTrickWinner(cards[..|cards| - 1], leadSuit, w)
    requires Beats(cards[|cards| - 1], cards[w], leadSuit)
    ensures IsTrickWinner(cards, leadSuit, |cards| - 1)
  {
    var last := |cards| - 1;
    var prefix := cards[..last];
    var c := cards[last];
    assert forall j :: 0 <= j < last ==> prefix[j] == cards[j];
    BeatsStep(c, cards[w], leadSuit);
    ControllingSuitStep(cards, leadSuit);
  }

  /** The fold invariant: after each entry, the running winner is the reference
      winner of the entries folded so far. */
  lemma {:induction false} WinnerIndexIsTrickWinner(cards: seq<Play>, leadSuit: Option<Suit>)
    requires |cards| > 0
    ensures IsTrickWinner(cards, leadSuit, WinnerIndex(cards, leadSuit))
    decreases |cards|
  {
    if |cards| > 1 {
      var last := |cards| - 1;
      var w := WinnerIndex(cards[..last], leadSuit);
      WinnerIndexIsTrickWinner(cards[..last], leadSuit);
      if Beats(cards[last], cards[w], leadSuit) {
        FoldReplacesWinner(cards, leadSuit, w);
      } else {
        FoldKeepsWinner(cards, leadSuit, w);
      }
    }
  }

  /** There is exactly one reference winner, so the fold's answer is the only one. */
  lemma TrickWinnerUnique(cards: seq<Play>, leadSuit: Option<Suit>, i: int)
    requires |cards| > 0
    ensures IsTrickWinner(cards, leadSuit, i) <==> i == WinnerIndex(cards, leadSuit)
  {
    var w := WinnerIndex(cards, leadSuit);
    WinnerIndexIsTrickWinner(cards, leadSuit);
    if IsTrickWinner(cards, leadSuit, i) {
      assert !(i < w) && !(w < i);
    }
  }

  /** `determineTrickWinner`: fails on a trick with no cards; otherwise the player
      of the unique reference winner. */
  function DetermineTrickWinner(trick: Trick): (r: Result<string>)
    ensures |trick.cards| == 0 <==> r == Err(EmptyTrick)
    ensures |trick.cards| > 0 <==> r.Ok?
    ensures r.Ok? ==> exists i :: IsTrickWinner(trick.cards, trick.leadSuit, i)
                                 && r.value == trick.cards[i].playerId
  {
    if |trick.cards| == 0 then Err(EmptyTrick)
    else
      var w := WinnerIndex(trick.cards, trick.leadSuit);
      WinnerIndexIsTrickWinner(trick.cards, trick.leadSuit);
      Ok(trick.cards[w].playerId)
  }

  /** With any trump in the trick, the winner played a trump of the greatest
      value, and every earlier trump is strictly lower, so of two equal trumps
      (two decks) the first played wins. */
  lemma HighestTrumpWins(cards: seq<Play>, leadSuit: Option<Suit>)
    requires HasSuit(cards, Trump)
    ensures var w := WinnerIndex(cards, leadSuit);
            && cards[w].card.suit == Trump
            && (forall j :: 0 <= j < |cards| && cards[j].card.suit == Trump ==> Value(cards[j]) <= Value(cards[w]))
            && (forall j :: 0 <= j < w && cards[j].card.suit == Trump ==> Value(cards[j]) < Value(cards[w]))
  {
    WinnerIndexIsTrickWinner(cards, leadSuit);
  }

  /** With no trump, and the first card of the lead suit, the winner played the
      highest lead-suit card, the earliest among equals; off-suit cards never win. */
  lemma HighestLeadSuitWins(cards: seq<Play>, lead: Suit)
    requires |cards| > 0 && !HasSuit(cards, Trump) && cards[0].card.suit == lead
    ensures var w := WinnerIndex(cards, Some(lead));
            && cards[w].card.suit == lead
            && (forall j :: 0 <= j < |cards| && cards[j].card.suit == lead ==> Value(cards[j]) <= Value(cards[w]))
            && (forall j :: 0 <= j < w && cards[j].card.suit == lead ==> Value(cards[j]) < Value(cards[w]))
  {
    WinnerIndexIsTrickWinner(cards, Some(lead));
  }

  // ---------------------------------------------------------------------------
  // Legal plays
  // ---------------------------------------------------------------------------

  /** Some card of the hand is of the given suit (`hand.some(c => c.suit === s)`). */
  predicate Holds(hand: seq<Card>, s: Option<Suit>)
  {
    exists k :: 0 <= k < |hand| && Some(hand[k].suit) == s
  }

  /** `canPlayCard`: any card leads an empty trick; otherwise a card off the lead
      suit is refused exactly when the hand still holds the lead suit. Trump is
      never singled out: it may lead, and it is only refused like any other
      off-suit card. */
  function CanPlayCard(card: Card, hand: seq<Card>, trick: Trick): (ok: bool)
    ensures |trick.cards| == 0 ==> ok
    ensures |trick.cards| > 0 ==>
              (!ok <==> Holds(hand, trick.leadSuit) && Some(card.suit) != trick.leadSuit)
  {
    if |trick.cards| == 0 then true
    else
      var hasLeadSuit := Holds(hand, trick.leadSuit);
      !(hasLeadSuit && Some(card.suit) != trick.leadSuit)
  }

  /** Play can never get stuck: a non-empty hand always holds a legal card, and
      a hand void in the lead suit may play any of its cards, trump or not. */
  lemma SomeCardIsPlayable(hand: seq<Card>, trick: Trick)
    requires |hand| > 0
    ensures exists k :: 0 <= k < |hand| && CanPlayCard(hand[k], hand, trick)
    ensures !Holds(hand, trick.leadSuit) ==> forall k :: 0 <= k < |hand| ==> CanPlayCard(hand[k], hand, trick)
  {
    if |trick.cards| > 0 && Holds(hand, trick.leadSuit) {
      var k :| 0 <= k < |hand| && Some(hand[k].suit) == trick.leadSuit;
      assert CanPlayCard(hand[k], hand, trick);
    } else {
      assert CanPlayCard(hand[0], hand, trick);
    }
  }

  // ---------------------------------------------------------------------------
  // Scoring
  // ---------------------------------------------------------------------------

  /** `calculateRoundScore`: a made bid scores the bid plus a tenth per extra
      trick; a missed bid loses the whole bid, however close it came. */
  function CalculateRoundScore(bid: int, tricksWon: int): (score: real)
    ensures tricksWon >= bid ==> bid as real <= score
    ensures tricksWon >= bid ==> score * 10.0 == (9 * bid + tricksWon) as real
    ensures tricksWon < bid ==> score == -(bid as real)
  {
    if tricksWon >= bid then
      var baseScore := bid as real;
      var extraTricks := (tricksWon - bid) as real;
      baseScore + extraTricks * 0.1
    else
      -(bid as real)
  }

  /** The worked examples: (5,5) scores 5, (3,3) scores 3, (5,7) scores 5.2,
      (5,3) scores -5, (8,7) scores -8. */
  lemma RoundScoreExamples()
    ensures CalculateRoundScore(5, 5) == 5.0
    ensures CalculateRoundScore(3, 3) == 3.0
    ensures CalculateRoundScore(5, 7) == 5.2
    ensures CalculateRoundScore(5, 3) == -5.0
    ensures CalculateRoundScore(8, 7) == -8.0
  {
  }

  /** For a non-negative bid, winning more tricks never lowers the score, and a
      made bid always beats a missed one. */
  lemma RoundScoreMonotone(bid: int, t1: int, t2: int)
    requires bid >= 0 && t1 <= t2
    ensures CalculateRoundScore(bid, t1) <= CalculateRoundScore(bid, t2)
    ensures t1 < bid <= t2 && bid > 0 ==> CalculateRoundScore(bid, t1) < 0.0 < CalculateRoundScore(bid, t2)
  {
  }
}
