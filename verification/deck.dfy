/** The deck engine: building one or several 52-card decks with unique ids, the
    Fisher-Yates shuffle, the round-robin deal, and sorting a hand for display. */
module Deck {
  import opened Text
  import opened GameTypes
  import opened Config

  // ---------------------------------------------------------------------------
  // Card ids
  // ---------------------------------------------------------------------------

  /** Id of a card of a single deck: `SUIT-RANK`. */
  function DeckCardId(s: Suit, r: Rank): string
  {
    SuitName(s) + "-" + RankName(r)
  }

  /** Id of a card of deck copy `i` in a pool: `SUIT-RANK-i`. */
  function PoolCardId(s: Suit, r: Rank, i: nat): string
  {
    SuitName(s) + "-" + (RankName(r) + "-" + NatToString(i))
  }

  lemma NamesHaveNoDash(s: Suit, r: Rank)
    ensures '-' !in SuitName(s) && '-' !in RankName(r)
  {
  }

  lemma SuitNameInjective(s: Suit, t: Suit)
    requires SuitName(s) == SuitName(t)
    ensures s == t
  {
    assert SuitName(s)[0] == SuitName(t)[0];
  }

  lemma RankNameInjective(r: Rank, q: Rank)
    requires RankName(r) == RankName(q)
    ensures r == q
  {
    assert RankName(r)[0] == RankName(q)[0];
  }

  /** Single-deck ids name their suit and rank unambiguously. */
  lemma DeckCardIdInjective(s: Suit, r: Rank, s': Suit, r': Rank)
    requires DeckCardId(s, r) == DeckCardId(s', r')
    ensures s == s' && r == r'
  {
    NamesHaveNoDash(s, r);
    NamesHaveNoDash(s', r');
    SplitAtDash(SuitName(s), RankName(r), SuitName(s'), RankName(r'));
    SuitNameInjective(s, s');
    RankNameInjective(r, r');
  }

  /** Pool ids name their suit, rank and deck copy unambiguously, so two cards of
      the same suit and rank from different copies never share an id. */
  lemma PoolCardIdInjective(s: Suit, r: Rank, i: nat, s': Suit, r': Rank, i': nat)
    requires PoolCardId(s, r, i) == PoolCardId(s', r', i')
    ensures s == s' && r == r' && i == i'
  {
    NamesHaveNoDash(s, r);
    NamesHaveNoDash(s', r');
    SplitAtDash(SuitName(s), RankName(r) + "-" + NatToString(i),
                SuitName(s'), RankName(r') + "-" + NatToString(i'));
    SuitNameInjective(s, s');
    SplitAtDash(RankName(r), NatToString(i), RankName(r'), NatToString(i'));
    RankNameInjective(r, r');
    NatToStringInjective(i, i');
  }

  /** No two cards of a sequence share an id. */
  predicate IdsDistinct(cards: seq<Card>)
  {
    forall i, j :: 0 <= i < j < |cards| ==> cards[i].id != cards[j].id
  }

  // ---------------------------------------------------------------------------
  // Building decks
  // ---------------------------------------------------------------------------

  /** The card a plain deck holds at position `p`: suits in the outer loop,
      ranks in the inner one, both in declaration order. */
  function DeckCardAt(p: nat): Card
    requires p < DeckSize
  {
    var s := Suits[p / 13];
    var r := Ranks[p % 13];
    Card(s, r, DeckCardId(s, r))
  }

  function CreateDeck(): (deck: seq<Card>)
    ensures |deck| == DeckSize
  {
    seq(DeckSize, p requires 0 <= p < DeckSize => DeckCardAt(p))
  }

  /** Some card of `cards` has suit `s` and rank `r`. */
  predicate HasCard(cards: seq<Card>, s: Suit, r: Rank)
  {
    exists p :: 0 <= p < |cards| && cards[p].suit == s && cards[p].rank == r
  }

  /** Position `p` of a plain deck determines its suit and rank and vice versa. */
  lemma DeckPositionOfPair(p: nat, q: nat)
    requires p < DeckSize && q < DeckSize
    ensures DeckCardAt(p).suit == Suits[p / 13] && DeckCardAt(p).rank == Ranks[p % 13]
    ensures DeckCardAt(p).suit == DeckCardAt(q).suit && DeckCardAt(p).rank == DeckCardAt(q).rank ==> p == q
  {
    SuitsEnumerated();
    RanksDistinct();
    if DeckCardAt(p).suit == DeckCardAt(q).suit && DeckCardAt(p).rank == DeckCardAt(q).rank {
      assert p / 13 == q / 13;
      assert p % 13 == q % 13;
    }
  }

  /** A plain deck holds exactly one card of every suit and rank, each carrying the
      id `SUIT-RANK`, and no two of its ids coincide. */
  lemma CreateDeckExactlyOnce()
    ensures forall s: Suit, r: Rank :: HasCard(CreateDeck(), s, r)
    ensures forall p, q :: 0 <= p < q < DeckSize ==>
              CreateDeck()[p].suit != CreateDeck()[q].suit || CreateDeck()[p].rank != CreateDeck()[q].rank
    ensures forall p :: 0 <= p < DeckSize ==>
              CreateDeck()[p].id == DeckCardId(CreateDeck()[p].suit, CreateDeck()[p].rank)
    ensures IdsDistinct(CreateDeck())
  {
    var deck := CreateDeck();
    forall s: Suit, r: Rank ensures HasCard(deck, s, r) {
      var p := SuitPos(s) * 13 + RankPos(r);
      assert p / 13 == SuitPos(s) && p % 13 == RankPos(r);
      DeckPositionOfPair(p, p);
      assert deck[p] == DeckCardAt(p);
    }
    forall p, q | 0 <= p < q < DeckSize
      ensures deck[p].suit != deck[q].suit || deck[p].rank != deck[q].rank
    {
      assert deck[p] == DeckCardAt(p) && deck[q] == DeckCardAt(q);
      DeckPositionOfPair(p, q);
    }
    forall p, q | 0 <= p < q < DeckSize ensures deck[p].id != deck[q].id {
      assert deck[p] == DeckCardAt(p) && deck[q] == DeckCardAt(q);
      DeckPositionOfPair(p, q);
      if deck[p].id == deck[q].id {
        DeckCardIdInjective(deck[p].suit, deck[p].rank, deck[q].suit, deck[q].rank);
      }
    }
  }

  /** Deck copy `i` of a pool: a plain deck whose ids carry the copy's index. */
  function NumberedDeck(i: nat): (deck: seq<Card>)
    ensures |deck| == DeckSize
  {
    var plain := CreateDeck();
    seq(DeckSize, p requires 0 <= p < DeckSize =>
      plain[p].(id := PoolCardId(plain[p].suit, plain[p].rank, i)))
  }

  /** The pool of `deckCount` decks: copy `i` occupies positions 52i to 52i+51. */
  function CreateMultipleDecks(deckCount: nat): (pool: seq<Card>)
    ensures |pool| == DeckSize * deckCount
    ensures forall k :: 0 <= k < |pool| ==> pool[k] == NumberedDeck(k / DeckSize)[k % DeckSize]
  {
    if deckCount == 0 then []
    else
      var prev := CreateMultipleDecks(deckCount - 1);
      var pool := prev + NumberedDeck(deckCount - 1);
      assert forall k :: |prev| <= k < |pool| ==>
               k / DeckSize == deckCount - 1 && k % DeckSize == k - |prev|;
      pool
  }

  /** Every card of the pool has id `SUIT-RANK-i`, `i` being its copy's index. */
  predicate HoldsCopy(pool: seq<Card>, s: Suit, r: Rank, i: nat)
  {
    exists k :: 0 <= k < |pool| && pool[k] == Card(s, r, PoolCardId(s, r, i))
  }

  /** Position k of the pool holds card k % 52 of a plain deck, renumbered with
      copy k / 52; two different positions hold different ids. */
  lemma PoolPositionsDiffer(deckCount: nat, k: nat, l: nat)
    requires k < l < DeckSize * deckCount
    ensures CreateMultipleDecks(deckCount)[k].id != CreateMultipleDecks(deckCount)[l].id
  {
    var pool := CreateMultipleDecks(deckCount);
    var plain := CreateDeck();
    var a, b := k % DeckSize, l % DeckSize;
    var i, j := k / DeckSize, l / DeckSize;
    assert k == DeckSize * i + a && l == DeckSize * j + b;
    assert pool[k] == NumberedDeck(i)[a] && pool[l] == NumberedDeck(j)[b];
    assert pool[k].id == PoolCardId(plain[a].suit, plain[a].rank, i);
    assert pool[l].id == PoolCardId(plain[b].suit, plain[b].rank, j);
    if pool[k].id == pool[l].id {
      PoolCardIdInjective(plain[a].suit, plain[a].rank, i, plain[b].suit, plain[b].rank, j);
      assert plain[a] == DeckCardAt(a) && plain[b] == DeckCardAt(b);
      DeckPositionOfPair(a, b);
      assert false;
    }
  }

  /** The pool holds one card of every suit and rank from every copy, and all
      52 * deckCount ids are pairwise distinct, also across copies. */
  lemma PoolIdsDistinct(deckCount: nat)
    ensures forall i: nat, s: Suit, r: Rank :: i < deckCount ==> HoldsCopy(CreateMultipleDecks(deckCount), s, r, i)
    ensures IdsDistinct(CreateMultipleDecks(deckCount))
  {
    var pool := CreateMultipleDecks(deckCount);
    forall i: nat, s: Suit, r: Rank | i < deckCount ensures HoldsCopy(pool, s, r, i) {
      PoolHoldsCopy(deckCount, i, s, r);
    }
    forall k, l | 0 <= k < l < |pool| ensures pool[k].id != pool[l].id {
      PoolPositionsDiffer(deckCount, k, l);
    }
  }

  /** Copy i of the pool holds the card of suit s and rank r, numbered i. */
  lemma PoolHoldsCopy(deckCount: nat, i: nat, s: Suit, r: Rank)
    requires i < deckCount
    ensures HoldsCopy(CreateMultipleDecks(deckCount), s, r, i)
  {
    var pool := CreateMultipleDecks(deckCount);
    var plain := CreateDeck();
    CreateDeckExactlyOnce();
    assert HasCard(plain, s, r);
    var p :| 0 <= p < DeckSize && plain[p].suit == s && plain[p].rank == r;
    var k := DeckSize * i + p;
    MulMonotone(DeckSize, i + 1, deckCount);
    DivModUnique(k, DeckSize, i, p);
    assert pool[k] == NumberedDeck(i)[p];
  }

  // ---------------------------------------------------------------------------
  // Shuffling
  // ---------------------------------------------------------------------------

  function Swap<T>(s: seq<T>, i: nat, j: nat): (r: seq<T>)
    requires i < |s| && j < |s|
    ensures |r| == |s| && multiset(r) == multiset(s)
    ensures r[i] == s[j] && r[j] == s[i]
    ensures forall k :: 0 <= k < |s| && k != i && k != j ==> r[k] == s[k]
  {
    s[i := s[j]][j := s[i]]
  }

  /** Values a random number generator may return: each in [0, 1). */
  predicate UnitDraws(draws: seq<real>)
  {
    forall k :: 0 <= k < |draws| ==> 0.0 <= draws[k] < 1.0
  }

  /** `Math.floor(draw * (i + 1))`: for a draw in [0, 1), an index in [0, i]. */
  function DrawIndex(draw: real, i: nat): (j: nat)
    requires 0.0 <= draw < 1.0
    ensures j <= i
  {
    var m := (i + 1) as real;
    var x := draw * m;
    assert 0.0 <= x < m by {
      var d := 1.0 - draw;
      assert d > 0.0 && m >= 1.0;
      assert d * m >= d * 1.0 by { assert d * m - d * 1.0 == d * (m - 1.0); }
      assert m - x == d * m;
      assert x >= 0.0 * m;
    }
    x.Floor
  }

  /** The passes of the Fisher-Yates loop for positions `i`, `i - 1`, ..., 1; the
      pass for position `i` swaps it with the index drawn by the
      (|s| - 1 - i)-th random draw. */
  function FisherYates<T>(s: seq<T>, draws: seq<real>, i: int): (r: seq<T>)
    requires -1 <= i < |s|
    requires UnitDraws(draws) && |s| <= |draws| + 1
    ensures |r| == |s| && multiset(r) == multiset(s)
    decreases i
  {
    if i <= 0 then s
    else FisherYates(Swap(s, i, DrawIndex(draws[|s| - 1 - i], i)), draws, i - 1)
  }

  /** Fisher-Yates shuffle of a copy of `s`, the generator's values given as
      `draws`: the result is a rearrangement of `s`, and `s` itself is a value
      that no call can change. */
  function Shuffle<T>(s: seq<T>, draws: seq<real>): (r: seq<T>)
    requires UnitDraws(draws) && |s| <= |draws| + 1
    ensures |r| == |s|
    ensures multiset(r) == multiset(s)
  {
    FisherYates(s, draws, |s| - 1)
  }

  /** A card occurring at two positions occurs at least twice in the multiset. */
  lemma CountTwoPositions(s: seq<Card>, i: nat, j: nat)
    requires i < j < |s|
    ensures s[i] == s[j] ==> multiset(s)[s[i]] >= 2
  {
    if s[i] == s[j] {
      assert s == s[..j] + s[j..];
      assert s[..j][i] == s[i];
      assert s[j..][0] == s[i];
      assert multiset(s) == multiset(s[..j]) + multiset(s[j..]);
    }
  }

  /** With distinct ids, every card occurs at most once. */
  lemma {:induction false} DistinctIdsCountAtMostOne(s: seq<Card>, x: Card)
    requires IdsDistinct(s)
    ensures multiset(s)[x] <= 1
    decreases |s|
  {
    if |s| > 0 {
      var rest := s[1..];
      assert s == [s[0]] + rest;
      assert IdsDistinct(rest) by {
        forall i, j | 0 <= i < j < |rest| ensures rest[i].id != rest[j].id {
          assert rest[i] == s[i + 1] && rest[j] == s[j + 1];
        }
      }
      DistinctIdsCountAtMostOne(rest, x);
      if x == s[0] {
        assert x !in rest by {
          forall k | 0 <= k < |rest| ensures rest[k] != x {
            assert rest[k] == s[k + 1];
          }
        }
      }
    }
  }

  /** In a sequence with distinct ids, a card is determined by its id. */
  lemma SameIdSameCard(a: seq<Card>, x: Card, y: Card)
    requires IdsDistinct(a) && x in a && y in a
    ensures x.id == y.id ==> x == y
  {
    var p :| 0 <= p < |a| && a[p] == x;
    var q :| 0 <= q < |a| && a[q] == y;
    assert p != q ==> x.id != y.id;
  }

  /** Rearranging a sequence keeps its ids pairwise distinct. */
  lemma DistinctIdsPermutation(a: seq<Card>, b: seq<Card>)
    requires multiset(a) == multiset(b)
    requires IdsDistinct(a)
    ensures IdsDistinct(b)
  {
    forall i, j | 0 <= i < j < |b| ensures b[i].id != b[j].id {
      assert b[i] in multiset(a) && b[j] in multiset(a);
      SameIdSameCard(a, b[i], b[j]);
      CountTwoPositions(b, i, j);
      DistinctIdsCountAtMostOne(a, b[i]);
    }
  }

  // ---------------------------------------------------------------------------
  // Dealing
  // ---------------------------------------------------------------------------

  lemma MulNonNegative(a: int, b: int)
    requires a >= 0 && b >= 0
    ensures a * b >= 0
  {
  }

  lemma MulMonotone(p: int, a: int, b: int)
    requires p >= 0
    ensures a <= b ==> p * a <= p * b
  {
    if a <= b {
      MulNonNegative(p, b - a);
      assert p * b == p * a + p * (b - a);
    }
  }

  /** A multiple of a positive p strictly between -p and p is zero. */
  lemma SmallMultipleIsZero(p: int, d: int)
    requires p > 0 && -p < p * d < p
    ensures d == 0
  {
    MulMonotone(p, 1, d);
    MulMonotone(p, d, -1);
  }

  /** Euclidean division is unique: a value written as p*q + r with 0 <= r < p has
      quotient q and remainder r. */
  lemma DivModUnique(x: int, p: int, q: int, r: int)
    requires p > 0 && 0 <= r < p && x == p * q + r
    ensures x / p == q && x % p == r
  {
    var q', r' := x / p, x % p;
    assert x == p * q' + r' && 0 <= r' < p;
    assert p * (q - q') == r' - r;
    SmallMultipleIsZero(p, q - q');
  }

  /** Slot `k` of hand `h` in a deal of `c` cards to each of `p` hands is deck
      position h + p*k, which is below p*c ... */
  lemma DealSlotBound(p: nat, c: nat, h: nat, k: nat)
    requires h < p && k < c
    ensures h + p * k < p * c
  {
    MulMonotone(p, k + 1, c);
    assert p * (k + 1) == p * k + p;
  }

  /** ... and that position is read back as hand (h + p*k) % p, slot (h + p*k) / p. */
  lemma DealSlotInverse(p: nat, h: nat, k: nat)
    requires h < p
    ensures (h + p * k) % p == h && (h + p * k) / p == k
  {
    DivModUnique(h + p * k, p, k, h);
  }

  /** Deck position `i` below p*c is slot i/p of hand i%p. */
  lemma DealPosition(p: nat, c: nat, i: nat)
    requires i < p * c
    ensures p > 0
    ensures i % p < p && i / p < c
    ensures i == i % p + p * (i / p)
  {
    MulMonotone(c, 0, p);
    assert c * p == p * c;
    assert p > 0;
    assert i == p * (i / p) + i % p;
    MulMonotone(p, c, i / p);
  }

  function DealtCard(p: nat, c: nat, deck: seq<Card>, h: nat, k: nat): Card
    requires p * c <= |deck| && h < p && k < c
  {
    DealSlotBound(p, c, h, k);
    deck[h + p * k]
  }

  /** The round-robin deal of the first p*c cards of `deck` into `p` hands of `c`. */
  function Deal(p: nat, c: nat, deck: seq<Card>): (hands: seq<seq<Card>>)
    requires p * c <= |deck|
    ensures |hands| == p
    ensures forall h :: 0 <= h < p ==> |hands[h]| == c
  {
    seq(p, h requires 0 <= h < p => seq(c, k requires 0 <= k < c => DealtCard(p, c, deck, h, k)))
  }

  /** Card i of the deck (i below p*c) goes to hand i % p, as that hand's
      (i / p)-th card. */
  lemma DealSlotHolds(p: nat, c: nat, deck: seq<Card>, i: nat)
    requires p * c <= |deck| && i < p * c
    ensures p > 0 && i % p < p && i / p < c
    ensures Deal(p, c, deck)[i % p][i / p] == deck[i]
  {
    DealPosition(p, c, i);
    var h, k := i % p, i / p;
    assert Deal(p, c, deck)[h][k] == DealtCard(p, c, deck, h, k);
  }

  /** Slot k of hand h holds a card from the first p*c cards of the deck. */
  lemma DealSlotFromPrefix(p: nat, c: nat, deck: seq<Card>, h: nat, k: nat)
    requires p * c <= |deck| && h < p && k < c
    ensures Deal(p, c, deck)[h][k] in deck[..p * c]
  {
    DealSlotBound(p, c, h, k);
    assert Deal(p, c, deck)[h][k] == DealtCard(p, c, deck, h, k) == deck[..p * c][h + p * k];
  }

  /** Card i of the deck (i below p*c) goes to hand i % p, as that hand's
      (i / p)-th card, and every dealt card comes from the first p*c cards: the
      cards from position p*c on stay undealt. */
  lemma DealRoundRobin(p: nat, c: nat, deck: seq<Card>)
    requires p * c <= |deck|
    ensures forall i :: 0 <= i < p * c ==> Deal(p, c, deck)[i % p][i / p] == deck[i]
    ensures forall h, k :: 0 <= h < p && 0 <= k < c ==> Deal(p, c, deck)[h][k] in deck[..p * c]
  {
    forall i | 0 <= i < p * c ensures Deal(p, c, deck)[i % p][i / p] == deck[i] {
      DealSlotHolds(p, c, deck, i);
    }
    forall h, k | 0 <= h < p && 0 <= k < c ensures Deal(p, c, deck)[h][k] in deck[..p * c] {
      DealSlotFromPrefix(p, c, deck, h, k);
    }
  }

  /** No two dealt cards, in the same hand or in different hands, share an id. */
  predicate HandsIdsDistinct(hands: seq<seq<Card>>)
  {
    forall h1, k1, h2, k2 ::
      0 <= h1 < |hands| && 0 <= k1 < |hands[h1]| && 0 <= h2 < |hands| && 0 <= k2 < |hands[h2]|
      && (h1 != h2 || k1 != k2)
      ==> hands[h1][k1].id != hands[h2][k2].id
  }

  /** Dealing from a deck with distinct ids deals cards with distinct ids. */
  lemma DealIdsDistinct(p: nat, c: nat, deck: seq<Card>)
    requires p * c <= |deck| && IdsDistinct(deck)
    ensures HandsIdsDistinct(Deal(p, c, deck))
  {
    var hands: seq<seq<Card>> := Deal(p, c, deck);
    forall h1: int, k1: int, h2: int, k2: int |
      0 <= h1 < |hands| && 0 <= k1 < |hands[h1]| && 0 <= h2 < |hands| && 0 <= k2 < |hands[h2]|
      && (h1 != h2 || k1 != k2)
      ensures hands[h1][k1].id != hands[h2][k2].id
    {
      DealSlotBound(p, c, h1, k1);
      DealSlotBound(p, c, h2, k2);
      DealSlotInverse(p, h1, k1);
      DealSlotInverse(p, h2, k2);
      var i1, i2 := h1 + p * k1, h2 + p * k2;
      assert hands[h1][k1] == deck[i1] && hands[h2][k2] == deck[i2];
      assert i1 % p == h1 && i1 / p == k1 && i2 % p == h2 && i2 / p == k2;
    }
  }

  /** Two sequences with the same multiset have the same members. */
  lemma PermutationMembers(a: seq<Card>, b: seq<Card>)
    requires multiset(a) == multiset(b)
    ensures forall x :: x in a <==> x in b
    ensures forall n, x :: 0 <= n <= |a| && x in a[..n] ==> x in b
  {
    forall x ensures x in a <==> x in b {
      assert x in a <==> x in multiset(a);
      assert x in b <==> x in multiset(b);
    }
  }

  /** `dealCards`: shuffle a fresh pool of `deckCount` decks and deal `c` cards to
      each of `p` hands. Every hand gets exactly `c` cards, every card dealt comes
      from the pool, and no id is dealt twice. */
  function DealCards(p: nat, c: nat, deckCount: nat, draws: seq<real>): (hands: seq<seq<Card>>)
    requires p * c <= DeckSize * deckCount
    requires UnitDraws(draws) && DeckSize * deckCount <= |draws| + 1
    ensures |hands| == p
    ensures forall h :: 0 <= h < p ==> |hands[h]| == c
    ensures forall h, k :: 0 <= h < p && 0 <= k < c ==> hands[h][k] in CreateMultipleDecks(deckCount)
    ensures HandsIdsDistinct(hands)
  {
    var pool := CreateMultipleDecks(deckCount);
    var shuffled := Shuffle(pool, draws);
    PoolIdsDistinct(deckCount);
    DistinctIdsPermutation(pool, shuffled);
    DealIdsDistinct(p, c, shuffled);
    DealRoundRobin(p, c, shuffled);
    PermutationMembers(shuffled, pool);
    Deal(p, c, shuffled)
  }

  // ---------------------------------------------------------------------------
  // Sorting a hand
  // ---------------------------------------------------------------------------

  /** Display order of the suits in a sorted hand. */
  const SuitOrder: seq<Suit> := [Spades, Hearts, Diamonds, Clubs]

  /** `suitOrder.indexOf(s)`. */
  function SuitOrderPos(s: Suit): (i: nat)
    ensures i < |SuitOrder| && SuitOrder[i] == s
  {
    match s
    case Spades => 0
    case Hearts => 1
    case Diamonds => 2
    case Clubs => 3
  }

  /** The comparator: difference of suit positions in display order, and on equal
      suits the difference of rank positions in declaration order. */
  function CompareCards(a: Card, b: Card): (r: int)
    ensures r < 0 <==> SuitOrderPos(a.suit) < SuitOrderPos(b.suit)
                       || (a.suit == b.suit && RankPos(a.rank) < RankPos(b.rank))
    ensures r == 0 <==> a.suit == b.suit && a.rank == b.rank
  {
    var suitCompare := SuitOrderPos(a.suit) - SuitOrderPos(b.suit);
    if suitCompare != 0 then suitCompare else RankPos(a.rank) - RankPos(b.rank)
  }

  /** The single number the comparator orders by: suit position, then rank position. */
  function SortKey(c: Card): nat
  {
    SuitOrderPos(c.suit) * 13 + RankPos(c.rank)
  }

  /** The comparator is the numeric order of sort keys, so it is a total preorder ... */
  lemma CompareCardsIsKeyOrder(a: Card, b: Card)
    ensures CompareCards(a, b) < 0 <==> SortKey(a) < SortKey(b)
    ensures CompareCards(a, b) == 0 <==> SortKey(a) == SortKey(b)
  {
  }

  /** ... and two cards compare equal exactly when they have the same suit and rank. */
  lemma SortKeyIsSuitAndRank(a: Card, b: Card)
    ensures SortKey(a) == SortKey(b) <==> a.suit == b.suit && a.rank == b.rank
  {
  }

  predicate SortedByKey(s: seq<Card>)
  {
    forall i, j :: 0 <= i < j < |s| ==> SortKey(s[i]) <= SortKey(s[j])
  }

  /** Inserts `x` before the first card that does not compare below it. */
  function InsertCard(x: Card, sorted: seq<Card>): (r: seq<Card>)
    ensures |r| == |sorted| + 1
    ensures multiset(r) == multiset(sorted) + multiset{x}
  {
    if |sorted| == 0 || CompareCards(x, sorted[0]) <= 0 then [x] + sorted
    else
      assert sorted == [sorted[0]] + sorted[1..];
      [sorted[0]] + InsertCard(x, sorted[1..])
  }

  lemma {:induction false} InsertCardLowerBound(x: Card, t: seq<Card>, m: int)
    requires SortKey(x) >= m
    requires forall k :: 0 <= k < |t| ==> SortKey(t[k]) >= m
    ensures forall k :: 0 <= k < |InsertCard(x, t)| ==> SortKey(InsertCard(x, t)[k]) >= m
    decreases |t|
  {
    if |t| > 0 && CompareCards(x, t[0]) > 0 {
      InsertCardLowerBound(x, t[1..], m);
    }
  }

  lemma {:induction false} InsertCardSorted(x: Card, sorted: seq<Card>)
    requires SortedByKey(sorted)
    ensures SortedByKey(InsertCard(x, sorted))
    decreases |sorted|
  {
    if |sorted| == 0 || CompareCards(x, sorted[0]) <= 0 {
      CompareCardsIsKeyOrder(x, if |sorted| == 0 then x else sorted[0]);
    } else {
      CompareCardsIsKeyOrder(x, sorted[0]);
      InsertCardSorted(x, sorted[1..]);
      InsertCardLowerBound(x, sorted[1..], SortKey(sorted[0]));
    }
  }

  /** `sortHand`: a sorted copy of the hand (insertion sort; see SortHandStable and
      StableSortUnique for why the choice of algorithm does not matter). */
  function SortHand(hand: seq<Card>): (r: seq<Card>)
    ensures |r| == |hand|
    ensures multiset(r) == multiset(hand)
    ensures SortedByKey(r)
  {
    if |hand| == 0 then []
    else
      assert hand == [hand[0]] + hand[1..];
      InsertCardSorted(hand[0], SortHand(hand[1..]));
      InsertCard(hand[0], SortHand(hand[1..]))
  }

  /** `[x]` when `x` has sort key `key`, otherwise nothing. */
  function Kept(x: Card, key: nat): seq<Card>
  {
    if SortKey(x) == key then [x] else []
  }

  /** The cards of `s` with sort key `key`, in their order in `s`. */
  function WithKey(s: seq<Card>, key: nat): seq<Card>
  {
    if |s| == 0 then [] else Kept(s[0], key) + WithKey(s[1..], key)
  }

  /** Filtering a sequence with a card in front by key. */
  lemma WithKeyCons(x: Card, t: seq<Card>, key: nat)
    ensures WithKey([x] + t, key) == Kept(x, key) + WithKey(t, key)
  {
    assert ([x] + t)[0] == x && ([x] + t)[1..] == t;
  }

  /** A card `y` of another key than `x` may be moved in front of `x` without
      changing what either key's filter sees. */
  lemma WithKeyPastOther(y: Card, x: Card, rest: seq<Card>, tail: seq<Card>, key: nat)
    requires SortKey(x) != SortKey(y)
    requires WithKey(rest, key) == Kept(x, key) + WithKey(tail, key)
    ensures WithKey([y] + rest, key) == Kept(x, key) + WithKey([y] + tail, key)
  {
    WithKeyCons(y, rest, key);
    WithKeyCons(y, tail, key);
    var w := WithKey(tail, key);
    if SortKey(x) == key {
      assert Kept(y, key) == [];
      assert [] + ([x] + w) == [x] + ([] + w);
    } else {
      assert Kept(x, key) == [];
      assert [] + w == w;
      assert [] + (Kept(y, key) + w) == Kept(y, key) + w;
    }
  }

  lemma {:induction false} InsertCardWithKey(x: Card, t: seq<Card>, key: nat)
    ensures WithKey(InsertCard(x, t), key) == Kept(x, key) + WithKey(t, key)
    decreases |t|
  {
    if |t| == 0 || CompareCards(x, t[0]) <= 0 {
      WithKeyCons(x, t, key);
    } else {
      CompareCardsIsKeyOrder(x, t[0]);
      InsertCardWithKey(x, t[1..], key);
      assert InsertCard(x, t) == [t[0]] + InsertCard(x, t[1..]);
      assert t == [t[0]] + t[1..];
      WithKeyPastOther(t[0], x, InsertCard(x, t[1..]), t[1..], key);
    }
  }

  /** Sorting is stable: for every key, the cards with that key appear in the
      sorted hand in the order they had in the input. */
  lemma {:induction false} SortHandStable(hand: seq<Card>, key: nat)
    ensures WithKey(SortHand(hand), key) == WithKey(hand, key)
    decreases |hand|
  {
    if |hand| > 0 {
      SortHandStable(hand[1..], key);
      InsertCardWithKey(hand[0], SortHand(hand[1..]), key);
    }
  }

  lemma {:induction false} WithKeyMembers(s: seq<Card>, key: nat, x: Card)
    ensures x in WithKey(s, key) <==> x in s && SortKey(x) == key
    decreases |s|
  {
    if |s| > 0 {
      WithKeyMembers(s[1..], key, x);
      assert s == [s[0]] + s[1..];
    }
  }

  /** Two sorted sequences that list the same cards for every key start with the
      same card: both start with a card of the smallest key present, and the
      first card of that key is the same in both. */
  lemma StableSortSameHead(a: seq<Card>, b: seq<Card>)
    requires SortedByKey(a) && SortedByKey(b) && |a| > 0 && |b| > 0
    requires forall key: nat :: WithKey(a, key) == WithKey(b, key)
    ensures a[0] == b[0]
  {
    var ka, kb := SortKey(a[0]), SortKey(b[0]);
    WithKeyMembers(a, ka, a[0]);
    WithKeyMembers(b, ka, a[0]);
    WithKeyMembers(a, kb, b[0]);
    WithKeyMembers(b, kb, b[0]);
    assert ka == kb;
    assert WithKey(a, ka) == [a[0]] + WithKey(a[1..], ka);
    assert WithKey(b, ka) == [b[0]] + WithKey(b[1..], ka);
    assert WithKey(a, ka)[0] == a[0] && WithKey(b, ka)[0] == b[0];
  }

  /** Dropping the same first card from both keeps the per-key lists equal. */
  lemma StableSortTails(a: seq<Card>, b: seq<Card>)
    requires |a| > 0 && |b| > 0 && a[0] == b[0]
    requires forall key: nat :: WithKey(a, key) == WithKey(b, key)
    ensures forall key: nat :: WithKey(a[1..], key) == WithKey(b[1..], key)
  {
    forall key: nat ensures WithKey(a[1..], key) == WithKey(b[1..], key) {
      var head := if SortKey(a[0]) == key then [a[0]] else [];
      assert WithKey(a, key) == head + WithKey(a[1..], key);
      assert WithKey(b, key) == head + WithKey(b[1..], key);
      assert WithKey(a[1..], key) == WithKey(a, key)[|head|..];
      assert WithKey(b[1..], key) == WithKey(b, key)[|head|..];
    }
  }

  /** A sorted sequence whose cards with each key are listed in a given order is
      determined by those orders: any two stable sorts of a hand agree, so the
      engine's choice of sorting algorithm cannot change a sorted hand. */
  lemma {:induction false} StableSortUnique(a: seq<Card>, b: seq<Card>)
    requires SortedByKey(a) && SortedByKey(b)
    requires forall key: nat :: WithKey(a, key) == WithKey(b, key)
    ensures a == b
    decreases |a|
  {
    if |a| == 0 || |b| == 0 {
      if |a| > 0 {
        WithKeyMembers(a, SortKey(a[0]), a[0]);
        WithKeyMembers(b, SortKey(a[0]), a[0]);
      } else if |b| > 0 {
        WithKeyMembers(a, SortKey(b[0]), b[0]);
        WithKeyMembers(b, SortKey(b[0]), b[0]);
      }
    } else {
      StableSortSameHead(a, b);
      StableSortTails(a, b);
      assert SortedByKey(a[1..]) && SortedByKey(b[1..]);
      StableSortUnique(a[1..], b[1..]);
      assert a == [a[0]] + a[1..] && b == [b[0]] + b[1..];
    }
  }

  /** Sorting the hands one by one keeps all dealt ids distinct. */
  lemma SortedHandsIdsDistinct(hands: seq<seq<Card>>, sorted: seq<seq<Card>>)
    requires HandsIdsDistinct(hands) && |sorted| == |hands|
    requires forall h :: 0 <= h < |hands| ==> multiset(sorted[h]) == multiset(hands[h])
    ensures HandsIdsDistinct(sorted)
  {
    forall h1: int, k1: int, h2: int, k2: int |
      0 <= h1 < |sorted| && 0 <= k1 < |sorted[h1]| && 0 <= h2 < |sorted| && 0 <= k2 < |sorted[h2]|
      && (h1 != h2 || k1 != k2)
      ensures sorted[h1][k1].id != sorted[h2][k2].id
    {
      if h1 == h2 {
        var hand := hands[h1];
        assert IdsDistinct(hand) by {
          forall i, j | 0 <= i < j < |hand| ensures hand[i].id != hand[j].id {
          }
        }
        DistinctIdsPermutation(hand, sorted[h1]);
        if k1 > k2 {
          assert sorted[h1][k2].id != sorted[h1][k1].id;
        }
      } else {
        assert sorted[h1][k1] in multiset(hands[h1]);
        assert sorted[h2][k2] in multiset(hands[h2]);
        var a :| 0 <= a < |hands[h1]| && hands[h1][a] == sorted[h1][k1];
        var b :| 0 <= b < |hands[h2]| && hands[h2][b] == sorted[h2][k2];
        assert hands[h1][a].id != hands[h2][b].id;
      }
    }
  }

  /** Sorting the hands one by one keeps every card inside the pool. */
  lemma SortedHandsFromPool(hands: seq<seq<Card>>, sorted: seq<seq<Card>>, pool: seq<Card>)
    requires |sorted| == |hands|
    requires forall h :: 0 <= h < |hands| ==> multiset(sorted[h]) == multiset(hands[h])
    requires forall h, k :: 0 <= h < |hands| && 0 <= k < |hands[h]| ==> hands[h][k] in pool
    ensures forall h, k :: 0 <= h < |sorted| && 0 <= k < |sorted[h]| ==> sorted[h][k] in pool
  {
    forall h, k | 0 <= h < |sorted| && 0 <= k < |sorted[h]| ensures sorted[h][k] in pool {
      assert sorted[h][k] in multiset(hands[h]);
      var a :| 0 <= a < |hands[h]| && hands[h][a] == sorted[h][k];
    }
  }
}
