/**
 * Facts about the 52-card deck shared by both game engines: the order
 * `init_deck` writes before shuffling, its rank composition, and what a
 * swap does to the multiset of cards.
 */
module Deck {
  import opened GameTypes
  import Hand

  /** The ranks 1 to n in increasing order. */
  function Ranks(n: nat): (s: seq<int>)
    ensures |s| == n
  {
    if n == 0 then [] else Ranks(n - 1) + [n]
  }

  /** One suit, Ace to King. */
  function Suit(): seq<int>
  {
    Ranks(13)
  }

  lemma {:induction false} RanksAt(n: nat, k: int)
    requires 0 <= k < n
    ensures Ranks(n)[k] == k + 1
  {
    if k < n - 1 {
      RanksAt(n - 1, k);
    }
  }

  lemma {:induction false} RanksCount(n: nat, r: int)
    ensures multiset(Ranks(n))[r] == if 1 <= r <= n then 1 else 0
  {
    if n > 0 {
      RanksCount(n - 1, r);
    }
  }

  /** The deck before shuffling: four suits one after the other. */
  function StandardDeck(): (d: seq<int>)
    ensures |d| == DECK_SIZE
  {
    Suit() + Suit() + Suit() + Suit()
  }

  /** A deck holding exactly the cards of a standard deck, in some order:
      52 cards, four of each rank and nothing else. */
  ghost predicate IsFullDeck(d: seq<int>)
  {
    |d| == DECK_SIZE && forall r :: multiset(d)[r] == if Hand.IsRank(r) then 4 else 0
  }

  /** Position `k` of the unshuffled deck holds rank `k % 13 + 1`. */
  lemma StandardDeckAt(k: int)
    requires 0 <= k < DECK_SIZE
    ensures StandardDeck()[k] == k % 13 + 1
  {
    var s := Suit();
    var d := StandardDeck();
    assert d == ((s + s) + s) + s;
    if k < 13 {
      RanksAt(13, k);
      assert d[k] == s[k];
    } else if k < 26 {
      RanksAt(13, k - 13);
      assert k % 13 == k - 13;
      assert d[k] == (s + s)[k] == s[k - 13];
    } else if k < 39 {
      RanksAt(13, k - 26);
      assert k % 13 == k - 26;
      assert d[k] == ((s + s) + s)[k] == s[k - 26];
    } else {
      RanksAt(13, k - 39);
      assert k % 13 == k - 39;
      assert d[k] == s[k - 39];
    }
  }

  lemma SuitRanks(r: int)
    ensures multiset(Suit())[r] == if Hand.IsRank(r) then 1 else 0
  {
    RanksCount(13, r);
  }

  /** Every rank 1..13 occurs exactly four times, and nothing else occurs. */
  lemma StandardDeckRanks(r: int)
    ensures multiset(StandardDeck())[r] == if Hand.IsRank(r) then 4 else 0
  {
    SuitRanks(r);
    var s := Suit();
    assert multiset(s + s + s + s) == multiset(s) + multiset(s) + multiset(s) + multiset(s);
  }

  lemma StandardDeckIsFull()
    ensures IsFullDeck(StandardDeck())
  {
    forall r
      ensures multiset(StandardDeck())[r] == if Hand.IsRank(r) then 4 else 0
    {
      StandardDeckRanks(r);
    }
  }

  /** The order `init_deck` writes is a full deck. */
  lemma InitOrderIsFull(d: seq<int>)
    requires |d| == DECK_SIZE && forall k :: 0 <= k < DECK_SIZE ==> d[k] == k % 13 + 1
    ensures IsFullDeck(d)
  {
    forall k | 0 <= k < DECK_SIZE
      ensures d[k] == StandardDeck()[k]
    {
      StandardDeckAt(k);
    }
    assert d == StandardDeck();
    StandardDeckIsFull();
  }

  /** Reordering a full deck gives a full deck. */
  lemma PermutedFullDeck(d: seq<int>, e: seq<int>)
    requires IsFullDeck(d) && multiset(e) == multiset(d)
    ensures IsFullDeck(e)
  {
    assert |multiset(e)| == |e| && |multiset(d)| == |d|;
  }

  /** Every card of a full deck is a rank, whatever its order. */
  lemma FullDeckHoldsRanks(d: seq<int>, k: int)
    requires IsFullDeck(d) && 0 <= k < |d|
    ensures Hand.IsRank(d[k])
  {
    assert d[k] in multiset(d);
  }

  /** Exchanging two positions keeps the multiset of cards. */
  lemma SwapPermutes(s: seq<int>, i: int, j: int)
    requires 0 <= i < |s| && 0 <= j < |s|
    ensures multiset(s[i := s[j]][j := s[i]]) == multiset(s)
  {
  }

  /** One draw from the shared deck, as both `deal_card` and `draw_card` do it:
      a cursor at the end first rebuilds (a new full deck, cursor 0); then the
      card under the cursor is returned and the cursor moves on by one. */
  twostate predicate Drew(gs: GameState, card: int)
    reads gs, gs.deck
    ensures Drew(gs, card) ==> 0 < gs.deckIdx <= gs.deck.Length && card == gs.deck[gs.deckIdx - 1]
  {
    if old(gs.deckIdx) >= DECK_SIZE then
      && IsFullDeck(gs.deck[..])
      && gs.deckIdx == 1
      && 0 < gs.deck.Length
      && card == gs.deck[0]
    else
      && gs.deck[..] == old(gs.deck[..])
      && gs.deckIdx == old(gs.deckIdx) + 1
      && 0 <= old(gs.deckIdx) < gs.deck.Length
      && card == gs.deck[old(gs.deckIdx)]
  }
}
