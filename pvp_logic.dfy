/**
 * The two-player engine of Black_Jack/src/game_logic.c: its own deck
 * routines and hand scorer, card names, and the steps of `handle_client`
 * (initial deal, hit or stand, turn switch, game-over announcement) with
 * the socket traffic around them removed.
 *
 * Players 0 and 1 sit in slots 0 and 1 of the shared record; `rand()` is an
 * arbitrary index in the range the C code reduces it to.
 */
module PvpLogic {
  import opened Wrappers
  import opened GameTypes
  import opened Hand
  import opened Deck
  import Decimal
  import GameLogic

  /** `shuffle_deck(deck, size)`: each position `i` in turn swapped with some `j` in `[0, size)`. */
  method ShuffleDeck(deck: array<int>, size: int)
    requires size <= deck.Length
    modifies deck
    ensures multiset(deck[..]) == old(multiset(deck[..]))
    ensures forall k :: 0 <= k < deck.Length && !(0 <= k < size) ==> deck[k] == old(deck[k])
  {
    var i := 0;
    while i < size
      invariant multiset(deck[..]) == old(multiset(deck[..]))
      invariant forall k :: 0 <= k < deck.Length && !(0 <= k < size) ==> deck[k] == old(deck[k])
    {
      var j :| 0 <= j < size;
      SwapPermutes(deck[..], i, j);
      deck[i], deck[j] := deck[j], deck[i];
      i := i + 1;
    }
  }

  /** Position `13 * s + v - 1` of the unshuffled deck holds rank `v`. */
  lemma SuitPosition(s: int, v: int)
    requires 0 <= s && 1 <= v <= 13
    ensures (13 * s + v - 1) % 13 + 1 == v
  {
  }

  /** `init_deck(gs)`: four suits of ranks 1 to 13 written in order, cursor 0, then a shuffle. */
  method InitDeck(gs: GameState)
    requires gs.Valid()
    modifies gs`deckIdx, gs.deck
    ensures gs.Valid()
    ensures IsFullDeck(gs.deck[..]) && gs.deckIdx == 0
  {
    var idx := 0;
    for s := 0 to 4
      invariant idx == 13 * s
      invariant forall k :: 0 <= k < idx ==> gs.deck[k] == k % 13 + 1
    {
      for v := 1 to 14
        invariant idx == 13 * s + v - 1
        invariant forall k :: 0 <= k < idx ==> gs.deck[k] == k % 13 + 1
      {
        SuitPosition(s, v);
        gs.deck[idx] := v;
        idx := idx + 1;
      }
    }
    gs.deckIdx := 0;
    InitOrderIsFull(gs.deck[..]);
    ghost var unshuffled := gs.deck[..];
    ShuffleDeck(gs.deck, DECK_SIZE);
    PermutedFullDeck(unshuffled, gs.deck[..]);
  }

  /** `draw_card(gs)`: rebuilds an exhausted deck, then takes the card under the
      cursor; the cursor ends inside `[1, DECK_SIZE]`. */
  method DrawCard(gs: GameState) returns (card: int)
    requires gs.Valid()
    modifies gs`deckIdx, gs.deck
    ensures gs.Valid() && Drew(gs, card) && 1 <= gs.deckIdx <= DECK_SIZE
    ensures old(IsFullDeck(gs.deck[..])) ==> IsFullDeck(gs.deck[..]) && IsRank(card)
    ensures old(gs.deckIdx) >= DECK_SIZE ==> IsRank(card)
  {
    if gs.deckIdx >= DECK_SIZE {
      InitDeck(gs);
    }
    card := gs.deck[gs.deckIdx];
    gs.deckIdx := gs.deckIdx + 1;
    assert Drew(gs, card);
    if IsFullDeck(gs.deck[..]) {
      FullDeckHoldsRanks(gs.deck[..], gs.deckIdx - 1);
    }
  }

  /** `calculate_points(cards, count)` of this engine: the same two passes, with no
      early return for an empty hand. */
  method CalculatePoints(cards: seq<int>, count: int) returns (points: int)
    requires count <= |cards|
    ensures count <= 0 ==> points == 0
    ensures count > 0 ==> points == Points(cards[..count])
    ensures count > 0 && Positive(cards[..count]) ==> points == BestTotal(cards[..count])
  {
    points := 0;
    var aces := 0;
    ghost var n := if count < 0 then 0 else count;
    var i := 0;
    while i < count
      invariant 0 <= i <= n
      invariant points == SoftTotal(cards[..i]) && aces == AceCount(cards[..i])
    {
      var val := cards[i];
      if val == 1 {
        aces := aces + 1;
        points := points + 11;
      } else if val >= 10 {
        points := points + 10;
      } else {
        points := points + val;
      }
      assert cards[..i + 1] == cards[..i] + [cards[i]];
      TotalsAppend(cards[..i], cards[i]);
      i := i + 1;
    }
    ghost var hand := cards[..i];
    while points > 21 && aces > 0
      invariant Soften(points, aces) == Points(hand)
      decreases aces
    {
      points := points - 10;
      aces := aces - 1;
    }
    if count > 0 && Positive(hand) {
      PointsIsBestTotal(hand);
    }
  }

  /** The two engines score every hand alike. */
  method EnginesAgree(cards: seq<int>, count: int) returns (multi: int, pvp: int)
    requires count <= |cards|
    ensures multi == pvp
  {
    multi := GameLogic.CalculatePoints(cards, count);
    pvp := CalculatePoints(cards, count);
  }

  /** `get_card_name(val)`: the Ace and the three face cards by name (a word
      starting with a capital), every other value as its decimal text, which reads
      back as that value. */
  function CardName(v: int): (name: string)
    ensures |name| >= 1
    ensures v in {1, 11, 12, 13} <==> 'A' <= name[0] <= 'Z'
    ensures v !in {1, 11, 12, 13} ==> Decimal.ParseInt(name) == Some((v, ""))
  {
    if v == 1 then "Ace"
    else if v == 11 then "Jack"
    else if v == 12 then "Queen"
    else if v == 13 then "King"
    else
      Decimal.IntRoundTrip(v, []);
      assert Decimal.IntToString(v) + [] == Decimal.IntToString(v);
      Decimal.IntToString(v)
  }

  /** Distinct values get distinct names, so a name identifies its card. */
  lemma CardNameInjective(a: int, b: int)
    ensures CardName(a) == CardName(b) ==> a == b
  {
  }

  /** `init_game_state_struct(gs)`: turn 0, game active, a fresh shuffled deck. */
  method InitGameStateStruct(gs: GameState)
    requires gs.Valid()
    modifies gs`currentTurn, gs`gameActive, gs`deckIdx, gs.deck
    ensures gs.Valid()
    ensures gs.currentTurn == 0 && gs.gameActive
    ensures IsFullDeck(gs.deck[..]) && gs.deckIdx == 0
  {
    gs.currentTurn := 0;
    gs.gameActive := true;
    InitDeck(gs);
  }

  /** The slot after the initial deal of cards `a` then `b`: not standing, the two
      cards at the front of the buffer, and their points. */
  function InitiallyDealt(p: Player, a: int, b: int): (r: Player)
    requires WellFormed(p)
    ensures WellFormed(r) && HandOf(r) == [a, b] && r.points == Points([a, b]) && !r.standing
    ensures r.cards[2..] == p.cards[2..]
    ensures r == p.(standing := false, cards := r.cards, cardCount := 2, points := r.points)
  {
    WithCard(WithCard(p.(standing := false, cardCount := 0), a), b)
  }

  /** The initial deal of `handle_client` for player `id`: two draws into an
      emptied hand (the buffer beyond them is left as it was). */
  method InitialDeal(gs: GameState, id: int) returns (first: int, second: int)
    requires gs.Valid() && 0 <= id < MAX_PLAYERS
    modifies gs`deckIdx, gs.deck, gs.players
    ensures gs.Valid() && 1 <= gs.deckIdx <= DECK_SIZE
    ensures gs.players[id] == InitiallyDealt(old(gs.players[id]), first, second)
    ensures forall k :: 0 <= k < MAX_PLAYERS && k != id ==> gs.players[k] == old(gs.players[k])
    ensures old(gs.deckIdx) + 2 <= DECK_SIZE ==>
      gs.deck[..] == old(gs.deck[..]) && gs.deckIdx == old(gs.deckIdx) + 2
      && first == gs.deck[old(gs.deckIdx)] && second == gs.deck[old(gs.deckIdx) + 1]
    ensures old(IsFullDeck(gs.deck[..])) ==> IsFullDeck(gs.deck[..]) && gs.players[id].points <= 21
  {
    ghost var before := gs.players[id];
    gs.players[id] := gs.players[id].(standing := false, cardCount := 0);
    var p := gs.players[id];
    first := DrawCard(gs);
    p := WithCard(p, first);
    second := DrawCard(gs);
    p := WithCard(p, second);
    var points := CalculatePoints(p.cards, p.cardCount);
    gs.players[id] := p.(points := points);
    assert gs.players[id] == InitiallyDealt(before, first, second);
    if old(IsFullDeck(gs.deck[..])) {
      TwoCardsNeverBust(first, second);
    }
  }

  /** ASCII `tolower`. */
  function Lower(c: char): char
  {
    if 'A' <= c <= 'Z' then (c as int + 32) as char else c
  }

  /** `strncasecmp(buffer, "hit", 3) == 0`: the first three characters spell "hit" in any case. */
  predicate IsHit(input: string): (b: bool)
    ensures b ==> |input| >= 3
  {
    |input| >= 3 && Lower(input[0]) == 'h' && Lower(input[1]) == 'i' && Lower(input[2]) == 't'
  }

  /** The same test spelled out letter by letter. */
  lemma IsHitCases(input: string)
    ensures IsHit(input) <==>
      |input| >= 3 && input[0] in "hH" && input[1] in "iI" && input[2] in "tT"
  {
  }

  /** The slot after the action step of `handle_client` with the text received. */
  function AfterAction(p: Player, input: string, card: int): (r: Player)
    requires WellFormed(p)
    requires !p.standing && p.points <= 21 && IsHit(input) ==> p.cardCount < MAX_CARDS
    ensures WellFormed(r) && r.playerId == p.playerId && r.active == p.active && r.connected == p.connected
    ensures r.cardCount >= p.cardCount
  {
    if p.standing || p.points > 21 then p
    else if IsHit(input) then
      var dealt := WithCard(p, card);
      dealt.(standing := dealt.points > 21)
    else p.(standing := true)
  }

  /** A player who may act either draws (standing exactly when the new hand busts)
      or stands; a standing or busted player is left as is. */
  lemma AfterActionMeaning(p: Player, input: string, card: int)
    requires WellFormed(p)
    requires !p.standing && p.points <= 21 && IsHit(input) ==> p.cardCount < MAX_CARDS
    ensures var r := AfterAction(p, input, card);
      && WellFormed(r)
      && (p.standing || p.points > 21 ==> r == p)
      && (!p.standing && p.points <= 21 && IsHit(input) ==>
            HandOf(r) == HandOf(p) + [card] && r.points == Points(HandOf(r)) && (r.standing <==> r.points > 21))
      && (!p.standing && p.points <= 21 && !IsHit(input) ==> r == p.(standing := true))
      && r.playerId == p.playerId && r.active == p.active && r.connected == p.connected
  {
  }

  /** The action step draws a card: the player may act and the text received is a hit. */
  predicate Draws(p: Player, input: Option<string>)
  {
    input.Some? && !p.standing && p.points <= 21 && IsHit(input.value)
  }

  /** The action step of `handle_client` for player `id` on its turn. `None` is a
      failed `recv`, which ends the session: nothing changes and `false` is returned. */
  method PlayerAction(gs: GameState, id: int, input: Option<string>) returns (received: bool, card: int)
    requires gs.Valid() && 0 <= id < MAX_PLAYERS
    requires var p := gs.players[id];
      input.Some? && !p.standing && p.points <= 21 && IsHit(input.value) ==> p.cardCount < MAX_CARDS
    modifies gs`deckIdx, gs.deck, gs.players
    ensures gs.Valid()
    ensures var p := old(gs.players[id]);
      received <==> input.Some? || p.standing || p.points > 21
    ensures !received ==> gs.players[..] == old(gs.players[..]) && gs.deckIdx == old(gs.deckIdx) && gs.deck[..] == old(gs.deck[..])
    ensures received ==> gs.players[id] == AfterAction(old(gs.players[id]), if input.Some? then input.value else "", card)
    ensures forall k :: 0 <= k < MAX_PLAYERS && k != id ==> gs.players[k] == old(gs.players[k])
    ensures old(Draws(gs.players[id], input)) ==> Drew(gs, card)
    ensures !old(Draws(gs.players[id], input)) ==> gs.deckIdx == old(gs.deckIdx) && gs.deck[..] == old(gs.deck[..])
    ensures old(IsFullDeck(gs.deck[..])) ==> IsFullDeck(gs.deck[..])
  {
    var p := gs.players[id];
    card := 0;
    received := true;
    if !p.standing && p.points <= 21 {
      if input.None? {
        return false, card;
      }
      if IsHit(input.value) {
        card := DrawCard(gs);
        var dealt := WithCard(p, card);
        var points := CalculatePoints(dealt.cards, dealt.cardCount);
        p := dealt.(points := points);
        if p.points > 21 {
          p := p.(standing := true);
        }
      } else {
        p := p.(standing := true);
      }
      gs.players[id] := p;
    }
  }

  /** The turn switch of `handle_client`: the turn goes to the other player, and
      the game is over once both players stand (it is never reopened here). */
  method SwitchTurn(gs: GameState, id: int)
    requires gs.Valid()
    modifies gs`currentTurn, gs`gameOver
    ensures gs.Valid()
    ensures gs.currentTurn == if id == 0 then 1 else 0
    ensures gs.gameOver == (old(gs.gameOver) || (gs.players[0].standing && gs.players[1].standing))
  {
    gs.currentTurn := if id == 0 then 1 else 0;
    if gs.players[0].standing && gs.players[1].standing {
      gs.gameOver := true;
    }
  }

  /** One pass of the `handle_client` loop for player `id`: off turn it only waits;
      on turn it acts and, unless the connection failed, hands the turn over. */
  method HandleTurn(gs: GameState, id: int, input: Option<string>) returns (received: bool, card: int)
    requires gs.Valid() && 0 <= id < MAX_PLAYERS
    requires var p := gs.players[id];
      input.Some? && !p.standing && p.points <= 21 && IsHit(input.value) ==> p.cardCount < MAX_CARDS
    modifies gs`deckIdx, gs.deck, gs.players, gs`currentTurn, gs`gameOver
    ensures gs.Valid()
    ensures old(gs.currentTurn) != id ==>
      received && gs.players[..] == old(gs.players[..]) && gs.currentTurn == old(gs.currentTurn)
      && gs.gameOver == old(gs.gameOver) && gs.deckIdx == old(gs.deckIdx) && gs.deck[..] == old(gs.deck[..])
    ensures old(gs.currentTurn) == id ==>
      var p := old(gs.players[id]);
      received <==> input.Some? || p.standing || p.points > 21
    ensures old(gs.currentTurn) == id && received ==>
      && gs.players[id] == AfterAction(old(gs.players[id]), if input.Some? then input.value else "", card)
      && gs.currentTurn == (if id == 0 then 1 else 0) && gs.currentTurn != id
      && gs.gameOver == (old(gs.gameOver) || (gs.players[0].standing && gs.players[1].standing))
    ensures old(gs.currentTurn) == id && !received ==>
      gs.players[..] == old(gs.players[..]) && gs.currentTurn == old(gs.currentTurn) && gs.gameOver == old(gs.gameOver)
    ensures forall k :: 0 <= k < MAX_PLAYERS && k != id ==> gs.players[k] == old(gs.players[k])
    ensures old(gs.currentTurn) == id && old(Draws(gs.players[id], input)) ==> Drew(gs, card)
    ensures !(old(gs.currentTurn) == id && old(Draws(gs.players[id], input))) ==>
      gs.deckIdx == old(gs.deckIdx) && gs.deck[..] == old(gs.deck[..])
    ensures old(gs.gameOver) ==> gs.gameOver
  {
    received, card := true, 0;
    if gs.currentTurn != id {
      return;
    }
    received, card := PlayerAction(gs, id, input);
    if received {
      SwitchTurn(gs, id);
    }
  }

  /** The game-over announcement as written: player 0 (with its points) exactly when
      it has more points than player 1 and is not above 21, otherwise player 1. */
  function AnnouncedWinner(p0: int, p1: int): (r: (int, int))
    ensures r.0 == 0 <==> p0 > p1 && p0 <= 21
    ensures r.0 == 0 || r.0 == 1
    ensures r.1 == if r.0 == 0 then p0 else p1
  {
    if p0 > p1 && p0 <= 21 then (0, p0) else (1, p1)
  }

  /** As written, a busted player 1 is announced over a standing player 0. */
  lemma AnnouncedWinnerCanBeBust()
    ensures AnnouncedWinner(18, 25) == (1, 25)
  {
  }

  /** The announcement as it is evidently meant: a total above 21 loses to one that
      is not, otherwise the higher total wins, and player 1 keeps the remaining
      cases (equal totals, or both above 21), as in the code. */
  function IntendedWinner(p0: int, p1: int): (r: (int, int))
    ensures r.0 == 0 || r.0 == 1
    ensures r.1 == if r.0 == 0 then p0 else p1
  {
    if p0 <= 21 && (p0 > p1 || p1 > 21) then (0, p0) else (1, p1)
  }

  /** The intended rule never announces a bust over a live hand, picks the higher
      of two live hands, and agrees with the code whenever player 1 has not busted. */
  lemma IntendedWinnerMeaning(p0: int, p1: int)
    ensures var r := IntendedWinner(p0, p1);
      && (r.0 == 0 || r.0 == 1) && r.1 == (if r.0 == 0 then p0 else p1)
      && (r.1 > 21 ==> p0 > 21 && p1 > 21)
      && (p0 <= 21 && p1 <= 21 ==> (r.0 == 0 <==> p0 > p1))
      && (p1 <= 21 ==> r == AnnouncedWinner(p0, p1))
  {
  }

  /** The game-over summary of `handle_client`: the player announced and the
      points quoted, by the intended rule. */
  method GameOverSummary(gs: GameState) returns (winner: int, points: int)
    requires gs.Valid()
    ensures (winner, points) == IntendedWinner(gs.players[0].points, gs.players[1].points)
    ensures winner == 0 || winner == 1
    ensures points > 21 ==> gs.players[0].points > 21 && gs.players[1].points > 21
  {
    var p0, p1 := gs.players[0].points, gs.players[1].points;
    IntendedWinnerMeaning(p0, p1);
    if p0 <= 21 && (p0 > p1 || p1 > 21) {
      winner, points := 0, p0;
    } else {
      winner, points := 1, p1;
    }
  }
}
