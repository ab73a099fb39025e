/**
 * The multi-player rule engine of src/game_logic.c: hand scoring, the
 * deck, dealing, hit and stand, round start and the winner scan.
 *
 * Each C function taking `GameState *gs` is a method taking the shared
 * record `gs` and changing, in place, exactly the fields it names in its
 * `modifies` clause. The semaphores around the deck and turn sections are
 * not modelled (the model is sequential), and `rand()` is an arbitrary
 * index in the range the C code reduces it to.
 */
module GameLogic {
  import opened GameTypes
  import opened Hand
  import opened Deck

  /** `calculate_points(cards, count)`: Aces first counted 11, then lowered one by one while the hand is a bust. */
  method CalculatePoints(cards: seq<int>, count: int) returns (points: int)
    requires count <= |cards|
    ensures count <= 0 ==> points == 0
    ensures count > 0 ==> points == Points(cards[..count])
    ensures count > 0 && Positive(cards[..count]) ==> points == BestTotal(cards[..count])
  {
    if count == 0 {
      return 0;
    }
    points := 0;
    var aceCount := 0;
    var i := 0;
    ghost var n := if count < 0 then 0 else count;
    while i < count
      invariant 0 <= i <= n
      invariant points == SoftTotal(cards[..i]) && aceCount == AceCount(cards[..i])
    {
      var cardValue := cards[i];
      if cardValue == 1 {
        aceCount := aceCount + 1;
        points := points + 11;
      } else if cardValue >= 10 {
        points := points + 10;
      } else {
        points := points + cardValue;
      }
      assert cards[..i + 1] == cards[..i] + [cards[i]];
      TotalsAppend(cards[..i], cards[i]);
      i := i + 1;
    }
    ghost var hand := cards[..i];
    while points > 21 && aceCount > 0
      invariant Soften(points, aceCount) == Points(hand)
      decreases aceCount
    {
      points := points - 10;
      aceCount := aceCount - 1;
    }
    if count > 0 && Positive(hand) {
      PointsIsBestTotal(hand);
    }
  }

  /** `shuffle_deck(deck, size)`: Fisher-Yates from the last index down, each step
      swapping position `i` with some `j` in `[0, i]`. Only `[0, size)` is touched,
      and the cards are permuted. */
  method ShuffleDeck(deck: array<int>, size: int)
    requires size <= deck.Length
    modifies deck
    ensures multiset(deck[..]) == old(multiset(deck[..]))
    ensures forall k :: 0 <= k < deck.Length && !(0 <= k < size) ==> deck[k] == old(deck[k])
  {
    var i := size - 1;
    while i > 0
      invariant i < size
      invariant multiset(deck[..]) == old(multiset(deck[..]))
      invariant forall k :: 0 <= k < deck.Length && !(0 <= k < size) ==> deck[k] == old(deck[k])
    {
      var j :| 0 <= j <= i;
      SwapPermutes(deck[..], i, j);
      deck[i], deck[j] := deck[j], deck[i];
      i := i - 1;
    }
  }

  /** `init_deck(gs)`: writes rank `i % 13 + 1` at every position, shuffles, and puts the cursor at 0. */
  method InitDeck(gs: GameState)
    requires gs.Valid()
    modifies gs`deckIdx, gs.deck
    ensures gs.Valid()
    ensures IsFullDeck(gs.deck[..]) && gs.deckIdx == 0
  {
    var i := 0;
    while i < DECK_SIZE
      invariant 0 <= i <= DECK_SIZE
      invariant forall k :: 0 <= k < i ==> gs.deck[k] == k % 13 + 1
    {
      gs.deck[i] := i % 13 + 1;
      i := i + 1;
    }
    InitOrderIsFull(gs.deck[..]);
    ghost var unshuffled := gs.deck[..];
    ShuffleDeck(gs.deck, DECK_SIZE);
    PermutedFullDeck(unshuffled, gs.deck[..]);
    gs.deckIdx := 0;
  }

  /** `deal_card` succeeds: `player_id` names a slot (1-based) whose hand is not full. */
  predicate CanDeal(gs: GameState, playerId: int)
    reads gs, gs.players
    requires gs.Valid()
  {
    1 <= playerId <= MAX_PLAYERS && gs.players[playerId - 1].cardCount < MAX_CARDS
  }

  /** `deal_card(gs, player_id)`: -1 and no change for a bad id or a full hand;
      otherwise one draw (rebuilding an exhausted deck first) whose card is
      appended to the hand of slot `player_id - 1`, with the points recomputed. */
  method DealCard(gs: GameState, playerId: int) returns (card: int)
    requires gs.Valid()
    modifies gs`deckIdx, gs.deck, gs.players
    ensures gs.Valid()
    ensures !old(CanDeal(gs, playerId)) ==>
      card == -1 && gs.deckIdx == old(gs.deckIdx) && gs.deck[..] == old(gs.deck[..]) && gs.players[..] == old(gs.players[..])
    ensures old(CanDeal(gs, playerId)) ==>
      && Drew(gs, card)
      && gs.players[playerId - 1] == WithCard(old(gs.players[playerId - 1]), card)
      && (forall k :: 0 <= k < MAX_PLAYERS && k != playerId - 1 ==> gs.players[k] == old(gs.players[k]))
      && (old(IsFullDeck(gs.deck[..])) || old(gs.deckIdx) >= DECK_SIZE ==> IsRank(card))
    ensures old(IsFullDeck(gs.deck[..])) ==> IsFullDeck(gs.deck[..])
  {
    if playerId < 1 || playerId > MAX_PLAYERS {
      return -1;
    }
    var player := gs.players[playerId - 1];
    if player.cardCount >= MAX_CARDS {
      return -1;
    }
    card := DrawFromDeck(gs);
    var cards := player.cards[player.cardCount := card];
    var points := CalculatePoints(cards, player.cardCount + 1);
    gs.players[playerId - 1] := player.(cards := cards, cardCount := player.cardCount + 1, points := points);
    assert gs.players[playerId - 1] == WithCard(player, card);
  }

  /** The draw inside `deal_card`: an exhausted deck is rebuilt, then the card
      under the cursor is taken. */
  method DrawFromDeck(gs: GameState) returns (card: int)
    requires gs.Valid()
    modifies gs`deckIdx, gs.deck
    ensures gs.Valid() && Drew(gs, card)
    ensures old(IsFullDeck(gs.deck[..])) || old(gs.deckIdx) >= DECK_SIZE ==> IsRank(card)
    ensures old(IsFullDeck(gs.deck[..])) ==> IsFullDeck(gs.deck[..])
  {
    if gs.deckIdx >= DECK_SIZE {
      InitDeck(gs);
    }
    card := gs.deck[gs.deckIdx];
    gs.deckIdx := gs.deckIdx + 1;
    if IsFullDeck(gs.deck[..]) {
      FullDeckHoldsRanks(gs.deck[..], gs.deckIdx - 1);
    }
  }

  /** `player_hit`: a deal, then a forced stand exactly when the slot's points are above 21. */
  method PlayerHit(gs: GameState, playerId: int) returns (card: int)
    requires gs.Valid() && 1 <= playerId <= MAX_PLAYERS
    modifies gs`deckIdx, gs.deck, gs.players
    ensures gs.Valid()
    ensures !old(CanDeal(gs, playerId)) ==> card == -1 && gs.deckIdx == old(gs.deckIdx) && gs.deck[..] == old(gs.deck[..])
    ensures old(CanDeal(gs, playerId)) ==> Drew(gs, card)
    ensures
      var before := old(gs.players[playerId - 1]);
      var dealt := if old(CanDeal(gs, playerId)) then WithCard(before, card) else before;
      gs.players[playerId - 1] == dealt.(standing := before.standing || dealt.points > 21)
    ensures forall k :: 0 <= k < MAX_PLAYERS && k != playerId - 1 ==> gs.players[k] == old(gs.players[k])
    ensures old(IsFullDeck(gs.deck[..])) ==> IsFullDeck(gs.deck[..])
  {
    card := DealCard(gs, playerId);
    var player := gs.players[playerId - 1];
    if player.points > 21 {
      gs.players[playerId - 1] := player.(standing := true);
    }
  }

  /** `player_stand`: sets only the slot's `standing`. */
  method PlayerStand(gs: GameState, playerId: int)
    requires gs.Valid() && 1 <= playerId <= MAX_PLAYERS
    modifies gs.players
    ensures gs.Valid()
    ensures gs.players[playerId - 1] == old(gs.players[playerId - 1]).(standing := true)
    ensures forall k :: 0 <= k < MAX_PLAYERS && k != playerId - 1 ==> gs.players[k] == old(gs.players[k])
  {
    gs.players[playerId - 1] := gs.players[playerId - 1].(standing := true);
  }

  /** `reset_player(&players[i])`: empty hand, zero points, not standing, every card slot -1. */
  method ResetPlayer(players: array<Player>, i: int)
    requires 0 <= i < players.Length && WellFormed(players[i])
    modifies players
    ensures players[i] == Cleared(old(players[i]))
    ensures forall k :: 0 <= k < players.Length && k != i ==> players[k] == old(players[k])
  {
    players[i] := players[i].(cardCount := 0, points := 0, standing := false);
    for j := 0 to MAX_CARDS
      invariant |players[i].cards| == MAX_CARDS
      invariant forall m :: 0 <= m < j ==> players[i].cards[m] == -1
      invariant players[i] == old(players[i]).(cards := players[i].cards, cardCount := 0, points := 0, standing := false)
      invariant forall k :: 0 <= k < players.Length && k != i ==> players[k] == old(players[k])
    {
      players[i] := players[i].(cards := players[i].cards[j := -1]);
    }
    assert players[i].cards == ClearedCards();
  }

  // ---------------------------------------------------------------- round start

  /** Number of active slots among the first `n`. */
  function ActiveBefore(ps: seq<Player>, n: int): (r: nat)
    requires 0 <= n <= |ps|
    ensures r <= n
  {
    if n == 0 then 0 else ActiveBefore(ps, n - 1) + (if ps[n - 1].active then 1 else 0)
  }

  /** Number of active slots. */
  function CountActive(ps: seq<Player>): nat
  {
    ActiveBefore(ps, |ps|)
  }

  /** Index of the lowest active slot, or -1 when no slot is active. */
  function FirstActive(ps: seq<Player>): (r: int)
    ensures -1 <= r < |ps|
    ensures r == -1 <==> forall k :: 0 <= k < |ps| ==> !ps[k].active
    ensures r >= 0 ==> ps[r].active && forall k :: 0 <= k < r ==> !ps[k].active
  {
    if ps == [] then -1
    else
      var f := FirstActive(ps[..|ps| - 1]);
      if f >= 0 then f else if ps[|ps| - 1].active then |ps| - 1 else -1
  }

  /** The lowest active slot depends on the active flags alone. */
  lemma FirstActiveByFlags(a: seq<Player>, b: seq<Player>)
    requires |a| == |b| && forall k :: 0 <= k < |a| ==> a[k].active == b[k].active
    ensures FirstActive(a) == FirstActive(b)
  {
  }

  /** An active slot after the round's deal: cleared, then dealt `a` and `b`. */
  function DealtTwo(p: Player, a: int, b: int): (r: Player)
    ensures WellFormed(r) && HandOf(r) == [a, b] && r.points == Points([a, b]) && !r.standing
    ensures r.playerId == p.playerId && r.connected == p.connected && r.active == p.active
    ensures r.lastActive == p.lastActive
  {
    WithCard(WithCard(Cleared(p), a), b)
  }

  /** Slot `i` as `init_game_round` leaves it, dealt from deck `d` in slot order. */
  function AfterRound(ps: seq<Player>, d: seq<int>, i: int): Player
    requires 0 <= i < |ps| && |d| >= 2 * |ps|
  {
    var pos := 2 * ActiveBefore(ps, i);
    if ps[i].active then DealtTwo(ps[i], d[pos], d[pos + 1]) else ps[i]
  }

  /** All slots as `init_game_round` leaves them. */
  function RoundOf(ps: seq<Player>, d: seq<int>): (r: seq<Player>)
    requires |d| >= 2 * |ps|
    ensures |r| == |ps|
  {
    seq(|ps|, i requires 0 <= i < |ps| => AfterRound(ps, d, i))
  }

  /** Every active slot holds two cards, is not standing and is not a bust. */
  predicate LiveHands(ps: seq<Player>)
  {
    forall i :: 0 <= i < |ps| && ps[i].active ==> ps[i].cardCount == 2 && ps[i].points <= 21 && !ps[i].standing
  }

  /** In a round dealt from a full deck every active slot holds two cards, is not
      standing and is not a bust. */
  lemma RoundHandsLive(ps: seq<Player>, d: seq<int>)
    requires IsFullDeck(d) && 2 * |ps| <= |d|
    ensures LiveHands(RoundOf(ps, d))
  {
    forall i | 0 <= i < |ps| && ps[i].active
      ensures var r := AfterRound(ps, d, i); r.cardCount == 2 && r.points <= 21 && !r.standing
    {
      var pos := 2 * ActiveBefore(ps, i);
      FullDeckHoldsRanks(d, pos);
      FullDeckHoldsRanks(d, pos + 1);
      TwoCardsNeverBust(d[pos], d[pos + 1]);
    }
  }

  /** The reset loop of `init_game_round`: every active slot is reset. */
  method ResetActive(gs: GameState)
    requires gs.Valid()
    modifies gs.players
    ensures gs.Valid()
    ensures forall k :: 0 <= k < MAX_PLAYERS ==>
      gs.players[k] == if old(gs.players[k]).active then Cleared(old(gs.players[k])) else old(gs.players[k])
  {
    for i := 0 to MAX_PLAYERS
      invariant gs.Valid()
      invariant forall k :: 0 <= k < i ==>
        gs.players[k] == if old(gs.players[k]).active then Cleared(old(gs.players[k])) else old(gs.players[k])
      invariant forall k :: i <= k < MAX_PLAYERS ==> gs.players[k] == old(gs.players[k])
    {
      if gs.players[i].active {
        ResetPlayer(gs.players, i);
      }
    }
  }

  /** Two `deal_card` calls for slot `i`, reset beforehand from `p`, with at least
      two cards left under the cursor. */
  method DealTwo(gs: GameState, i: int, ghost p: Player)
    requires gs.Valid() && 0 <= i < MAX_PLAYERS && gs.deckIdx + 2 <= DECK_SIZE
    requires gs.players[i] == Cleared(p)
    modifies gs`deckIdx, gs.deck, gs.players
    ensures gs.Valid() && gs.deck[..] == old(gs.deck[..]) && gs.deckIdx == old(gs.deckIdx) + 2
    ensures gs.players[i] == DealtTwo(p, gs.deck[old(gs.deckIdx)], gs.deck[old(gs.deckIdx) + 1])
    ensures forall k :: 0 <= k < MAX_PLAYERS && k != i ==> gs.players[k] == old(gs.players[k])
  {
    ghost var deck := gs.deck[..];
    ghost var pos := gs.deckIdx;
    var first := DealCard(gs, i + 1);
    assert first == deck[pos] && gs.players[i] == WithCard(Cleared(p), first);
    var second := DealCard(gs, i + 1);
    assert second == deck[pos + 1];
  }

  /** The deal loop of `init_game_round`: from a fresh cursor, two `deal_card` calls
      per active slot, in slot order. */
  method DealActive(gs: GameState, ghost ps: seq<Player>)
    requires gs.Valid() && gs.deckIdx == 0 && |ps| == MAX_PLAYERS
    requires forall k :: 0 <= k < MAX_PLAYERS ==> gs.players[k] == if ps[k].active then Cleared(ps[k]) else ps[k]
    modifies gs`deckIdx, gs.deck, gs.players
    ensures gs.Valid() && gs.deckIdx == 2 * CountActive(ps) && gs.deck[..] == old(gs.deck[..])
    ensures gs.players[..] == RoundOf(ps, gs.deck[..])
  {
    ghost var deck := gs.deck[..];
    for i := 0 to MAX_PLAYERS
      invariant gs.Valid() && gs.deck[..] == deck
      invariant gs.deckIdx == 2 * ActiveBefore(ps, i)
      invariant forall k :: 0 <= k < i ==> gs.players[k] == AfterRound(ps, deck, k)
      invariant forall k :: i <= k < MAX_PLAYERS ==> gs.players[k] == if ps[k].active then Cleared(ps[k]) else ps[k]
    {
      if gs.players[i].active {
        DealTwo(gs, i, ps[i]);
      }
      assert gs.players[i] == AfterRound(ps, deck, i);
    }
    assert gs.players[..] == RoundOf(ps, deck);
  }

  /** The turn search of `init_game_round`: the lowest active slot, or `MAX_PLAYERS` when none is. */
  method FirstActiveSlot(gs: GameState) returns (i: int)
    requires gs.Valid()
    ensures i == if FirstActive(gs.players[..]) >= 0 then FirstActive(gs.players[..]) else MAX_PLAYERS
  {
    i := 0;
    while i < MAX_PLAYERS && !gs.players[i].active
      invariant 0 <= i <= MAX_PLAYERS
      invariant forall k :: 0 <= k < i ==> !gs.players[k].active
    {
      i := i + 1;
    }
  }

  /** The round leaves every slot's active flag as it was, so the lowest active slot too. */
  lemma RoundKeepsFlags(ps: seq<Player>, d: seq<int>)
    requires 2 * |ps| <= |d|
    ensures forall i :: 0 <= i < |ps| ==> RoundOf(ps, d)[i].active == ps[i].active
    ensures FirstActive(RoundOf(ps, d)) == FirstActive(ps)
  {
    FirstActiveByFlags(RoundOf(ps, d), ps);
  }

  /** The deck and hand steps of `init_game_round`: a new shuffled deck, then every
      active slot reset and dealt two cards, slots in order. */
  method DealRound(gs: GameState)
    requires gs.Valid()
    modifies gs`deckIdx, gs.deck, gs.players
    ensures gs.Valid()
    ensures IsFullDeck(gs.deck[..])
    ensures gs.deckIdx == 2 * CountActive(old(gs.players[..]))
    ensures gs.players[..] == RoundOf(old(gs.players[..]), gs.deck[..]) && LiveHands(gs.players[..])
  {
    ghost var ps := gs.players[..];
    InitDeck(gs);
    ResetActive(gs);
    DealActive(gs, ps);
    RoundHandsLive(ps, gs.deck[..]);
  }

  /** `init_game_round`: the deck and hands as `DealRound` leaves them, the round
      flags set, and the turn given to the lowest active slot (left alone when
      none is active). */
  method InitGameRound(gs: GameState)
    requires gs.Valid()
    modifies gs`deckIdx, gs.deck, gs.players, gs`gameActive, gs`gameOver, gs`winner, gs`currentTurn
    ensures gs.Valid()
    ensures IsFullDeck(gs.deck[..])
    ensures gs.deckIdx == 2 * CountActive(old(gs.players[..]))
    ensures gs.players[..] == RoundOf(old(gs.players[..]), gs.deck[..]) && LiveHands(gs.players[..])
    ensures gs.gameActive && !gs.gameOver && gs.winner == -1
    ensures gs.currentTurn == if FirstActive(old(gs.players[..])) >= 0 then FirstActive(old(gs.players[..])) else old(gs.currentTurn)
  {
    ghost var ps := gs.players[..];
    DealRound(gs);
    gs.gameActive := true;
    gs.gameOver := false;
    gs.winner := -1;
    RoundKeepsFlags(ps, gs.deck[..]);
    var first := FirstActiveSlot(gs);
    if first < MAX_PLAYERS {
      gs.currentTurn := first;
    }
  }

  // ---------------------------------------------------------------- winner

  /** A slot `determine_winner` considers: active and not above 21. */
  predicate IsCandidate(p: Player)
  {
    p.active && p.points <= 21
  }

  predicate Holds(p: Player, m: int)
  {
    IsCandidate(p) && p.points == m
  }

  /** `best_score` after the scan: the highest candidate total, and -1 when no candidate has 0 or more. */
  function BestScore(ps: seq<Player>): (r: int)
    ensures r >= -1
    ensures forall k :: 0 <= k < |ps| && IsCandidate(ps[k]) ==> ps[k].points <= r
    ensures r >= 0 ==> exists k :: 0 <= k < |ps| && Holds(ps[k], r)
  {
    if ps == [] then -1
    else
      var b := BestScore(ps[..|ps| - 1]);
      var p := ps[|ps| - 1];
      if IsCandidate(p) && p.points > b then p.points else b
  }

  /** How many candidates total exactly `m`. */
  function Holders(ps: seq<Player>, m: int): (r: nat)
    ensures r > 0 <==> exists k :: 0 <= k < |ps| && Holds(ps[k], m)
  {
    if ps == [] then 0 else Holders(ps[..|ps| - 1], m) + (if Holds(ps[|ps| - 1], m) then 1 else 0)
  }

  /** Index of the first candidate totalling `m`, or `|ps|` when there is none. */
  function FirstHolder(ps: seq<Player>, m: int): (r: int)
    ensures 0 <= r <= |ps|
    ensures r < |ps| ==> Holds(ps[r], m)
    ensures forall k :: 0 <= k < r && k < |ps| ==> !Holds(ps[k], m)
  {
    if ps == [] then 0
    else
      var f := FirstHolder(ps[..|ps| - 1], m);
      if f < |ps| - 1 then f else if Holds(ps[|ps| - 1], m) then |ps| - 1 else |ps|
  }

  /** What `determine_winner` returns: the `player_id` of the one candidate with the
      highest positive total; -1 when that total is shared or no candidate has 0 or
      more; and, when the highest total is 0, the first candidate with 0. */
  function WinnerOf(ps: seq<Player>): (r: int)
    ensures r != -1 ==> exists k :: 0 <= k < |ps| && IsCandidate(ps[k]) && ps[k].playerId == r
  {
    var m := BestScore(ps);
    if m < 0 then -1
    else if m == 0 then ps[FirstHolder(ps, 0)].playerId
    else if Holders(ps, m) == 1 then ps[FirstHolder(ps, m)].playerId
    else -1
  }

  lemma {:induction false} HoldersOne(ps: seq<Player>, m: int, k: int)
    requires 0 <= k < |ps| && Holds(ps[k], m)
    requires forall j :: 0 <= j < |ps| && j != k ==> !Holds(ps[j], m)
    ensures Holders(ps, m) == 1
  {
    var n := |ps| - 1;
    var init := ps[..n];
    if k < n {
      HoldersOne(init, m, k);
    } else {
      assert forall j :: 0 <= j < |init| ==> !Holds(init[j], m);
    }
  }

  lemma {:induction false} HoldersTwo(ps: seq<Player>, m: int, j: int, k: int)
    requires 0 <= j < k < |ps| && Holds(ps[j], m) && Holds(ps[k], m)
    ensures Holders(ps, m) >= 2
  {
    var n := |ps| - 1;
    var init := ps[..n];
    if k < n {
      HoldersTwo(init, m, j, k);
    } else {
      assert Holds(init[j], m);
    }
  }

  /** One step of the scan: how appending a slot changes `best_score` and the winner. */
  lemma WinnerStep(ps: seq<Player>, p: Player)
    ensures BestScore(ps + [p]) == if IsCandidate(p) && p.points > BestScore(ps) then p.points else BestScore(ps)
    ensures WinnerOf(ps + [p]) ==
      if IsCandidate(p) && p.points > BestScore(ps) then p.playerId
      else if IsCandidate(p) && p.points == BestScore(ps) && BestScore(ps) > 0 then -1
      else WinnerOf(ps)
  {
    var q := ps + [p];
    var n := |ps|;
    assert q[..n] == ps;
    var b := BestScore(ps);
    if IsCandidate(p) && p.points > b {
      var m := p.points;
      assert FirstHolder(ps, m) == n;
      assert FirstHolder(q, m) == n;
      HoldersOne(q, m, n);
    } else if IsCandidate(p) && p.points == b && b > 0 {
      var f := FirstHolder(ps, b);
      assert f < n;
      assert q[f] == ps[f];
      HoldersTwo(q, b, f, n);
    } else if b >= 0 {
      var f := FirstHolder(ps, b);
      assert f < n;
      assert FirstHolder(q, b) == f && q[f] == ps[f];
    }
  }

  /** A candidate whose positive total is strictly above every other candidate's is the winner. */
  lemma StrictLeaderWins(ps: seq<Player>, k: int)
    requires 0 <= k < |ps| && IsCandidate(ps[k]) && ps[k].points > 0
    requires forall j :: 0 <= j < |ps| && j != k && IsCandidate(ps[j]) ==> ps[j].points < ps[k].points
    ensures WinnerOf(ps) == ps[k].playerId
  {
    var m := ps[k].points;
    assert BestScore(ps) == m;
    HoldersOne(ps, m, k);
  }

  /** Two candidates sharing the highest positive total: no winner. */
  lemma SharedBestIsVoid(ps: seq<Player>, j: int, k: int)
    requires 0 <= j < k < |ps| && IsCandidate(ps[j]) && IsCandidate(ps[k])
    requires ps[j].points == ps[k].points > 0
    requires forall l :: 0 <= l < |ps| && IsCandidate(ps[l]) ==> ps[l].points <= ps[k].points
    ensures WinnerOf(ps) == -1
  {
    assert BestScore(ps) == ps[k].points;
    HoldersTwo(ps, ps[k].points, j, k);
  }

  /** With no candidate at 0 or more (everyone busted or inactive) there is no winner. */
  lemma NoCandidateNoWinner(ps: seq<Player>)
    requires forall k :: 0 <= k < |ps| && IsCandidate(ps[k]) ==> ps[k].points < 0
    ensures WinnerOf(ps) == -1
  {
  }

  /** Slot `k` is a candidate with the highest total, strictly above every other
      candidate when that total is positive. */
  predicate IsLeader(ps: seq<Player>, k: int)
  {
    && 0 <= k < |ps| && IsCandidate(ps[k])
    && (forall j :: 0 <= j < |ps| && IsCandidate(ps[j]) ==> ps[j].points <= ps[k].points)
    && (ps[k].points > 0 ==> forall j :: 0 <= j < |ps| && j != k && IsCandidate(ps[j]) ==> ps[j].points < ps[k].points)
  }

  /** Whatever is returned other than -1 is the `player_id` of a candidate holding the
      highest total, strictly above every other candidate when that total is positive. */
  lemma WinnerIsLeader(ps: seq<Player>)
    requires WinnerOf(ps) != -1
    ensures exists k :: IsLeader(ps, k) && ps[k].playerId == WinnerOf(ps)
  {
    var m := BestScore(ps);
    var k := FirstHolder(ps, m);
    assert k < |ps|;
    if m > 0 {
      forall j | 0 <= j < |ps| && j != k && IsCandidate(ps[j])
        ensures ps[j].points < m
      {
        if ps[j].points == m {
          if j < k {
            assert false;
          } else {
            HoldersTwo(ps, m, k, j);
          }
        }
      }
    }
    assert IsLeader(ps, k);
  }

  /** The scan loop of `determine_winner`: `WinnerOf` the slots. */
  method ScanWinner(gs: GameState) returns (winner: int)
    requires gs.Valid()
    ensures winner == WinnerOf(gs.players[..])
  {
    winner := -1;
    var bestScore := -1;
    ghost var ps := gs.players[..];
    for i := 0 to MAX_PLAYERS
      invariant bestScore == BestScore(ps[..i]) && winner == WinnerOf(ps[..i])
    {
      var p := gs.players[i];
      assert ps[..i + 1] == ps[..i] + [p];
      WinnerStep(ps[..i], p);
      if p.active && p.points <= 21 {
        if p.points > bestScore {
          bestScore := p.points;
          winner := p.playerId;
        } else if p.points == bestScore && bestScore > 0 {
          winner := -1;
        }
      }
    }
    assert ps[..MAX_PLAYERS] == ps;
  }

  /** `determine_winner` as written: returns `WinnerOf` the slots and records only
      a result above 0 in `winner` and `game_over`; players are not changed. */
  method DetermineWinner(gs: GameState) returns (winner: int)
    requires gs.Valid()
    modifies gs`winner, gs`gameOver
    ensures winner == WinnerOf(gs.players[..])
    ensures winner > 0 ==> gs.winner == winner && gs.gameOver
    ensures winner <= 0 ==> gs.winner == old(gs.winner) && gs.gameOver == old(gs.gameOver)
  {
    winner := ScanWinner(gs);
    if winner > 0 {
      gs.winner := winner;
      gs.gameOver := true;
    }
  }

  /** A table where only player 0 is in the game, with 20: player 0 wins, and
      `determine_winner` returns 0, a result its `winner > 0` test does not record. */
  lemma ZeroIdWinUnrecorded(ps: seq<Player>)
    requires |ps| == MAX_PLAYERS && ps[0].playerId == 0 && ps[0].active && ps[0].points == 20
    requires forall k :: 1 <= k < MAX_PLAYERS ==> !ps[k].active
    ensures WinnerOf(ps) == 0
  {
    StrictLeaderWins(ps, 0);
  }

  /** `determine_winner` with the test it evidently means: every result other than
      the no-winner value -1 is recorded, player 0's included. */
  method DetermineWinnerRecorded(gs: GameState) returns (winner: int)
    requires gs.Valid()
    modifies gs`winner, gs`gameOver
    ensures winner == WinnerOf(gs.players[..])
    ensures winner != -1 ==> gs.winner == winner && gs.gameOver
    ensures winner == -1 ==> gs.winner == old(gs.winner) && gs.gameOver == old(gs.gameOver)
  {
    winner := ScanWinner(gs);
    if winner != -1 {
      gs.winner := winner;
      gs.gameOver := true;
    }
  }
}
