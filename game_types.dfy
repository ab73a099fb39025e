/**
 * Constants and records of the shared game state (include/game_state.h).
 *
 * A `PlayerState` is a plain C struct stored by value inside the shared
 * record's array, so it is a datatype here; the shared `GameState` record
 * is updated in place by every operation, so it is a class whose two
 * embedded C arrays (the player slots and the deck) are `const` arrays.
 */
module GameTypes {
  import Hand

  const MAX_PLAYERS: int := 5
  const MAX_CARDS: int := 10
  const DECK_SIZE: int := 52

  /** One player slot: `player_id`, the fixed `cards[MAX_CARDS]` buffer,
      `card_count`, `points`, the three flags and `last_active`. */
  datatype Player = Player(
    playerId: int,
    cards: seq<int>,
    cardCount: int,
    points: int,
    connected: bool,
    active: bool,
    standing: bool,
    lastActive: int)

  /** The card buffer has its C length and `card_count` indexes into it. */
  predicate WellFormed(p: Player)
  {
    |p.cards| == MAX_CARDS && 0 <= p.cardCount <= MAX_CARDS
  }

  /** The cards actually held: the first `card_count` entries of the buffer. */
  function HandOf(p: Player): seq<int>
    requires WellFormed(p)
  {
    p.cards[..p.cardCount]
  }

  /** The card buffer after `reset_player`: every entry -1. */
  function ClearedCards(): (c: seq<int>)
    ensures |c| == MAX_CARDS && forall j :: 0 <= j < MAX_CARDS ==> c[j] == -1
  {
    seq(MAX_CARDS, _ => -1)
  }

  /** A slot after `reset_player`: no cards, no points, not standing; identity and flags kept. */
  function Cleared(p: Player): (r: Player)
    ensures WellFormed(r) && HandOf(r) == [] && r.points == 0 && !r.standing
    ensures r.playerId == p.playerId && r.connected == p.connected && r.active == p.active
    ensures r.lastActive == p.lastActive
  {
    p.(cards := ClearedCards(), cardCount := 0, points := 0, standing := false)
  }

  /** A slot after one more card `c` is put at `cards[card_count]` and the points recomputed. */
  function WithCard(p: Player, c: int): (r: Player)
    requires WellFormed(p) && p.cardCount < MAX_CARDS
    ensures WellFormed(r) && HandOf(r) == HandOf(p) + [c] && r.points == Hand.Points(HandOf(r))
    ensures r.cards[r.cardCount..] == p.cards[r.cardCount..]
    ensures r == p.(cards := r.cards, cardCount := r.cardCount, points := r.points)
  {
    var cards := p.cards[p.cardCount := c];
    assert cards[..p.cardCount + 1] == HandOf(p) + [c];
    p.(cards := cards, cardCount := p.cardCount + 1, points := Hand.Points(cards[..p.cardCount + 1]))
  }

  /** A slot as it is in freshly mapped (zero-filled) shared memory. */
  function ZeroPlayer(): (p: Player)
    ensures WellFormed(p) && HandOf(p) == []
  {
    Player(0, seq(MAX_CARDS, _ => 0), 0, 0, false, false, false, 0)
  }

  class GameState {
    const players: array<Player>
    var currentTurn: int
    var activeCount: int
    var connectedCount: int
    /** `gs->active_players`, read by the scheduler but declared in no header
        of the repository: an explicit field of its own. */
    var activePlayers: int
    var gameActive: bool
    var gameOver: bool
    var winner: int
    const deck: array<int>
    var deckIdx: int

    /** What every operation of the model keeps: the C array lengths, a draw
        cursor inside the deck, a turn pointer inside the player array, the
        connection counter within capacity, and well-formed slots. */
    ghost predicate Valid()
      reads this, players
    {
      && players.Length == MAX_PLAYERS
      && deck.Length == DECK_SIZE
      && 0 <= deckIdx <= DECK_SIZE
      && 0 <= currentTurn < MAX_PLAYERS
      && 0 <= connectedCount <= MAX_PLAYERS
      && (forall i :: 0 <= i < MAX_PLAYERS ==> WellFormed(players[i]))
    }

    /** The state right after the shared segment is created: every byte zero. */
    constructor ()
      ensures Valid() && fresh(players) && fresh(deck)
      ensures forall i :: 0 <= i < MAX_PLAYERS ==> players[i] == ZeroPlayer()
      ensures forall k :: 0 <= k < DECK_SIZE ==> deck[k] == 0
      ensures currentTurn == 0 && activeCount == 0 && connectedCount == 0 && activePlayers == 0
      ensures !gameActive && !gameOver && winner == 0 && deckIdx == 0
    {
      players := new Player[MAX_PLAYERS](_ => ZeroPlayer());
      deck := new int[DECK_SIZE](_ => 0);
      currentTurn, activeCount, connectedCount, activePlayers := 0, 0, 0, 0;
      gameActive, gameOver, winner := false, false, 0;
      deckIdx := 0;
    }
  }
}
