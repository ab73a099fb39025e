/**
 * One iteration of `scheduler_thread_func` (src/scheduler.c) with its sleeps
 * removed: the cyclic search for the next slot that may act, and the check
 * that ends the game once every active player stands.
 */
module Scheduler {
  import opened GameTypes
  import GameLogic

  /** A slot that may act: active and not standing. */
  predicate Eligible(p: Player)
  {
    p.active && !p.standing
  }

  /** The slot examined at step `j` of the search that starts after `current`. */
  function Cyclic(current: int, j: int): (k: int)
    ensures 0 <= k < MAX_PLAYERS
  {
    (current + 1 + j) % MAX_PLAYERS
  }

  /** The search from step `j` on: the first eligible slot examined, or, after
      `MAX_PLAYERS` steps without one, the slot the cursor has come back to. */
  function ScanFrom(ps: seq<Player>, current: int, j: nat): (k: int)
    requires |ps| == MAX_PLAYERS
    ensures 0 <= k < MAX_PLAYERS
    decreases MAX_PLAYERS - j
  {
    if j >= MAX_PLAYERS then Cyclic(current, MAX_PLAYERS)
    else if Eligible(ps[Cyclic(current, j)]) then Cyclic(current, j)
    else ScanFrom(ps, current, j + 1)
  }

  /** The new `current_turn`. */
  function NextTurn(ps: seq<Player>, current: int): (k: int)
    requires |ps| == MAX_PLAYERS
    ensures 0 <= k < MAX_PLAYERS
  {
    ScanFrom(ps, current, 0)
  }

  /** Step `i` is where a search from step `j` stops: the first eligible step at
      or after `j`, or `MAX_PLAYERS` when there is none. */
  predicate StopsAt(ps: seq<Player>, current: int, j: int, i: int)
    requires |ps| == MAX_PLAYERS
  {
    && j <= i <= MAX_PLAYERS
    && (i < MAX_PLAYERS ==> Eligible(ps[Cyclic(current, i)]))
    && forall l :: j <= l < i ==> !Eligible(ps[Cyclic(current, l)])
  }

  /** The search from step `j` stops where `StopsAt` says. */
  lemma {:induction false} ScanFromFirst(ps: seq<Player>, current: int, j: nat)
    requires |ps| == MAX_PLAYERS && j <= MAX_PLAYERS
    ensures exists i :: StopsAt(ps, current, j, i) && ScanFrom(ps, current, j) == Cyclic(current, i)
    decreases MAX_PLAYERS - j
  {
    if j == MAX_PLAYERS {
      assert ScanFrom(ps, current, j) == Cyclic(current, MAX_PLAYERS);
    } else if Eligible(ps[Cyclic(current, j)]) {
      assert ScanFrom(ps, current, j) == Cyclic(current, j);
    } else {
      ScanFromFirst(ps, current, j + 1);
    }
  }

  /** Each step moves the cursor one slot on, wrapping after the last. */
  lemma CyclicNext(current: int, j: int)
    ensures Cyclic(current, j + 1) == (Cyclic(current, j) + 1) % MAX_PLAYERS
  {
    var a := current + 1 + j;
    assert a == MAX_PLAYERS * (a / MAX_PLAYERS) + a % MAX_PLAYERS;
  }

  /** Every slot is examined by one of the `MAX_PLAYERS` steps. */
  lemma CyclicCovers(current: int, k: int)
    requires 0 <= k < MAX_PLAYERS
    ensures Cyclic(current, (k - current - 1) % MAX_PLAYERS) == k
  {
  }

  /** The new turn is a slot; it is the first eligible slot in cyclic order from
      `current + 1` (possibly `current` itself, examined last) when there is one,
      and `(current + 1) % MAX_PLAYERS` when no slot is eligible. */
  lemma NextTurnMeaning(ps: seq<Player>, current: int)
    requires |ps| == MAX_PLAYERS
    ensures 0 <= NextTurn(ps, current) < MAX_PLAYERS
    ensures (exists k :: 0 <= k < MAX_PLAYERS && Eligible(ps[k])) <==> Eligible(ps[NextTurn(ps, current)])
    ensures Eligible(ps[NextTurn(ps, current)]) ==>
      exists i :: 0 <= i < MAX_PLAYERS && NextTurn(ps, current) == Cyclic(current, i)
        && forall l :: 0 <= l < i ==> !Eligible(ps[Cyclic(current, l)])
    ensures !Eligible(ps[NextTurn(ps, current)]) ==> NextTurn(ps, current) == (current + 1) % MAX_PLAYERS
  {
    ScanFromFirst(ps, current, 0);
    var i :| StopsAt(ps, current, 0, i) && NextTurn(ps, current) == Cyclic(current, i);
    if i == MAX_PLAYERS {
      assert Cyclic(current, MAX_PLAYERS) == Cyclic(current, 0);
      forall k | 0 <= k < MAX_PLAYERS
        ensures !Eligible(ps[k])
      {
        CyclicCovers(current, k);
      }
    }
  }

  /** Number of active, standing slots among the first `n`. */
  function StandingBefore(ps: seq<Player>, n: int): (r: nat)
    requires 0 <= n <= |ps|
    ensures r <= GameLogic.ActiveBefore(ps, n)
  {
    if n == 0 then 0 else StandingBefore(ps, n - 1) + (if ps[n - 1].active && ps[n - 1].standing then 1 else 0)
  }

  /** The standing count reaches the active count exactly when every active slot stands. */
  lemma {:induction false} StandingCountIff(ps: seq<Player>, n: int)
    requires 0 <= n <= |ps|
    ensures StandingBefore(ps, n) == GameLogic.ActiveBefore(ps, n) <==>
      forall k :: 0 <= k < n && ps[k].active ==> ps[k].standing
  {
    if n > 0 {
      StandingCountIff(ps, n - 1);
    }
  }

  lemma {:induction false} SomeActiveIff(ps: seq<Player>, n: int)
    requires 0 <= n <= |ps|
    ensures GameLogic.ActiveBefore(ps, n) > 0 <==> exists k :: 0 <= k < n && ps[k].active
  {
    if n > 0 {
      SomeActiveIff(ps, n - 1);
    }
  }

  /** When `active_players` holds the true number of active slots, the game is
      declared finished exactly when some slot is active and every active slot stands. */
  lemma GameEndsIff(ps: seq<Player>, activePlayers: int)
    requires activePlayers == GameLogic.CountActive(ps)
    ensures (StandingBefore(ps, |ps|) == activePlayers && activePlayers > 0) <==>
      (exists k :: 0 <= k < |ps| && ps[k].active) && forall k :: 0 <= k < |ps| && ps[k].active ==> ps[k].standing
  {
    StandingCountIff(ps, |ps|);
    SomeActiveIff(ps, |ps|);
  }

  /** One scheduler tick. Off while the game is not active; otherwise the turn moves
      to `NextTurn` and the game is switched off when the active, standing count
      equals `active_players` and that is positive. Players are never written. */
  method Tick(gs: GameState)
    requires gs.Valid()
    modifies gs`currentTurn, gs`gameActive
    ensures gs.Valid() && gs.players[..] == old(gs.players[..])
    ensures !old(gs.gameActive) ==> gs.currentTurn == old(gs.currentTurn) && !gs.gameActive
    ensures old(gs.gameActive) ==>
      && gs.currentTurn == NextTurn(gs.players[..], old(gs.currentTurn))
      && gs.gameActive == !(StandingBefore(gs.players[..], MAX_PLAYERS) == gs.activePlayers && gs.activePlayers > 0)
  {
    if !gs.gameActive {
      return;
    }
    ghost var ps := gs.players[..];
    var current := gs.currentTurn;
    var nextTurn := (current + 1) % MAX_PLAYERS;
    var checked := 0;
    while checked < MAX_PLAYERS && !Eligible(gs.players[nextTurn])
      invariant 0 <= checked <= MAX_PLAYERS
      invariant nextTurn == Cyclic(current, checked)
      invariant ScanFrom(ps, current, checked) == NextTurn(ps, current)
      invariant gs.currentTurn == current && gs.gameActive
      decreases MAX_PLAYERS - checked
    {
      CyclicNext(current, checked);
      nextTurn := (nextTurn + 1) % MAX_PLAYERS;
      checked := checked + 1;
    }
    gs.currentTurn := nextTurn;

    var standingCount := 0;
    for i := 0 to MAX_PLAYERS
      invariant standingCount == StandingBefore(ps, i)
      invariant gs.currentTurn == nextTurn && gs.gameActive
    {
      if gs.players[i].active && gs.players[i].standing {
        standingCount := standingCount + 1;
      }
    }
    if standingCount == gs.activePlayers && gs.activePlayers > 0 {
      gs.gameActive := false;
    }
  }
}
