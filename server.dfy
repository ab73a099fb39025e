/**
 * The slot claim of the accept loop in src/server.c: each accepted
 * connection takes the id `connected_count` and, while there is a free slot,
 * marks that slot as a connected, active player. The socket, the fork and
 * the semaphore around the block are not part of this model; `now` is the
 * value `time(NULL)` returned.
 */
module Server {
  import opened GameTypes

  /** The slot of a newly connected player `id` claimed at time `now`: the
      identity and the connection flags are set, the hand is left alone. */
  function Claimed(p: Player, id: int, now: int): (r: Player)
    requires WellFormed(p)
    ensures WellFormed(r) && HandOf(r) == HandOf(p) && r.points == p.points && r.standing == p.standing
    ensures r.playerId == id && r.connected && r.active && r.lastActive == now
  {
    p.(playerId := id, connected := true, active := true, lastActive := now)
  }

  /** One claim: the id handed out is the connection count, which grows by one
      when that id is a free slot; a full table still hands out the id
      `MAX_PLAYERS` and changes nothing. */
  method ClaimSlot(gs: GameState, now: int) returns (myId: int)
    requires gs.Valid()
    modifies gs`connectedCount, gs.players
    ensures gs.Valid()
    ensures myId == old(gs.connectedCount)
    ensures myId < MAX_PLAYERS ==> gs.connectedCount == old(gs.connectedCount) + 1
    ensures myId < MAX_PLAYERS ==> gs.players[..] == old(gs.players[..])[myId := Claimed(old(gs.players[myId]), myId, now)]
    ensures myId >= MAX_PLAYERS ==> gs.connectedCount == old(gs.connectedCount) && gs.players[..] == old(gs.players[..])
  {
    myId := gs.connectedCount;
    if myId < MAX_PLAYERS {
      gs.connectedCount := gs.connectedCount + 1;
      gs.players[myId] := Claimed(gs.players[myId], myId, now);
    }
  }

  /** The ids `n` successive claims hand out, starting from connection count `c`. */
  function Claims(c: int, n: nat): (ids: seq<int>)
    requires 0 <= c <= MAX_PLAYERS
    ensures |ids| == n
    ensures forall k :: 0 <= k < n ==> c <= ids[k] <= MAX_PLAYERS
    decreases n
  {
    if n == 0 then [] else [c] + Claims(if c < MAX_PLAYERS then c + 1 else c, n - 1)
  }

  /** Claims from count `c` hand out `c`, `c + 1`, ... up to 4 and then
      `MAX_PLAYERS`, the id no slot has: from the zero count the server sets at
      start-up, the first five connections get the ids 0 to 4, one each. */
  lemma {:induction false} ClaimIds(c: int, n: nat)
    requires 0 <= c <= MAX_PLAYERS
    ensures forall k :: 0 <= k < n ==> Claims(c, n)[k] == if c + k < MAX_PLAYERS then c + k else MAX_PLAYERS
    decreases n
  {
    if n > 0 {
      var next := if c < MAX_PLAYERS then c + 1 else c;
      ClaimIds(next, n - 1);
      forall k | 0 < k < n
        ensures Claims(c, n)[k] == Claims(next, n - 1)[k - 1]
      {
      }
    }
  }
}
