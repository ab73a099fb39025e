# Blackjack server core in Dafny

This project models the rule engine of a multi-process blackjack server written
in C:

- the hand scorer, `calculate_points`;
- the 52-card deck with its draw cursor;
- dealing, hit, stand and reset;
- the start of a round and the winner scan of the multi-player engine
  (`src/game_logic.c`);
- the two-player engine (`Black_Jack/src/game_logic.c`): its deck routines,
  card names, and the initial deal, action, turn switch and game-over
  announcement steps of `handle_client`;
- one tick of the turn scheduler (`src/scheduler.c`);
- the score table with its line format (`src/scores.c`);
- the event-log ring buffer (`src/logger.c`);
- the slot claim of the accept loop (`src/server.c`).

The model keeps the form of the C code:

- A player slot (`PlayerState`) is a C struct held by value in the shared
  record, so it is the datatype `GameTypes.Player`. Its `cards[MAX_CARDS]`
  buffer is a 10-element sequence whose first `card_count` entries are the
  hand.
- The shared `GameState` record is the class `GameTypes.GameState`. Its fixed C
  arrays (`players[5]`, `deck[52]`) are `const` arrays.
- Every C function taking `GameState *gs` is a method that changes exactly the
  fields its `modifies` clause lists.
- The score table (`ScoreTable`) and the log queue (`LogQueue`) are classes
  over arrays, with `head`, `tail`, `count` and `score_count` as fields.
- Accumulator loops (`calculate_points`, the winner scan, the scheduler scan,
  the score search) are methods with loop invariants. Each is proved against a
  functional specification:
  - for `calculate_points`, `Hand.Points` and its closed form `Hand.BestTotal`;
  - for the winner scan, `GameLogic.WinnerOf`;
  - for the scheduler scan, `Scheduler.NextTurn`;
  - for the score search, `Scores.FindIndex`.
- The lemmas state what those specifications mean.

`rand()` is an arbitrary index in the range the C code reduces it to. For the
shuffles, only the facts that hold for every such choice are proved: the
result is a permutation and it is a full deck. `time(NULL)` becomes a
parameter where its value is stored (`now`, `timestamp`).

Behaviour the code does not have is not modelled:

- the code has no automatic stand on a natural 21 (nor on reaching 21 by a
  hit);
- it has no reshuffle of a low deck before a round (the deck is always rebuilt
  and shuffled);
- it has no five-card cap, no round counter, no turn timeout and no
  continue/quit poll;
- the scheduler's eligibility is `active && !standing`, without `connected`
  or `points <= 21`;
- `determine_winner` does not clear `game_active`;
- `init_game_round` (src/game_logic.c:144-189) deals to whichever slots are
  active and has no player-count threshold of its own.

## Model

| member | source | states |
|---|---|---|
| GameLogic.CalculatePoints | src/game_logic.c:9-36 | 0 for an empty hand; otherwise the value of the two C loops (`Points`), which on real cards is the hard total plus 10 when there is an Ace and that stays at 21 or less |
| Hand.PointsIsBestTotal | src/game_logic.c:9-36 | the loop's result (Aces high, lowered one at a time while bust) equals the closed form `BestTotal` on every hand of positive cards |
| Hand.PointsIsBestAchievable | src/game_logic.c:29-35 | the result is the hard total plus 10·k for some k up to the number of Aces; it is the largest such total within 21 when the hard total is within 21, and the hard total otherwise |
| Hand.PointsBustIff | src/game_logic.c:29-35 | a hand busts exactly when its hard total (Aces as 1) is above 21 |
| Hand.SoftIsHardPlusTen | src/game_logic.c:15-27 | the first pass's total is the hard total plus 10 per Ace |
| Hand.HardCoversAces | src/game_logic.c:15-27 | on positive cards the hard total is at least the number of Aces, so lowering Aces never goes below it |
| Hand.SoftenClosedForm | src/game_logic.c:29-33 | the lowering loop leaves at most one Ace high, exactly when that keeps the total within 21 |
| Hand.TotalsAppend | src/game_logic.c:16-27 | appending a card adds its first-pass value, its hard value and (for an Ace) one Ace |
| Hand.TwoCardsNeverBust | src/game_logic.c:162-168 | any two ranks score at most 21, so a freshly dealt hand never busts |
| Hand.Examples | src/game_logic.c:9-36 | the empty hand scores 0, `[1,1,9]` scores 21 and `[10,10,5]` scores 25 |
| GameLogic.ShuffleDeck | src/game_logic.c:39-49 | Fisher-Yates with any `j` in `[0, i]` permutes the first `size` cards and leaves the rest of the array alone |
| Deck.SwapPermutes | src/game_logic.c:45-47 | one exchange of two positions keeps the multiset of cards |
| Deck.StandardDeckAt | src/game_logic.c:55-57 | position k of the unshuffled deck (four suits Ace..King) holds `k % 13 + 1` |
| Deck.StandardDeckRanks | src/game_logic.c:54-57 | the unshuffled deck holds every rank 1..13 exactly four times and nothing else |
| Deck.InitOrderIsFull | src/game_logic.c:55-57 | the array `init_deck` writes is a full deck |
| Deck.StandardDeckIsFull | src/game_logic.c:54-57 | the four-suit order is a full deck |
| Deck.PermutedFullDeck | src/game_logic.c:59-60 | any reordering of a full deck is a full deck |
| Deck.FullDeckHoldsRanks | src/game_logic.c:90 | every card under any cursor of a full deck is a rank 1..13 |
| Deck.Drew | src/game_logic.c:84-91 | one draw: an exhausted deck is rebuilt full with the cursor at 1, otherwise the deck is kept and the cursor moves on by one; either way the card is the one just behind the new cursor |
| GameTypes.GameState.constructor | include/game_state.h:32-52 | the freshly mapped shared record: every field zero, every slot empty |
| GameLogic.InitDeck | src/game_logic.c:51-64 | afterwards the deck holds four of each rank and the cursor is 0 |
| GameLogic.DealCard | src/game_logic.c:67-106 | a bad id or a full hand gives -1 and changes nothing; otherwise one draw (rebuilding an exhausted deck first, cursor up by one), the card appended at `cards[card_count]`, the points recomputed, other slots unchanged, a full deck stays full and yields a rank |
| GameLogic.DrawFromDeck | src/game_logic.c:83-91 | an exhausted deck is rebuilt full with the cursor moved to 1; otherwise the card under the cursor is returned, the cursor moves on by one and the deck is unchanged |
| GameLogic.PlayerHit | src/game_logic.c:109-121 | the slot gets the dealt card, and `standing` is set exactly when the new points exceed 21 and is otherwise left as it was; other slots are unchanged |
| GameLogic.PlayerStand | src/game_logic.c:123-128 | only slot `id - 1`'s `standing` becomes true |
| GameLogic.ResetPlayer | src/game_logic.c:131-142 | the slot becomes `Cleared`: count 0, points 0, not standing, every card entry -1, identity, flags and timestamp kept; the other slots are unchanged |
| GameTypes.Cleared | src/game_logic.c:134-141 | a reset slot holds no cards and 0 points, is not standing, and keeps its id, `connected`, `active` and `last_active` |
| GameTypes.WithCard | src/game_logic.c:94-98 | the hand grows by exactly the card at the back, the points are the score of the new hand, and the buffer beyond it and every other field are unchanged |
| GameLogic.FirstActive | src/game_logic.c:176-181 | -1 exactly when no slot is active; otherwise an active slot with no active slot before it |
| GameLogic.FirstActiveByFlags | src/game_logic.c:176-181 | the lowest active slot depends only on the active flags |
| GameLogic.DealtTwo | src/game_logic.c:156-168 | an active slot after the round's deal holds exactly the two cards dealt, scores them, is not standing, and keeps its id and flags |
| GameLogic.RoundHandsLive | src/game_logic.c:162-168 | from a full deck every active slot of the round holds two cards, is not standing and is not above 21 |
| GameLogic.RoundKeepsFlags | src/game_logic.c:155-181 | the round keeps every active flag, so its lowest active slot is the one before the round |
| GameLogic.ResetActive | src/game_logic.c:155-160 | every active slot is reset and every inactive slot is unchanged |
| GameLogic.DealTwo | src/game_logic.c:164-167 | two deals into a cleared slot take the next two cards in order, move the cursor by 2 and touch no other slot |
| GameLogic.DealActive | src/game_logic.c:162-168 | dealing in slot order gives every slot its `AfterRound` state (two consecutive cards per active slot, inactive slots unchanged) and moves the cursor by twice the active count |
| GameLogic.DealRound | src/game_logic.c:152-168 | a full shuffled deck, the cursor at 2 × active count, every slot as `RoundOf` the old slots says, every active hand live |
| GameLogic.FirstActiveSlot | src/game_logic.c:176-181 | the turn search returns the lowest active slot, or 5 when none is active |
| GameLogic.InitGameRound | src/game_logic.c:144-189 | full deck, cursor 2 × active count, active slots dealt two cards with their points and inactive slots unchanged, `game_active` set, `game_over` cleared, `winner` -1, and the turn at the lowest active slot or unchanged when none is active |
| GameLogic.BestScore | src/game_logic.c:199-210 | `best_score` is at least every candidate's points and is held by a candidate when it is 0 or more |
| GameLogic.Holders | src/game_logic.c:202-208 | the count of candidates with a total is positive exactly when one holds it |
| GameLogic.FirstHolder | src/game_logic.c:203-205 | the first candidate holding a total, with none before it |
| GameLogic.WinnerStep | src/game_logic.c:199-210 | one step of the scan: a higher candidate takes the lead, an equal positive total voids it, anything else keeps it |
| GameLogic.WinnerOf | src/game_logic.c:194-210 | what the scan returns: any result other than -1 is the `player_id` of a candidate |
| GameLogic.StrictLeaderWins | src/game_logic.c:199-210 | a candidate strictly above every other with a positive total is returned |
| GameLogic.SharedBestIsVoid | src/game_logic.c:206-207 | two candidates sharing the highest positive total give -1 |
| GameLogic.NoCandidateNoWinner | src/game_logic.c:202 | when every slot is inactive or busted the result is -1 |
| GameLogic.WinnerIsLeader | src/game_logic.c:199-210 | any result other than -1 is the id of a candidate with the highest total, strictly above every other when positive |
| GameLogic.ScanWinner | src/game_logic.c:194-210 | the scan loop returns `WinnerOf` the slots and changes nothing |
| GameLogic.DetermineWinner | src/game_logic.c:191-226 | as written: returns `WinnerOf` the slots, records `winner` and `game_over` only for a result above 0, and never changes a player |
| GameLogic.ZeroIdWinUnrecorded | src/game_logic.c:215-217 | a clear win by the player with id 0 returns 0, which the `winner > 0` test does not record |
| GameLogic.DetermineWinnerRecorded | src/game_logic.c:191-226 | corrected: every result other than -1, id 0 included, is recorded in `winner` and `game_over` |
| PvpLogic.ShuffleDeck | Black_Jack/src/game_logic.c:15-22 | swapping each position with any `j` in `[0, size)` permutes the cards and touches nothing beyond `size` |
| PvpLogic.SuitPosition | Black_Jack/src/game_logic.c:26-29 | the nested loop writes rank v at position `13*s + v - 1`, which is rank `k % 13 + 1` for that position k |
| PvpLogic.InitDeck | Black_Jack/src/game_logic.c:24-33 | four suits written in order and shuffled: a full deck with the cursor at 0 |
| PvpLogic.DrawCard | Black_Jack/src/game_logic.c:39-49 | an exhausted deck is rebuilt first, then the card under the cursor is returned and the cursor moves on by one, ending in `[1, 52]`; the card is a rank whenever the deck was full or rebuilt |
| PvpLogic.CalculatePoints | Black_Jack/src/game_logic.c:51-61 | the same score as `Points`, and the closed form on real cards, with 0 for an empty hand |
| PvpLogic.EnginesAgree | Black_Jack/src/game_logic.c:51-61 | the two engines' scorers return the same value on every hand |
| PvpLogic.CardName | Black_Jack/src/game_logic.c:63-71 | a capitalised name exactly for 1, 11, 12 and 13; any other value's decimal text, which reads back as that value |
| PvpLogic.CardNameInjective | Black_Jack/src/game_logic.c:63-71 | distinct values get distinct names |
| PvpLogic.InitGameStateStruct | Black_Jack/src/game_logic.c:73-78 | turn 0, game active, a full shuffled deck with the cursor at 0 |
| PvpLogic.InitiallyDealt | Black_Jack/src/game_logic.c:91-95 | after the initial deal the slot is not standing and holds exactly the two cards with their points; the rest of the buffer and every other field are kept |
| PvpLogic.InitialDeal | Black_Jack/src/game_logic.c:91-95 | the slot is `InitiallyDealt` with the two draws, which are the next two cards when at least two remain; other slots unchanged; from a full deck the hand is not a bust |
| PvpLogic.IsHitCases | Black_Jack/src/game_logic.c:125 | the `strncasecmp` test holds exactly when the first three characters are h/H, i/I and t/T |
| PvpLogic.AfterActionMeaning | Black_Jack/src/game_logic.c:120-131 | a standing or busted player is unchanged; a hit appends the card, rescoring it and standing exactly on a bust; any other input stands |
| PvpLogic.IsHit | Black_Jack/src/game_logic.c:125 | the `strncasecmp(buffer, "hit", 3)` test, which needs at least three characters |
| PvpLogic.AfterAction | Black_Jack/src/game_logic.c:120-131 | the slot after the action step: identity and flags kept, the hand never shorter (what it becomes is `AfterActionMeaning`) |
| PvpLogic.PlayerAction | Black_Jack/src/game_logic.c:120-132 | a failed receive ends the session with no change; otherwise the slot is `AfterAction` of the input and no other slot changes; a hit by a player who may act is one draw from the cursor (`Drew`), and every other case leaves the deck and cursor unchanged |
| PvpLogic.SwitchTurn | Black_Jack/src/game_logic.c:135-138 | the turn goes to 1 for player 0 and to 0 otherwise; `game_over` becomes old `game_over` or both players standing |
| PvpLogic.HandleTurn | Black_Jack/src/game_logic.c:112-138 | off turn nothing changes; on turn, after a received action the slot is `AfterAction` of the input, the deck changes only by the hit's draw, the turn passes to the other player and `game_over` is set once both stand; after a failed receive nothing changes; `game_over` is never cleared |
| PvpLogic.AnnouncedWinner | Black_Jack/src/game_logic.c:142-144 | as written: player 0 exactly when it has more points than player 1 and at most 21, announced with that player's points |
| PvpLogic.AnnouncedWinnerCanBeBust | Black_Jack/src/game_logic.c:142-144 | as written, with 18 against 25 the busted player 1 is announced as winner with 25 |
| PvpLogic.IntendedWinner | Black_Jack/src/game_logic.c:142-144 | corrected rule: player 0 or 1, quoted with that player's points |
| PvpLogic.IntendedWinnerMeaning | Black_Jack/src/game_logic.c:142-144 | corrected rule: a bust is only ever announced when both busted; of two live hands the higher wins; it agrees with the code whenever player 1 has not busted |
| PvpLogic.GameOverSummary | Black_Jack/src/game_logic.c:141-145 | the announcement by the corrected rule: player 0 or 1, quoting a bust only when both hands busted |
| Scheduler.ScanFrom | src/scheduler.c:30-43 | the search always yields a slot index in `[0, 5)` |
| Scheduler.ScanFromFirst | src/scheduler.c:33-43 | the search stops at the first eligible step, or after five steps without one |
| Scheduler.CyclicCovers | src/scheduler.c:30-43 | every slot is the one examined at some step among the first five |
| Scheduler.NextTurn | src/scheduler.c:30-43 | the new `current_turn` is a slot index in `[0, 5)` (its meaning is `NextTurnMeaning`) |
| Scheduler.NextTurnMeaning | src/scheduler.c:30-46 | the new turn is in `[0, 5)`; it is eligible exactly when some slot is; then it is the first eligible slot in cyclic order from `current + 1` (possibly `current`); otherwise it is `(current + 1) % 5` |
| Scheduler.StandingBefore | src/scheduler.c:49-54 | the standing count never exceeds the active count |
| Scheduler.StandingCountIff | src/scheduler.c:49-56 | the standing count equals the active count exactly when every active slot stands |
| Scheduler.SomeActiveIff | src/scheduler.c:56 | the active count is positive exactly when some slot is active |
| Scheduler.GameEndsIff | src/scheduler.c:56-60 | with a correct `active_players`, the game is switched off exactly when some slot is active and all active slots stand |
| Scheduler.Tick | src/scheduler.c:9-62 | an inactive game is left as it is; otherwise the turn becomes `NextTurn` and the game is switched off exactly when the standing count equals a positive `active_players`; players never change |
| Scores.FreshScore | src/scores.c:53-56 | a fresh record has the given id and all counters 0 |
| Scores.FindIndex | src/scores.c:80-86 | the first record with the id, none before it; -1 exactly when no record has it |
| Scores.Won | src/scores.c:88-92 | one more win, losses kept, best score the larger of the old one and the new score |
| Scores.Lost | src/scores.c:113-114 | one more loss; id, wins and best score kept |
| Scores.FormatRecord | src/scores.c:17-21 | the line written for a record, which starts with `Player ` (it reads back by `RecordRoundTrip`) |
| Scores.ParseRecord | src/scores.c:43-44 | a line reads as a record only if it starts with `Player ` and matches the whole format |
| Scores.FieldsRoundTrip | src/scores.c:43-44 | reading labels and `%d` values back from their formatted text gives the same values and leaves what follows |
| Scores.RecordRoundTrip | src/scores.c:17-21 | the line written for a record reads back as that record |
| Scores.LoadParsedMeaning | src/scores.c:42-46 | the load keeps exactly a prefix of readable records, stopping only at the cap, the end of the file or an unreadable line |
| Scores.LoadUpTo | src/scores.c:42-46 | when the first n lines read, the load starts with their records, and is exactly them when line n is where it stops |
| Scores.LoadAllRead | src/scores.c:42-46 | when every line reads and they fit, the load gives every record |
| Scores.LoadRecords | src/scores.c:42-46 | the load never keeps more than `MAX_PLAYERS` records |
| Scores.ReloadAfterWrite | src/scores.c:13-46 | loading a file the table wrote gives back the same records whenever they fit |
| Scores.ScoreTable.constructor | src/scores.c:9-10 | the table in the zero-filled shared record: five record slots, none in use |
| Scores.ScoreTable.FindEntry | src/scores.c:80-86 | the search loop returns `FindIndex` of the records in use |
| Scores.ScoreTable.UpdateScore | src/scores.c:75-98 | only the first record with the id changes, to `Won`; an unknown id changes nothing; `score_count` is kept |
| Scores.ScoreTable.RecordLoss | src/scores.c:101-120 | only the first record with the id gets one more loss; an unknown id changes nothing; `score_count` is kept |
| Scores.ScoreTable.InitScoreSystem | src/scores.c:32-64 | without a file, five fresh records for ids 0..4; with one, the records in use are `LoadRecords` of the file's lines |
| Scores.ScoreTable.LoadFile | src/scores.c:38-48 | the records in use are exactly those the capped load keeps |
| Scores.ScoreTable.LoadRead | src/scores.c:40-46 | the loop stores the leading readable records, at most five, and leaves the later slots alone |
| Scores.ScoreTable.FreshTable | src/scores.c:49-57 | `score_count` 5 and record i is fresh for id i |
| Decimal.NatToString | Black_Jack/src/game_logic.c:69 | at least one digit, only digits, and no leading zero |
| Decimal.IntRoundTrip | src/scores.c:43-44 | `%d` text of any integer reads back as that integer, leaving the text that follows |
| Decimal.NatRoundTrip | src/scores.c:43-44 | the same for non-negative values |
| Decimal.NegativeRoundTrip | src/scores.c:43-44 | the same for negative values, with the minus sign |
| Decimal.IntToStringInjective | Black_Jack/src/game_logic.c:69 | distinct integers have distinct decimal text |
| Logger.CString | src/logger.c:80-82 | what `%s` prints from a buffer: the cells before the first NUL, with no NUL inside |
| Logger.CStringReads | src/logger.c:80-82 | a buffer holding a string and then a NUL prints that string |
| Logger.CStringUnterminated | src/logger.c:80-82 | a buffer with no NUL holds no string |
| Logger.Truncate | src/logger.c:47-48 | at most n characters, a prefix of the source, all of it when it is short |
| Logger.Strncpy | src/logger.c:47-48 | `strncpy(dst, src, n)`: the first `n` cells take the source's characters and then NULs, and the cells from `n` on are left as they were |
| Logger.CopiedAsWritten | src/logger.c:44-48 | as written, the field after `strncpy` of size minus 1 characters into an uninitialised buffer, whose last cell stays unwritten |
| Logger.AsWrittenField | src/logger.c:44-48 | as written, a field holds its string only when the string is shorter than the buffer size minus 1; otherwise it has no terminator |
| Logger.LongEventUnterminated | src/logger.c:44-47 | a 49-character event name is stored without a terminator |
| Logger.StoredField | src/logger.c:44-48 | corrected: with the last cell a NUL, the field reads as the source cut to size minus 1 characters |
| Logger.RingPush | src/logger.c:52-56 | writing the slot after the last entry and counting one more appends the entry at the back |
| Logger.RingPop | src/logger.c:70-73 | the head slot is the oldest entry; moving the head and counting one fewer drops it from the front |
| Logger.LogQueue.constructor | src/logger.c:30-33 | the zeroed queue is valid and empty |
| Logger.LogQueue.Enqueue | src/logger.c:50-59 | with room, the entry goes to the old tail, the tail moves on modulo 1000, the count grows and the contents gain it at the back; a full queue is unchanged; `tail == (head + count) % 1000` is kept |
| Logger.LogQueue.Dequeue | src/logger.c:68-87 | a non-empty queue returns the head entry (the oldest), moves the head modulo 1000 and drops it from the front; an empty queue returns nothing and is unchanged |
| Logger.LogQueue.LogEvent | src/logger.c:40-60 | corrected (see Findings): with room, the contents gain an entry with the player, the timestamp and the event and details cut to 49 and 99 characters, the tail and count advance; the head never moves; a full queue is unchanged in its slots, tail and count |
| Server.Claimed | src/server.c:75-78 | the claimed slot gets the id, `connected`, `active` and `last_active = now`; its hand, points and standing are kept |
| Server.ClaimSlot | src/server.c:70-80 | the id is the old connection count; below capacity the count grows by one and only that slot changes; at capacity nothing changes |
| Server.Claims | src/server.c:65-80 | every id handed out lies between the starting count and 5 |
| Server.ClaimIds | src/server.c:38-80 | from count 0 the first five connections get ids 0..4, one each, and every later one gets 5 |

## Left out

- Semaphores and mutexes are not modelled; the model is sequential.
  `init_game_round` holds `deck_sem` (src/game_logic.c:150) and calls
  `deal_card`, which waits on it again (src/game_logic.c:81); that
  self-deadlock is not represented.
- `rand`, `srand`, `getpid` and `time` are left out. Shuffle indices are
  arbitrary in range, and the clock's value is a parameter (`now`,
  `timestamp`).
- `printf` tracing, sockets, `send`/`recv`/`usleep`, `fork`, the accept loop,
  the threads and shared memory (`src/shared_mem.c`) are left out: they are
  I/O or process plumbing. A failed `recv` is the `None` input of
  `PvpLogic.PlayerAction`.
- File I/O is not modelled.
  - The scores file is a sequence of lines.
  - `write_scores_to_file` and `shutdown_score_system` appear only as
    `Scores.FileLines`, the text they produce.
  - `fscanf`'s leniency about whitespace is not modelled: a line must match
    the format exactly, with nothing after the last number.
- The logger's file handling is left out (the clearing in `init_logger` and
  the `fprintf` of each dequeued entry), as is the `strftime` formatting of
  the timestamp. `Logger.CString` is the model of what `%s` reads.
- C `int` overflow is not modelled: counters and points are unbounded
  integers.
- PvpLogic.PlayerAction: the hit path of Black_Jack/src/game_logic.c:126
  writes `cards[card_count++]` without a bound check. The model requires
  `card_count < MAX_CARDS` on that path instead of modelling the overflow.
- GameLogic.PlayerHit, GameLogic.PlayerStand: the C code indexes
  `players[player_id - 1]` without a check, so both require a valid id.
- `gs->active_players`, which the scheduler reads but no header declares, is
  the separate field `activePlayers`. The score table (`scores`,
  `score_count`), which include/game_state.h does not declare, is the
  separate class `Scores.ScoreTable`.
- A connection refused at capacity still reaches `handle_client` with id 5
  (src/server.c:84-86); what `handle_client` does with that slot is outside
  this model.
- include/logger.h declares a `log_event` whose signature differs from the
  definition in src/logger.c. The model follows the definition.
- Logger.LogQueue.LogEvent: the queued event and details are the
  NUL-terminated copy (`StoredField`). As written, src/logger.c:44-48 leaves
  them unterminated for inputs of 49 (99) characters or more; that case is
  `Logger.AsWrittenField` (see Findings).
- GameTypes.GameState.Valid: bounds `connected_count` by `MAX_PLAYERS`, which
  src/server.c:72 keeps. Black_Jack/src/server.c:63 increments it with no
  bound; no PvpLogic step reads the field, but each assumes a state within
  that bound.
- The two-player `handle_client` waits for two connections
  (`while (gs->connected_count < 2)`, Black_Jack/src/game_logic.c:88) before
  `PvpLogic.InitialDeal`; that wait is a `usleep` poll and is not modelled.
- PvpLogic.AfterAction and PvpLogic.HandleTurn model one pass of the
  `handle_client` loop, not the waiting loop around it.
- `get_card_name`'s static buffer, and its reuse across calls, is not
  modelled: `CardName` returns a value.

## Findings

| source | as written | input that shows it | evidently intended | confidence | as-written member | corrected member |
|---|---|---|---|---|---|---|
| Black_Jack/src/game_logic.c:142-144 | player 1 is announced whenever player 0 does not have more points and at most 21, even when player 1 is above 21 | player 0 stands on 18, player 1 busts with 25: player 1 is announced the winner with 25 | a bust loses to a hand of 21 or less | not executed; high | PvpLogic.AnnouncedWinnerCanBeBust | PvpLogic.IntendedWinnerMeaning |
| src/logger.c:44-48 | `strncpy` of `sizeof - 1` characters into an uninitialised local `LogEntry` writes no terminator when the source is that long or longer | an event name of 49 characters (or details of 99): the last cell of the field is never written and `%s` reads past it | the field holds the string cut to 49 (99) characters, NUL-terminated | not executed; high | Logger.LongEventUnterminated | Logger.StoredField |
| src/game_logic.c:215 | the result is recorded only when `winner > 0`, but src/server.c:75 gives the first player id 0 | slot 0 is the only candidate, with 20: `determine_winner` returns 0 and leaves `winner` and `game_over` unrecorded | every result other than -1 is recorded | not executed; medium | GameLogic.ZeroIdWinUnrecorded | GameLogic.DetermineWinnerRecorded |
