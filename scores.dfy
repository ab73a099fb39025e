/**
 * The score table of src/scores.c: one record per known player, looked up
 * by `player_id`, updated after a win or a loss, and kept in a text file of
 * one line per record.
 *
 * The file is a sequence of lines (the `\n` that ends each one is the
 * separator); reading it is the capped load loop of `init_score_system`.
 */
module Scores {
  import opened Wrappers
  import opened GameTypes
  import Decimal

  /** One `PlayerScore` record. */
  datatype PlayerScore = PlayerScore(playerId: int, wins: int, losses: int, highestScore: int)

  /** A record of player `id` with no games yet, as the fresh initialisation writes it. */
  function FreshScore(id: int): (r: PlayerScore)
    ensures r.playerId == id && r.wins == 0 && r.losses == 0 && r.highestScore == 0
  {
    PlayerScore(id, 0, 0, 0)
  }

  /** Index of the first record of player `id`, or -1 when there is none. */
  function FindIndex(s: seq<PlayerScore>, id: int): (r: int)
    ensures -1 <= r < |s|
    ensures r >= 0 ==> s[r].playerId == id && forall k :: 0 <= k < r ==> s[k].playerId != id
    ensures r == -1 <==> forall k :: 0 <= k < |s| ==> s[k].playerId != id
  {
    if s == [] then -1
    else
      var f := FindIndex(s[..|s| - 1], id);
      if f >= 0 then f else if s[|s| - 1].playerId == id then |s| - 1 else -1
  }

  /** A record after a win scored `score`: one more win, the best score raised to `score` if higher. */
  function Won(e: PlayerScore, score: int): (r: PlayerScore)
    ensures r.playerId == e.playerId && r.wins == e.wins + 1 && r.losses == e.losses
    ensures r.highestScore >= e.highestScore && r.highestScore >= score
    ensures r.highestScore == e.highestScore || r.highestScore == score
  {
    e.(wins := e.wins + 1, highestScore := if score > e.highestScore then score else e.highestScore)
  }

  /** A record after a loss: one more loss, nothing else. */
  function Lost(e: PlayerScore): (r: PlayerScore)
    ensures r.playerId == e.playerId && r.wins == e.wins && r.highestScore == e.highestScore
    ensures r.losses == e.losses + 1
  {
    e.(losses := e.losses + 1)
  }

  // ---------------------------------------------------------------- line format

  /** `lit` is at the front of `s`: the text after it. */
  function Expect(lit: string, s: string): (r: Option<string>)
    ensures r.Some? <==> |lit| <= |s| && s[..|lit|] == lit
    ensures r.Some? ==> r.value == s[|lit|..]
  {
    if |lit| <= |s| && s[..|lit|] == lit then Some(s[|lit|..]) else None
  }

  /** The texts before the four numbers of a record line. */
  const Labels: seq<string> := ["Player ", ": Wins=", ", Losses=", ", Highest="]

  /** Each label, and then its number in decimal. */
  function FormatFields(labels: seq<string>, values: seq<int>): string
    requires |labels| == |values|
  {
    if labels == [] then ""
    else labels[0] + (Decimal.IntToString(values[0]) + FormatFields(labels[1..], values[1..]))
  }

  /** `"Player %d: Wins=%d, Losses=%d, Highest=%d"`, the line written per record. */
  function FormatRecord(e: PlayerScore): (line: string)
    ensures |line| > 7 && line[..7] == "Player "
  {
    FormatFields(Labels, [e.playerId, e.wins, e.losses, e.highestScore])
  }

  /** `fscanf` matching each label and then a `%d`: the numbers read and the text after them. */
  function ParseFields(labels: seq<string>, s: string): (r: Option<(seq<int>, string)>)
    ensures r.Some? ==> |r.value.0| == |labels|
  {
    if labels == [] then Some(([], s))
    else
      match Expect(labels[0], s)
      case None => None
      case Some(t) =>
        match Decimal.ParseInt(t)
        case None => None
        case Some((v, u)) =>
          match ParseFields(labels[1..], u)
          case None => None
          case Some((vs, rest)) => Some(([v] + vs, rest))
  }

  /** Reading one line with the record format: all four conversions must succeed
      and nothing may follow the last number. */
  function ParseRecord(line: string): (r: Option<PlayerScore>)
    ensures r.Some? ==> |line| > 7 && line[..7] == "Player "
  {
    match ParseFields(Labels, line)
    case None => None
    case Some((vs, rest)) => if rest == "" then Some(PlayerScore(vs[0], vs[1], vs[2], vs[3])) else None
  }

  /** Labels that do not start with a digit, so a number before them ends where they begin. */
  predicate Separated(labels: seq<string>)
  {
    forall i :: 0 <= i < |labels| ==> |labels[i]| > 0 && !Decimal.IsDigit(labels[i][0])
  }

  /** Formatted fields read back as the same numbers, leaving what follows them. */
  lemma {:induction false} FieldsRoundTrip(labels: seq<string>, values: seq<int>, rest: string)
    requires |labels| == |values| && Separated(labels)
    requires rest == [] || !Decimal.IsDigit(rest[0])
    ensures ParseFields(labels, FormatFields(labels, values) + rest) == Some((values, rest))
  {
    if labels != [] {
      var tail := FormatFields(labels[1..], values[1..]) + rest;
      FieldsRoundTrip(labels[1..], values[1..], rest);
      TailSeparated(labels, values, rest);
      Decimal.IntRoundTrip(values[0], tail);
      var num := Decimal.IntToString(values[0]) + tail;
      FormatCons(labels, values, rest);
      ExpectFront(labels[0], num);
      assert [values[0]] + values[1..] == values;
    } else {
      assert FormatFields(labels, values) + rest == rest;
    }
  }

  /** What follows the first number does not start with a digit. */
  lemma TailSeparated(labels: seq<string>, values: seq<int>, rest: string)
    requires |labels| == |values| && Separated(labels) && labels != []
    requires rest == [] || !Decimal.IsDigit(rest[0])
    ensures var tail := FormatFields(labels[1..], values[1..]) + rest;
      tail == [] || !Decimal.IsDigit(tail[0])
  {
    if labels[1..] != [] {
      assert labels[1..][0] == labels[1];
    }
  }

  /** Formatting with a first field, regrouped: its label, then its number, then the rest. */
  lemma FormatCons(labels: seq<string>, values: seq<int>, rest: string)
    requires |labels| == |values| && labels != []
    ensures FormatFields(labels, values) + rest
      == labels[0] + (Decimal.IntToString(values[0]) + (FormatFields(labels[1..], values[1..]) + rest))
  {
    var digits, more := Decimal.IntToString(values[0]), FormatFields(labels[1..], values[1..]);
    SeqAssoc(labels[0], digits + more, rest);
    SeqAssoc(digits, more, rest);
  }

  lemma ExpectFront(lit: string, t: string)
    ensures Expect(lit, lit + t) == Some(t)
  {
    assert (lit + t)[..|lit|] == lit && (lit + t)[|lit|..] == t;
  }

  lemma SeqAssoc(a: string, b: string, c: string)
    ensures (a + b) + c == a + (b + c)
  {
  }

  /** The line written for a record reads back as that record. */
  lemma RecordRoundTrip(e: PlayerScore)
    ensures ParseRecord(FormatRecord(e)) == Some(e)
  {
    var vs := [e.playerId, e.wins, e.losses, e.highestScore];
    FieldsRoundTrip(Labels, vs, "");
    assert FormatRecord(e) + "" == FormatRecord(e);
  }

  /** The file `write_scores_to_file` produces: one formatted line per record. */
  function FileLines(es: seq<PlayerScore>): seq<string>
  {
    seq(|es|, k requires 0 <= k < |es| => FormatRecord(es[k]))
  }

  /** What each line of a file reads as. */
  function ParseLines(lines: seq<string>): (parsed: seq<Option<PlayerScore>>)
    ensures |parsed| == |lines|
  {
    seq(|lines|, k requires 0 <= k < |lines| => ParseRecord(lines[k]))
  }

  /** The records the load loop keeps, given what each line reads as: the leading
      ones that read, stopping at the first line that does not or after `room`. */
  function LoadParsed(parsed: seq<Option<PlayerScore>>, room: nat): (r: seq<PlayerScore>)
    ensures |r| <= room && |r| <= |parsed|
  {
    if room == 0 || parsed == [] || parsed[0].None? then []
    else [parsed[0].value] + LoadParsed(parsed[1..], room - 1)
  }

  /** The load keeps exactly a prefix of lines that read, and it stops only at
      the room limit, at the end of the file or at a line that does not read. */
  lemma {:induction false} LoadParsedMeaning(parsed: seq<Option<PlayerScore>>, room: nat)
    ensures var r := LoadParsed(parsed, room);
      && (forall k :: 0 <= k < |r| ==> parsed[k] == Some(r[k]))
      && (|r| < room && |r| < |parsed| ==> parsed[|r|].None?)
  {
    if room > 0 && parsed != [] && parsed[0].Some? {
      LoadParsedMeaning(parsed[1..], room - 1);
    }
  }

  /** When the first `n` lines read, the load begins with their records, and it is
      exactly those when line `n` is where it stops (the room is used up, the file
      ends or the line does not read). */
  lemma {:induction false} LoadUpTo(parsed: seq<Option<PlayerScore>>, room: nat, n: nat)
    requires n <= room && n <= |parsed| && forall k :: 0 <= k < n ==> parsed[k].Some?
    ensures |LoadParsed(parsed, room)| >= n
    ensures forall k :: 0 <= k < n ==> LoadParsed(parsed, room)[k] == parsed[k].value
    ensures n == room || n == |parsed| || parsed[n].None? ==> |LoadParsed(parsed, room)| == n
  {
    if n > 0 {
      LoadUpTo(parsed[1..], room - 1, n - 1);
    }
  }

  /** `init_score_system`'s load of an opened file. */
  function LoadRecords(lines: seq<string>): (r: seq<PlayerScore>)
    ensures |r| <= MAX_PLAYERS
  {
    LoadParsed(ParseLines(lines), MAX_PLAYERS)
  }

  lemma {:induction false} LoadAllRead(parsed: seq<Option<PlayerScore>>, es: seq<PlayerScore>, room: nat)
    requires |parsed| == |es| <= room
    requires forall k :: 0 <= k < |es| ==> parsed[k] == Some(es[k])
    ensures LoadParsed(parsed, room) == es
  {
    if es != [] {
      LoadAllRead(parsed[1..], es[1..], room - 1);
      assert es == [es[0]] + es[1..];
    }
  }

  /** Loading a file this table wrote gives back the same records, whenever there
      are no more of them than the load keeps. */
  lemma ReloadAfterWrite(es: seq<PlayerScore>)
    requires |es| <= MAX_PLAYERS
    ensures LoadRecords(FileLines(es)) == es
  {
    var parsed := ParseLines(FileLines(es));
    forall k | 0 <= k < |es|
      ensures parsed[k] == Some(es[k])
    {
      RecordRoundTrip(es[k]);
    }
    LoadAllRead(parsed, es, MAX_PLAYERS);
  }

  /** The table: its records in `scores[0 .. score_count)`. */
  class ScoreTable {
    const scores: array<PlayerScore>
    var scoreCount: int

    ghost predicate Valid()
      reads this
    {
      scores.Length == MAX_PLAYERS && 0 <= scoreCount <= MAX_PLAYERS
    }

    /** The records in use. */
    ghost function Entries(): seq<PlayerScore>
      reads this, scores
      requires Valid()
    {
      scores[..scoreCount]
    }

    constructor ()
      ensures Valid() && fresh(scores) && scoreCount == 0
    {
      scores := new PlayerScore[MAX_PLAYERS](_ => PlayerScore(0, 0, 0, 0));
      scoreCount := 0;
    }

    /** The search loop of `update_score` and `record_loss`. */
    method FindEntry(playerId: int) returns (idx: int)
      requires Valid()
      ensures idx == FindIndex(scores[..scoreCount], playerId)
    {
      idx := -1;
      var i := 0;
      while i < scoreCount && idx == -1
        invariant 0 <= i <= scoreCount
        invariant idx == -1 ==> FindIndex(scores[..i], playerId) == -1
        invariant idx != -1 ==> idx == FindIndex(scores[..scoreCount], playerId)
      {
        assert scores[..i + 1][..i] == scores[..i];
        if scores[i].playerId == playerId {
          idx := i;
        }
        i := i + 1;
      }
      if idx == -1 {
        assert scores[..i] == scores[..scoreCount];
      }
    }

    /** `update_score(player_id, score)`: the first record of the player wins; with
        no record, nothing changes. */
    method UpdateScore(playerId: int, score: int)
      requires Valid()
      modifies scores
      ensures Valid() && scoreCount == old(scoreCount)
      ensures var idx := FindIndex(old(scores[..scoreCount]), playerId);
        scores[..] == if idx == -1 then old(scores[..]) else old(scores[..])[idx := Won(old(scores[idx]), score)]
    {
      var idx := FindEntry(playerId);
      if idx != -1 {
        scores[idx] := scores[idx].(wins := scores[idx].wins + 1);
        if score > scores[idx].highestScore {
          scores[idx] := scores[idx].(highestScore := score);
        }
      }
    }

    /** `record_loss(player_id)`: the first record of the player loses; with no
        record, nothing changes. */
    method RecordLoss(playerId: int)
      requires Valid()
      modifies scores
      ensures Valid() && scoreCount == old(scoreCount)
      ensures var idx := FindIndex(old(scores[..scoreCount]), playerId);
        scores[..] == if idx == -1 then old(scores[..]) else old(scores[..])[idx := Lost(old(scores[idx]))]
    {
      var idx := FindEntry(playerId);
      if idx != -1 {
        scores[idx] := scores[idx].(losses := scores[idx].losses + 1);
      }
    }

    /** `init_score_system` on the scores file (`None` when it cannot be opened):
        without a file, records for players 0 to 4 with no games; with one, the
        leading records that parse, at most `MAX_PLAYERS`. */
    method InitScoreSystem(file: Option<seq<string>>)
      requires Valid()
      modifies this, scores
      ensures Valid()
      ensures file.None? ==> scoreCount == MAX_PLAYERS && forall i :: 0 <= i < MAX_PLAYERS ==> scores[i] == FreshScore(i)
      ensures file.Some? ==> Entries() == LoadRecords(file.value)
      ensures file.Some? ==> forall k :: scoreCount <= k < MAX_PLAYERS ==> scores[k] == old(scores[k])
    {
      if file.Some? {
        LoadFile(file.value);
      } else {
        FreshTable();
      }
    }

    /** `init_score_system` on the lines of an opened file. */
    method LoadFile(lines: seq<string>)
      requires Valid()
      modifies this, scores
      ensures Valid() && Entries() == LoadRecords(lines)
      ensures forall k :: scoreCount <= k < MAX_PLAYERS ==> scores[k] == old(scores[k])
    {
      var parsed := ParseLines(lines);
      LoadRead(parsed);
    }

    /** The load loop, given what each line reads as. */
    method LoadRead(parsed: seq<Option<PlayerScore>>)
      requires Valid()
      modifies this, scores
      ensures Valid() && Entries() == LoadParsed(parsed, MAX_PLAYERS)
      ensures forall k :: scoreCount <= k < MAX_PLAYERS ==> scores[k] == old(scores[k])
    {
      var n := 0;
      while n < MAX_PLAYERS && n < |parsed| && parsed[n].Some?
        invariant 0 <= n <= MAX_PLAYERS && n <= |parsed|
        invariant forall k :: 0 <= k < n ==> parsed[k].Some? && scores[k] == parsed[k].value
        invariant forall k :: n <= k < MAX_PLAYERS ==> scores[k] == old(scores[k])
        decreases MAX_PLAYERS - n
      {
        scores[n] := parsed[n].value;
        n := n + 1;
      }
      LoadUpTo(parsed, MAX_PLAYERS, n);
      scoreCount := n;
      assert scores[..n] == LoadParsed(parsed, MAX_PLAYERS);
    }

    /** `init_score_system` without a file: records for players 0 to 4, no games. */
    method FreshTable()
      requires Valid()
      modifies this, scores
      ensures Valid() && scoreCount == MAX_PLAYERS
      ensures forall i :: 0 <= i < MAX_PLAYERS ==> scores[i] == FreshScore(i)
    {
      scoreCount := 5;
      for i := 0 to 5
        invariant Valid() && scoreCount == MAX_PLAYERS
        invariant forall k :: 0 <= k < i ==> scores[k] == FreshScore(k)
      {
        scores[i] := scores[i].(playerId := i, wins := 0, losses := 0, highestScore := 0);
      }
    }
  }
}
