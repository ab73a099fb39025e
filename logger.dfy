/**
 * The event log of src/logger.c: `log_event` builds an entry (a timestamp,
 * the player, an event name and details copied into fixed `char` buffers)
 * and appends it to a ring buffer of `MAX_LOG_ENTRIES` slots; the logger
 * thread takes entries off the front.
 *
 * A C `char` buffer is a sequence of cells, each either never written
 * (`Unset`) or holding a character; the string a buffer holds is read up to
 * its first NUL, as `%s` does.
 */
module Logger {
  import opened Wrappers

  const MAX_LOG_ENTRIES: int := 1000
  /** `sizeof(entry.event)` and `sizeof(entry.details)`. */
  const EVENT_SIZE: int := 50
  const DETAILS_SIZE: int := 100

  const NUL: char := '\0'

  // ------------------------------------------------------------ C char buffers

  datatype Cell = Unset | Char(c: char)

  /** A C string's characters: no NUL among them. */
  predicate IsCString(s: string)
  {
    forall i :: 0 <= i < |s| ==> s[i] != NUL
  }

  /** A local `char` array before anything is written to it. */
  function Uninitialised(size: nat): (buf: seq<Cell>)
    ensures |buf| == size
  {
    seq(size, _ => Unset)
  }

  /** `strncpy(dst, src, n)`: the first `n` cells take the characters of `src`
      and then NULs up to `n`; no terminator is added when `src` has `n` or more
      characters, and the cells from `n` on are left as they were. */
  function Strncpy(dst: seq<Cell>, src: string, n: nat): (buf: seq<Cell>)
    requires n <= |dst|
    ensures |buf| == |dst|
    ensures forall k :: 0 <= k < n && k < |src| ==> buf[k] == Char(src[k])
    ensures forall k :: |src| <= k < n ==> buf[k] == Char(NUL)
    ensures forall k :: n <= k < |dst| ==> buf[k] == dst[k]
  {
    seq(|dst|, k requires 0 <= k < |dst| => if k < n then (if k < |src| then Char(src[k]) else Char(NUL)) else dst[k])
  }

  /** The string `%s` prints from a buffer: the characters before the first NUL,
      or `None` when a cell is read that was never written or the array ends first
      (both undefined behaviour in C). */
  function CString(buf: seq<Cell>): (r: Option<string>)
    ensures r.Some? ==> IsCString(r.value) && |r.value| < |buf| && buf[|r.value|] == Char(NUL)
    ensures r.Some? ==> forall k :: 0 <= k < |r.value| ==> buf[k] == Char(r.value[k])
  {
    if buf == [] || buf[0].Unset? then None
    else if buf[0].c == NUL then Some("")
    else match CString(buf[1..])
      case None => None
      case Some(t) => Some([buf[0].c] + t)
  }

  /** A buffer holding the characters of `s` followed by a NUL reads as `s`. */
  lemma {:induction false} CStringReads(buf: seq<Cell>, s: string)
    requires IsCString(s) && |s| < |buf| && buf[|s|] == Char(NUL)
    requires forall k :: 0 <= k < |s| ==> buf[k] == Char(s[k])
    ensures CString(buf) == Some(s)
  {
    if s != [] {
      CStringReads(buf[1..], s[1..]);
      assert [s[0]] + s[1..] == s;
    }
  }

  /** A buffer with no NUL in it holds no string. */
  lemma {:induction false} CStringUnterminated(buf: seq<Cell>)
    requires forall k :: 0 <= k < |buf| ==> buf[k] != Char(NUL)
    ensures CString(buf) == None
  {
    if buf != [] && buf[0].Char? {
      CStringUnterminated(buf[1..]);
    }
  }

  /** At most the first `n` characters of `s`. */
  function Truncate(s: string, n: nat): (r: string)
    ensures |r| <= n && r <= s
    ensures |s| <= n ==> r == s
    ensures |s| >= n ==> |r| == n
  {
    if |s| <= n then s else s[..n]
  }

  /** The field as log_event writes it: `strncpy` of `size - 1` characters into
      an uninitialised `char[size]`, the last cell left unwritten. */
  function CopiedAsWritten(src: string, size: nat): (buf: seq<Cell>)
    requires size >= 1
    ensures |buf| == size && buf[size - 1] == Unset
  {
    Strncpy(Uninitialised(size), src, size - 1)
  }

  /** As written, the field holds the string only when it is shorter than
      `size - 1`; otherwise it has no terminator. */
  lemma AsWrittenField(src: string, size: nat)
    requires IsCString(src) && size >= 1
    ensures |src| < size - 1 ==> CString(CopiedAsWritten(src, size)) == Some(src)
    ensures |src| >= size - 1 ==> CString(CopiedAsWritten(src, size)) == None
  {
    var buf := CopiedAsWritten(src, size);
    if |src| < size - 1 {
      CStringReads(buf, src);
    } else {
      CStringUnterminated(buf);
    }
  }

  /** An event name of 49 characters is stored without a terminator. */
  lemma LongEventUnterminated()
    ensures CString(CopiedAsWritten(seq(49, _ => 'x'), EVENT_SIZE)) == None
  {
    AsWrittenField(seq(49, _ => 'x'), EVENT_SIZE);
  }

  /** The copy with the last cell set to NUL, as a zero-initialised entry has it. */
  function CopiedTerminated(src: string, size: nat): (buf: seq<Cell>)
    requires size >= 1
    ensures |buf| == size
  {
    CopiedAsWritten(src, size)[size - 1 := Char(NUL)]
  }

  /** What a terminated field holds: the source string cut to `size - 1` characters. */
  function StoredField(src: string, size: nat): (r: string)
    requires IsCString(src) && size >= 1
    ensures r == Truncate(src, size - 1)
    ensures CString(CopiedTerminated(src, size)) == Some(r)
  {
    var buf := CopiedTerminated(src, size);
    CStringReads(buf, Truncate(src, size - 1));
    CString(buf).value
  }

  // ------------------------------------------------------------ the ring buffer

  /** One `LogEntry`, its character arrays read as strings. */
  datatype LogEntry = LogEntry(timestamp: string, playerId: int, event: string, details: string)

  /** An entry of the zero-filled queue. */
  function EmptyEntry(): LogEntry
  {
    LogEntry("", 0, "", "")
  }

  /** `(x) % MAX_LOG_ENTRIES` for an index at most one lap beyond the end. */
  lemma Wrap(x: int)
    requires 0 <= x < 2 * MAX_LOG_ENTRIES
    ensures x % MAX_LOG_ENTRIES == if x < MAX_LOG_ENTRIES then x else x - MAX_LOG_ENTRIES
  {
  }

  /** The `count` entries of a ring buffer starting at slot `head`, oldest first. */
  function Ring(buf: seq<LogEntry>, head: int, count: nat): (s: seq<LogEntry>)
    requires |buf| == MAX_LOG_ENTRIES && 0 <= head < MAX_LOG_ENTRIES && count <= MAX_LOG_ENTRIES
    ensures |s| == count
  {
    seq(count, k requires 0 <= k < count => buf[(head + k) % MAX_LOG_ENTRIES])
  }

  /** Writing the slot just past the last entry and counting one more appends
      the entry at the back and changes none of the others. */
  lemma RingPush(buf: seq<LogEntry>, head: int, count: nat, e: LogEntry)
    requires |buf| == MAX_LOG_ENTRIES && 0 <= head < MAX_LOG_ENTRIES && count < MAX_LOG_ENTRIES
    ensures Ring(buf[(head + count) % MAX_LOG_ENTRIES := e], head, count + 1) == Ring(buf, head, count) + [e]
  {
    var tail := (head + count) % MAX_LOG_ENTRIES;
    Wrap(head + count);
    forall k | 0 <= k < count + 1
      ensures Ring(buf[tail := e], head, count + 1)[k] == (Ring(buf, head, count) + [e])[k]
    {
      Wrap(head + k);
    }
  }

  /** Moving the head on by one and counting one fewer drops the oldest entry,
      the one in the head slot. */
  lemma RingPop(buf: seq<LogEntry>, head: int, count: nat)
    requires |buf| == MAX_LOG_ENTRIES && 0 <= head < MAX_LOG_ENTRIES && 0 < count <= MAX_LOG_ENTRIES
    ensures Ring(buf, head, count)[0] == buf[head]
    ensures Ring(buf, (head + 1) % MAX_LOG_ENTRIES, count - 1) == Ring(buf, head, count)[1..]
  {
    var next := (head + 1) % MAX_LOG_ENTRIES;
    Wrap(head + 1);
    Wrap(head);
    forall k | 0 <= k < count - 1
      ensures Ring(buf, next, count - 1)[k] == Ring(buf, head, count)[1..][k]
    {
      Wrap(head + 1 + k);
      Wrap(next + k);
    }
  }

  class LogQueue {
    const entries: array<LogEntry>
    var head: int
    var tail: int
    var count: int

    /** The slot indices stay in the array, the count within capacity, and the
        tail is the head moved on by the count. */
    ghost predicate Valid()
      reads this
    {
      && entries.Length == MAX_LOG_ENTRIES
      && 0 <= head < MAX_LOG_ENTRIES
      && 0 <= tail < MAX_LOG_ENTRIES
      && 0 <= count <= MAX_LOG_ENTRIES
      && tail == (head + count) % MAX_LOG_ENTRIES
    }

    /** The queued entries, oldest first. */
    ghost function Contents(): (s: seq<LogEntry>)
      reads this, entries
      requires Valid()
      ensures |s| == count
    {
      Ring(entries[..], head, count)
    }

    /** `init_logger`: the queue zero-filled. */
    constructor ()
      ensures Valid() && fresh(entries) && head == 0 && tail == 0 && count == 0
      ensures Contents() == []
    {
      entries := new LogEntry[MAX_LOG_ENTRIES](_ => EmptyEntry());
      head, tail, count := 0, 0, 0;
    }

    /** The enqueue half of `log_event`: with room, `e` goes to the tail slot,
        the tail moves on and the count grows; a full queue drops `e`. */
    method Enqueue(e: LogEntry) returns (stored: bool)
      requires Valid()
      modifies this, entries
      ensures Valid() && head == old(head)
      ensures stored <==> old(count) < MAX_LOG_ENTRIES
      ensures stored ==> entries[..] == old(entries[..])[old(tail) := e]
      ensures stored ==> tail == (old(tail) + 1) % MAX_LOG_ENTRIES && count == old(count) + 1
      ensures stored ==> Contents() == old(Contents()) + [e]
      ensures !stored ==> entries[..] == old(entries[..]) && tail == old(tail) && count == old(count)
      ensures !stored ==> Contents() == old(Contents())
    {
      stored := count < MAX_LOG_ENTRIES;
      if stored {
        RingPush(entries[..], head, count, e);
        entries[tail] := e;
        Wrap(tail + 1);
        tail := (tail + 1) % MAX_LOG_ENTRIES;
        count := count + 1;
        Wrap(head + count);
      }
    }

    /** The dequeue half of `logger_thread_func`: a non-empty queue gives up its
        head slot, the head moves on and the count drops; an empty queue gives
        nothing and stays as it is. */
    method Dequeue() returns (r: Option<LogEntry>)
      requires Valid()
      modifies this
      ensures Valid() && tail == old(tail)
      ensures r.Some? <==> old(count) > 0
      ensures r.Some? ==> r.value == old(entries[head]) && head == (old(head) + 1) % MAX_LOG_ENTRIES
      ensures r.Some? ==> count == old(count) - 1
      ensures r.Some? ==> r.value == old(Contents())[0] && Contents() == old(Contents())[1..]
      ensures r.None? ==> head == old(head) && count == old(count) && Contents() == old(Contents())
    {
      if count > 0 {
        RingPop(entries[..], head, count);
        r := Some(entries[head]);
        Wrap(head + 1);
        head := (head + 1) % MAX_LOG_ENTRIES;
        count := count - 1;
        Wrap(head + count);
      } else {
        r := None;
      }
    }

    /** `log_event(player_id, event, details)` stamped `timestamp`: the entry keeps
        the event name and the details cut to their buffers (49 and 99
        characters), and is queued when there is room. */
    method LogEvent(playerId: int, event: string, details: string, timestamp: string) returns (stored: bool)
      requires Valid() && IsCString(event) && IsCString(details)
      modifies this, entries
      ensures Valid() && head == old(head)
      ensures stored <==> old(count) < MAX_LOG_ENTRIES
      ensures stored ==> tail == (old(tail) + 1) % MAX_LOG_ENTRIES && count == old(count) + 1
      ensures stored ==> Contents() == old(Contents()) + [LogEntry(timestamp, playerId, Truncate(event, EVENT_SIZE - 1), Truncate(details, DETAILS_SIZE - 1))]
      ensures !stored ==> Contents() == old(Contents()) && entries[..] == old(entries[..])
      ensures !stored ==> tail == old(tail) && count == old(count)
    {
      var entry := LogEntry(timestamp, playerId, StoredField(event, EVENT_SIZE), StoredField(details, DETAILS_SIZE));
      stored := Enqueue(entry);
    }
  }
}
