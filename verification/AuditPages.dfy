/**
  Cursor pagination over the audit log, newest first, while new events keep being appended.
 */
module AuditPages {
  import opened AuditChain
  import opened Wrappers

  type Filter = Event -> bool

  predicate Under(sequenceNum: int, cursor: Option<int>) {
    cursor.Some? ==> sequenceNum < cursor.value
  }

  /** The query behind a page before its limit: filtered, below the cursor, by descending sequence number. */
  function Newest(log: seq<Event>, keep: Filter, cursor: Option<int>): seq<Event> {
    if log == [] then []
    else
      var n := |log| - 1;
      var older := Newest(log[..n], keep, cursor);
      if keep(log[n]) && Under(log[n].sequenceNum, cursor) then [log[n]] + older else older
  }

  function Page(log: seq<Event>, keep: Filter, cursor: Option<int>, limit: nat): seq<Event> {
    var rows := Newest(log, keep, cursor);
    rows[..Min(limit, |rows|)]
  }

  /** The X-AGR-Next-Cursor header. */
  function NextCursor(page: seq<Event>, limit: nat): Option<int> {
    if page != [] && |page| == limit then Some(page[|page| - 1].sequenceNum) else None
  }

  /** Sequence numbers rise along the log. */
  ghost predicate Rising(log: seq<Event>) {
    forall i, j | 0 <= i < j < |log| :: log[i].sequenceNum < log[j].sequenceNum
  }

  /** The log as the k-th request finds it: events are only ever appended. */
  ghost predicate Growing(feed: nat -> seq<Event>) {
    forall k: nat :: feed(0) <= feed(k) && Rising(feed(k))
  }

  // ---- What a page query returns ----

  ghost predicate Descending(rows: seq<Event>) {
    forall i, j | 0 <= i < j < |rows| :: rows[i].sequenceNum > rows[j].sequenceNum
  }

  lemma LastIsNewest(log: seq<Event>)
    requires Rising(log) && log != []
    ensures forall e | e in log[..|log| - 1] :: e.sequenceNum < log[|log| - 1].sequenceNum
    ensures forall e :: e in log <==> e in log[..|log| - 1] || e == log[|log| - 1]
  {
    var n := |log| - 1;
    assert log == log[..n] + [log[n]];
    forall e | e in log[..n] ensures e.sequenceNum < log[n].sequenceNum {
      var i :| 0 <= i < n && log[i] == e;
    }
  }

  /** Exactly the kept events under the cursor. */
  lemma {:induction false} NewestMembers(log: seq<Event>, keep: Filter, cursor: Option<int>)
    requires Rising(log)
    ensures forall e :: e in Newest(log, keep, cursor) <==> e in log && keep(e) && Under(e.sequenceNum, cursor)
  {
    if log != [] {
      LastIsNewest(log);
      NewestMembers(log[..|log| - 1], keep, cursor);
    }
  }

  /** Strictly newest first, so none twice. */
  lemma {:induction false} NewestDescends(log: seq<Event>, keep: Filter, cursor: Option<int>)
    requires Rising(log)
    ensures Descending(Newest(log, keep, cursor))
  {
    if log != [] {
      var n := |log| - 1;
      LastIsNewest(log);
      NewestDescends(log[..n], keep, cursor);
      NewestMembers(log[..n], keep, cursor);
      var rest := Newest(log[..n], keep, cursor);
      assert forall i | 0 <= i < |rest| :: rest[i] in rest;
    }
  }

  /** A cursor above every event filters nothing. */
  lemma {:induction false} HighCursor(log: seq<Event>, keep: Filter, low: Option<int>, high: Option<int>)
    requires forall i | 0 <= i < |log| :: Under(log[i].sequenceNum, low) && Under(log[i].sequenceNum, high)
    ensures Newest(log, keep, low) == Newest(log, keep, high)
  {
    if log != [] {
      HighCursor(log[..|log| - 1], keep, low, high);
    }
  }

  /** The last event of a log never lies below a cursor taken from itself or from an older event. */
  lemma BelowLast(log: seq<Event>, keep: Filter, c: int)
    requires log != [] && c <= log[|log| - 1].sequenceNum
    ensures Newest(log, keep, Some(c)) == Newest(log[..|log| - 1], keep, Some(c))
  {
  }

  /** Continuing below row i of a query gives the rows after row i. */
  lemma {:induction false} NewestBelow(log: seq<Event>, keep: Filter, cursor: Option<int>, i: nat)
    requires Rising(log) && i < |Newest(log, keep, cursor)|
    ensures Newest(log, keep, Some(Newest(log, keep, cursor)[i].sequenceNum)) == Newest(log, keep, cursor)[i + 1..]
  {
    hide Rising;
    var n := |log| - 1;
    var older, rest := log[..n], Newest(log[..n], keep, cursor);
    var c := Newest(log, keep, cursor)[i].sequenceNum;
    LastIsNewest(log);
    RisingPrefix(log);
    NewestMembers(older, keep, cursor);
    assert forall j | 0 <= j < |rest| :: rest[j] in rest;
    if keep(log[n]) && Under(log[n].sequenceNum, cursor) {
      BelowLast(log, keep, c);
      assert ([log[n]] + rest)[i + 1..] == rest[i..];
      if i == 0 {
        HighCursor(older, keep, cursor, Some(c));
      } else {
        NewestBelow(older, keep, cursor, i - 1);
      }
    } else {
      BelowLast(log, keep, c);
      NewestBelow(older, keep, cursor, i);
    }
  }

  lemma RisingPrefix(log: seq<Event>)
    requires Rising(log) && log != []
    ensures Rising(log[..|log| - 1])
  {
  }

  /** Events appended later lie above any cursor taken from the log as it was. */
  lemma {:induction false} AppendedAreAbove(before: seq<Event>, log: seq<Event>, keep: Filter, c: int)
    requires before <= log && Rising(log) && exists e :: e in before && e.sequenceNum == c
    ensures Newest(log, keep, Some(c)) == Newest(before, keep, Some(c))
    decreases |log|
  {
    if |before| < |log| {
      var n := |log| - 1;
      var e :| e in before && e.sequenceNum == c;
      var i :| 0 <= i < |before| && before[i] == e;
      assert log[i] == e && log[n].sequenceNum > c;
      AppendedAreAbove(before, log[..n], keep, c);
    } else {
      assert before == log;
    }
  }

  // ---- Following the cursor ----

  /** Where a client that follows cursors stands: at the start, or at a cursor taken from the first log. */
  ghost predicate Started(feed: nat -> seq<Event>, k: nat, cursor: Option<int>) {
    if cursor.None? then k == 0 else exists e :: e in feed(0) && e.sequenceNum == cursor.value
  }

  lemma QueryIsStable(feed: nat -> seq<Event>, k: nat, keep: Filter, cursor: Option<int>)
    requires Growing(feed) && Started(feed, k, cursor)
    ensures Newest(feed(k), keep, cursor) == Newest(feed(0), keep, cursor)
  {
    if cursor.Some? {
      AppendedAreAbove(feed(0), feed(k), keep, cursor.value);
    }
  }

  lemma NextStart(feed: nat -> seq<Event>, k: nat, keep: Filter, cursor: Option<int>, limit: nat)
    requires Growing(feed) && Started(feed, k, cursor) && limit >= 1
    requires limit <= |Newest(feed(0), keep, cursor)|
    ensures var rows, page := Newest(feed(0), keep, cursor), Page(feed(k), keep, cursor, limit);
            && page == rows[..limit]
            && NextCursor(page, limit).Some?
            && Started(feed, k + 1, NextCursor(page, limit))
            && Newest(feed(0), keep, NextCursor(page, limit)) == rows[limit..]
  {
    hide Newest, Growing;
    QueryIsStable(feed, k, keep, cursor);
    FirstIsRising(feed);
    NewestBelow(feed(0), keep, cursor, limit - 1);
    RowIsEvent(feed(0), keep, cursor, limit - 1);
    var rows := Newest(feed(0), keep, cursor);
    assert rows[..limit][limit - 1] == rows[limit - 1];
  }

  lemma FirstIsRising(feed: nat -> seq<Event>)
    requires Growing(feed)
    ensures Rising(feed(0))
  {
  }

  lemma RowIsEvent(log: seq<Event>, keep: Filter, cursor: Option<int>, i: nat)
    requires Rising(log) && i < |Newest(log, keep, cursor)|
    ensures Newest(log, keep, cursor)[i] in log
  {
    NewestMembers(log, keep, cursor);
    assert Newest(log, keep, cursor)[i] in Newest(log, keep, cursor);
  }

  /** All rows a client collects that follows the cursor from request k on; it terminates. */
  ghost function Follow(feed: nat -> seq<Event>, k: nat, keep: Filter, cursor: Option<int>, limit: nat): seq<Event>
    requires Growing(feed) && Started(feed, k, cursor) && limit >= 1
    decreases |Newest(feed(0), keep, cursor)|
  {
    var page := Page(feed(k), keep, cursor, limit);
    QueryIsStable(feed, k, keep, cursor);
    if NextCursor(page, limit).None? then page
    else
      NextStart(feed, k, keep, cursor, limit);
      page + Follow(feed, k + 1, keep, NextCursor(page, limit), limit)
  }

  lemma {:induction false} FollowCollects(feed: nat -> seq<Event>, k: nat, keep: Filter, cursor: Option<int>,
                                          limit: nat)
    requires Growing(feed) && Started(feed, k, cursor) && limit >= 1
    ensures Follow(feed, k, keep, cursor, limit) == Newest(feed(0), keep, cursor)
    decreases |Newest(feed(0), keep, cursor)|
  {
    var rows, page := Newest(feed(0), keep, cursor), Page(feed(k), keep, cursor, limit);
    QueryIsStable(feed, k, keep, cursor);
    if NextCursor(page, limit).Some? {
      NextStart(feed, k, keep, cursor, limit);
      FollowCollects(feed, k + 1, keep, NextCursor(page, limit), limit);
      assert rows == rows[..limit] + rows[limit..];
    }
  }

  /**
    Following the cursor from the first page yields every matching event of the log as it was at the first
    request exactly once, newest first, and nothing else, however many events are appended meanwhile.
   */
  lemma PaginationIsExact(feed: nat -> seq<Event>, keep: Filter, limit: nat)
    requires Growing(feed) && limit >= 1
    ensures var rows := Follow(feed, 0, keep, None, limit);
            && Descending(rows)
            && forall e :: e in rows <==> e in feed(0) && keep(e)
  {
    FollowCollects(feed, 0, keep, None, limit);
    assert feed(0) <= feed(0);
    NewestMembers(feed(0), keep, None);
    NewestDescends(feed(0), keep, None);
  }
}
