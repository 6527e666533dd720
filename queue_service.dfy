/** `QueueService`: the table of Zoom recordings waiting to be backed up, one row per
    (installation, meeting uuid). */
module QueueService {
  import opened Wrappers
  import opened Php
  import opened Store

  const PRIORITY_YESTERDAY: int := 1
  /** The default priority of `addMeetings`. */
  const PRIORITY_RETROACTIVE: int := 10

  /** A meeting handed to `addMeetings`; only its uuid is read. Meetings reach the queue as
      PHP arrays (the Zoom responses are decoded with `json_decode(..., true)`), so a missing
      uuid is an absent key that `empty` skips. */
  datatype MeetingRef = MeetingRef(uuid: Option<string>)

  predicate HasUuid(m: MeetingRef) {
    m.uuid.Some? && !Empty(m.uuid.value)
  }

  /** `record_exists('ortattendance_queue', ['bot_id' => b, 'uuid' => u])`, the uuid compared
      under the column's collation (on MySQL's default one, uuids differing only in case are
      equal). */
  predicate Queued(rows: seq<QueueRow>, c: Collation, botId: int, uuid: string) {
    exists i :: 0 <= i < |rows| && rows[i].botId == botId && c.equal(rows[i].uuid, uuid)
  }

  /** No row's (installation, uuid) pair matches an earlier row's under the collation. */
  ghost predicate KeysUnique(rows: seq<QueueRow>, c: Collation) {
    forall i, j :: 0 <= i < j < |rows| ==> rows[i].botId != rows[j].botId || !c.equal(rows[i].uuid, rows[j].uuid)
  }

  /** The queue table and the id its next insert gets. */
  datatype QueueTable = QueueTable(rows: seq<QueueRow>, nextId: int)

  /** The tally `addMeetings` returns. */
  datatype Tally = Tally(queued: nat, skipped: nat)

  /** One meeting of `addMeetings`: skipped without a uuid or when already queued, else
      inserted as a fresh pending row. */
  function AddOne(t: QueueTable, tally: Tally, c: Collation, botId: int, m: MeetingRef, priority: int, now: int)
    : (QueueTable, Tally)
  {
    if !HasUuid(m) || Queued(t.rows, c, botId, m.uuid.value) then (t, tally.(skipped := tally.skipped + 1))
    else
      (QueueTable(t.rows + [QueueRow(t.nextId, botId, m.uuid.value, priority, 0, None, now)], t.nextId + 1),
       tally.(queued := tally.queued + 1))
  }

  /** `addMeetings` over the meetings in order. */
  function AddMeetings(t: QueueTable, c: Collation, botId: int, meetings: seq<MeetingRef>, priority: int, now: int)
    : (QueueTable, Tally)
  {
    if |meetings| == 0 then (t, Tally(0, 0))
    else
      var (t1, tally) := AddMeetings(t, c, botId, meetings[..|meetings| - 1], priority, now);
      AddOne(t1, tally, c, botId, meetings[|meetings| - 1], priority, now)
  }

  /** Every meeting is counted once, as queued or as skipped; exactly the queued ones add a
      row, and every added row is a pending row of this installation with the given priority,
      no error, the creation time, and the next free id. */
  lemma {:induction false} AddMeetingsFacts(t: QueueTable, c: Collation, botId: int, meetings: seq<MeetingRef>,
                                            priority: int, now: int)
    ensures var (t', tally) := AddMeetings(t, c, botId, meetings, priority, now);
      tally.queued + tally.skipped == |meetings|
      && |t'.rows| == |t.rows| + tally.queued
      && t'.nextId == t.nextId + tally.queued
      && t'.rows[..|t.rows|] == t.rows
      && forall i :: |t.rows| <= i < |t'.rows| ==>
           t'.rows[i] == QueueRow(t.nextId + (i - |t.rows|), botId, t'.rows[i].uuid, priority, 0, None, now)
           && !Empty(t'.rows[i].uuid)
  {
    if |meetings| > 0 {
      AddMeetingsFacts(t, c, botId, meetings[..|meetings| - 1], priority, now);
    }
  }

  /** No row with an already queued (installation, uuid) pair is ever added, also not for a
      uuid repeated within one call. */
  lemma {:induction false} AddMeetingsKeepsKeysUnique(t: QueueTable, c: Collation, botId: int,
                                                      meetings: seq<MeetingRef>, priority: int, now: int)
    requires KeysUnique(t.rows, c)
    ensures KeysUnique(AddMeetings(t, c, botId, meetings, priority, now).0.rows, c)
  {
    if |meetings| > 0 {
      AddMeetingsKeepsKeysUnique(t, c, botId, meetings[..|meetings| - 1], priority, now);
      var (t1, tally) := AddMeetings(t, c, botId, meetings[..|meetings| - 1], priority, now);
      var m := meetings[|meetings| - 1];
      if HasUuid(m) && !Queued(t1.rows, c, botId, m.uuid.value) {
        var rows := t1.rows + [QueueRow(t1.nextId, botId, m.uuid.value, priority, 0, None, now)];
        forall i, j | 0 <= i < j < |rows|
          ensures rows[i].botId != rows[j].botId || !c.equal(rows[i].uuid, rows[j].uuid)
        {
          if j == |rows| - 1 {
            assert rows[i] == t1.rows[i];
          }
        }
      }
    }
  }

  /** After the call, every meeting that has a uuid is queued for the installation, and the
      ids stay distinct and below the next id. */
  lemma {:induction false} AddMeetingsQueuesEveryUuid(t: QueueTable, c: Collation, botId: int,
                                                      meetings: seq<MeetingRef>, priority: int, now: int)
    requires QueueValid(t.rows, t.nextId)
    requires forall u :: c.equal(u, u)
    ensures var t' := AddMeetings(t, c, botId, meetings, priority, now).0;
      QueueValid(t'.rows, t'.nextId)
      && forall m :: m in meetings && HasUuid(m) ==> Queued(t'.rows, c, botId, m.uuid.value)
  {
    if |meetings| > 0 {
      var prefix := meetings[..|meetings| - 1];
      AddMeetingsQueuesEveryUuid(t, c, botId, prefix, priority, now);
      var t1 := AddMeetings(t, c, botId, prefix, priority, now).0;
      var t' := AddMeetings(t, c, botId, meetings, priority, now).0;
      var m := meetings[|meetings| - 1];
      assert t'.rows[..|t1.rows|] == t1.rows;
      forall m' | m' in meetings && HasUuid(m')
        ensures Queued(t'.rows, c, botId, m'.uuid.value)
      {
        if m' in prefix {
          var i :| 0 <= i < |t1.rows| && t1.rows[i].botId == botId && c.equal(t1.rows[i].uuid, m'.uuid.value);
          assert t'.rows[i] == t1.rows[i];
        } else {
          assert m' == m;
          if !Queued(t1.rows, c, botId, m.uuid.value) {
            assert c.equal(m.uuid.value, m.uuid.value);
            assert t'.rows[|t1.rows|].uuid == m.uuid.value;
          }
        }
      }
    }
  }

  /** A meeting without a uuid is skipped and adds nothing. */
  lemma MeetingWithoutUuidIsSkipped(t: QueueTable, c: Collation, botId: int, meetings: seq<MeetingRef>,
                                    priority: int, now: int)
    requires forall m :: m in meetings ==> !HasUuid(m)
    ensures AddMeetings(t, c, botId, meetings, priority, now) == (t, Tally(0, |meetings|))
  {
    if |meetings| > 0 {
      assert forall m :: m in meetings[..|meetings| - 1] ==> m in meetings;
      MeetingWithoutUuidIsSkipped(t, c, botId, meetings[..|meetings| - 1], priority, now);
      assert meetings[|meetings| - 1] in meetings;
    }
  }

  /** `addMeetings` against the database. */
  method AddMeetingsRun(db: Database, c: Collation, botId: int, meetings: seq<MeetingRef>, priority: int, now: int)
    returns (queued: nat, skipped: nat)
    modifies db`queue, db`nextQueueId
    ensures (QueueTable(db.queue, db.nextQueueId), Tally(queued, skipped))
            == AddMeetings(QueueTable(old(db.queue), old(db.nextQueueId)), c, botId, meetings, priority, now)
    ensures queued + skipped == |meetings|
  {
    queued, skipped := 0, 0;
    var i := 0;
    while i < |meetings|
      invariant 0 <= i <= |meetings|
      invariant (QueueTable(db.queue, db.nextQueueId), Tally(queued, skipped))
                == AddMeetings(QueueTable(old(db.queue), old(db.nextQueueId)), c, botId, meetings[..i], priority, now)
    {
      assert meetings[..i + 1][..i] == meetings[..i];
      var uuid := meetings[i].uuid;
      if uuid.None? || Empty(uuid.value) || Queued(db.queue, c, botId, uuid.value) {
        skipped := skipped + 1;
      } else {
        db.queue := db.queue + [QueueRow(db.nextQueueId, botId, uuid.value, priority, 0, None, now)];
        db.nextQueueId := db.nextQueueId + 1;
        queued := queued + 1;
      }
      i := i + 1;
    }
    assert meetings[..i] == meetings;
    AddMeetingsFacts(QueueTable(old(db.queue), old(db.nextQueueId)), c, botId, meetings, priority, now);
  }

  // ---------------------------------------------------------------- getPending / countPending

  predicate IsPending(r: QueueRow, botId: int) {
    r.botId == botId && r.processed == 0
  }

  /** The installation's rows not yet processed, in table order. */
  function Pending(rows: seq<QueueRow>, botId: int): (r: seq<QueueRow>)
    ensures forall x :: x in r <==> x in rows && IsPending(x, botId)
    ensures multiset(r) <= multiset(rows)
  {
    if |rows| == 0 then []
    else
      var rest := Pending(rows[..|rows| - 1], botId);
      assert rows == rows[..|rows| - 1] + [rows[|rows| - 1]];
      if IsPending(rows[|rows| - 1], botId) then rest + [rows[|rows| - 1]] else rest
  }

  /** `ORDER BY priority ASC, timecreated ASC`. */
  predicate NotAfter(a: QueueRow, b: QueueRow) {
    a.priority < b.priority || (a.priority == b.priority && a.timeCreated <= b.timeCreated)
  }

  predicate Ordered(s: seq<QueueRow>) {
    forall i, j :: 0 <= i < j < |s| ==> NotAfter(s[i], s[j])
  }

  /** Insert `x` into an ordered list after every row not after it (stable). */
  function Insert(x: QueueRow, s: seq<QueueRow>): (r: seq<QueueRow>)
    requires Ordered(s)
    ensures Ordered(r) && multiset(r) == multiset(s) + multiset{x} && |r| == |s| + 1
  {
    if |s| == 0 then [x]
    else if NotAfter(s[0], x) then
      var rest := Insert(x, s[1..]);
      HeadBeforeInserted(x, s, rest);
      ConsOrdered(s[0], rest);
      assert s == [s[0]] + s[1..];
      [s[0]] + rest
    else
      InsertedBeforeAll(x, s);
      ConsOrdered(x, s);
      [x] + s
  }

  /** The head of an ordered list that is not after `x` is not after anything the insertion
      into its tail gives. */
  lemma HeadBeforeInserted(x: QueueRow, s: seq<QueueRow>, rest: seq<QueueRow>)
    requires Ordered(s) && |s| > 0 && NotAfter(s[0], x)
    requires multiset(rest) == multiset(s[1..]) + multiset{x}
    ensures forall y :: y in rest ==> NotAfter(s[0], y)
  {
    forall y | y in rest ensures NotAfter(s[0], y) {
      assert y in multiset(rest);
      if y != x {
        assert y in multiset(s[1..]);
        var k :| 0 <= k < |s[1..]| && s[1..][k] == y;
        assert NotAfter(s[0], s[k + 1]);
      }
    }
  }

  /** A row after which the head of an ordered list comes is not after any of its rows. */
  lemma InsertedBeforeAll(x: QueueRow, s: seq<QueueRow>)
    requires Ordered(s) && |s| > 0 && !NotAfter(s[0], x)
    ensures forall y :: y in s ==> NotAfter(x, y)
  {
    forall y | y in s ensures NotAfter(x, y) {
      var k :| 0 <= k < |s| && s[k] == y;
      if k > 0 { assert NotAfter(s[0], s[k]); }
    }
  }

  lemma ConsOrdered(h: QueueRow, s: seq<QueueRow>)
    requires Ordered(s) && forall y :: y in s ==> NotAfter(h, y)
    ensures Ordered([h] + s)
  {
    var r := [h] + s;
    assert forall j :: 0 < j < |r| ==> r[j] == s[j - 1];
    assert forall j :: 0 < j < |r| ==> r[j] in s;
  }

  /** The sort the query's ORDER BY performs; ties keep table order. */
  function SortRows(s: seq<QueueRow>): (r: seq<QueueRow>)
    ensures Ordered(r) && multiset(r) == multiset(s) && |r| == |s|
  {
    if |s| == 0 then []
    else
      assert s == s[..|s| - 1] + [s[|s| - 1]];
      Insert(s[|s| - 1], SortRows(s[..|s| - 1]))
  }

  /** `getPending`: the installation's pending rows by priority then creation time, at most
      `limit` of them (a limit of 0 or less means all, as Moodle reads it). */
  function GetPending(rows: seq<QueueRow>, botId: int, limit: int): (r: seq<QueueRow>)
    ensures Ordered(r)
    ensures forall x :: x in r ==> x in rows && IsPending(x, botId)
    ensures |r| == if 0 < limit < |Pending(rows, botId)| then limit else |Pending(rows, botId)|
    ensures !(0 < limit < |Pending(rows, botId)|) ==> multiset(r) == multiset(Pending(rows, botId))
  {
    var sorted := SortRows(Pending(rows, botId));
    var r := if 0 < limit < |sorted| then sorted[..limit] else sorted;
    assert forall x :: x in r ==> x in multiset(sorted);
    r
  }

  /** The rows left out by a limit come after every row returned. */
  lemma LimitKeepsEarliest(rows: seq<QueueRow>, botId: int, limit: int)
    requires 0 < limit < |Pending(rows, botId)|
    ensures var sorted := SortRows(Pending(rows, botId));
      GetPending(rows, botId, limit) == sorted[..limit]
      && forall i, j :: 0 <= i < limit <= j < |sorted| ==> NotAfter(sorted[i], sorted[j])
  {
  }

  /** `countPending`. */
  function CountPending(rows: seq<QueueRow>, botId: int): (n: nat)
    ensures n == |Pending(rows, botId)|
  {
    if |rows| == 0 then 0
    else CountPending(rows[..|rows| - 1], botId) + if IsPending(rows[|rows| - 1], botId) then 1 else 0
  }

  /** With no limit, `getPending` returns as many rows as `countPending` counts. */
  lemma CountMatchesUnlimitedPending(rows: seq<QueueRow>, botId: int)
    ensures |GetPending(rows, botId, 0)| == CountPending(rows, botId)
  {
  }

  // ---------------------------------------------------------------- markProcessed / markError

  /** `set_field('ortattendance_queue', 'processed', 1, ['id' => id])`. */
  function MarkProcessed(rows: seq<QueueRow>, id: int): (r: seq<QueueRow>)
    ensures |r| == |rows|
    ensures forall i :: 0 <= i < |rows| ==> r[i] == if rows[i].id == id then rows[i].(processed := 1) else rows[i]
  {
    if |rows| == 0 then [] else MarkProcessed(rows[..|rows| - 1], id) + [Processed(rows[|rows| - 1], id)]
  }

  function Processed(r: QueueRow, id: int): QueueRow {
    if r.id == id then r.(processed := 1) else r
  }

  /** `set_field('ortattendance_queue', 'error', e, ['id' => id])`. */
  function MarkError(rows: seq<QueueRow>, id: int, error: string): (r: seq<QueueRow>)
    ensures |r| == |rows|
    ensures forall i :: 0 <= i < |rows| ==> r[i] == if rows[i].id == id then rows[i].(error := Some(error)) else rows[i]
  {
    if |rows| == 0 then [] else MarkError(rows[..|rows| - 1], id, error) + [Errored(rows[|rows| - 1], id, error)]
  }

  function Errored(r: QueueRow, id: int, error: string): QueueRow {
    if r.id == id then r.(error := Some(error)) else r
  }

  /** A processed row leaves the pending list, and only that row does: with distinct ids the
      count drops by one exactly when the row was pending. */
  lemma MarkProcessedLeavesPending(rows: seq<QueueRow>, botId: int, id: int)
    ensures forall x :: x in Pending(MarkProcessed(rows, id), botId) ==> x.id != id
    ensures CountPending(MarkProcessed(rows, id), botId)
            == CountPending(rows, botId) - CountPendingWithId(rows, botId, id)
  {
    MarkProcessedCount(rows, botId, id);
    var m := MarkProcessed(rows, id);
    forall x | x in Pending(m, botId) ensures x.id != id {
      assert x in m && x.processed == 0;
      var k :| 0 <= k < |m| && m[k] == x;
    }
  }

  lemma {:induction false} MarkProcessedCount(rows: seq<QueueRow>, botId: int, id: int)
    ensures CountPending(MarkProcessed(rows, id), botId)
            == CountPending(rows, botId) - CountPendingWithId(rows, botId, id)
  {
    if |rows| > 0 {
      var front := rows[..|rows| - 1];
      MarkProcessedCount(front, botId, id);
      var m := MarkProcessed(rows, id);
      assert m == MarkProcessed(front, id) + [Processed(rows[|rows| - 1], id)];
      assert m[..|m| - 1] == MarkProcessed(front, id);
    }
  }

  /** How many of the installation's pending rows carry the id (at most one when ids are
      distinct). */
  function CountPendingWithId(rows: seq<QueueRow>, botId: int, id: int): (n: nat)
    ensures n <= CountPending(rows, botId)
  {
    if |rows| == 0 then 0
    else CountPendingWithId(rows[..|rows| - 1], botId, id)
         + if IsPending(rows[|rows| - 1], botId) && rows[|rows| - 1].id == id then 1 else 0
  }

  /** Recording an error leaves the row pending: the pending list keeps the same rows apart
      from the error text. */
  lemma MarkErrorKeepsPending(rows: seq<QueueRow>, botId: int, id: int, error: string)
    ensures CountPending(MarkError(rows, id, error), botId) == CountPending(rows, botId)
    ensures forall i :: 0 <= i < |rows| ==>
              (IsPending(MarkError(rows, id, error)[i], botId) <==> IsPending(rows[i], botId))
  {
    MarkErrorCount(rows, botId, id, error);
  }

  lemma {:induction false} MarkErrorCount(rows: seq<QueueRow>, botId: int, id: int, error: string)
    ensures CountPending(MarkError(rows, id, error), botId) == CountPending(rows, botId)
  {
    if |rows| > 0 {
      var front := rows[..|rows| - 1];
      MarkErrorCount(front, botId, id, error);
      var m := MarkError(rows, id, error);
      assert m == MarkError(front, id, error) + [Errored(rows[|rows| - 1], id, error)];
      assert m[..|m| - 1] == MarkError(front, id, error);
    }
  }

  method MarkProcessedRun(db: Database, id: int)
    modifies db`queue
    ensures db.queue == MarkProcessed(old(db.queue), id)
  {
    var i := 0;
    var rows := db.queue;
    while i < |rows|
      invariant 0 <= i <= |rows|
      invariant |db.queue| == |rows|
      invariant db.queue[..i] == MarkProcessed(rows[..i], id)
      invariant db.queue[i..] == rows[i..]
    {
      assert rows[..i + 1][..i] == rows[..i];
      db.queue := db.queue[i := Processed(rows[i], id)];
      i := i + 1;
    }
    assert rows[..i] == rows;
  }

  method MarkErrorRun(db: Database, id: int, error: string)
    modifies db`queue
    ensures db.queue == MarkError(old(db.queue), id, error)
  {
    var i := 0;
    var rows := db.queue;
    while i < |rows|
      invariant 0 <= i <= |rows|
      invariant |db.queue| == |rows|
      invariant db.queue[..i] == MarkError(rows[..i], id, error)
      invariant db.queue[i..] == rows[i..]
    {
      assert rows[..i + 1][..i] == rows[..i];
      db.queue := db.queue[i := Errored(rows[i], id, error)];
      i := i + 1;
    }
    assert rows[..i] == rows;
  }
}
