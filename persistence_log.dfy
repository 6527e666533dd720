/** `AttendancePersistence::recordAttendance` and `markAbsentStudents`: every participant of a
    cohort gets (or has updated) one log row in the session with the status `determineStatus`
    gives; then every user of the session's group (or of the course, for a groupless session)
    still without a row gets an absent row; then the session is stamped as taken. */
module PersistenceLog {
  import opened Wrappers
  import opened Php
  import opened TeacherAttendance
  import opened Store
  import opened PersistenceStatus

  /** The user id the plugin writes as `takenby`. */
  const TAKEN_BY: int := 2
  const REMARK := "Ort Attendance"

  /** What the participant loop reads besides the participant: the session, its start and
      stored duration, the installation's settings, the status ids, the irregularity reason,
      the clock and the `date('G:i', …)` formatter. */
  datatype Context = Context(
    sessionId: int,
    start: int,
    duration: int,
    config: Installation,
    ids: StatusIds,
    reason: Option<string>,
    now: int,
    clock: int -> string)

  function TimePart(joinTime: int, leaveTime: int, clock: int -> string): string {
    if joinTime != 0 && leaveTime != 0 then " / " + clock(joinTime) + " - " + clock(leaveTime) else ""
  }

  /** The remark: the plugin's name, the times for present and late, then the irregularity
      reason when it is not empty. */
  function Remark(timePart: string, reason: Option<string>): string {
    REMARK + timePart + (if reason.Some? && !Empty(reason.value) then " - " + reason.value else "")
  }

  // ---------------------------------------------------------------- frames

  /** `l2` grew from `l` without reordering or re-keying rows; rows of other sessions are
      untouched and appended rows belong to the session. */
  ghost predicate Extends(l: seq<LogRow>, l2: seq<LogRow>, sid: int) {
    |l| <= |l2|
    && (forall i :: 0 <= i < |l| ==>
          l2[i].sessionId == l[i].sessionId && l2[i].studentId == l[i].studentId
          && (l[i].sessionId != sid ==> l2[i] == l[i]))
    && (forall i :: |l| <= i < |l2| ==> l2[i].sessionId == sid)
  }

  lemma ExtendsTrans(l1: seq<LogRow>, l2: seq<LogRow>, l3: seq<LogRow>, sid: int)
    requires Extends(l1, l2, sid) && Extends(l2, l3, sid)
    ensures Extends(l1, l3, sid)
  {
  }

  lemma ExtendsKeepsHasLog(l: seq<LogRow>, l2: seq<LogRow>, sid: int, s: int, u: int)
    requires Extends(l, l2, sid) && HasLog(l, s, u)
    ensures HasLog(l2, s, u)
  {
    var i :| 0 <= i < |l| && l[i].sessionId == s && l[i].studentId == u;
    assert l2[i].sessionId == s && l2[i].studentId == u;
  }

  // ---------------------------------------------------------------- one participant

  /** The update-or-insert of one log row for (session, user). */
  function Upsert(logs: seq<LogRow>, sid: int, uid: int, statusId: int, remark: string, now: int)
    : seq<LogRow>
  {
    match LogIndex(logs, sid, uid)
    case Some(i) => logs[i := logs[i].(statusId := statusId, remarks := remark, timeTaken := now, takenBy := TAKEN_BY)]
    case None => logs + [LogRow(sid, uid, statusId, now, TAKEN_BY, remark)]
  }

  /** After the upsert the first row for (session, user) carries the status and remark; rows
      for every other pair are unchanged; the table keeps one row per pair. */
  lemma UpsertFacts(logs: seq<LogRow>, sid: int, uid: int, statusId: int, remark: string, now: int)
    ensures var r := Upsert(logs, sid, uid, statusId, remark, now);
      Extends(logs, r, sid)
      && LogIndex(r, sid, uid).Some?
      && r[LogIndex(r, sid, uid).value].statusId == statusId
      && r[LogIndex(r, sid, uid).value].remarks == remark
      && r[LogIndex(r, sid, uid).value].takenBy == TAKEN_BY
      && (forall i :: 0 <= i < |logs| && (logs[i].sessionId != sid || logs[i].studentId != uid) ==> r[i] == logs[i])
      && (forall i :: |logs| <= i < |r| ==> r[i].studentId == uid)
      && (LogsUnique(logs) ==> LogsUnique(r))
  {
    var r := Upsert(logs, sid, uid, statusId, remark, now);
    match LogIndex(logs, sid, uid)
    case Some(i) =>
      assert r[i].sessionId == sid && r[i].studentId == uid;
      LogIndexIsFirst(r, sid, uid, i);
    case None =>
      assert r[|logs|].sessionId == sid && r[|logs|].studentId == uid;
      assert LogIndex(r, sid, uid).Some?;
      LogIndexIsFirst(r, sid, uid, |logs|);
  }

  /** `LogIndex` finds the first matching row. */
  lemma {:induction false} LogIndexIsFirst(rows: seq<LogRow>, sid: int, uid: int, k: nat)
    requires k < |rows| && rows[k].sessionId == sid && rows[k].studentId == uid
    requires forall j :: 0 <= j < k ==> rows[j].sessionId != sid || rows[j].studentId != uid
    ensures LogIndex(rows, sid, uid) == Some(k)
  {
    if k > 0 {
      LogIndexIsFirst(rows[1..], sid, uid, k - 1);
    }
  }

  /** One iteration of the participant loop: `None` is the PHP `\Error` that ends the run. A
      participant without user id is skipped; an absent one gets no times in the remark. */
  function RecordOne(logs: seq<LogRow>, p: Attendance, ctx: Context): Option<seq<LogRow>> {
    var uid := GetUserId(p);
    if uid == 0 then Some(logs)
    else match DetermineStatus(p, ctx.start, ctx.duration, ctx.config, ctx.ids)
      case None => None
      case Some(st) =>
        if st == ctx.ids.absent then Some(Upsert(logs, ctx.sessionId, uid, st, Remark("", ctx.reason), ctx.now))
        else match GetLeaveTime(p)
          case None => None
          case Some(leave) =>
            Some(Upsert(logs, ctx.sessionId, uid, st,
                        Remark(TimePart(GetJoinTime(p), leave, ctx.clock), ctx.reason), ctx.now))
  }

  /** The participant loop: the rows after the participants `ps`, and whether the run was
      aborted part-way (the rows written before the abort stay). */
  function RecordAll(logs: seq<LogRow>, ps: seq<Attendance>, ctx: Context): (seq<LogRow>, bool) {
    if |ps| == 0 then (logs, false)
    else
      var (l, crashed) := RecordAll(logs, ps[..|ps| - 1], ctx);
      if crashed then (l, true)
      else match RecordOne(l, ps[|ps| - 1], ctx)
        case None => (l, true)
        case Some(l2) => (l2, false)
  }

  lemma RecordOneFacts(logs: seq<LogRow>, p: Attendance, ctx: Context)
    requires RecordOne(logs, p, ctx).Some?
    ensures var r := RecordOne(logs, p, ctx).value;
      Extends(logs, r, ctx.sessionId) && (LogsUnique(logs) ==> LogsUnique(r))
      && (GetUserId(p) != 0 ==> HasLog(r, ctx.sessionId, GetUserId(p)))
  {
    var uid := GetUserId(p);
    if uid != 0 {
      var st := DetermineStatus(p, ctx.start, ctx.duration, ctx.config, ctx.ids).value;
      if st == ctx.ids.absent {
        UpsertFacts(logs, ctx.sessionId, uid, st, Remark("", ctx.reason), ctx.now);
      } else {
        var leave := GetLeaveTime(p).value;
        UpsertFacts(logs, ctx.sessionId, uid, st,
                    Remark(TimePart(GetJoinTime(p), leave, ctx.clock), ctx.reason), ctx.now);
      }
    }
  }

  /** The loop only touches rows of its session and keeps one row per (session, user); when it
      completes, every participant with a user id has a row in the session. */
  lemma {:induction false} RecordAllFacts(logs: seq<LogRow>, ps: seq<Attendance>, ctx: Context)
    ensures var (l, crashed) := RecordAll(logs, ps, ctx);
      Extends(logs, l, ctx.sessionId)
      && (LogsUnique(logs) ==> LogsUnique(l))
      && (!crashed ==> forall j :: 0 <= j < |ps| && GetUserId(ps[j]) != 0 ==> HasLog(l, ctx.sessionId, GetUserId(ps[j])))
  {
    if |ps| > 0 {
      var prefix := ps[..|ps| - 1];
      RecordAllFacts(logs, prefix, ctx);
      var (l, crashed) := RecordAll(logs, prefix, ctx);
      if !crashed && RecordOne(l, ps[|ps| - 1], ctx).Some? {
        var l2 := RecordOne(l, ps[|ps| - 1], ctx).value;
        RecordOneFacts(l, ps[|ps| - 1], ctx);
        ExtendsTrans(logs, l, l2, ctx.sessionId);
        forall j | 0 <= j < |ps| && GetUserId(ps[j]) != 0
          ensures HasLog(l2, ctx.sessionId, GetUserId(ps[j]))
        {
          if j < |ps| - 1 {
            assert ps[j] == prefix[j];
            ExtendsKeepsHasLog(l, l2, ctx.sessionId, ctx.sessionId, GetUserId(ps[j]));
          }
        }
      }
    }
  }

  /** The run is aborted only by a teacher with a user id, and only when the session has a
      positive duration: with a zero duration every participant is absent before any accessor
      a teacher record lacks is called. */
  lemma {:induction false} OnlyTeachersAbort(logs: seq<LogRow>, ps: seq<Attendance>, ctx: Context)
    requires RecordAll(logs, ps, ctx).1
    ensures ctx.duration > 0
    ensures exists j :: 0 <= j < |ps| && ps[j].role == Teacher && GetUserId(ps[j]) != 0
  {
    var prefix := ps[..|ps| - 1];
    var (l, crashed) := RecordAll(logs, prefix, ctx);
    if crashed {
      OnlyTeachersAbort(logs, prefix, ctx);
      var j :| 0 <= j < |prefix| && prefix[j].role == Teacher && GetUserId(prefix[j]) != 0;
      assert ps[j] == prefix[j];
    } else {
      var p := ps[|ps| - 1];
      assert RecordOne(l, p, ctx).None?;
    }
  }

  /** A participant with a user id gets the first row for its (session, user) pair, carrying
      the status `determineStatus` gives. */
  lemma RecordOneWrites(l: seq<LogRow>, p: Attendance, ctx: Context)
    requires GetUserId(p) != 0 && RecordOne(l, p, ctx).Some?
    ensures var l2 := RecordOne(l, p, ctx).value;
      LogIndex(l2, ctx.sessionId, GetUserId(p)).Some?
      && Some(l2[LogIndex(l2, ctx.sessionId, GetUserId(p)).value].statusId)
         == DetermineStatus(p, ctx.start, ctx.duration, ctx.config, ctx.ids)
  {
    var st := DetermineStatus(p, ctx.start, ctx.duration, ctx.config, ctx.ids).value;
    if st == ctx.ids.absent {
      UpsertFacts(l, ctx.sessionId, GetUserId(p), st, Remark("", ctx.reason), ctx.now);
    } else {
      UpsertFacts(l, ctx.sessionId, GetUserId(p), st,
                  Remark(TimePart(GetJoinTime(p), GetLeaveTime(p).value, ctx.clock), ctx.reason), ctx.now);
    }
  }

  /** A participant with another user id leaves the row of `uid` where and as it was. */
  lemma RecordOneKeepsOthers(l: seq<LogRow>, p: Attendance, ctx: Context, uid: int, k: nat)
    requires GetUserId(p) != uid && RecordOne(l, p, ctx).Some?
    requires LogIndex(l, ctx.sessionId, uid) == Some(k)
    ensures var l2 := RecordOne(l, p, ctx).value;
      LogIndex(l2, ctx.sessionId, uid) == Some(k) && l2[k] == l[k]
  {
    var l2 := RecordOne(l, p, ctx).value;
    var sid := ctx.sessionId;
    if GetUserId(p) != 0 {
      var st := DetermineStatus(p, ctx.start, ctx.duration, ctx.config, ctx.ids).value;
      var remark := if st == ctx.ids.absent then Remark("", ctx.reason)
                    else Remark(TimePart(GetJoinTime(p), GetLeaveTime(p).value, ctx.clock), ctx.reason);
      UpsertFacts(l, sid, GetUserId(p), st, remark, ctx.now);
      assert l2[k] == l[k];
      assert forall i :: 0 <= i < k ==> l2[i].sessionId == l[i].sessionId && l2[i].studentId == l[i].studentId;
      LogIndexIsFirst(l2, sid, uid, k);
    }
  }

  /** The status written for a participant is the one `determineStatus` gives, unless a later
      participant with the same user id overwrites it. */
  lemma {:induction false} LastStatusWins(logs: seq<LogRow>, ps: seq<Attendance>, ctx: Context, j: nat)
    requires j < |ps| && GetUserId(ps[j]) != 0
    requires forall k :: j < k < |ps| ==> GetUserId(ps[k]) != GetUserId(ps[j])
    requires !RecordAll(logs, ps, ctx).1
    ensures var l := RecordAll(logs, ps, ctx).0;
      var uid := GetUserId(ps[j]);
      LogIndex(l, ctx.sessionId, uid).Some?
      && Some(l[LogIndex(l, ctx.sessionId, uid).value].statusId)
         == DetermineStatus(ps[j], ctx.start, ctx.duration, ctx.config, ctx.ids)
  {
    var prefix := ps[..|ps| - 1];
    var l := RecordAll(logs, prefix, ctx).0;
    var p := ps[|ps| - 1];
    if j == |ps| - 1 {
      RecordOneWrites(l, p, ctx);
    } else {
      assert ps[j] == prefix[j];
      LastStatusWins(logs, prefix, ctx, j);
      RecordOneKeepsOthers(l, p, ctx, GetUserId(ps[j]), LogIndex(l, ctx.sessionId, GetUserId(ps[j])).value);
    }
  }

  // ---------------------------------------------------------------- absent backfill

  /** The users whose rows the backfill guarantees: the keys of `$enrolledUserIds`, each id
      once, in first-seen order. */
  function Dedup(xs: seq<int>): (r: seq<int>)
    ensures forall x :: x in r <==> x in xs
    ensures forall i, j :: 0 <= i < j < |r| ==> r[i] != r[j]
  {
    if |xs| == 0 then []
    else
      var d := Dedup(xs[..|xs| - 1]);
      if xs[|xs| - 1] in d then d else d + [xs[|xs| - 1]]
  }

  /** The group's members for a session with a group, the course's enrolled users otherwise. */
  function Universe(env: Env, course: int, groupId: int): seq<int> {
    if groupId != 0 then env.groupMembers(groupId) else env.enrolled(course)
  }

  /** The insert loop of `markAbsentStudents`: an absent row for each user still without one. */
  function MarkAbsent(logs: seq<LogRow>, sid: int, users: seq<int>, absentId: int, now: int): seq<LogRow> {
    if |users| == 0 then logs
    else
      var l := MarkAbsent(logs, sid, users[..|users| - 1], absentId, now);
      var u := users[|users| - 1];
      if HasLog(l, sid, u) then l else l + [LogRow(sid, u, absentId, now, TAKEN_BY, REMARK)]
  }

  /** The backfill leaves every existing row as it was, appends only absent rows of the session
      for listed users, keeps one row per (session, user), and afterwards every listed user has
      a row in the session. */
  lemma {:induction false} MarkAbsentFacts(logs: seq<LogRow>, sid: int, users: seq<int>, absentId: int, now: int)
    ensures var r := MarkAbsent(logs, sid, users, absentId, now);
      |logs| <= |r| && r[..|logs|] == logs
      && (forall i :: |logs| <= i < |r| ==>
            r[i] == LogRow(sid, r[i].studentId, absentId, now, TAKEN_BY, REMARK)
            && r[i].studentId in users && !HasLog(logs, sid, r[i].studentId))
      && (forall u :: u in users ==> HasLog(r, sid, u))
      && (LogsUnique(logs) ==> LogsUnique(r))
  {
    if |users| > 0 {
      var prefix := users[..|users| - 1];
      MarkAbsentFacts(logs, sid, prefix, absentId, now);
      var l := MarkAbsent(logs, sid, prefix, absentId, now);
      var u := users[|users| - 1];
      var r := MarkAbsent(logs, sid, users, absentId, now);
      forall v | v in users ensures HasLog(r, sid, v) {
        if v in prefix {
          var i :| 0 <= i < |l| && l[i].sessionId == sid && l[i].studentId == v;
          assert r[i] == l[i];
        } else {
          assert v == u;
          if !HasLog(l, sid, u) {
            assert r[|l|].sessionId == sid && r[|l|].studentId == u;
          }
        }
      }
      if !HasLog(l, sid, u) {
        assert r[..|l|] == l;
        assert r[..|logs|] == l[..|logs|];
        forall i | |logs| <= i < |r|
          ensures r[i].studentId in users && !HasLog(logs, sid, r[i].studentId)
        {
          if i < |l| {
            assert r[i] == l[i];
          }
        }
      }
    }
  }

  /** `markAbsentStudents`: it looks the activity up again from the session and takes the
      FIRST status whose acronym is "a"; nothing happens when either is missing. The absent
      id the caller passes is not used. */
  function MarkAbsentStudents(b: Book, statuses: seq<StatusRecord>, sid: int, users: seq<int>, now: int)
    : seq<LogRow>
  {
    match SessionById(b.sessions, sid)
    case None => b.logs
    case Some(k) =>
      if b.sessions[k].attendanceId == 0 then b.logs
      else match FirstWithAcronym(StatusFilter(statuses, b.sessions[k].attendanceId), "a")
        case None => b.logs
        case Some(a) => if a == 0 then b.logs else MarkAbsent(b.logs, sid, users, a, now)
  }

  // ---------------------------------------------------------------- the whole operation

  /** `set_field` of `lasttaken` and `lasttakenby` on every row with the id. */
  function SetLastTaken(sessions: seq<Session>, sid: int, now: int): (r: seq<Session>)
    ensures |r| == |sessions|
    ensures forall i :: 0 <= i < |r| ==>
              r[i] == if sessions[i].id == sid then sessions[i].(lastTaken := Some(now), lastTakenBy := TAKEN_BY)
                      else sessions[i]
  {
    seq(|sessions|, i requires 0 <= i < |sessions| =>
      if sessions[i].id == sid then sessions[i].(lastTaken := Some(now), lastTakenBy := TAKEN_BY) else sessions[i])
  }

  /** How `recordAttendance` ends: nothing written (a lookup failed and was caught), recorded,
      or aborted by a PHP `\Error` that no `catch (\Exception)` stops. */
  datatype Outcome = NotRecorded | Recorded | Aborted

  /** The lookups `recordAttendance` makes before writing: the session's activity (missing or
      0 ends the call), its statuses (`getStatuses` throwing ends it) and the course's
      installation (missing ends it). */
  function Prepare(b: Book, installations: seq<Installation>, env: Env, course: int, sid: int,
                   reason: Option<string>, now: int, clock: int -> string): (r: Option<(Context, int)>)
    ensures r.Some? ==> r.value.0.sessionId == sid && r.value.0.now == now
  {
    match SessionById(b.sessions, sid)
    case None => None
    case Some(k) =>
      var s := b.sessions[k];
      if s.attendanceId == 0 then None
      else match StatusIdsOf(StatusFilter(env.statuses, s.attendanceId))
        case Err(_) => None
        case Ok(ids) =>
          match InstallationByCourse(installations, course)
          case None => None
          case Some(c) => Some((Context(sid, s.sessDate, s.duration, installations[c], ids, reason, now, clock), s.groupId))
  }

  /** The writing part of `recordAttendance`, for a session of group `groupId`. */
  function Record(b: Book, env: Env, course: int, groupId: int, ctx: Context,
                  students: seq<Attendance>, teachers: seq<Attendance>): (Book, Outcome)
  {
    var (logs, crashed) := RecordAll(b.logs, students + teachers, ctx);
    if crashed then (b.(logs := logs), Aborted)
    else
      var users := Dedup(Universe(env, course, groupId));
      var b1 := b.(logs := logs);
      var logs2 := if |users| > 0 then MarkAbsentStudents(b1, env.statuses, ctx.sessionId, users, ctx.now) else logs;
      (b1.(logs := logs2, sessions := SetLastTaken(b.sessions, ctx.sessionId, ctx.now)), Recorded)
  }

  /** `recordAttendance` for the course `course`. */
  function RecordAttendance(b: Book, installations: seq<Installation>, env: Env, course: int, sid: int,
                            students: seq<Attendance>, teachers: seq<Attendance>, reason: Option<string>,
                            now: int, clock: int -> string): (Book, Outcome)
  {
    match Prepare(b, installations, env, course, sid, reason, now, clock)
    case None => (b, NotRecorded)
    case Some((ctx, groupId)) => Record(b, env, course, groupId, ctx, students, teachers)
  }

  /** The absent backfill only appends rows of its session and keeps one row per pair; when the
      session's activity has an "a" status, every listed user has a row afterwards. */
  lemma MarkAbsentStudentsFacts(b: Book, statuses: seq<StatusRecord>, sid: int, users: seq<int>, now: int)
    ensures var r := MarkAbsentStudents(b, statuses, sid, users, now);
      Extends(b.logs, r, sid) && (LogsUnique(b.logs) ==> LogsUnique(r))
      && (AbsentStatusOf(b, statuses, sid).Some? ==> forall u :: u in users ==> HasLog(r, sid, u))
  {
    var k := SessionById(b.sessions, sid);
    if k.Some? && b.sessions[k.value].attendanceId != 0 {
      var a := FirstWithAcronym(StatusFilter(statuses, b.sessions[k.value].attendanceId), "a");
      if a.Some? && a.value != 0 {
        MarkAbsentFacts(b.logs, sid, users, a.value, now);
      }
    }
  }

  /** The absent id `markAbsentStudents` finds for the session, if any. */
  function AbsentStatusOf(b: Book, statuses: seq<StatusRecord>, sid: int): Option<int> {
    match SessionById(b.sessions, sid)
    case None => None
    case Some(k) =>
      if b.sessions[k].attendanceId == 0 then None
      else match FirstWithAcronym(StatusFilter(statuses, b.sessions[k].attendanceId), "a")
        case None => None
        case Some(a) => if a == 0 then None else Some(a)
  }

  lemma SetLastTakenKeepsValid(b: Book, sid: int, now: int)
    requires SessionsValid(b)
    ensures SessionsValid(b.(sessions := SetLastTaken(b.sessions, sid, now)))
  {
    var r := SetLastTaken(b.sessions, sid, now);
    assert forall i :: 0 <= i < |r| ==> r[i].id == b.sessions[i].id;
  }

  /** The facts `RecordAttendanceKeepsBook` states, for one outcome. */
  ghost predicate KeepsBook(b: Book, b': Book, sid: int, outcome: Outcome) {
    SessionsValid(b') && LogsUnique(b'.logs) && Extends(b.logs, b'.logs, sid)
    && |b'.sessions| == |b.sessions| && b'.nextSessionId == b.nextSessionId
    && (outcome == NotRecorded ==> b' == b)
    && (outcome == Aborted ==> b'.sessions == b.sessions)
  }

  lemma RecordKeepsBook(b: Book, env: Env, course: int, groupId: int, ctx: Context,
                        students: seq<Attendance>, teachers: seq<Attendance>)
    requires SessionsValid(b) && LogsUnique(b.logs)
    ensures var (b', outcome) := Record(b, env, course, groupId, ctx, students, teachers);
      KeepsBook(b, b', ctx.sessionId, outcome)
  {
    var sid := ctx.sessionId;
    RecordAllFacts(b.logs, students + teachers, ctx);
    var (logs, crashed) := RecordAll(b.logs, students + teachers, ctx);
    if !crashed {
      var users := Dedup(Universe(env, course, groupId));
      var b1 := b.(logs := logs);
      if |users| > 0 {
        MarkAbsentStudentsFacts(b1, env.statuses, sid, users, ctx.now);
        ExtendsTrans(b.logs, logs, MarkAbsentStudents(b1, env.statuses, sid, users, ctx.now), sid);
      }
      SetLastTakenKeepsValid(b, sid, ctx.now);
    }
  }

  /** Recording keeps the tables well formed and one row per (session, user), touches only
      rows of its session, never adds or removes sessions, and changes nothing when a lookup
      fails. */
  lemma RecordAttendanceKeepsBook(b: Book, installations: seq<Installation>, env: Env, course: int, sid: int,
                                  students: seq<Attendance>, teachers: seq<Attendance>, reason: Option<string>,
                                  now: int, clock: int -> string)
    requires SessionsValid(b) && LogsUnique(b.logs)
    ensures var (b', outcome) := RecordAttendance(b, installations, env, course, sid, students, teachers, reason, now, clock);
      SessionsValid(b') && LogsUnique(b'.logs) && Extends(b.logs, b'.logs, sid)
      && |b'.sessions| == |b.sessions| && b'.nextSessionId == b.nextSessionId
      && (outcome == NotRecorded ==> b' == b)
      && (outcome == Aborted ==> b'.sessions == b.sessions)
  {
    match Prepare(b, installations, env, course, sid, reason, now, clock)
    case None =>
    case Some((ctx, groupId)) =>
      RecordKeepsBook(b, env, course, groupId, ctx, students, teachers);
  }

  /** After a completed recording every participant with a user id has a row in the session,
      the session is stamped as taken by the plugin, and, when the session's activity has an
      "a" status, every user of the session's group (or course) has a row too. */
  lemma RecordCoversEveryone(b: Book, env: Env, course: int, groupId: int, ctx: Context,
                             students: seq<Attendance>, teachers: seq<Attendance>)
    requires Record(b, env, course, groupId, ctx, students, teachers).1 == Recorded
    ensures var b' := Record(b, env, course, groupId, ctx, students, teachers).0;
      var sid := ctx.sessionId;
      (forall p :: p in students + teachers && GetUserId(p) != 0 ==> HasLog(b'.logs, sid, GetUserId(p)))
      && (forall i :: 0 <= i < |b'.sessions| && b'.sessions[i].id == sid ==>
            b'.sessions[i].lastTaken == Some(ctx.now) && b'.sessions[i].lastTakenBy == TAKEN_BY)
      && (AbsentStatusOf(b, env.statuses, sid).Some? ==>
            forall u :: u in Universe(env, course, groupId) ==> HasLog(b'.logs, sid, u))
  {
    var sid := ctx.sessionId;
    var ps := students + teachers;
    RecordAllFacts(b.logs, ps, ctx);
    var logs := RecordAll(b.logs, ps, ctx).0;
    var b' := Record(b, env, course, groupId, ctx, students, teachers).0;
    var users := Dedup(Universe(env, course, groupId));
    var b1 := b.(logs := logs);
    assert AbsentStatusOf(b1, env.statuses, sid) == AbsentStatusOf(b, env.statuses, sid);
    if |users| > 0 {
      MarkAbsentStudentsFacts(b1, env.statuses, sid, users, ctx.now);
    }
    assert Extends(logs, b'.logs, sid);
    forall p | p in ps && GetUserId(p) != 0 ensures HasLog(b'.logs, sid, GetUserId(p)) {
      var j :| 0 <= j < |ps| && ps[j] == p;
      ExtendsKeepsHasLog(logs, b'.logs, sid, sid, GetUserId(p));
    }
  }

  // ---------------------------------------------------------------- the code

  /** The participant loop against the database. */
  method RecordParticipants(db: Database, ps: seq<Attendance>, ctx: Context) returns (crashed: bool)
    modifies db`logs
    ensures (db.logs, crashed) == RecordAll(old(db.logs), ps, ctx)
  {
    crashed := false;
    var i := 0;
    while i < |ps| && !crashed
      invariant 0 <= i <= |ps|
      invariant (db.logs, crashed) == RecordAll(old(db.logs), ps[..i], ctx)
      invariant crashed ==> i > 0
    {
      assert ps[..i + 1][..i] == ps[..i];
      var r := RecordOne(db.logs, ps[i], ctx);
      if r.None? {
        crashed := true;
      } else {
        db.logs := r.value;
      }
      i := i + 1;
    }
    if crashed {
      CrashSticks(old(db.logs), ps, ctx, i);
    } else {
      assert ps[..i] == ps;
    }
  }

  /** Once aborted, the loop stays aborted with the rows it had. */
  lemma {:induction false} CrashSticks(logs: seq<LogRow>, ps: seq<Attendance>, ctx: Context, i: nat)
    requires i <= |ps| && RecordAll(logs, ps[..i], ctx).1
    ensures RecordAll(logs, ps, ctx) == RecordAll(logs, ps[..i], ctx)
    decreases |ps| - i
  {
    if i < |ps| {
      assert ps[..i + 1][..i] == ps[..i];
      CrashSticks(logs, ps, ctx, i + 1);
    } else {
      assert ps[..i] == ps;
    }
  }

  /** The keys of `$enrolledUserIds`, built by the loop over the user records. */
  method CollectUserIds(xs: seq<int>) returns (ids: seq<int>)
    ensures ids == Dedup(xs)
  {
    ids := [];
    var i := 0;
    while i < |xs|
      invariant 0 <= i <= |xs|
      invariant ids == Dedup(xs[..i])
    {
      assert xs[..i + 1][..i] == xs[..i];
      if xs[i] !in ids {
        ids := ids + [xs[i]];
      }
      i := i + 1;
    }
    assert xs[..i] == xs;
  }

  /** The status scan of `markAbsentStudents`, stopping at the first "a". */
  method FindAbsentStatus(records: seq<StatusRecord>) returns (absentId: Option<int>)
    ensures absentId == FirstWithAcronym(records, "a")
  {
    absentId := None;
    var i := 0;
    while i < |records|
      invariant 0 <= i <= |records|
      invariant FirstWithAcronym(records, "a") == FirstWithAcronym(records[i..], "a")
    {
      assert records[i..][1..] == records[i + 1..];
      if Lower(records[i].acronym) == "a" {
        absentId := Some(records[i].id);
        return;
      }
      i := i + 1;
    }
  }

  /** The insert loop of `markAbsentStudents` against the database. */
  method MarkAbsentLoop(db: Database, sid: int, users: seq<int>, absentId: int, now: int)
    modifies db`logs
    ensures db.logs == MarkAbsent(old(db.logs), sid, users, absentId, now)
  {
    var i := 0;
    while i < |users|
      invariant 0 <= i <= |users|
      invariant db.logs == MarkAbsent(old(db.logs), sid, users[..i], absentId, now)
    {
      assert users[..i + 1][..i] == users[..i];
      if LogIndex(db.logs, sid, users[i]).None? {
        db.logs := db.logs + [LogRow(sid, users[i], absentId, now, TAKEN_BY, REMARK)];
      }
      i := i + 1;
    }
    assert users[..i] == users;
  }

  method MarkAbsentStudentsRun(db: Database, statuses: seq<StatusRecord>, sid: int, users: seq<int>, now: int)
    modifies db`logs
    ensures db.logs == MarkAbsentStudents(old(db.Attendance()), statuses, sid, users, now)
  {
    var k := SessionById(db.sessions, sid);
    if k.None? || db.sessions[k.value].attendanceId == 0 {
      return;
    }
    var absentId := FindAbsentStatus(StatusFilter(statuses, db.sessions[k.value].attendanceId));
    if absentId.None? || absentId.value == 0 {
      return;
    }
    MarkAbsentLoop(db, sid, users, absentId.value, now);
  }

  /** `recordAttendance` against the database. */
  method RecordAttendanceRun(db: Database, env: Env, course: int, sid: int, students: seq<Attendance>,
                             teachers: seq<Attendance>, reason: Option<string>, now: int,
                             clock: int -> string) returns (outcome: Outcome)
    modifies db`logs, db`sessions
    ensures (db.Attendance(), outcome)
            == RecordAttendance(old(db.Attendance()), db.installations, env, course, sid, students, teachers,
                                reason, now, clock)
  {
    var k := SessionById(db.sessions, sid);
    if k.None? || db.sessions[k.value].attendanceId == 0 {
      return NotRecorded;
    }
    var s := db.sessions[k.value];
    var ids := GetStatuses(StatusFilter(env.statuses, s.attendanceId));
    if ids.Err? {
      return NotRecorded;
    }
    var c := InstallationByCourse(db.installations, course);
    if c.None? {
      return NotRecorded;
    }
    var users := CollectUserIds(Universe(env, course, s.groupId));
    var ctx := Context(sid, s.sessDate, s.duration, db.installations[c.value], ids.value, reason, now, clock);
    var crashed := RecordParticipants(db, students + teachers, ctx);
    if crashed {
      return Aborted;
    }
    if |users| > 0 {
      MarkAbsentStudentsRun(db, env.statuses, sid, users, now);
    }
    db.sessions := SetLastTaken(db.sessions, sid, now);
    outcome := Recorded;
  }
}
