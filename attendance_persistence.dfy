/** `AttendancePersistence::persistStudents`: find the course's attendance activity, group the
    participants into cohorts, and for each cohort resolve its session and record it. A cohort
    whose session cannot be resolved is skipped; a PHP `\Error` from a teacher record ends the
    whole run. */
module AttendancePersistence {
  import opened Wrappers
  import opened TeacherAttendance
  import opened Store
  import opened PersistenceStatus
  import opened PersistenceCohorts
  import opened PersistenceSessions
  import opened PersistenceLog

  /** How `persistStudents` ends: returning `[]` because the course has no attendance activity,
      falling off the end after the cohort loop (so returning null), rethrowing a database
      exception (before any write), or aborted by a PHP `\Error`. */
  datatype PersistOutcome = NoActivity | Done | Threw | Crashed

  /** The activity query: the first attendance activity of the course, provided the course has
      an installation of the plugin. */
  function AttendanceOf(env: Env, installations: seq<Installation>, course: int): (r: Option<AttendanceActivity>)
    ensures r.Some? ==> r.value in env.attendances && r.value.course == course
    ensures r.None? <==> InstallationByCourse(installations, course).None?
                         || forall a :: a in env.attendances ==> a.course != course
  {
    if InstallationByCourse(installations, course).None? then None
    else FirstActivity(env.attendances, course)
  }

  function FirstActivity(rows: seq<AttendanceActivity>, course: int): (r: Option<AttendanceActivity>)
    ensures r.Some? ==> r.value in rows && r.value.course == course
    ensures r.None? <==> forall a :: a in rows ==> a.course != course
    ensures forall i :: 0 <= i < |rows| && rows[i].course == course
                        && (forall j :: 0 <= j < i ==> rows[j].course != course)
                        ==> r == Some(rows[i])
  {
    if |rows| == 0 then None
    else if rows[0].course == course then Some(rows[0])
    else FirstActivity(rows[1..], course)
  }

  /** The irregularity reason passed to `recordAttendance`: only when the meeting's details
      exist, counting the cohort's students and teachers. */
  function CohortReason(meetings: seq<MeetingDetails>, c: Cohort): Option<string> {
    match MeetingByMeetingId(meetings, c.meetingId)
    case None => None
    case Some(m) =>
      var v := DetectIrregularMeeting(m.startTime, m.endTime, |c.students| + |c.teachers|);
      if v.0 then Some(v.1) else None
  }

  /** One iteration of the cohort loop; `false` in the result is the abort. A database
      exception from the cohort's first session query, raised before anything is written, is
      caught by the loop's `catch (\Exception)` and the loop goes on with the next cohort. */
  function PersistCohort(b: Book, installations: seq<Installation>, env: Env, course: int, attendanceId: int,
                         c: Cohort, now: int, clock: int -> string): (Book, bool)
  {
    if c.key in env.sessionQueryFaults then (b, true)
    else
      var (b1, sid) := GetOrCreate(b, env.meetings, attendanceId, c.meetingId, c.groupId, c.date);
      if sid.None? || sid.value == 0 then (b1, true)
      else
        var (b2, outcome) := RecordAttendance(b1, installations, env, course, sid.value, c.students,
                                              c.teachers, CohortReason(env.meetings, c), now, clock);
        (b2, outcome != Aborted)
  }

  /** The cohort loop over `groups`, stopping at an abort. */
  function PersistAll(b: Book, installations: seq<Installation>, env: Env, course: int, attendanceId: int,
                      groups: seq<Cohort>, now: int, clock: int -> string): (Book, bool)
  {
    if |groups| == 0 then (b, true)
    else
      var (b1, ok) := PersistAll(b, installations, env, course, attendanceId, groups[..|groups| - 1], now, clock);
      if !ok then (b1, false)
      else PersistCohort(b1, installations, env, course, attendanceId, groups[|groups| - 1], now, clock)
  }

  /** `persistStudents` on the attendance tables. */
  function PersistStudents(b: Book, installations: seq<Installation>, env: Env, course: int,
                           students: seq<Attendance>, teachers: seq<Attendance>, now: int,
                           clock: int -> string): (r: (Book, PersistOutcome))
    ensures r.1 == Threw <==> env.persistFault
    ensures r.1 == NoActivity <==> !env.persistFault && AttendanceOf(env, installations, course).None?
    ensures r.1 == Threw || r.1 == NoActivity ==> r.0 == b
  {
    if env.persistFault then (b, Threw)
    else match AttendanceOf(env, installations, course)
      case None => (b, NoActivity)
      case Some(a) =>
        var (b', ok) := PersistAll(b, installations, env, course, a.id, Grouping(students, teachers), now, clock);
        (b', if ok then Done else Crashed)
  }

  /** The table invariant every step keeps: well-formed session ids and one log row per
      (session, user). */
  ghost predicate BookValid(b: Book) {
    SessionsValid(b) && LogsUnique(b.logs)
  }

  /** Each cohort step keeps the invariant, never removes a session or changes a session's id,
      and never removes or re-keys a log row. */
  lemma PersistCohortKeeps(b: Book, installations: seq<Installation>, env: Env, course: int, attendanceId: int,
                           c: Cohort, now: int, clock: int -> string)
    requires BookValid(b)
    ensures var b' := PersistCohort(b, installations, env, course, attendanceId, c, now, clock).0;
      BookValid(b') && Grown(b, b')
  {
    var (b1, sid) := GetOrCreate(b, env.meetings, attendanceId, c.meetingId, c.groupId, c.date);
    SessionStepGrows(b, env.meetings, attendanceId, c.meetingId, c.groupId, c.date);
    if sid.Some? && sid.value != 0 {
      var (b2, _) := RecordAttendance(b1, installations, env, course, sid.value, c.students, c.teachers,
                                      CohortReason(env.meetings, c), now, clock);
      RecordStepGrows(b1, installations, env, course, sid.value, c.students, c.teachers,
                      CohortReason(env.meetings, c), now, clock);
      GrownTrans(b, b1, b2);
    }
  }

  lemma SessionStepGrows(b: Book, meetings: seq<MeetingDetails>, attendanceId: int, meetingId: string,
                         groupId: int, date: int)
    requires BookValid(b)
    ensures var b' := GetOrCreate(b, meetings, attendanceId, meetingId, groupId, date).0;
      BookValid(b') && Grown(b, b')
  {
    GetOrCreateKeepsBook(b, meetings, attendanceId, meetingId, groupId, date);
  }

  lemma RecordStepGrows(b: Book, installations: seq<Installation>, env: Env, course: int, sid: int,
                        students: seq<Attendance>, teachers: seq<Attendance>, reason: Option<string>,
                        now: int, clock: int -> string)
    requires BookValid(b)
    ensures var b' := RecordAttendance(b, installations, env, course, sid, students, teachers, reason, now, clock).0;
      BookValid(b') && Grown(b, b')
  {
    RecordAttendanceKeepsBook(b, installations, env, course, sid, students, teachers, reason, now, clock);
  }

  lemma GrownTrans(b: Book, b1: Book, b2: Book)
    requires Grown(b, b1) && Grown(b1, b2)
    ensures Grown(b, b2)
  {
  }

  /** `b2` keeps every session (by position and id) and every log row's key of `b`. */
  ghost predicate Grown(b: Book, b2: Book) {
    |b.sessions| <= |b2.sessions| && b.nextSessionId <= b2.nextSessionId
    && (forall i :: 0 <= i < |b.sessions| ==> b2.sessions[i].id == b.sessions[i].id)
    && |b.logs| <= |b2.logs|
    && (forall i :: 0 <= i < |b.logs| ==>
          b2.logs[i].sessionId == b.logs[i].sessionId && b2.logs[i].studentId == b.logs[i].studentId)
  }

  lemma {:induction false} PersistAllKeeps(b: Book, installations: seq<Installation>, env: Env, course: int,
                                           attendanceId: int, groups: seq<Cohort>, now: int, clock: int -> string)
    requires BookValid(b)
    ensures var b' := PersistAll(b, installations, env, course, attendanceId, groups, now, clock).0;
      BookValid(b') && Grown(b, b')
  {
    if |groups| > 0 {
      var prefix := groups[..|groups| - 1];
      PersistAllKeeps(b, installations, env, course, attendanceId, prefix, now, clock);
      var (b1, ok) := PersistAll(b, installations, env, course, attendanceId, prefix, now, clock);
      if ok {
        PersistCohortKeeps(b1, installations, env, course, attendanceId, groups[|groups| - 1], now, clock);
      }
    }
  }

  /** A run keeps the attendance tables well formed and only ever adds sessions and log rows;
      the database exception and a course without an activity change nothing, and the early
      `[]` return happens exactly when there is no activity. */
  lemma PersistStudentsKeepsBook(b: Book, installations: seq<Installation>, env: Env, course: int,
                                 students: seq<Attendance>, teachers: seq<Attendance>, now: int,
                                 clock: int -> string)
    requires BookValid(b)
    ensures var (b', outcome) := PersistStudents(b, installations, env, course, students, teachers, now, clock);
      BookValid(b') && Grown(b, b')
      && (outcome == Threw <==> env.persistFault)
      && (outcome == Threw ==> b' == b)
      && (outcome == NoActivity <==> !env.persistFault && AttendanceOf(env, installations, course).None?)
      && (AttendanceOf(env, installations, course).None? ==> b' == b)
  {
    if !env.persistFault && AttendanceOf(env, installations, course).Some? {
      PersistAllKeeps(b, installations, env, course, AttendanceOf(env, installations, course).value.id,
                      Grouping(students, teachers), now, clock);
    }
  }

  /** With no participants nothing is written: there is no cohort. */
  lemma NoParticipantsNoWrites(b: Book, installations: seq<Installation>, env: Env, course: int, now: int,
                               clock: int -> string)
    ensures PersistStudents(b, installations, env, course, [], [], now, clock).0 == b
  {
    assert Entries([], []) == [];
  }

  /** `persistStudents` against the database. */
  method PersistStudentsRun(db: Database, env: Env, course: int, students: seq<Attendance>,
                            teachers: seq<Attendance>, now: int, clock: int -> string)
    returns (outcome: PersistOutcome)
    modifies db`sessions, db`nextSessionId, db`logs
    ensures (db.Attendance(), outcome)
            == PersistStudents(old(db.Attendance()), db.installations, env, course, students, teachers, now, clock)
  {
    if env.persistFault {
      return Threw;
    }
    var a := AttendanceOf(env, db.installations, course);
    if a.None? {
      return NoActivity;
    }
    var groups := GroupBySession(students, teachers);
    var i := 0;
    while i < |groups|
      invariant 0 <= i <= |groups|
      invariant PersistAll(old(db.Attendance()), db.installations, env, course, a.value.id, groups[..i], now, clock)
                == (db.Attendance(), true)
    {
      assert groups[..i + 1][..i] == groups[..i];
      var c := groups[i];
      if c.key !in env.sessionQueryFaults {
        var sid := GetOrCreateSession(db, env.meetings, a.value.id, c.meetingId, c.groupId, c.date);
        if sid.Some? && sid.value != 0 {
          var result := RecordAttendanceRun(db, env, course, sid.value, c.students, c.teachers,
                                            CohortReason(env.meetings, c), now, clock);
          if result == Aborted {
            AbortSticks(old(db.Attendance()), db.installations, env, course, a.value.id, groups, now, clock, i + 1);
            return Crashed;
          }
        }
      }
      i := i + 1;
    }
    assert groups[..i] == groups;
    outcome := Done;
  }

  /** Once a cohort aborts, later cohorts are not processed. */
  lemma {:induction false} AbortSticks(b: Book, installations: seq<Installation>, env: Env, course: int,
                                       attendanceId: int, groups: seq<Cohort>, now: int, clock: int -> string, i: nat)
    requires i <= |groups| && !PersistAll(b, installations, env, course, attendanceId, groups[..i], now, clock).1
    ensures PersistAll(b, installations, env, course, attendanceId, groups, now, clock)
            == PersistAll(b, installations, env, course, attendanceId, groups[..i], now, clock)
    decreases |groups| - i
  {
    if i < |groups| {
      assert groups[..i + 1][..i] == groups[..i];
      AbortSticks(b, installations, env, course, attendanceId, groups, now, clock, i + 1);
    } else {
      assert groups[..i] == groups;
    }
  }

  /** A database exception in one cohort does not stop the others: the run writes exactly what
      it writes with that cohort left out, unlike an `\Error` (`AbortSticks`). */
  lemma {:induction false} FaultingCohortIsSkipped(b: Book, installations: seq<Installation>, env: Env, course: int,
                                                   attendanceId: int, front: seq<Cohort>, c: Cohort,
                                                   back: seq<Cohort>, now: int, clock: int -> string)
    requires c.key in env.sessionQueryFaults
    ensures PersistAll(b, installations, env, course, attendanceId, front + [c] + back, now, clock)
            == PersistAll(b, installations, env, course, attendanceId, front + back, now, clock)
    decreases |back|
  {
    if |back| == 0 {
      assert front + [c] + back == front + [c];
      assert (front + [c])[..|front|] == front;
      assert front + back == front;
    } else {
      var rest := back[..|back| - 1];
      FaultingCohortIsSkipped(b, installations, env, course, attendanceId, front, c, rest, now, clock);
      var g := front + [c] + back;
      assert g[..|g| - 1] == front + [c] + rest && g[|g| - 1] == back[|back| - 1];
      var h := front + back;
      assert h[..|h| - 1] == front + rest && h[|h| - 1] == back[|back| - 1];
    }
  }
}
