/** `Orchestrator`: built for one installation, it asks the recollector for the next day and
    hands what it found to persistence, then reports the day as a result record. */
module Orchestration {
  import opened Wrappers
  import opened Php
  import opened TeacherAttendance
  import opened Store
  import opened ZoomRecollector
  import opened AttendancePersistence

  /** The array `process()` returns. */
  datatype ProcessResult = ProcessResult(
    completed: bool,
    caughtUp: bool,
    noMoreData: bool,
    date: Option<string>,
    absentCount: int)

  /** What `process()` returns once the cursor has reached today. */
  const CAUGHT_UP_RESULT: ProcessResult := ProcessResult(false, true, true, None, 0)

  datatype DataRecollector = ZoomRecollectorData(courseId: int, checkCamera: bool)
  datatype BackupRecollector = ZoomRecollectorBackup(courseId: int)
  datatype Persistence = AttendancePersistenceFor(courseId: int)

  /** The collaborators `loadValues` wires up. */
  datatype Orchestrator = Orchestrator(
    courseId: int,
    installationId: int,
    checkCamera: bool,
    recollectorType: string,
    recollector: DataRecollector,
    backupRecollector: BackupRecollector,
    persistence: Persistence)

  /** `get_config('mod_ortattendance', 'recollector_type') ?: 'zoom'`. */
  function RecollectorType(setting: Option<string>): (t: string)
    ensures setting.None? || Empty(setting.value) ==> t == "zoom"
    ensures setting.Some? && !Empty(setting.value) ==> t == setting.value
  {
    if setting.None? || Empty(setting.value) then "zoom" else setting.value
  }

  /** The data recollector factory: Zoom is the only kind, and any other type falls back to it. */
  function DataRecollectorFactory(recollectorType: string, courseId: int, checkCamera: bool): (r: DataRecollector)
    ensures r == ZoomRecollectorData(courseId, checkCamera)
  {
    match recollectorType
    case "zoom" => ZoomRecollectorData(courseId, checkCamera)
    case _ => ZoomRecollectorData(courseId, checkCamera)
  }

  function BackupRecollectorFactory(recollectorType: string, courseId: int): (r: BackupRecollector)
    ensures r == ZoomRecollectorBackup(courseId)
  {
    match recollectorType
    case "zoom" => ZoomRecollectorBackup(courseId)
    case _ => ZoomRecollectorBackup(courseId)
  }

  /** Persistence is always the attendance persistence, whatever type is asked for. */
  function PersistenceFactory(persistenceType: string, courseId: int): (r: Persistence)
    ensures r == AttendancePersistenceFor(courseId)
  {
    match persistenceType
    case "attendance" => AttendancePersistenceFor(courseId)
    case _ => AttendancePersistenceFor(courseId)
  }

  /** The constructor with `loadValues`: a missing installation id is an error
      (`ortattendance_not_found`); otherwise the camera flag comes from that installation. */
  function NewOrchestrator(installations: seq<Installation>, courseId: int, installationId: int,
                           recollectorSetting: Option<string>): (r: Result<Orchestrator, string>)
    ensures r.Err? <==> forall i :: 0 <= i < |installations| ==> installations[i].id != installationId
    ensures r.Err? ==> r.error == "ortattendance_not_found"
    ensures r.Ok? ==> var k := InstallationById(installations, installationId).value;
      r.value.courseId == courseId && r.value.installationId == installationId
      && r.value.checkCamera == installations[k].cameraRequired
      && r.value.recollector == ZoomRecollectorData(courseId, installations[k].cameraRequired)
      && r.value.persistence == AttendancePersistenceFor(courseId)
  {
    match InstallationById(installations, installationId)
    case None => Err("ortattendance_not_found")
    case Some(k) =>
      var checkCamera := installations[k].cameraRequired;
      var t := RecollectorType(recollectorSetting);
      Ok(Orchestrator(courseId, installationId, checkCamera, t,
                      DataRecollectorFactory(t, courseId, checkCamera),
                      BackupRecollectorFactory(t, courseId),
                      PersistenceFactory("attendance", courseId)))
  }

  /** How `process()` ends: a result, an `\Exception`, or a PHP `\Error` from persistence. */
  datatype ProcessOutcome = Returned(result: ProcessResult) | Raised | Aborted

  /** `process()`: the installation rows and attendance tables afterwards, and the outcome.
      Persistence runs only when the day produced a student or a teacher. */
  function Process(o: Orchestrator, installations: seq<Installation>, b: Book, env: Env, today: int,
                   formatDate: int -> string, now: int, clock: int -> string)
    : (seq<Installation>, Book, ProcessOutcome)
  {
    var (rows, data) := GetStudentsByCourseId(installations, env, o.recollector.courseId,
                                              o.recollector.checkCamera, today, formatDate);
    var (b', outcome) := Report(o, rows, data, b, env, now, clock);
    (rows, b', outcome)
  }

  /** The part of `process()` after the recollector returned `data`. `persistStudents` returns
      `[]` only when the course has no attendance activity; after its cohort loop it returns
      nothing, and on PHP 8.0 and later `count(null)` then raises a `TypeError`, a PHP `\Error`
      that no `catch (\Exception)` stops. (On PHP 7.4 it warns and gives 0: `ReportIntended`.) */
  function Report(o: Orchestrator, rows: seq<Installation>, data: CollectOutcome, b: Book, env: Env, now: int,
                  clock: int -> string): (r: (Book, ProcessOutcome))
    ensures r.1.Returned? && r.1.result.completed ==> data.Collected? && r.1.result.date == Some(data.processedDate)
    ensures data.CaughtUp? ==> r == (b, Returned(CAUGHT_UP_RESULT))
  {
    match data
    case CollectFailed => (b, Raised)
    case CaughtUp => (b, Returned(CAUGHT_UP_RESULT))
    case Collected(students, teachers, date) =>
      var day := ProcessResult(true, false, false, Some(date), 0);
      if |students| > 0 || |teachers| > 0 then
        var (b', outcome) := PersistStudents(b, rows, env, o.persistence.courseId, students, teachers, now, clock);
        match outcome
        case NoActivity => (b', Returned(day))
        case Done => (b', Aborted)
        case Threw => (b', Raised)
        case Crashed => (b', Aborted)
      else (b, Returned(day))
  }

  /** A day with participants in a course that has an attendance activity is written to the
      attendance tables and then aborts at `count(null)` (PHP 8.0 and later): it is never reported. */
  lemma PersistedDayAborts(o: Orchestrator, rows: seq<Installation>, data: CollectOutcome, b: Book, env: Env,
                           now: int, clock: int -> string)
    requires data.Collected? && (data.students != [] || data.teachers != [])
    requires !env.persistFault && AttendanceOf(env, rows, o.persistence.courseId).Some?
    ensures Report(o, rows, data, b, env, now, clock)
            == (PersistStudents(b, rows, env, o.persistence.courseId, data.students, data.teachers, now, clock).0,
                Aborted)
  {
    var p := PersistStudents(b, rows, env, o.persistence.courseId, data.students, data.teachers, now, clock);
    assert p.1 == Done || p.1 == Crashed;
  }

  /** `process()` as evidently intended, with `persistStudents` returning its (empty) list of
      absentees on every normal exit: a day whose persistence neither raised nor crashed
      completes, with its date and `absent_count` 0. */
  function ReportIntended(o: Orchestrator, rows: seq<Installation>, data: CollectOutcome, b: Book, env: Env,
                          now: int, clock: int -> string): (r: (Book, ProcessOutcome))
    ensures data.Collected? && !env.persistFault
            && PersistStudents(b, rows, env, o.persistence.courseId, data.students, data.teachers, now, clock).1
               != Crashed
            ==> r.1 == Returned(ProcessResult(true, false, false, Some(data.processedDate), 0))
    ensures r.1.Returned? ==> r.1.result.absentCount == 0
  {
    match data
    case CollectFailed => (b, Raised)
    case CaughtUp => (b, Returned(CAUGHT_UP_RESULT))
    case Collected(students, teachers, date) =>
      var day := ProcessResult(true, false, false, Some(date), 0);
      if |students| > 0 || |teachers| > 0 then
        var (b', outcome) := PersistStudents(b, rows, env, o.persistence.courseId, students, teachers, now, clock);
        match outcome
        case NoActivity => (b', Returned(day))
        case Done => (b', Returned(day))
        case Threw => (b', Raised)
        case Crashed => (b', Aborted)
      else (b, Returned(day))
  }

  /** The code as written and as intended write the same tables and differ only where the
      written code aborts at `count(null)`, which the intended code reports as a completed day. */
  lemma IntendedDiffersOnlyAtNullCount(o: Orchestrator, rows: seq<Installation>, data: CollectOutcome, b: Book,
                                       env: Env, now: int, clock: int -> string)
    ensures Report(o, rows, data, b, env, now, clock).0 == ReportIntended(o, rows, data, b, env, now, clock).0
    ensures var written := Report(o, rows, data, b, env, now, clock).1;
      var intended := ReportIntended(o, rows, data, b, env, now, clock).1;
      written != intended ==>
        written == Aborted && intended.Returned? && intended.result.completed
        && data.Collected? && AttendanceOf(env, rows, o.persistence.courseId).Some?
  {
  }

  /** A returned result has one of two shapes: caught up (not completed, no more data, no
      date) or a completed day with its date. */
  lemma ProcessResultShapes(o: Orchestrator, installations: seq<Installation>, b: Book, env: Env, today: int,
                            formatDate: int -> string, now: int, clock: int -> string)
    ensures var (_, _, outcome) := Process(o, installations, b, env, today, formatDate, now, clock);
      outcome.Returned? ==>
        var r := outcome.result;
        r.absentCount == 0
        && (r.completed <==> !r.caughtUp)
        && (r.caughtUp <==> r.noMoreData)
        && (r.date.Some? <==> r.completed)
  {
    var (rows, data) := GetStudentsByCourseId(installations, env, o.recollector.courseId,
                                              o.recollector.checkCamera, today, formatDate);
    ReportResultShapes(o, rows, data, b, env, now, clock);
  }

  lemma ReportResultShapes(o: Orchestrator, rows: seq<Installation>, data: CollectOutcome, b: Book, env: Env,
                           now: int, clock: int -> string)
    ensures var outcome := Report(o, rows, data, b, env, now, clock).1;
      outcome.Returned? ==>
        var r := outcome.result;
        r.absentCount == 0
        && (r.completed <==> !r.caughtUp)
        && (r.caughtUp <==> r.noMoreData)
        && (r.date.Some? <==> r.completed)
  {
  }

  /** A caught-up recollector writes nothing and maps to the fixed caught-up result. */
  lemma CaughtUpChangesNothing(o: Orchestrator, installations: seq<Installation>, b: Book, env: Env, today: int,
                               formatDate: int -> string, now: int, clock: int -> string)
    requires GetStudentsByCourseId(installations, env, o.recollector.courseId, o.recollector.checkCamera,
                                   today, formatDate).1.CaughtUp?
    ensures Process(o, installations, b, env, today, formatDate, now, clock)
            == (installations, b, Returned(CAUGHT_UP_RESULT))
  {
  }

  /** A completed day reports the formatted target day, which the cursor now holds. */
  lemma CompletedReportsTargetDay(o: Orchestrator, installations: seq<Installation>, b: Book, env: Env,
                                  today: int, formatDate: int -> string, now: int, clock: int -> string)
    requires Process(o, installations, b, env, today, formatDate, now, clock).2.Returned?
    requires Process(o, installations, b, env, today, formatDate, now, clock).2.result.completed
    ensures InstallationByCourse(installations, o.recollector.courseId).Some?
    ensures var k := InstallationByCourse(installations, o.recollector.courseId).value;
      var p := Process(o, installations, b, env, today, formatDate, now, clock);
      var target := TargetDate(installations[k]);
      p.2.result.date == Some(formatDate(target))
      && p.0[k].lastProcessedDate == Some(target)
      && target < today
  {
    CollectedAdvancesOneDay(installations, env, o.recollector.courseId, o.recollector.checkCamera, today, formatDate);
  }

  /** A day without any matched participant never reaches persistence. */
  lemma EmptyDaySkipsPersistence(o: Orchestrator, installations: seq<Installation>, b: Book, env: Env,
                                 today: int, formatDate: int -> string, now: int, clock: int -> string)
    requires var data := GetStudentsByCourseId(installations, env, o.recollector.courseId,
                                               o.recollector.checkCamera, today, formatDate).1;
      data.Collected? && data.students == [] && data.teachers == []
    ensures var (_, b', outcome) := Process(o, installations, b, env, today, formatDate, now, clock);
      b' == b && outcome.Returned? && outcome.result.completed
  {
  }

  /** The cursor is written before persistence runs: when persistence raises, the day is
      already marked processed although nothing was recorded for it. */
  lemma CursorMovesEvenIfPersistenceRaises(o: Orchestrator, installations: seq<Installation>, b: Book, env: Env,
                                           today: int, formatDate: int -> string, now: int, clock: int -> string)
    requires env.persistFault
    requires var data := GetStudentsByCourseId(installations, env, o.recollector.courseId,
                                               o.recollector.checkCamera, today, formatDate).1;
      data.Collected? && (data.students != [] || data.teachers != [])
    ensures InstallationByCourse(installations, o.recollector.courseId).Some?
    ensures var k := InstallationByCourse(installations, o.recollector.courseId).value;
      var (rows, b', outcome) := Process(o, installations, b, env, today, formatDate, now, clock);
      outcome == Raised && b' == b
      && rows[k].lastProcessedDate == Some(TargetDate(installations[k]))
  {
    CollectedAdvancesOneDay(installations, env, o.recollector.courseId, o.recollector.checkCamera, today, formatDate);
    var (rows, data) := GetStudentsByCourseId(installations, env, o.recollector.courseId, o.recollector.checkCamera,
                                              today, formatDate);
    assert Report(o, rows, data, b, env, now, clock) == (b, Raised);
  }

  /** Processing never adds, removes or re-keys an installation row. */
  lemma ProcessKeepsIds(o: Orchestrator, installations: seq<Installation>, b: Book, env: Env,
                        today: int, formatDate: int -> string, now: int, clock: int -> string)
    ensures var rows := Process(o, installations, b, env, today, formatDate, now, clock).0;
      |rows| == |installations| && forall i :: 0 <= i < |rows| ==> rows[i].id == installations[i].id
  {
    var rows := GetStudentsByCourseId(installations, env, o.recollector.courseId, o.recollector.checkCamera,
                                      today, formatDate).0;
    GetStudentsKeepsIds(installations, env, o.recollector.courseId, o.recollector.checkCamera, today, formatDate);
    assert Process(o, installations, b, env, today, formatDate, now, clock).0 == rows;
  }

  /** Processing keeps the attendance tables well formed and only adds to them. */
  lemma ProcessKeepsBook(o: Orchestrator, installations: seq<Installation>, b: Book, env: Env,
                         today: int, formatDate: int -> string, now: int, clock: int -> string)
    requires BookValid(b)
    ensures var (_, b', _) := Process(o, installations, b, env, today, formatDate, now, clock);
      BookValid(b') && Grown(b, b')
  {
    var (rows, data) := GetStudentsByCourseId(installations, env, o.recollector.courseId,
                                              o.recollector.checkCamera, today, formatDate);
    if data.Collected? {
      PersistStudentsKeepsBook(b, rows, env, o.persistence.courseId, data.students, data.teachers, now, clock);
    }
  }

  /** `process()` against the database. */
  method ProcessRun(o: Orchestrator, db: Database, env: Env, today: int, formatDate: int -> string, now: int,
                    clock: int -> string)
    returns (outcome: ProcessOutcome)
    modifies db`installations, db`sessions, db`nextSessionId, db`logs
    ensures (db.installations, db.Attendance(), outcome)
            == Process(o, old(db.installations), old(db.Attendance()), env, today, formatDate, now, clock)
  {
    var data := GetStudentsByCourseIdRun(db, env, o.recollector.courseId, o.recollector.checkCamera, today,
                                         formatDate);
    match data {
      case CollectFailed =>
        return Raised;
      case CaughtUp =>
        return Returned(CAUGHT_UP_RESULT);
      case Collected(students, teachers, date) =>
        var day := ProcessResult(true, false, false, Some(date), 0);
        if |students| > 0 || |teachers| > 0 {
          var persisted := PersistStudentsRun(db, env, o.persistence.courseId, students, teachers, now, clock);
          match persisted {
            case NoActivity => return Returned(day);
            case Done => return Aborted;
            case Threw => return Raised;
            case Crashed => return Aborted;
          }
        }
        return Returned(day);
    }
  }
}
