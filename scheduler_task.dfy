/** `scheduler_task::execute`: for every active installation, process one day after another
    until the day limit, the time budget, or the cursor reaching today stops it. A day whose
    processing raises is skipped by forcing the cursor forward; an installation whose run
    fails is marked `error` and the next one is processed. */
module SchedulerTask {
  import opened Wrappers
  import opened Store
  import opened ZoomRecollector
  import opened AttendancePersistence
  import opened Orchestration

  const DEFAULT_MAX_DAYS: int := 30
  /** 50 minutes, in seconds. */
  const DEFAULT_MAX_EXECUTION_TIME: int := 3000

  /** `get_config(...) ?: default` for a numeric setting: a missing or zero value gives the
      default. */
  function SettingOr(setting: Option<int>, default: int): (v: int)
    ensures setting.None? || setting.value == 0 ==> v == default
    ensures setting.Some? && setting.value != 0 ==> v == setting.value
  {
    if setting.None? || setting.value == 0 then default else setting.value
  }

  /** The tables a run changes: installation rows and the attendance tables. */
  datatype World = World(installations: seq<Installation>, book: Book)

  /** The day a failed day is skipped to: the day after the stored cursor, or the start date
      when the stored cursor is missing or 0. */
  function SkipDate(row: Installation): int {
    if row.lastProcessedDate.Some? && row.lastProcessedDate.value != 0 then row.lastProcessedDate.value + ONE_DAY
    else row.startDate
  }

  /** `set_field('ortattendance', 'last_processed_date', v, ['id' => id])`. */
  function SetCursorById(rows: seq<Installation>, id: int, v: int): (r: seq<Installation>)
    ensures |r| == |rows|
    ensures forall i :: 0 <= i < |rows| ==>
              r[i] == if rows[i].id == id then rows[i].(lastProcessedDate := Some(v)) else rows[i]
  {
    if |rows| == 0 then []
    else [if rows[0].id == id then rows[0].(lastProcessedDate := Some(v)) else rows[0]]
         + SetCursorById(rows[1..], id, v)
  }

  /** `set_field('ortattendance', 'processing_status', 'error', ['id' => id])`. */
  function MarkError(rows: seq<Installation>, id: int): (r: seq<Installation>)
    ensures |r| == |rows|
    ensures forall i :: 0 <= i < |rows| ==>
              r[i] == if rows[i].id == id then rows[i].(processingStatus := "error") else rows[i]
  {
    if |rows| == 0 then []
    else [if rows[0].id == id then rows[0].(processingStatus := "error") else rows[0]]
         + MarkError(rows[1..], id)
  }

  /** The skip after a failed day, from the row as it is stored at that moment; `None` when
      the row is gone, and the original exception is rethrown. */
  function SkipDay(rows: seq<Installation>, instanceId: int): (r: Option<seq<Installation>>)
    ensures r.None? <==> InstallationById(rows, instanceId).None?
  {
    match InstallationById(rows, instanceId)
    case None => None
    case Some(k) => Some(SetCursorById(rows, instanceId, SkipDate(rows[k])))
  }

  datatype StopReason = DayLimit | TimeBudget | CaughtUpToToday | NoMoreData

  /** How one iteration ends: go on to the next day (counted), leave the loop because the
      recollector caught up or has no more data (counting the day or not), rethrow, or abort
      with a PHP `\Error`. */
  datatype DayEnd = NextDay | Stop(caughtUp: bool, counted: bool) | Rethrow | Abort

  /** The body of the loop, once the day and time checks have passed. */
  function Day(o: Orchestrator, w: World, env: Env, today: int, formatDate: int -> string, now: int,
               clock: int -> string, instanceId: int): (World, DayEnd)
  {
    var (rows, b, outcome) := Process(o, w.installations, w.book, env, today, formatDate, now, clock);
    match outcome
    case Aborted => (World(rows, b), Abort)
    case Raised =>
      (match SkipDay(rows, instanceId)
       case None => (World(rows, b), Rethrow)
       case Some(rows') => (World(rows', b), NextDay))
    case Returned(r) =>
      if r.caughtUp then (World(rows, b), Stop(true, r.completed))
      else if r.noMoreData then (World(rows, b), Stop(false, r.completed))
      else if r.completed then (World(rows, b), NextDay)
      else
        ProcessResultShapes(o, w.installations, w.book, env, today, formatDate, now, clock);
        assert false;
        (World(rows, b), Abort)
  }

  /** The body of the loop for the orchestrator of installation `instanceId`. */
  function DayOf(o: Orchestrator, env: Env, today: int, formatDate: int -> string, now: int,
                 clock: int -> string, instanceId: int): World -> (World, DayEnd)
  {
    w => Day(o, w, env, today, formatDate, now, clock, instanceId)
  }

  /** How the loop of one installation ends. */
  datatype LoopEnd = Finished(days: nat, reason: StopReason) | Rethrown | LoopAborted

  /** The daily loop from `days` days done, running `day` as its body (`DayOf` for the
      installation's orchestrator); `elapsed(d)` is the time since the installation's start
      when `d` days are done. */
  function RunDays(day: World -> (World, DayEnd), w: World, maxDays: int, maxExecutionTime: int,
                   elapsed: nat -> int, days: nat): (World, LoopEnd)
    decreases maxDays - days
  {
    if days >= maxDays then (w, Finished(days, DayLimit))
    else if elapsed(days) > maxExecutionTime then (w, Finished(days, TimeBudget))
    else
      var (w', e) := day(w);
      match e
      case NextDay => RunDays(day, w', maxDays, maxExecutionTime, elapsed, days + 1)
      case Stop(caughtUp, counted) =>
        (w', Finished(if counted then days + 1 else days, if caughtUp then CaughtUpToToday else NoMoreData))
      case Rethrow => (w', Rethrown)
      case Abort => (w', LoopAborted)
  }

  /** A loop body that never counts the day it stops on. */
  ghost predicate StopsUncounted(day: World -> (World, DayEnd)) {
    forall w: World {:trigger day(w)} :: day(w).1.Stop? ==> !day(w).1.counted
  }

  /** The loop counts at most `maxDays` days and never fewer than it started with, and a stop
      for the day limit has reached it; when the body never counts the day it stops on, the
      loop stops for the day limit exactly when it reached it. */
  lemma {:induction false} RunDaysBounded(day: World -> (World, DayEnd), w: World, maxDays: int,
                                          maxExecutionTime: int, elapsed: nat -> int, days: nat)
    requires days <= maxDays
    ensures var e := RunDays(day, w, maxDays, maxExecutionTime, elapsed, days).1;
      e.Finished? ==> days <= e.days <= maxDays && (e.reason == DayLimit ==> e.days == maxDays)
                      && (StopsUncounted(day) && e.days == maxDays ==> e.reason == DayLimit)
    decreases maxDays - days
  {
    if days < maxDays && elapsed(days) <= maxExecutionTime {
      var (w', e) := day(w);
      if e.NextDay? {
        RunDaysBounded(day, w', maxDays, maxExecutionTime, elapsed, days + 1);
      }
    }
  }

  /** The time budget is checked only before a day starts, and strictly: a run over budget
      stops without processing, and one exactly at the budget processes the day. */
  lemma TimeBudgetIsStrict(day: World -> (World, DayEnd), w: World, maxDays: int, maxExecutionTime: int,
                           elapsed: nat -> int, days: nat)
    requires days < maxDays
    ensures elapsed(days) > maxExecutionTime ==>
              RunDays(day, w, maxDays, maxExecutionTime, elapsed, days) == (w, Finished(days, TimeBudget))
    ensures elapsed(days) <= maxExecutionTime ==>
              RunDays(day, w, maxDays, maxExecutionTime, elapsed, days).1 != Finished(days, TimeBudget)
  {
    if elapsed(days) <= maxExecutionTime {
      var (w', e) := day(w);
      if e.NextDay? {
        RunDaysBounded(day, w', maxDays, maxExecutionTime, elapsed, days + 1);
      }
    }
  }

  /** A loop body that keeps the attendance tables well formed and only adds to them. */
  ghost predicate KeepsBook(day: World -> (World, DayEnd)) {
    forall w: World {:trigger day(w)} :: BookValid(w.book) ==> BookValid(day(w).0.book) && Grown(w.book, day(w).0.book)
  }

  /** Such a body keeps them so for the whole loop. */
  lemma {:induction false} RunDaysKeepsBook(day: World -> (World, DayEnd), w: World, maxDays: int,
                                            maxExecutionTime: int, elapsed: nat -> int, days: nat)
    requires KeepsBook(day) && BookValid(w.book)
    ensures var w' := RunDays(day, w, maxDays, maxExecutionTime, elapsed, days).0;
      BookValid(w'.book) && Grown(w.book, w'.book)
    decreases maxDays - days
  {
    if days < maxDays && elapsed(days) <= maxExecutionTime {
      var (w', e) := day(w);
      if e.NextDay? {
        RunDaysKeepsBook(day, w', maxDays, maxExecutionTime, elapsed, days + 1);
        GrownTrans(w.book, w'.book, RunDays(day, w', maxDays, maxExecutionTime, elapsed, days + 1).0.book);
      }
    }
  }

  /** One day keeps the attendance tables well formed and only adds to them. */
  lemma DayKeepsBook(o: Orchestrator, w: World, env: Env, today: int, formatDate: int -> string, now: int,
                     clock: int -> string, instanceId: int)
    requires BookValid(w.book)
    ensures var w' := Day(o, w, env, today, formatDate, now, clock, instanceId).0;
      BookValid(w'.book) && Grown(w.book, w'.book)
  {
    ProcessKeepsBook(o, w.installations, w.book, env, today, formatDate, now, clock);
  }

  lemma DayOfKeepsBook(o: Orchestrator, env: Env, today: int, formatDate: int -> string, now: int,
                       clock: int -> string, instanceId: int)
    ensures KeepsBook(DayOf(o, env, today, formatDate, now, clock, instanceId))
  {
    var day := DayOf(o, env, today, formatDate, now, clock, instanceId);
    forall w: World | BookValid(w.book) ensures BookValid(day(w).0.book) && Grown(w.book, day(w).0.book) {
      DayKeepsBook(o, w, env, today, formatDate, now, clock, instanceId);
    }
  }

  /** The day the loop stops on is never counted: a stop comes from a caught-up recollector,
      whose result is not completed. */
  lemma DayOfStopsUncounted(o: Orchestrator, env: Env, today: int, formatDate: int -> string, now: int,
                            clock: int -> string, instanceId: int)
    ensures StopsUncounted(DayOf(o, env, today, formatDate, now, clock, instanceId))
  {
    var day := DayOf(o, env, today, formatDate, now, clock, instanceId);
    forall w: World ensures day(w).1.Stop? ==> !day(w).1.counted {
      ProcessResultShapes(o, w.installations, w.book, env, today, formatDate, now, clock);
    }
  }

  /** A day whose collection raised (nothing written) is skipped to the day after the stored
      cursor, so the loop moves on by exactly one day. */
  lemma FailedCollectionSkipsOneDay(o: Orchestrator, w: World, env: Env, today: int, formatDate: int -> string,
                                    now: int, clock: int -> string, instanceId: int, k: nat)
    requires k < |w.installations| && InstallationById(w.installations, instanceId) == Some(k)
    requires w.installations[k].lastProcessedDate.Some? && w.installations[k].lastProcessedDate.value != 0
    requires GetStudentsByCourseId(w.installations, env, o.recollector.courseId, o.recollector.checkCamera,
                                   today, formatDate).1.CollectFailed?
    ensures var (w', e) := Day(o, w, env, today, formatDate, now, clock, instanceId);
      e == NextDay && w'.book == w.book
      && w'.installations[k].lastProcessedDate == Some(w.installations[k].lastProcessedDate.value + ONE_DAY)
  {
  }

  /** The skip reads the cursor as stored when the day failed. When collection succeeded and
      moved the cursor to the target day, and persistence then raised, the skip moves it one
      day further: the day after the target is never collected. */
  lemma PersistenceFailureSkipsTwoDays(o: Orchestrator, w: World, env: Env, today: int,
                                       formatDate: int -> string, now: int, clock: int -> string,
                                       instanceId: int, k: nat)
    requires k < |w.installations|
    requires InstallationById(w.installations, instanceId) == Some(k)
    requires InstallationByCourse(w.installations, o.recollector.courseId) == Some(k)
    requires env.persistFault
    requires var data := GetStudentsByCourseId(w.installations, env, o.recollector.courseId,
                                               o.recollector.checkCamera, today, formatDate).1;
      data.Collected? && (data.students != [] || data.teachers != [])
    requires TargetDate(w.installations[k]) != 0
    ensures var (w', e) := Day(o, w, env, today, formatDate, now, clock, instanceId);
      e == NextDay && w'.book == w.book
      && w'.installations[k].lastProcessedDate == Some(TargetDate(w.installations[k]) + ONE_DAY)
      && TargetDate(w'.installations[k]) == TargetDate(w.installations[k]) + 2 * ONE_DAY
  {
    CursorMovesEvenIfPersistenceRaises(o, w.installations, w.book, env, today, formatDate, now, clock);
    ProcessKeepsIds(o, w.installations, w.book, env, today, formatDate, now, clock);
    var rows := Process(o, w.installations, w.book, env, today, formatDate, now, clock).0;
    SameIdsSameLookup(rows, w.installations, instanceId);
  }

  /** Rows with the same ids in the same order find the same row by id. */
  lemma SameIdsSameLookup(r1: seq<Installation>, r2: seq<Installation>, id: int)
    requires |r1| == |r2| && forall i :: 0 <= i < |r1| ==> r1[i].id == r2[i].id
    ensures InstallationById(r1, id) == InstallationById(r2, id)
  {
  }

  /** How one installation ends. */
  datatype InstanceEnd = InstanceDone(days: nat, reason: StopReason) | InstanceFailed | InstanceAborted

  /** One installation: build the orchestrator and run the daily loop; a failure (missing
      installation or rethrown day) marks the row `error` when the table has the status
      column. */
  function RunInstance(w: World, instance: Installation, env: Env, today: int, formatDate: int -> string,
                       now: int, clock: int -> string, recollectorSetting: Option<string>,
                       maxDaysSetting: Option<int>, maxExecutionSetting: Option<int>, elapsed: nat -> int,
                       hasStatusField: bool): (World, InstanceEnd)
  {
    match NewOrchestrator(w.installations, instance.course, instance.id, recollectorSetting)
    case Err(_) => (Failed(w, instance.id, hasStatusField), InstanceFailed)
    case Ok(o) =>
      var (w', e) := RunDays(DayOf(o, env, today, formatDate, now, clock, instance.id), w,
                             SettingOr(maxDaysSetting, DEFAULT_MAX_DAYS),
                             SettingOr(maxExecutionSetting, DEFAULT_MAX_EXECUTION_TIME), elapsed, 0);
      match e
      case Finished(days, reason) => (w', InstanceDone(days, reason))
      case Rethrown => (Failed(w', instance.id, hasStatusField), InstanceFailed)
      case LoopAborted => (w', InstanceAborted)
  }

  /** The catch block of one installation. */
  function Failed(w: World, id: int, hasStatusField: bool): (r: World)
    ensures r.book == w.book
    ensures hasStatusField ==> r.installations == MarkError(w.installations, id)
    ensures !hasStatusField ==> r == w
  {
    if hasStatusField then w.(installations := MarkError(w.installations, id)) else w
  }

  /** An installation counts at most the configured number of days (30 when unset), and none
      when that number is not positive. */
  lemma InstanceDaysBounded(w: World, instance: Installation, env: Env, today: int, formatDate: int -> string,
                            now: int, clock: int -> string, recollectorSetting: Option<string>,
                            maxDaysSetting: Option<int>, maxExecutionSetting: Option<int>, elapsed: nat -> int,
                            hasStatusField: bool)
    ensures var e := RunInstance(w, instance, env, today, formatDate, now, clock, recollectorSetting,
                                 maxDaysSetting, maxExecutionSetting, elapsed, hasStatusField).1;
      var maxDays := SettingOr(maxDaysSetting, DEFAULT_MAX_DAYS);
      e.InstanceDone? ==> e.days <= if maxDays < 0 then 0 else maxDays
  {
    var maxDays := SettingOr(maxDaysSetting, DEFAULT_MAX_DAYS);
    var maxExec := SettingOr(maxExecutionSetting, DEFAULT_MAX_EXECUTION_TIME);
    var o := NewOrchestrator(w.installations, instance.course, instance.id, recollectorSetting);
    if o.Ok? && 0 <= maxDays {
      RunDaysBounded(DayOf(o.value, env, today, formatDate, now, clock, instance.id), w, maxDays, maxExec,
                     elapsed, 0);
      DayOfStopsUncounted(o.value, env, today, formatDate, now, clock, instance.id);
    }
  }

  /** The installations the scheduled task runs: rows whose course module is live. */
  function ActiveInstallations(rows: seq<Installation>, liveModules: set<int>): (r: seq<Installation>)
    ensures forall x :: x in r <==> x in rows && x.id in liveModules
  {
    if |rows| == 0 then []
    else
      var rest := ActiveInstallations(rows[1..], liveModules);
      assert forall x :: x in rows[1..] ==> x in rows;
      if rows[0].id in liveModules then [rows[0]] + rest else rest
  }

  /** The loop over installations, from the snapshot taken when the run started; `elapsed(id)` is
      the clock of installation `id`. Returns how each installation processed ended: a failed
      installation does not stop the others, and only an abort ends the scheduled task early. */
  function Execute(w: World, instances: seq<Installation>, env: Env, today: int, formatDate: int -> string,
                   now: int, clock: int -> string, recollectorSetting: Option<string>,
                   maxDaysSetting: Option<int>, maxExecutionSetting: Option<int>, elapsed: int -> nat -> int,
                   hasStatusField: bool): (r: (World, seq<InstanceEnd>))
    ensures |r.1| <= |instances|
    ensures forall i :: 0 <= i < |r.1| - 1 ==> !r.1[i].InstanceAborted?
    ensures |r.1| < |instances| ==> |r.1| > 0 && r.1[|r.1| - 1].InstanceAborted?
    decreases |instances|
  {
    if |instances| == 0 then (w, [])
    else
      var (w', e) := RunInstance(w, instances[0], env, today, formatDate, now, clock, recollectorSetting,
                                 maxDaysSetting, maxExecutionSetting, elapsed(instances[0].id), hasStatusField);
      if e.InstanceAborted? then (w', [e])
      else
        var (w'', ends) := Execute(w', instances[1..], env, today, formatDate, now, clock, recollectorSetting,
                                   maxDaysSetting, maxExecutionSetting, elapsed, hasStatusField);
        (w'', [e] + ends)
  }

  /** The daily loop against the database. */
  method RunDaysRun(o: Orchestrator, db: Database, env: Env, today: int, formatDate: int -> string, now: int,
                    clock: int -> string, instanceId: int, maxDays: int, maxExecutionTime: int,
                    elapsed: nat -> int)
    returns (end: LoopEnd)
    modifies db`installations, db`sessions, db`nextSessionId, db`logs
    ensures (World(db.installations, db.Attendance()), end)
            == RunDays(DayOf(o, env, today, formatDate, now, clock, instanceId),
                       World(old(db.installations), old(db.Attendance())), maxDays, maxExecutionTime, elapsed, 0)
  {
    var days: nat := 0;
    while days < maxDays
      invariant RunDays(DayOf(o, env, today, formatDate, now, clock, instanceId),
                        World(db.installations, db.Attendance()), maxDays, maxExecutionTime, elapsed, days)
                == RunDays(DayOf(o, env, today, formatDate, now, clock, instanceId),
                           World(old(db.installations), old(db.Attendance())), maxDays, maxExecutionTime, elapsed, 0)
      decreases maxDays - days
    {
      if elapsed(days) > maxExecutionTime {
        return Finished(days, TimeBudget);
      }
      ghost var w := World(db.installations, db.Attendance());
      var outcome := ProcessRun(o, db, env, today, formatDate, now, clock);
      match outcome {
        case Aborted =>
          return LoopAborted;
        case Raised =>
          var k := InstallationById(db.installations, instanceId);
          if k.None? {
            return Rethrown;
          }
          db.installations := SetCursorById(db.installations, instanceId, SkipDate(db.installations[k.value]));
          days := days + 1;
        case Returned(r) =>
          if r.caughtUp {
            return Finished(if r.completed then days + 1 else days, CaughtUpToToday);
          }
          if r.noMoreData {
            return Finished(if r.completed then days + 1 else days, NoMoreData);
          }
          ProcessResultShapes(o, w.installations, w.book, env, today, formatDate, now, clock);
          days := days + 1;
      }
    }
    return Finished(days, DayLimit);
  }

  /** One installation against the database. */
  method RunInstanceRun(db: Database, instance: Installation, env: Env, today: int, formatDate: int -> string,
                        now: int, clock: int -> string, recollectorSetting: Option<string>,
                        maxDaysSetting: Option<int>, maxExecutionSetting: Option<int>, elapsed: nat -> int,
                        hasStatusField: bool)
    returns (end: InstanceEnd)
    modifies db`installations, db`sessions, db`nextSessionId, db`logs
    ensures (World(db.installations, db.Attendance()), end)
            == RunInstance(World(old(db.installations), old(db.Attendance())), instance, env, today, formatDate,
                           now, clock, recollectorSetting, maxDaysSetting, maxExecutionSetting, elapsed,
                           hasStatusField)
  {
    var o := NewOrchestrator(db.installations, instance.course, instance.id, recollectorSetting);
    if o.Err? {
      if hasStatusField {
        db.installations := MarkError(db.installations, instance.id);
      }
      return InstanceFailed;
    }
    var loopEnd := RunDaysRun(o.value, db, env, today, formatDate, now, clock, instance.id,
                              SettingOr(maxDaysSetting, DEFAULT_MAX_DAYS),
                              SettingOr(maxExecutionSetting, DEFAULT_MAX_EXECUTION_TIME), elapsed);
    match loopEnd {
      case Finished(days, reason) =>
        end := InstanceDone(days, reason);
      case Rethrown =>
        if hasStatusField {
          db.installations := MarkError(db.installations, instance.id);
        }
        end := InstanceFailed;
      case LoopAborted =>
        end := InstanceAborted;
    }
  }

  /** `execute()` against the database: the active installations are read once, then run in
      turn until one aborts. */
  method ExecuteRun(db: Database, liveModules: set<int>, env: Env, today: int, formatDate: int -> string,
                    now: int, clock: int -> string, recollectorSetting: Option<string>,
                    maxDaysSetting: Option<int>, maxExecutionSetting: Option<int>, elapsed: int -> nat -> int,
                    hasStatusField: bool)
    returns (ends: seq<InstanceEnd>)
    modifies db`installations, db`sessions, db`nextSessionId, db`logs
    ensures (World(db.installations, db.Attendance()), ends)
            == Execute(World(old(db.installations), old(db.Attendance())),
                       ActiveInstallations(old(db.installations), liveModules), env, today, formatDate, now, clock,
                       recollectorSetting, maxDaysSetting, maxExecutionSetting, elapsed, hasStatusField)
  {
    var instances := ActiveInstallations(db.installations, liveModules);
    ghost var total := Execute(World(db.installations, db.Attendance()), instances, env, today, formatDate, now,
                               clock, recollectorSetting, maxDaysSetting, maxExecutionSetting, elapsed,
                               hasStatusField);
    ends := [];
    var i := 0;
    assert instances[0..] == instances;
    assert [] + total.1 == total.1;
    while i < |instances|
      invariant 0 <= i <= |instances|
      invariant ExecuteFrom(World(db.installations, db.Attendance()), ends, instances[i..], env, today,
                            formatDate, now, clock, recollectorSetting, maxDaysSetting, maxExecutionSetting,
                            elapsed, hasStatusField) == total
    {
      ghost var w := World(db.installations, db.Attendance());
      var e := RunInstanceRun(db, instances[i], env, today, formatDate, now, clock, recollectorSetting,
                              maxDaysSetting, maxExecutionSetting, elapsed(instances[i].id), hasStatusField);
      assert instances[i..][0] == instances[i];
      ExecuteStep(w, ends, instances[i..], env, today, formatDate, now, clock, recollectorSetting,
                  maxDaysSetting, maxExecutionSetting, elapsed, hasStatusField,
                  World(db.installations, db.Attendance()), e);
      ends := ends + [e];
      if e.InstanceAborted? {
        assert (World(db.installations, db.Attendance()), ends) == total;
        return;
      }
      assert instances[i..][1..] == instances[i + 1..];
      i := i + 1;
    }
    assert ExecuteFrom(World(db.installations, db.Attendance()), ends, [], env, today, formatDate, now, clock,
                       recollectorSetting, maxDaysSetting, maxExecutionSetting, elapsed, hasStatusField)
           == (World(db.installations, db.Attendance()), ends + []);
    assert ends + [] == ends;
  }

  /** The rest of the installation loop, after the installations that produced `done`. */
  function ExecuteFrom(w: World, done: seq<InstanceEnd>, instances: seq<Installation>, env: Env, today: int,
                       formatDate: int -> string, now: int, clock: int -> string,
                       recollectorSetting: Option<string>, maxDaysSetting: Option<int>,
                       maxExecutionSetting: Option<int>, elapsed: int -> nat -> int, hasStatusField: bool)
    : (World, seq<InstanceEnd>)
  {
    var r := Execute(w, instances, env, today, formatDate, now, clock, recollectorSetting, maxDaysSetting,
                     maxExecutionSetting, elapsed, hasStatusField);
    (r.0, done + r.1)
  }

  lemma ExecuteStep(w: World, done: seq<InstanceEnd>, instances: seq<Installation>, env: Env, today: int,
                    formatDate: int -> string, now: int, clock: int -> string,
                    recollectorSetting: Option<string>, maxDaysSetting: Option<int>,
                    maxExecutionSetting: Option<int>, elapsed: int -> nat -> int, hasStatusField: bool,
                    w': World, e: InstanceEnd)
    requires |instances| > 0
    requires (w', e) == RunInstance(w, instances[0], env, today, formatDate, now, clock, recollectorSetting,
                                    maxDaysSetting, maxExecutionSetting, elapsed(instances[0].id), hasStatusField)
    ensures e.InstanceAborted? ==>
      ExecuteFrom(w, done, instances, env, today, formatDate, now, clock, recollectorSetting, maxDaysSetting,
                  maxExecutionSetting, elapsed, hasStatusField) == (w', done + [e])
    ensures !e.InstanceAborted? ==>
      ExecuteFrom(w, done, instances, env, today, formatDate, now, clock, recollectorSetting, maxDaysSetting,
                  maxExecutionSetting, elapsed, hasStatusField)
      == ExecuteFrom(w', done + [e], instances[1..], env, today, formatDate, now, clock, recollectorSetting,
                     maxDaysSetting, maxExecutionSetting, elapsed, hasStatusField)
  {
    if !e.InstanceAborted? {
      var rest := Execute(w', instances[1..], env, today, formatDate, now, clock, recollectorSetting,
                          maxDaysSetting, maxExecutionSetting, elapsed, hasStatusField);
      assert done + ([e] + rest.1) == (done + [e]) + rest.1;
    }
  }
}
