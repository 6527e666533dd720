/** The pure decisions of `AttendancePersistence`: which status a participant gets
    (`determineStatus`), which status ids an attendance activity offers (`getStatuses`, and the
    absent-id scan of `markAbsentStudents`) and when a meeting is flagged irregular
    (`detectIrregularMeeting`). */
module PersistenceStatus {
  import opened Wrappers
  import opened Php
  import opened TeacherAttendance
  import opened Store

  const MIN_MEETING_DURATION: int := 15
  const MIN_PARTICIPANT_COUNT: int := 5

  // ---------------------------------------------------------------- status ids

  /** The three ids `getStatuses` returns. */
  datatype StatusIds = StatusIds(present: int, late: int, absent: int)

  /** The id the loop holds for `acronym` after its first `n` records: that of the last one
      whose lower-cased acronym is `acronym` (a later match overwrites an earlier one). */
  function LastIdBefore(records: seq<StatusRecord>, n: nat, acronym: string): Option<int>
    requires n <= |records|
  {
    if n == 0 then None
    else if Lower(records[n - 1].acronym) == acronym then Some(records[n - 1].id)
    else LastIdBefore(records, n - 1, acronym)
  }

  lemma {:induction false} LastIdBeforeSpec(records: seq<StatusRecord>, n: nat, acronym: string)
    requires n <= |records|
    ensures LastIdBefore(records, n, acronym).None? <==> forall i :: 0 <= i < n ==> Lower(records[i].acronym) != acronym
    ensures LastIdBefore(records, n, acronym).Some? ==>
              exists i :: 0 <= i < n && Lower(records[i].acronym) == acronym
                          && records[i].id == LastIdBefore(records, n, acronym).value
                          && forall j :: i < j < n ==> Lower(records[j].acronym) != acronym
  {
    LastIdBeforeNone(records, n, acronym);
    if LastIdBefore(records, n, acronym).Some? {
      var i := LastIdBeforeWitness(records, n, acronym);
    }
  }

  lemma {:induction false} LastIdBeforeNone(records: seq<StatusRecord>, n: nat, acronym: string)
    requires n <= |records|
    ensures LastIdBefore(records, n, acronym).None? <==> forall i :: 0 <= i < n ==> Lower(records[i].acronym) != acronym
  {
    if n > 0 && Lower(records[n - 1].acronym) != acronym {
      LastIdBeforeNone(records, n - 1, acronym);
    }
  }

  /** The position of the record whose id is held. */
  lemma {:induction false} LastIdBeforeWitness(records: seq<StatusRecord>, n: nat, acronym: string) returns (i: nat)
    requires n <= |records| && LastIdBefore(records, n, acronym).Some?
    ensures i < n && Lower(records[i].acronym) == acronym
            && records[i].id == LastIdBefore(records, n, acronym).value
            && forall j :: i < j < n ==> Lower(records[j].acronym) != acronym
  {
    if Lower(records[n - 1].acronym) == acronym {
      i := n - 1;
    } else {
      i := LastIdBeforeWitness(records, n - 1, acronym);
    }
  }

  /** One more record: its id replaces the held one when its acronym matches... */
  lemma LastIdTakes(records: seq<StatusRecord>, i: nat, acronym: string)
    requires i < |records| && Lower(records[i].acronym) == acronym
    ensures LastIdBefore(records, i + 1, acronym) == Some(records[i].id)
  {
  }

  /** ...and leaves it as it was otherwise. */
  lemma LastIdKeeps(records: seq<StatusRecord>, i: nat, acronym: string)
    requires i < |records| && Lower(records[i].acronym) != acronym
    ensures LastIdBefore(records, i + 1, acronym) == LastIdBefore(records, i, acronym)
  {
  }

  /** The id of the last record whose lower-cased acronym is `acronym`. */
  function LastWithAcronym(records: seq<StatusRecord>, acronym: string): (r: Option<int>)
    ensures r.None? <==> forall i :: 0 <= i < |records| ==> Lower(records[i].acronym) != acronym
    ensures r.Some? ==> exists i :: 0 <= i < |records| && Lower(records[i].acronym) == acronym
                          && records[i].id == r.value
                          && forall j :: i < j < |records| ==> Lower(records[j].acronym) != acronym
  {
    LastIdBeforeSpec(records, |records|, acronym);
    LastIdBefore(records, |records|, acronym)
  }

  /** The id of the first such record (the scan with `break`). */
  function FirstWithAcronym(records: seq<StatusRecord>, acronym: string): (r: Option<int>)
    ensures r.None? <==> forall i :: 0 <= i < |records| ==> Lower(records[i].acronym) != acronym
    ensures r.Some? ==> exists i :: 0 <= i < |records| && Lower(records[i].acronym) == acronym
                          && records[i].id == r.value
                          && forall j :: 0 <= j < i ==> Lower(records[j].acronym) != acronym
  {
    if |records| == 0 then None
    else if Lower(records[0].acronym) == acronym then Some(records[0].id)
    else FirstWithAcronym(records[1..], acronym)
  }

  function StatusFilter(records: seq<StatusRecord>, attendanceId: int): (r: seq<StatusRecord>)
    ensures forall s :: s in r <==> s in records && s.attendanceId == attendanceId
  {
    if |records| == 0 then []
    else (if records[0].attendanceId == attendanceId then [records[0]] else [])
         + StatusFilter(records[1..], attendanceId)
  }

  /** What `getStatuses` returns or throws, given the activity's status records. */
  function StatusIdsOf(records: seq<StatusRecord>): Result<StatusIds, string> {
    if |records| == 0 then Err("No attendance statuses found")
    else
      var p := LastWithAcronym(records, "p");
      var l := LastWithAcronym(records, "l");
      var a := LastWithAcronym(records, "a");
      if p.None? || a.None? then Err("Required statuses (present/absent) not found")
      else Ok(StatusIds(p.value, if l.None? || l.value == 0 then p.value else l.value, a.value))
  }

  /** `getStatuses` succeeds exactly when some status is 'p' and some is 'a' (ignoring case);
      when no status is 'l', lateness is recorded with the present id. */
  lemma StatusIdsRequirePresentAndAbsent(records: seq<StatusRecord>)
    ensures StatusIdsOf(records).Ok? <==>
              (exists i :: 0 <= i < |records| && Lower(records[i].acronym) == "p")
              && (exists i :: 0 <= i < |records| && Lower(records[i].acronym) == "a")
    ensures (StatusIdsOf(records).Ok?
             && (forall i :: 0 <= i < |records| ==> Lower(records[i].acronym) != "l"))
            ==> StatusIdsOf(records).value.late == StatusIdsOf(records).value.present
  {
    if |records| == 0 {
    } else if LastWithAcronym(records, "p").Some? && LastWithAcronym(records, "a").Some? {
    }
  }

  /** `getStatuses`: the loop over the activity's status records. */
  method GetStatuses(records: seq<StatusRecord>) returns (r: Result<StatusIds, string>)
    ensures r == StatusIdsOf(records)
  {
    if |records| == 0 {
      return Err("No attendance statuses found");
    }
    var present, late, absent: Option<int> := None, None, None;
    var i := 0;
    while i < |records|
      invariant 0 <= i <= |records|
      invariant present == LastIdBefore(records, i, "p")
      invariant late == LastIdBefore(records, i, "l")
      invariant absent == LastIdBefore(records, i, "a")
    {
      var acronym := Lower(records[i].acronym);
      if acronym == "p" {
        LastIdTakes(records, i, "p");
        LastIdKeeps(records, i, "l");
        LastIdKeeps(records, i, "a");
        present := Some(records[i].id);
      } else if acronym == "l" {
        LastIdKeeps(records, i, "p");
        LastIdTakes(records, i, "l");
        LastIdKeeps(records, i, "a");
        late := Some(records[i].id);
      } else if acronym == "a" {
        LastIdKeeps(records, i, "p");
        LastIdKeeps(records, i, "l");
        LastIdTakes(records, i, "a");
        absent := Some(records[i].id);
      } else {
        LastIdKeeps(records, i, "p");
        LastIdKeeps(records, i, "l");
        LastIdKeeps(records, i, "a");
      }
      i := i + 1;
    }
    if present.None? || absent.None? {
      return Err("Required statuses (present/absent) not found");
    }
    if late.None? || late.value == 0 {
      late := present;
    }
    r := Ok(StatusIds(present.value, late.value, absent.value));
  }

  /** The participant loop uses the last 'a' status, the absentee backfill the first one: with
      two statuses lower-casing to 'a' the two disagree. */
  lemma AbsentIdsCanDisagree()
    ensures var records := [StatusRecord(1, 7, "A"), StatusRecord(2, 7, "a"), StatusRecord(3, 7, "P")];
      StatusIdsOf(records) == Ok(StatusIds(3, 3, 2)) && FirstWithAcronym(records, "a") == Some(1)
  {
    var records := [StatusRecord(1, 7, "A"), StatusRecord(2, 7, "a"), StatusRecord(3, 7, "P")];
    assert Lower("A") == "a" && Lower("a") == "a" && Lower("P") == "p";
    assert LastIdBefore(records, 2, "a") == Some(2);
    assert LastWithAcronym(records, "a") == Some(2);
    assert LastWithAcronym(records, "p") == Some(3);
    assert LastWithAcronym(records, "l") == None;
  }

  // ---------------------------------------------------------------- classification

  datatype Category = Present | Late | Absent

  /** `determineStatus` as a category. `None` is the PHP `\Error` raised when the record lacks
      an accessor (a teacher whose session has a positive duration). `duration` is the
      session's stored duration, `tolerance` the configured late tolerance (NULL reads as 0). */
  function Classify(p: Attendance, meetingStart: int, duration: int, minPercentage: int,
                    tolerance: Option<int>, cameraRequired: bool): Option<Category>
  {
    if duration <= 0 then Some(Absent)
    else
      var pd := GetDuration(p);
      if pd.None? then None
      else if pd.value == 0 then Some(Absent)
      else if ((pd.value * 60) as real / duration as real) * 100.0 < minPercentage as real then Some(Absent)
      else
        var hasVideo := GetHasVideo(p);
        if hasVideo.None? then None
        else if cameraRequired && !hasVideo.value then Some(Absent)
        else if p.joinTime == 0 then Some(Present)
        else if p.joinTime > meetingStart + tolerance.GetOr(0) * 60 then Some(Late)
        else Some(Present)
  }

  function StatusIdOf(c: Category, ids: StatusIds): int {
    match c
    case Present => ids.present
    case Late => ids.late
    case Absent => ids.absent
  }

  /** `determineStatus` with the installation's settings; `None` is the `\Error`. */
  function DetermineStatus(p: Attendance, meetingStart: int, duration: int, config: Installation,
                           ids: StatusIds): (r: Option<int>)
    ensures r.None? <==> Classify(p, meetingStart, duration, config.minPercentage,
                                  config.lateTolerance, config.cameraRequired).None?
    ensures r.None? ==> p.role == Teacher && duration > 0
  {
    match Classify(p, meetingStart, duration, config.minPercentage, config.lateTolerance,
                   config.cameraRequired)
    case None => None
    case Some(c) => Some(StatusIdOf(c, ids))
  }

  lemma ScaledComparison(pd: int, duration: int, minPercentage: int)
    requires duration > 0
    ensures (((pd * 60) as real / duration as real) * 100.0 < minPercentage as real)
            == (pd * 6000 < minPercentage * duration)
  {
    var x := (pd * 60) as real / duration as real;
    assert x * duration as real == (pd * 60) as real;
    assert (x * 100.0) * duration as real == (pd * 6000) as real;
    if x * 100.0 < minPercentage as real {
      assert (minPercentage as real - x * 100.0) * duration as real > 0.0;
    } else {
      assert (x * 100.0 - minPercentage as real) * duration as real >= 0.0;
    }
  }

  /** The session duration is stored in minutes but divided as if it were seconds, so the
      percentage test reads `participantDuration·6000 < minPercentage·duration`. */
  lemma PercentageTestMixesUnits(p: Attendance, meetingStart: int, duration: int, minPercentage: int,
                                 tolerance: Option<int>, cameraRequired: bool)
    requires duration > 0 && p.role == Student && p.duration != 0
    ensures p.duration * 6000 < minPercentage * duration
            ==> Classify(p, meetingStart, duration, minPercentage, tolerance, cameraRequired) == Some(Absent)
    ensures p.duration * 6000 >= minPercentage * duration
            ==> Classify(p, meetingStart, duration, minPercentage, tolerance, cameraRequired)
                == Some(if cameraRequired && !p.hasVideo then Absent
                        else if p.joinTime == 0 then Present
                        else if p.joinTime > meetingStart + tolerance.GetOr(0) * 60 then Late
                        else Present)
  {
    ScaledComparison(p.duration, duration, minPercentage);
  }

  /** A 60-minute session, a student who stayed 20 minutes with camera on and joined on time,
      and an 80% minimum: the as-written test grades this student present (20·6000 ≥ 80·60),
      where a test in consistent units (20 of 60 minutes, 33%) would give absent. */
  lemma TwentyOfSixtyMinutesIsPresent()
    ensures Classify(Attendance(Student, 42, "", "Ana", 0, 20, true, 1000, 2200, "m"), 1000, 60, 80,
                     Some(10), true) == Some(Present)
  {
    ScaledComparison(20, 60, 80);
  }

  /** Longer attendance never worsens the grade: once a positive duration passes every check
      that depends on it, any longer duration gets the same category. */
  lemma {:induction false} ClassifyMonotoneInDuration(p: Attendance, d1: int, d2: int, meetingStart: int,
                                                      duration: int, minPercentage: int,
                                                      tolerance: Option<int>, cameraRequired: bool)
    requires p.role == Student && 0 < d1 <= d2
    requires Classify(p.(duration := d1), meetingStart, duration, minPercentage, tolerance, cameraRequired)
             != Some(Absent)
    ensures Classify(p.(duration := d2), meetingStart, duration, minPercentage, tolerance, cameraRequired)
            == Classify(p.(duration := d1), meetingStart, duration, minPercentage, tolerance, cameraRequired)
  {
    if duration > 0 {
      ScaledComparison(d1, duration, minPercentage);
      ScaledComparison(d2, duration, minPercentage);
      assert d1 * 6000 <= d2 * 6000;
    }
  }

  /** A late tolerance of 0 does not switch lateness off: any join after the start is late. */
  lemma ZeroToleranceMeansStrict(p: Attendance, meetingStart: int, duration: int, minPercentage: int)
    requires p.role == Student && duration > 0 && p.duration * 6000 >= minPercentage * duration
    requires p.duration != 0 && p.joinTime != 0 && p.joinTime > meetingStart
    ensures Classify(p, meetingStart, duration, minPercentage, Some(0), false) == Some(Late)
  {
    ScaledComparison(p.duration, duration, minPercentage);
  }

  /** A teacher record is graded absent when the session has no positive duration and makes the
      classifier fail otherwise. */
  lemma TeacherRecordsAbort(p: Attendance, meetingStart: int, duration: int, minPercentage: int,
                            tolerance: Option<int>, cameraRequired: bool)
    requires p.role == Teacher
    ensures duration <= 0 ==> Classify(p, meetingStart, duration, minPercentage, tolerance, cameraRequired)
                              == Some(Absent)
    ensures duration > 0 ==> Classify(p, meetingStart, duration, minPercentage, tolerance, cameraRequired)
                             == None
  {
  }

  // ---------------------------------------------------------------- irregular meetings

  function ShortReason(minutes: int): string {
    "reuni\U{00F3}n corta (" + IntToString(minutes) + " min)"
  }

  function FewReason(count: int): string {
    "pocos participantes (" + IntToString(count) + ")"
  }

  /** `detectIrregularMeeting`: the reasons that fire, duration first, joined by ", ". The
      duration is checked only when both timestamps are non-empty and is truncated to whole
      minutes toward zero. */
  function DetectIrregularMeeting(startTime: int, endTime: int, participantCount: int)
    : (r: (bool, string))
    ensures r.0 <==> (startTime != 0 && endTime != 0
                      && TruncDiv(endTime - startTime, 60) < MIN_MEETING_DURATION)
                     || participantCount < MIN_PARTICIPANT_COUNT
    ensures !r.0 ==> r.1 == ""
  {
    var short := if endTime != 0 && startTime != 0 && TruncDiv(endTime - startTime, 60) < MIN_MEETING_DURATION
                 then [ShortReason(TruncDiv(endTime - startTime, 60))] else [];
    var few := if participantCount < MIN_PARTICIPANT_COUNT then [FewReason(participantCount)] else [];
    var reasons := short + few;
    (|reasons| > 0, Join(reasons, ", "))
  }

  /** When both checks fire the reason lists the duration first, then the head count. */
  lemma IrregularReasonOrder(startTime: int, endTime: int, participantCount: int)
    requires startTime != 0 && endTime != 0 && TruncDiv(endTime - startTime, 60) < MIN_MEETING_DURATION
    requires participantCount < MIN_PARTICIPANT_COUNT
    ensures DetectIrregularMeeting(startTime, endTime, participantCount).1
            == ShortReason(TruncDiv(endTime - startTime, 60)) + ", " + FewReason(participantCount)
  {
    var reasons := [ShortReason(TruncDiv(endTime - startTime, 60))] + [FewReason(participantCount)];
    assert DetectIrregularMeeting(startTime, endTime, participantCount).1 == Join(reasons, ", ");
    assert reasons[1..] == [FewReason(participantCount)];
  }
}
