# mod_ortattendance, modelled in Dafny

mod_ortattendance is a Moodle activity plugin that turns Zoom participation data into
Moodle attendance records, one day at a time. A scheduled task walks every active
installation of the activity. For each installation it moves a per-installation day
cursor (`last_processed_date`) forward, one day per call, until it reaches today. For
each day it collects the participants of that day's Zoom meetings. It groups them into
cohorts keyed by meeting and group, and finds or creates an attendance session for
every cohort. It then grades each participant as present, late or absent and writes
one attendance log row per session and user. Finally it backfills an absent row for
every roster member without one. Around that engine sit the activity form, the
activity callbacks, a minutes-to-seconds admin setting, a recording-backup queue, and
the naming and video selection used by recording backups.

This project models that core in Dafny and proves properties of the model.

## Layout

- **The tables the core writes** are fields of one class, `Store.Database`: installations, sessions, logs, the backup queue and backup rows. Methods that write them name the fields in `modifies`.
- **The tables the core only reads** form a datatype, `Store.Env`: statuses, attendance activities, Zoom meetings and participants, users, role assignments, enrolments, group members and course modules.
- **What the database decides is a parameter of `Env`:**
  - `collation`, how SQL `=` and `LOWER` compare text;
  - `courseContexts`, the course's context and its parents, where a role assignment counts;
  - `attendanceData`, the participant query's rows in the order the database returns them.
- **Meetings are PHP arrays.** The Zoom responses are decoded with `json_decode(..., true)` (classes/utils/ZoomUtils.php:59, :105), so a meeting is an array and a missing uuid is a missing key.
- **Every imperative operation comes in two forms.** A function computes the result from the old state. A method (the `...Run` members and the loop methods) performs the same steps with `while` loops against `Database`, and its `ensures` ties the new state to that function.
- **The clock and date formatting are parameters:**
  - `today`, the start of the current day;
  - `now`, the value written to `timetaken` and `lasttaken`;
  - `elapsed`, the wall time spent;
  - the `Y-m-d`, `Ymd` and `G:i` formatters.
- **Faults are explicit:**
  - A Zoom instance whose participant query raises is named in `Env.zoomFaults`.
  - `Env.persistFault` makes the attendance-activity lookup of persistence raise.
  - `Env.sessionQueryFaults` names the cohorts whose first session query raises. The cohort loop catches that exception and goes on with the next cohort.
  - No other database call of persistence raises in the model (see "Left out").
  - PHP's `\Error`, raised when a teacher record is asked for an accessor it lacks, is a separate outcome: `Crashed`, `Aborted` or `LoopAborted`, depending on the layer. It passes through every `catch (\Exception)`.
- **PHP 8.0 and later.** The model follows PHP 8.0 semantics. version.php:14 requires Moodle 4.1, which also runs on PHP 7.4. But the orchestrator's constructor always builds a `ZoomRecollectorBackup` (classes/orchestrator/Orchestrator.php:96, :124-134), and that class declares an `object|false` return type (classes/recollectors/ZoomRecollectorBackup.php:85). Union types need PHP 8.0. On PHP 7.4 `count(null)` only warns and returns 0, so there the as-written report is `Orchestration.ReportIntended`.

Modules (one per source file or component):

| module | source |
|---|---|
| `Wrappers` | Option and Result types |
| `Php` | PHP builtins used by the core |
| `Store` | the tables |
| `TeacherAttendance` | participant records |
| `RoleUtils` | teacher roles |
| `Statuses` | grade by duration |
| `ZoomRecollector` | day cursor, participant collection and shaping |
| `PersistenceCohorts` | `groupBySession` |
| `PersistenceSessions` | session lookup and creation |
| `PersistenceStatus` | status ids and classification |
| `PersistenceLog` | log upsert and absent backfill |
| `AttendancePersistence` | `persistStudents` |
| `Orchestration` | `Orchestrator` |
| `SchedulerTask` | the chunked run loop |
| `QueueService` | the recording queue |
| `NameNormalizer` | recording file names |
| `BackupService` | video choice and validation |
| `Settings` | the conversion setting |
| `ModForm` | form validation and decoding |
| `Lib` | activity callbacks |

### The code as written

The model follows the code as written where it departs from what its comments suggest:

- **Session duration units.** A session's duration is stored in minutes. The classifier treats it as seconds. Read with exact arithmetic, the percentage test is `participantDuration * 6000 < min_percentage * duration` (`PersistenceStatus.PercentageTestMixesUnits`). PHP computes it in floating point, which can differ at the boundary (see "Left out").
- **Late tolerance 0.** The classifier has no "0 disables lateness" case (`PersistenceStatus.ZeroToleranceMeansStrict`).
- **Cohort date.** A cohort's date is the join time of the first participant seen, students before teachers (`PersistenceCohorts.GroupingIsPartition`).
- **Cursor before persistence.** The day cursor is written before persistence runs. A persistence failure therefore leaves the cursor advanced (`Orchestration.CursorMovesEvenIfPersistenceRaises`), and the scheduler's skip then moves it one more day (`SchedulerTask.PersistenceFailureSkipsTwoDays`).
- **`persistStudents` returns nothing.** After its loop over cohorts it falls off the end and returns null. The orchestrator then calls `count(null)`, which on PHP 8.0 and later raises a TypeError. That is a PHP `\Error`, so no `catch (\Exception)` stops it. A day with participants and an attendance activity therefore aborts the run after writing its attendance (`Orchestration.PersistedDayAborts`; see "Findings"). On PHP 7.4 `count(null)` warns and gives 0, and the day completes as `Orchestration.ReportIntended` reports it.
- **Duplicate participant rows.** `get_records_sql` keys its result by the first column, `zmp.userid`. A user with two rows for one meeting (two names, emails or groups) keeps only the last row, at the position of the first (`ZoomRecollector.KeyedKeepsLastRow`, `ZoomRecollector.SecondRowReplacesFirst`).
- **Recurring meetings.** Occurrences of a recurring Zoom meeting share a meeting id, and the details lookup takes the first row. A session created for a later occurrence is dated at the first occurrence, and its duration and irregularity come from that row too (`PersistenceSessions.RecurringMeetingTakesFirstDetails`).
- **Missing teacher accessors.** Teacher records lack `getDuration`, `getLeaveTime` and `getHasVideo`. Grading a teacher in a meeting with a positive duration therefore aborts the run (`PersistenceStatus.TeacherRecordsAbort`, `PersistenceLog.OnlyTeachersAbort`).

## Model

| member | source | states |
|---|---|---|
| TeacherAttendance.NewAttendance | classes/utils/TeacherAttendance.php:18-28 | the record keeps user id, email and the video flag exactly as given; a missing name, group, duration, join time, leave time or meeting id becomes "Unknown", 0, 0, 0, 0 or "" (a group is never null) |
| TeacherAttendance.GetDuration | classes/utils/TeacherAttendance.php:30-52 | there is a duration exactly for student records: the teacher class declares no `getDuration`, so asking a teacher record fails |
| TeacherAttendance.GetLeaveTime | classes/utils/TeacherAttendance.php:30-52 | a leave time is available exactly for student records (no `getLeaveTime` on teachers) |
| TeacherAttendance.GetHasVideo | classes/utils/TeacherAttendance.php:30-52 | a video flag is available exactly for student records (no `getHasVideo` on teachers) |
| TeacherAttendance.AccessorsReadBackRow | classes/utils/TeacherAttendance.php:18-52 | every accessor returns what the constructor stored from the row (or its default); the three student-only accessors fail on teacher records |
| RoleUtils.GetAllowedTeacherRoles | classes/utils/RoleUtils.php:25-27 | five role ids, exactly {3, 4, 9, 12, 15} |
| RoleUtils.IsTeacher | classes/utils/RoleUtils.php:8-23 | true iff some role id of the user is an allowed teacher role; an empty role list gives false |
| RoleUtils.IsTeacherDependsOnSetOnly | classes/utils/RoleUtils.php:16-22 | role lists holding the same ids, in any order and with any repetitions, give the same answer |
| Statuses.GetStatusByDuration | classes/utils/Statuses.php:13-23 | the total must be non-zero (it is divided by); the grade is one of P, L, A |
| Statuses.StatusWithoutDivision | classes/utils/Statuses.php:13-23 | for a positive total: P iff 100·duration ≥ min·total, L iff 0 < duration and 100·duration < min·total, A otherwise |
| Statuses.StatusMonotoneInDuration | classes/utils/Statuses.php:13-23 | with a positive total a longer duration never gives a lower grade (absent < late < present) |
| Store.InstallationByCourse | classes/recollectors/ZoomRecollectorData.php:41-46 | the first installation row of the course, or none when the course has no row |
| Store.InstallationById | classes/orchestrator/Orchestrator.php:81-86 | the first installation row with the id, or none when no row has it |
| Store.SessionById | classes/persistence/AttendancePersistence.php:344-355 | the first session row with the id, or none |
| Store.MeetingByMeetingId | classes/persistence/AttendancePersistence.php:233-238 | the first meeting-details row with the Zoom meeting id, or none when no row has it |
| Store.LogIndex | classes/persistence/AttendancePersistence.php:436-439 | the first log row of the (session, user) pair; none exactly when the pair has no row |
| ZoomRecollector.FirstAnswer | classes/recollectors/ZoomRecollectorData.php:200-224 | the first non-deleted user (in table order) a name lookup returns under the database's `=` and `LOWER`; none iff no user answers it |
| ZoomRecollector.FirstSpace | classes/recollectors/ZoomRecollectorData.php:227-228 | the position of the first space, where the full name is cut; none iff the name has no space |
| ZoomRecollector.Stages | classes/recollectors/ZoomRecollectorData.php:200-240 | the lookups are exact first name, first name ignoring case, last name ignoring case, and a fourth, first and last name cut at the first space, exactly when the name has a space |
| ZoomRecollector.Cascade | classes/recollectors/ZoomRecollectorData.php:200-240 | the first lookup that finds anybody, under the database's `=` and `LOWER`, and the first user it finds; none iff no lookup finds anybody |
| ZoomRecollector.ValidateUserByName | classes/recollectors/ZoomRecollectorData.php:193-243 | an empty name keeps the Zoom user id; otherwise the user found by the first successful lookup under the database's collation, and the Zoom user id when every lookup fails |
| ZoomRecollector.ExactFirstnameWins | classes/recollectors/ZoomRecollectorData.php:200-204 | a first name equal to the Zoom name under the database's `=` decides before any lowered lookup: the first such user |
| ZoomRecollector.UnknownNameKeepsZoomId | classes/recollectors/ZoomRecollectorData.php:242-243 | a space-free name that matches no user in any lookup resolves to the Zoom user id |
| ZoomRecollector.LateTolerance | classes/recollectors/ZoomRecollectorData.php:313-324 | 10 when the row or its value is missing, 1000000000 when the value is 0, else the value; never 0 |
| ZoomRecollector.CourseLateTolerance | classes/recollectors/ZoomRecollectorData.php:373-384 | the multi-meeting query's tolerance, read from the course's first row, is never 0 |
| ZoomRecollector.RolesOf | classes/utils/RoleUtils.php:11-12 | exactly the role ids assigned to the user in the given contexts (the course context and its parents) |
| ZoomRecollector.IsCourseTeacherMeans | classes/utils/RoleUtils.php:8-23 | a user is a course teacher iff they hold an allowed teacher role in the course context or one of its parents |
| ZoomRecollector.CameraOn | classes/recollectors/ZoomRecollectorData.php:425-435 | exactly the users with a video-on participation row in one of the meetings |
| ZoomRecollector.ShapeOne | classes/recollectors/ZoomRecollectorData.php:155-177 | a row is dropped iff its resolved user id is 0; a kept record has the resolved id, video iff no camera check or the user is in the camera list, the teacher role iff the user is a course teacher, and group 0 when none |
| ZoomRecollector.Kept | classes/recollectors/ZoomRecollectorData.php:155-177 | exactly the records of the rows that are not dropped |
| ZoomRecollector.SplitPartitions | classes/recollectors/ZoomRecollectorData.php:152-182 | students and teachers together are as many as the kept records; the students are exactly the kept student records and the teachers exactly the kept teacher records |
| ZoomRecollector.SplitRecordFacts | classes/recollectors/ZoomRecollectorData.php:159-177 | every record handed on has a non-zero user, the camera flag of that user, and sits in the list of its role |
| ZoomRecollector.UserIndex | classes/recollectors/ZoomRecollectorData.php:353-356 | the position of the first row with the user id, none iff no row has it |
| ZoomRecollector.LastWithUser | classes/recollectors/ZoomRecollectorData.php:353-356 | a row of the user, none iff the user has no row |
| ZoomRecollector.KeyedUsersDistinct | classes/recollectors/ZoomRecollectorData.php:327-356 | the keyed result has at most one row per user id |
| ZoomRecollector.KeyedCoversUsers | classes/recollectors/ZoomRecollectorData.php:327-356 | every user with a query row keeps a row in the keyed result |
| ZoomRecollector.KeyedKeepsLastRow | classes/recollectors/ZoomRecollectorData.php:327-356 | each user's kept row is the last row the query returned for that user |
| ZoomRecollector.KeyedKeepsFirstSeenOrder | classes/recollectors/ZoomRecollectorData.php:327-356 | the kept rows are ordered by where each user first appears in the query result |
| ZoomRecollector.SecondRowReplacesFirst | classes/recollectors/ZoomRecollectorData.php:327-356 | of two rows for one user only the second survives |
| ZoomRecollector.NoCameraCheckMeansVideo | classes/recollectors/ZoomRecollectorData.php:144-169 | without a camera requirement every collected record has video |
| ZoomRecollector.GetStudentsByMeetingId | classes/recollectors/ZoomRecollectorData.php:125-188 | the participant loop builds exactly the split of the meetings' participant rows (nothing for no meetings) |
| ZoomRecollector.ZoomInstances | classes/recollectors/ZoomRecollectorData.php:437-447 | exactly the instances of the course's live Zoom course modules |
| ZoomRecollector.DayMeetings | classes/recollectors/ZoomRecollectorData.php:80-91 | exactly the instance's meetings starting in [target, target + 86400) with duration > 1 and more than one participant |
| ZoomRecollector.DetailIds | classes/recollectors/ZoomRecollectorData.php:100 | the ids of the meetings, in order |
| ZoomRecollector.QuietInstancesCollectNothing | classes/recollectors/ZoomRecollectorData.php:93-95 | Zoom instances with no qualifying meeting that day are skipped: they cannot fail and contribute nobody |
| ZoomRecollector.NoMeetingOnDay | classes/recollectors/ZoomRecollectorData.php:80-95 | an instance without a meeting on the day yields no meetings |
| ZoomRecollector.SetCursor | classes/recollectors/ZoomRecollectorData.php:115 | the cursor of every row of the course becomes the target day; every other row is unchanged |
| ZoomRecollector.CursorOnlyMovesOnCollection | classes/recollectors/ZoomRecollectorData.php:44-115 | a missing configuration, a caught-up cursor or a failing Zoom instance leaves every installation row as it was |
| ZoomRecollector.CaughtUpIffTargetReached | classes/recollectors/ZoomRecollectorData.php:48-65 | for a configured course the call reports caught up exactly when the target day (start date on the first run, else the day after the cursor) is not before today |
| ZoomRecollector.CollectedAdvancesOneDay | classes/recollectors/ZoomRecollectorData.php:48-122 | a collected day had a target before today, sets the cursor to it (one day after the old cursor), makes the next target one day later, reports the formatted target date and changes no other column |
| ZoomRecollector.GetStudentsKeepsIds | classes/recollectors/ZoomRecollectorData.php:37-123 | a call never adds, removes or re-keys an installation row |
| ZoomRecollector.SetCursorKeepsLookup | classes/recollectors/ZoomRecollectorData.php:115 | after the cursor write the course still resolves to the same row |
| ZoomRecollector.RepeatAdvancesByDays | classes/recollectors/ZoomRecollectorData.php:49-115 | after n calls in a row the next target day has moved by exactly 86400 s per collected day and never back, and the course resolves to the same row |
| ZoomRecollector.GetStudentsByCourseIdRun | classes/recollectors/ZoomRecollectorData.php:37-123 | the loop over Zoom instances and the cursor write give exactly the rows and outcome of the call |
| ZoomRecollector.FailureSticks | classes/recollectors/ZoomRecollectorData.php:102-109 | once a Zoom instance's collection raises, the whole day fails, whatever instances follow |
| PersistenceCohorts.CohortKeyInjective | classes/persistence/AttendancePersistence.php:92-94 | equal keys `m<meeting>_g<group>` come from equal (meeting, group) pairs |
| PersistenceCohorts.IndexOfKey | classes/persistence/AttendancePersistence.php:96 | the position of the cohort with the key, none iff no cohort has it |
| PersistenceCohorts.GroupingIsPartition | classes/persistence/AttendancePersistence.php:85-128 | keys are distinct and built from each cohort's meeting and group; a cohort's students and teachers are exactly the participants with its key, in input order; its date is the join time of the first of them (students before teachers); every participant has a cohort |
| PersistenceCohorts.Place | classes/persistence/AttendancePersistence.php:88-125 | one loop step appends the participant to its cohort, creating the cohort on first sight |
| PersistenceCohorts.GroupBySession | classes/persistence/AttendancePersistence.php:85-129 | the two loops build exactly the grouping above |
| PersistenceSessions.MarkedDescription | classes/persistence/AttendancePersistence.php:323-337 | no rewrite iff the description already contains the group or no-group marker, ignoring case |
| PersistenceSessions.MarkedDescriptionIsMarked | classes/persistence/AttendancePersistence.php:333-334 | a rewritten description contains its marker, so marking again changes nothing |
| PersistenceSessions.SetDescription | classes/persistence/AttendancePersistence.php:335 | only the description of the session with the id changes |
| PersistenceSessions.UpdateDescriptionOnlyDescriptions | classes/persistence/AttendancePersistence.php:323-337 | marking a session changes no column but the description, and no other session |
| PersistenceSessions.UpdateSessionDescription | classes/persistence/AttendancePersistence.php:323-338 | the sessions table after the call is the marked table |
| PersistenceSessions.NearestBeforeSpec | classes/persistence/AttendancePersistence.php:153-158 | among the first n sessions: none iff no candidate; otherwise a candidate no farther from the date than any other and strictly nearer than every earlier one |
| PersistenceSessions.Nearest | classes/persistence/AttendancePersistence.php:182-187 | none iff no session of the activity (and group, or no group) lies within ±86400 s; otherwise one with minimal distance to the date, the first of those in table order |
| PersistenceSessions.FindSessionStrategies | classes/persistence/AttendancePersistence.php:143-205 | a non-zero group's nearest same-group session wins when there is one; otherwise the nearest ungrouped session; nothing iff both searches are empty |
| PersistenceSessions.RecurringMeetingTakesFirstDetails | classes/persistence/AttendancePersistence.php:233-277 | when occurrences of a recurring meeting share its id, a session created for a later occurrence starts at the first occurrence's start time |
| PersistenceSessions.CreatedSessionShape | classes/persistence/AttendancePersistence.php:227-315 | nothing is created iff the meeting is missing, a timestamp is 0, or it lasts under a minute; otherwise exactly one session is appended with the next id, the group, sessdate = meeting start, duration = whole minutes (≥ 1), not taken, and studentscanmark, automark, calendarevent and includeqrcode 0 |
| PersistenceSessions.GetOrCreateKeepsBook | classes/persistence/AttendancePersistence.php:140-217 | session ids stay well formed, logs are untouched, existing sessions change at most their description, and a returned id names a session |
| PersistenceSessions.NearestIgnoresDescriptions | classes/persistence/AttendancePersistence.php:153-187 | rewriting descriptions never changes which session is nearest |
| PersistenceSessions.ReuseIsIdempotent | classes/persistence/AttendancePersistence.php:168-204 | when an existing session is found, a second call returns the same id and changes nothing more |
| PersistenceSessions.GetOrCreateSession | classes/persistence/AttendancePersistence.php:140-217 | the method's new sessions and result are those of the three-step resolution |
| PersistenceStatus.LastIdBeforeSpec | classes/persistence/AttendancePersistence.php:525-531 | the loop keeps the id of the last record (so far) whose lower-cased acronym matches; none iff there is none |
| PersistenceStatus.LastWithAcronym | classes/persistence/AttendancePersistence.php:526-531 | the id of the last status whose lower-cased acronym matches, none iff none matches |
| PersistenceStatus.FirstWithAcronym | classes/persistence/AttendancePersistence.php:605-611 | the id of the first status whose lower-cased acronym matches, none iff none matches |
| PersistenceStatus.StatusFilter | classes/persistence/AttendancePersistence.php:514 | exactly the status rows of the attendance activity |
| PersistenceStatus.StatusIdsRequirePresentAndAbsent | classes/persistence/AttendancePersistence.php:510-541 | the status ids exist iff some acronym is 'p' and some is 'a' ignoring case; with no 'l', late is the present id |
| PersistenceStatus.GetStatuses | classes/persistence/AttendancePersistence.php:510-546 | the loop's result is that lookup, including its error |
| PersistenceStatus.AbsentIdsCanDisagree | classes/persistence/AttendancePersistence.php:603-611 | with two absent acronyms the graded absences use the last and the backfill uses the first |
| PersistenceStatus.DetermineStatus | classes/persistence/AttendancePersistence.php:548-590 | there is no status id exactly when the classification fails, which happens only for a teacher in a meeting with a positive duration |
| PersistenceStatus.PercentageTestMixesUnits | classes/persistence/AttendancePersistence.php:561-589 | a student with a non-zero duration is absent when duration·6000 < min·session duration; otherwise camera, then join time, then tolerance decide |
| PersistenceStatus.TwentyOfSixtyMinutesIsPresent | classes/persistence/AttendancePersistence.php:562-566 | 20 minutes in a 60-minute session against an 80 % minimum grades present |
| PersistenceStatus.ClassifyMonotoneInDuration | classes/persistence/AttendancePersistence.php:548-590 | a student who is not absent stays graded the same with a longer duration |
| PersistenceStatus.ZeroToleranceMeansStrict | classes/persistence/AttendancePersistence.php:583-587 | with tolerance 0, joining after the start grades late: 0 has no special meaning |
| PersistenceStatus.TeacherRecordsAbort | classes/persistence/AttendancePersistence.php:550-555 | a teacher is absent when the session duration is not positive and fails otherwise |
| PersistenceStatus.DetectIrregularMeeting | classes/persistence/AttendancePersistence.php:655-675 | irregular iff (both timestamps non-zero and whole minutes < 15) or fewer than 5 participants; the reason is empty when regular |
| PersistenceStatus.IrregularReasonOrder | classes/persistence/AttendancePersistence.php:656-673 | with both reasons, the duration reason comes first, joined by ", " |
| PersistenceLog.UpsertFacts | classes/persistence/AttendancePersistence.php:436-484 | the pair's row ends with the status, the remark and takenby 2; other rows are unchanged; a new row is appended only for the pair; one row per pair is kept |
| PersistenceLog.RecordAllFacts | classes/persistence/AttendancePersistence.php:411-491 | the loop only grows the session's rows, keeps one row per pair, and without an abort gives every participant with a user id a row |
| PersistenceLog.OnlyTeachersAbort | classes/persistence/AttendancePersistence.php:411-491 | the loop aborts only when the session duration is positive and some participant with a user id is a teacher |
| PersistenceLog.RecordOneWrites | classes/persistence/AttendancePersistence.php:427-484 | after one step the participant's row carries the status the classifier gives |
| PersistenceLog.LastStatusWins | classes/persistence/AttendancePersistence.php:411-491 | a user's row ends with the status of their last record in the list |
| PersistenceLog.Dedup | classes/persistence/AttendancePersistence.php:387-403 | the roster has the same members as the user list, each once |
| PersistenceLog.MarkAbsentFacts | classes/persistence/AttendancePersistence.php:621-640 | existing rows are untouched; new rows are absent rows with the remark "Ort Attendance" for roster members that had none; afterwards every roster member has a row |
| PersistenceLog.SetLastTaken | classes/persistence/AttendancePersistence.php:501-503 | only the session's lasttaken and lasttakenby (2) change |
| PersistenceLog.Prepare | classes/persistence/AttendancePersistence.php:343-370 | a prepared context is for the given session and time |
| PersistenceLog.MarkAbsentStudentsFacts | classes/persistence/AttendancePersistence.php:592-646 | the backfill only grows the session's rows, keeps one per pair, and with an absent status covers the whole roster |
| PersistenceLog.RecordAttendanceKeepsBook | classes/persistence/AttendancePersistence.php:340-508 | sessions and the log invariant are kept; logs only grow for the session; a session that cannot be recorded changes nothing |
| PersistenceLog.RecordCoversEveryone | classes/persistence/AttendancePersistence.php:372-508 | a recorded session gives every participant with a user id a row, marks the session taken now by 2, and with an absent status gives every roster member (group members, or enrolled users) a row |
| PersistenceLog.RecordParticipants | classes/persistence/AttendancePersistence.php:411-491 | the method's logs and abort flag are those of the participant loop |
| PersistenceLog.CrashSticks | classes/persistence/AttendancePersistence.php:411-491 | once a participant aborts the loop, the rest are not processed |
| PersistenceLog.CollectUserIds | classes/persistence/AttendancePersistence.php:387-403 | the loop builds the deduplicated roster |
| PersistenceLog.FindAbsentStatus | classes/persistence/AttendancePersistence.php:605-611 | the loop finds the first status with acronym 'a' ignoring case |
| PersistenceLog.MarkAbsentLoop | classes/persistence/AttendancePersistence.php:621-640 | the backfill loop writes exactly the backfilled logs |
| PersistenceLog.MarkAbsentStudentsRun | classes/persistence/AttendancePersistence.php:592-646 | the method writes exactly the logs of the backfill, including its early returns |
| PersistenceLog.RecordAttendanceRun | classes/persistence/AttendancePersistence.php:340-508 | the method's sessions, logs and outcome are those of recording the session |
| AttendancePersistence.AttendanceOf | classes/persistence/AttendancePersistence.php:27-38 | an attendance activity of the course; none iff the course has no installation or no attendance activity |
| AttendancePersistence.FirstActivity | classes/persistence/AttendancePersistence.php:27-33 | the first attendance activity of the course, none iff there is none |
| AttendancePersistence.PersistCohortKeeps | classes/persistence/AttendancePersistence.php:45-73 | one cohort step keeps the session and log invariant and never removes or re-keys a session or log row |
| AttendancePersistence.PersistAllKeeps | classes/persistence/AttendancePersistence.php:45-74 | the cohort loop keeps that invariant and only grows the tables |
| AttendancePersistence.PersistStudents | classes/persistence/AttendancePersistence.php:20-79 | it raises exactly when the attendance-activity lookup faults, returns `[]` exactly when the course has no attendance activity, and writes nothing in either case |
| AttendancePersistence.PersistStudentsKeepsBook | classes/persistence/AttendancePersistence.php:20-79 | the invariant is kept and tables only grow; it raises iff the attendance-activity lookup faults, and returns `[]` iff no attendance activity is found, changing nothing in both cases |
| AttendancePersistence.NoParticipantsNoWrites | classes/persistence/AttendancePersistence.php:43-45 | with no participants nothing is written |
| AttendancePersistence.PersistStudentsRun | classes/persistence/AttendancePersistence.php:20-79 | the method's sessions, logs and outcome are those of `persistStudents` |
| AttendancePersistence.FaultingCohortIsSkipped | classes/persistence/AttendancePersistence.php:45-74 | a database exception from a cohort's session query is caught: the run writes exactly what it writes with that cohort left out, and later cohorts are still processed |
| AttendancePersistence.AbortSticks | classes/persistence/AttendancePersistence.php:45-74 | an abort (PHP `\Error`) in one cohort escapes the per-cohort catch and ends the loop |
| Orchestration.RecollectorType | classes/orchestrator/Orchestrator.php:91 | an unset or empty setting gives "zoom", else the setting |
| Orchestration.DataRecollectorFactory | classes/orchestrator/Orchestrator.php:106-116 | every type, known or not, gives the Zoom data recollector for the course and camera flag |
| Orchestration.BackupRecollectorFactory | classes/orchestrator/Orchestrator.php:124-134 | every type gives the Zoom backup recollector |
| Orchestration.PersistenceFactory | classes/orchestrator/Orchestrator.php:142-149 | every type gives attendance persistence for the course |
| Orchestration.NewOrchestrator | classes/orchestrator/Orchestrator.php:79-98 | fails with "ortattendance_not_found" iff no installation row has the id; otherwise the camera flag comes from that row |
| Orchestration.Report | classes/orchestrator/Orchestrator.php:58-76 | a returned result comes from a collected day and carries its date; a caught-up day gives the caught-up result with no writes; a day whose persistence ran its loop aborts at `count(null)` |
| Orchestration.ProcessResultShapes | classes/orchestrator/Orchestrator.php:44-77 | absent_count is 0 in every returned result (only the no-activity `[]` reaches `count`); completed iff not caught up; caught up iff no more data; a date iff completed |
| Orchestration.ReportResultShapes | classes/orchestrator/Orchestrator.php:48-76 | the same shape facts for any recollector outcome; a returned result never counts absentees |
| Orchestration.PersistedDayAborts | classes/orchestrator/Orchestrator.php:66-75 | a collected day with participants, an attendance activity and no database fault writes its attendance and then aborts: `persistStudents` returns null and `count(null)` raises (PHP 8.0 and later) |
| Orchestration.ReportIntended | classes/orchestrator/Orchestrator.php:58-76 | with `persistStudents` returning its (empty) array, a collected day without a database fault or crash completes with its date and absent_count 0 |
| Orchestration.IntendedDiffersOnlyAtNullCount | classes/orchestrator/Orchestrator.php:66-75 | the intended report writes the same tables and differs only where the written code aborts at `count(null)` (PHP 8.0 and later) after persisting |
| Orchestration.CaughtUpChangesNothing | classes/orchestrator/Orchestrator.php:48-56 | a caught-up recollector gives {completed false, caught_up true, no_more_data true, date null, absent_count 0} and changes nothing |
| Orchestration.CompletedReportsTargetDay | classes/orchestrator/Orchestrator.php:70-76 | a completed day reports the formatted target date, which was before today, and the cursor now holds it |
| Orchestration.EmptyDaySkipsPersistence | classes/orchestrator/Orchestrator.php:64-68 | a collected day without participants writes no session or log and still completes |
| Orchestration.CursorMovesEvenIfPersistenceRaises | classes/orchestrator/Orchestrator.php:45-67 | when persistence raises, no attendance is written but the cursor has already moved to the target day |
| Orchestration.ProcessKeepsIds | classes/orchestrator/Orchestrator.php:44-77 | processing never adds, removes or re-keys an installation row |
| Orchestration.ProcessKeepsBook | classes/orchestrator/Orchestrator.php:44-77 | processing keeps the session and log invariant and only grows those tables |
| Orchestration.ProcessRun | classes/orchestrator/Orchestrator.php:44-77 | the method's new state and outcome are those of `process` |
| SchedulerTask.SettingOr | classes/task/scheduler_task.php:39-40 | a missing or zero setting gives the default, else the setting |
| SchedulerTask.SetCursorById | classes/task/scheduler_task.php:70 | only the cursor of the rows with the id changes |
| SchedulerTask.MarkError | classes/task/scheduler_task.php:127 | only the processing status of the rows with the id changes, to "error" |
| SchedulerTask.SkipDay | classes/task/scheduler_task.php:66-78 | the skip fails (and the exception is rethrown) iff the installation row is missing |
| SchedulerTask.RunDaysBounded | classes/task/scheduler_task.php:47-104 | the loop counts at most the day limit; a day-limit stop has reached it, and with a body that never counts the day it stops on, reaching it means a day-limit stop |
| SchedulerTask.TimeBudgetIsStrict | classes/task/scheduler_task.php:49-54 | over budget the loop stops before the day with nothing changed; at exactly the budget it still runs the day |
| SchedulerTask.RunDaysKeepsBook | classes/task/scheduler_task.php:47-108 | the loop keeps the session and log invariant and only grows those tables |
| SchedulerTask.DayKeepsBook | classes/task/scheduler_task.php:56-104 | one iteration keeps that invariant |
| SchedulerTask.DayOfKeepsBook | classes/task/scheduler_task.php:56-104 | the body of every installation's loop keeps it |
| SchedulerTask.DayOfStopsUncounted | classes/task/scheduler_task.php:88-104 | the loop body never counts the day it stops on |
| SchedulerTask.FailedCollectionSkipsOneDay | classes/task/scheduler_task.php:61-73 | when collecting the day raises, the cursor is moved one day on and the loop continues, with no attendance written |
| SchedulerTask.PersistenceFailureSkipsTwoDays | classes/task/scheduler_task.php:61-73 | when persistence raises after the cursor moved, the skip adds another day: the next target is two days after the failed one |
| SchedulerTask.Failed | classes/task/scheduler_task.php:119-129 | an instance failure marks the row "error" when the column exists, else changes nothing; attendance is untouched |
| SchedulerTask.InstanceDaysBounded | classes/task/scheduler_task.php:36-47 | an installation's loop counts at most max(0, the day limit), the limit defaulting to 30 |
| SchedulerTask.ActiveInstallations | classes/task/scheduler_task.php:140-161 | exactly the installation rows with a live course module |
| SchedulerTask.Execute | classes/task/scheduler_task.php:16-133 | at most one end per installation; a failing installation does not stop the run; only an abort ends it early, as the last end |
| SchedulerTask.RunDaysRun | classes/task/scheduler_task.php:39-108 | the `while` loop's new state and end are those of the loop function |
| SchedulerTask.RunInstanceRun | classes/task/scheduler_task.php:31-130 | one installation's processing, with its catch, gives the new state and end of the model |
| SchedulerTask.ExecuteRun | classes/task/scheduler_task.php:16-133 | the run over the active installations gives the state and ends of `Execute` |
| SchedulerTask.ExecuteStep | classes/task/scheduler_task.php:31-130 | an abort ends the run after the installation; any other end continues with the next one |
| QueueService.AddMeetingsFacts | classes/services/QueueService.php:11-43 | queued + skipped = number of meetings; queued rows are appended after the old rows with consecutive ids, the bot, the priority, processed 0 and no error |
| QueueService.AddMeetingsKeepsKeysUnique | classes/services/QueueService.php:25-28 | no second row whose (bot, uuid) matches an earlier one under the column's collation is ever inserted, also within one call |
| QueueService.AddMeetingsQueuesEveryUuid | classes/services/QueueService.php:17-40 | every meeting with a uuid is queued for the bot afterwards (a row matching it under the collation exists), and queue ids stay well formed |
| QueueService.MeetingWithoutUuidIsSkipped | classes/services/QueueService.php:18-23 | meetings without uuid are all skipped and nothing is inserted |
| QueueService.AddMeetingsRun | classes/services/QueueService.php:11-43 | the insert loop's queue and counters are those of `addMeetings` |
| QueueService.Pending | classes/services/QueueService.php:47-50 | exactly the bot's rows with processed 0 |
| QueueService.Insert | classes/services/QueueService.php:50 | inserting into an ordered list keeps it ordered and adds exactly the row |
| QueueService.SortRows | classes/services/QueueService.php:50 | an ordering by priority, then creation time, of the same rows |
| QueueService.GetPending | classes/services/QueueService.php:45-51 | ordered, only the bot's pending rows, min(limit, pending) of them for a positive limit and all of them otherwise |
| QueueService.LimitKeepsEarliest | classes/services/QueueService.php:45-51 | a limit keeps the first rows of the ordering, none after a dropped row |
| QueueService.CountPending | classes/services/QueueService.php:63-69 | the number of the bot's pending rows |
| QueueService.CountMatchesUnlimitedPending | classes/services/QueueService.php:45-69 | the count equals the size of the unlimited pending list |
| QueueService.MarkProcessed | classes/services/QueueService.php:53-56 | only rows with the id change, to processed 1 |
| QueueService.MarkError | classes/services/QueueService.php:58-61 | only the error field of rows with the id changes |
| QueueService.MarkProcessedLeavesPending | classes/services/QueueService.php:53-56 | the row leaves the pending list, and the count drops by the pending rows with that id |
| QueueService.MarkErrorKeepsPending | classes/services/QueueService.php:58-61 | recording an error leaves every row's pending state and the count as they were |
| QueueService.MarkProcessedRun | classes/services/QueueService.php:53-56 | the method's queue is the marked queue |
| QueueService.MarkErrorRun | classes/services/QueueService.php:58-61 | the method's queue is the queue with the error recorded |
| NameNormalizer.NoBracketUnchanged | classes/backup/NameNormalizer.php:29-31 | a name without '[' passes the bracket removal unchanged |
| NameNormalizer.BracketContentIgnored | classes/backup/NameNormalizer.php:29-31 | a bracketed segment and the blanks around it become one space; its content never reaches the result |
| NameNormalizer.FindDate | classes/backup/NameNormalizer.php:96 | the first position of a standalone 8-digit token starting "20", none iff there is none |
| NameNormalizer.ExtractDate | classes/backup/NameNormalizer.php:95-100 | the first such token, otherwise the timestamp formatted as Ymd |
| NameNormalizer.DetectCode | classes/backup/NameNormalizer.php:33-38 | a found code has the upper-cased code form; none iff no code matches anywhere |
| NameNormalizer.FoundCodeForm | classes/backup/NameNormalizer.php:34-35 | the matched text, upper-cased, has the code form |
| NameNormalizer.ParseCode | classes/backup/NameNormalizer.php:40-63 | the date is the last path element; with a dash the path has four parts and the name is prefix-middle-suffix; without one the name is the code |
| NameNormalizer.CodeParts | classes/backup/NameNormalizer.php:41-49 | the path is [prefix, middle, last character, date], and prefix-middle+suffix rejoins to the code |
| NameNormalizer.CursoBase | classes/backup/NameNormalizer.php:70-74 | letters, digits and single spaces only, with no space at either end |
| NameNormalizer.DashedName | classes/backup/NameNormalizer.php:85-86 | letters, digits and '-' only, never two dashes in a row |
| NameNormalizer.DashedNameEdges | classes/backup/NameNormalizer.php:85-86 | a dash at either end only comes from a form feed in the text |
| NameNormalizer.ParseText | classes/backup/NameNormalizer.php:65-93 | the date is the last path element; the "CURSO X" branch gives base-X with a clean base and one upper-case letter; the fallback name is dashed and is the first path element |
| NameNormalizer.TextNameEdges | classes/backup/NameNormalizer.php:65-93 | a fallback name starting or ending with '-' comes from a form feed in the name |
| NameNormalizer.FormFeedLeadsWithDash | classes/backup/NameNormalizer.php:65-86 | the topic "\fab" gives the name "-ab" |
| NameNormalizer.NormalizeFileName | classes/backup/NameNormalizer.php:16-27 | in every branch the date is the last path element and is the date taken from the bracket-stripped name |
| NameNormalizer.CodeTakesPrecedence | classes/backup/NameNormalizer.php:18-26 | when a code is found the code branch is taken: four path parts rejoining to the code |
| BackupService.FirstMatch | classes/services/BackupService.php:106-115 | the first file from the position on that is a preferred MP4 (or any MP4), none iff there is none |
| BackupService.VideoIndexChoice | classes/services/BackupService.php:105-117 | the chosen file is an MP4; none iff there is no MP4; the first preferred view when there is one, else the first MP4 |
| BackupService.FindVideoFile | classes/services/BackupService.php:105-117 | an MP4 of the list; null iff no MP4; the preferred view when one exists |
| BackupService.FileName | classes/services/BackupService.php:60 | `<name>_<date>.mp4`, of the summed length |
| BackupService.FileNameSplits | classes/services/BackupService.php:60-62 | the folder (name) and sub-folder (date) can be read back out of the file name |
| BackupService.Recordings | classes/services/BackupService.php:42-44 | the recording files when the lookup returned metadata with a non-empty file list; none otherwise |
| BackupService.ProcessRecording | classes/services/BackupService.php:24-103 | an empty meeting id, then a missing course id, then a metadata lookup that throws (its message becomes the error), then missing recordings give their errors, in that order |
| BackupService.VideoChecks | classes/services/BackupService.php:47-55 | no MP4 gives "No video file found", then a chosen file without URL gives "download URL is missing" |
| BackupService.SuccessMeans | classes/services/BackupService.php:57-98 | success means the chosen file was downloaded and uploaded as `<name>_<date>.mp4` into folder name / sub-folder date with a non-zero file id |
| BackupService.TransferOutcomes | classes/services/BackupService.php:57-98 | with valid ids, recordings and a chosen MP4 with a URL: a download error or an upload error becomes the failure, a zero file id is "Failed to upload recording to Moodle", any other id is success with the downloaded path and that id |
| BackupService.IdsCheckedFirst | classes/services/BackupService.php:29-34 | id errors do not depend on the metadata fetch, the download or the upload |
| BackupService.RecordingCheckedBeforeDownload | classes/services/BackupService.php:42-57 | recording errors do not depend on the download or the upload |
| Settings.WriteSetting | settings.php:55-61 | stores intval(data)·multiplier when the multiplier is not 1 and data is not empty, else the text unchanged |
| Settings.GetSetting | settings.php:40-47 | null stays null; multiplier 1 passes the text; any other multiplier gives the integer quotient of intval(stored) by the multiplier, rounded toward zero (same sign, short by less than one multiplier) |
| Settings.WriteThenGet | settings.php:40-61 | reading back a written value gives intval of what was written, and the text itself with multiplier 1 |
| Settings.IntegerRoundTrip | settings.php:40-61 | an integer written as PHP prints it reads back as that integer |
| Settings.MaxExecutionTimeDefault | settings.php:97-102 | the 50-minute default is stored as 3000 s, the scheduler's fallback, and reads back as 50 |
| ModForm.Validation | mod_form.php:104-119 | an end_date error iff start_date ≥ end_date, an end_time error iff the encoded start ≥ the encoded end; no other key added; other parent errors kept |
| ModForm.TimeErrorMeansNotLater | mod_form.php:111-116 | for selectable minutes the time error means the window does not end after it starts, by hour then minute |
| ModForm.HourOf | mod_form.php:94 | a whole float h with h·3600 ≤ t < h·3600 + 3600 |
| ModForm.DataPreprocessing | mod_form.php:90-102 | hour and minute selectors are set from each stored time present; other defaults are kept |
| ModForm.DecodeEncode | mod_form.php:93-101 | decoding an encoded time of day with whole minutes gives back its hour and minute |
| ModForm.SelectableRoundTrip | mod_form.php:48-52 | every selectable hour and minute survives the round trip |
| Lib.EncodeTimeInjective | lib.php:10-11 | for minutes under 60, equal encodings come from equal times |
| Lib.EncodeTimeOrder | lib.php:10-11 | for minutes under 60, the encoding orders times by hour, then minute |
| Lib.RowOf | lib.php:10-13 | the row stores the form's course and the encoded start and end times |
| Lib.AddInstance | lib.php:4-16 | one row is appended with a fresh id, no cursor and status "idle", and the id is returned |
| Lib.UpdateInstance | lib.php:18-28 | the row with the form's instance id gets the form's columns and keeps its processing state; with no such row nothing changes |
| Lib.Without | lib.php:37-39 | exactly the rows not selected for deletion remain |
| Lib.WithoutKeepsPairs | lib.php:37-39 | deleting rows keeps the order of those left |
| Lib.DeleteInstance | lib.php:30-42 | false and no change iff no installation has the id; otherwise its queue rows, backup rows and the row itself are deleted, no row of the id is left, and the other rows keep their order; afterwards no installation has the id, so a second call returns false |
| Lib.DeletionsCommute | lib.php:37-39 | deleting two installations leaves the same queue, backup and installation tables in either order, and deleting one installation leaves the presence of any other unchanged |
| Lib.Supports | lib.php:44-55 | true for the intro, show-description and backup features, null for everything else |

## Left out

- classes/utils/ZoomUtils.php (OAuth and HTTP client with a token cache): network I/O. The recording metadata lookup is a parameter of `BackupService.ProcessRecording`.
- `BackupService::downloadToLocal`, `storeInMoodle` and `getCourseRecordings`: filesystem and Moodle file storage. The download and the upload are parameters, and the file size in the success result is not modelled.
- AttendancePersistence.PersistStudents: the database raises only at the attendance-activity lookup and at a cohort's first session query. These catch sites of classes/persistence/AttendancePersistence.php are not exercised: the session insert in `createSession` (:303-314, which returns null), the description update reached after a found session (:335, caught per cohort), a database exception in the loading step of `recordAttendance` (:343-370; its status checks are modelled), the per-participant write (:487-490, counted as failed), the `lasttaken` update (:501-507), and the per-user and outer catches of `markAbsentStudents` (:636-645). Each is caught and logged and the run carries on, so the model covers the writes made when those calls succeed.
- BackupService.ProcessRecording: the delete-from-source step only logs warnings and never changes the result, so it is left out.
- classes/backup/MoodleMirroring.php: a wrapper over Moodle's course, module and file-storage APIs, represented by the upload parameter.
- classes/recollectors/ZoomRecollectorBackup.php and classes/task/backup_task.php: loops over I/O calls. backup_task calls `getPendingBackups`, `markBackupProcessed` and `countPendingBackups` (classes/task/backup_task.php:61, :90, :104), which QueueService.php does not define.
- `Orchestrator::processRecordings` (classes/orchestrator/Orchestrator.php:156-171), `ZoomRecollectorBackup::processRecordings` (classes/recollectors/ZoomRecollectorBackup.php:35) and the recording step of the scheduler (classes/task/scheduler_task.php:112-117): recording-backup plumbing over database lookups and Zoom and file I/O. The queue, naming and validation they drive are modelled.
- `getAllInstanceByModuleName` / `getModuleId`: the Zoom module lookup is the filter `ZoomRecollector.ZoomInstances` over course modules.
- `getMeetingsByZoomId` and `getTime` of ZoomRecollectorData.php: nothing in the core calls them.
- The SQL `is_late` and `attendance_percentage` columns: nothing reads them. Only the tolerance defaulting that feeds them is modelled.
- classes/task/meeting_processor_task.php: a wrapper around the orchestrator.
- Logging (`mtrace`, classes/utils/LogLevel.php), the language string tables (errors are their string ids), page rendering, events, upgrade steps and version data.
- Clock fields `timecreated` and `timemodified`, and `usleep`: timing only. `timetaken` and `lasttaken` take the injected `now`.
- The remark's time part (`date('G:i')`): the formatter is a parameter (`clock`).
- Settings.WriteSetting: `intval` is read as its leading decimal digits. PHP 7.1 and later also parse a decimal point or exponent as a float and truncate it (`intval("1e3")` is 1000; the model gives 1), and they saturate at the 64-bit limits. Those forms are not modelled.
- Settings.GetSetting: a stored value that is empty or not numeric makes PHP 8 raise a TypeError in the division; the model reads it as `intval` gives it. A quotient that is not exact is a float in PHP, and its rounding for values beyond 2^53 is not modelled.
- Settings.WriteThenGet: holds in PHP only while |intval(data)·multiplier| fits in a 64-bit integer. Beyond that PHP's product is a float and is stored in exponent form, and the model's integers are unbounded.
- Settings.IntegerRoundTrip: holds in PHP only while |n·multiplier| fits in a 64-bit integer, for the same reason.
- `max_days_per_run`: its admin default '90' (settings.php:90-94) is a plain text setting. Only the scheduler's own fallback of 30, used when the setting is unset or 0, is modelled.
- QueueService.GetPending: a limit of 0 or less returns all pending rows, as Moodle's `get_records` does with no limit.
- The student attendance class (StudentAttendance.php) is not part of this model: a student record is assumed to offer every accessor the classifier calls.
- NameNormalizer.ParseText: PHP `trim` keeps a form feed, but the PCRE `\s` class matches it, so a topic that starts or ends with a form feed gives a fallback name that starts or ends with '-'. The model states this (`DashedNameEdges`, `FormFeedLeadsWithDash`) instead of a name free of dashes at its ends.
- Statuses.GetStatusByDuration: computed with exact reals. PHP's floating-point rounding is not modelled.
- PersistenceStatus.Classify: the percentage test is computed with exact reals, not PHP doubles. At the boundary they differ: a 19-minute stay in a session of duration 2000 with a 57% minimum is 57% exactly, so the model grades it present, while PHP computes 56.99999999999999 and grades it absent.
- PersistenceStatus.PercentageTestMixesUnits: states the exact-arithmetic reading of the test, so it inherits the floating-point gap above.
- ZoomRecollector.ValidateUserByName: the collation is a parameter. The model proves the cascade for any collation and does not spell out PostgreSQL's or MySQL's folding and accent rules.
- QueueService.AddMeetings: a meeting decoded as an object rather than an array, and without a uuid, raises an `\Error` in PHP. Meetings reach the queue as arrays, so that path is not modelled.
- The `ORDER BY ABS(sessdate - date) LIMIT 1` and `get_record` lookups: on ties they are modelled as taking the first row in table order.
- Concurrency: concurrent runs on one installation are not coordinated by the code, and the model has a single writer.

## Findings

| source | as written | input that shows it | evidently intended | confidence | as-written member | corrected member |
|---|---|---|---|---|---|---|
| classes/persistence/AttendancePersistence.php:20-79 | `persistStudents` has no return after its cohort loop, so it returns null, and on PHP 8.0 and later `count(null)` at classes/orchestrator/Orchestrator.php:75 raises a TypeError that escapes every `catch (\Exception)` (on PHP 7.4 it warns and gives 0, which is the intended report) | a course with an attendance activity and one student on the collected day | return an array (no absentees), so the day completes with absent_count 0 | not executed | Orchestration.PersistedDayAborts | Orchestration.ReportIntended |
