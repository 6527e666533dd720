/** `ZoomRecollectorData`: the day cursor over an installation's `last_processed_date`, the
    meeting filter for one day, the matching of Zoom participants to Moodle users by name, and
    the split of matched participants into students and teachers. */
module ZoomRecollector {
  import opened Wrappers
  import opened Php
  import opened TeacherAttendance
  import opened RoleUtils
  import opened Store

  const ONE_DAY: int := 86400
  const DEFAULT_LATE_TOLERANCE: int := 10
  /** Tolerance used when the configured one is 0: any join time is on time. */
  const NO_LATE_LIMIT: int := 1000000000

  // ---------------------------------------------------------------- validateUserByName

  /** The four user lookups of the name cascade, in the order they are tried. */
  datatype NameQuery =
    | ExactFirstname(name: string)
    | FirstnameIgnoringCase(name: string)
    | LastnameIgnoringCase(name: string)
    | FullNameIgnoringCase(first: string, last: string)

  /** A non-deleted user the lookup returns, comparing as the database does: `firstname = :name`
      for the first lookup and `LOWER(column) = LOWER(:name)` for the others. */
  predicate Answers(u: User, q: NameQuery, c: Collation) {
    !u.deleted
    && (q.ExactFirstname? ==> c.equal(u.firstname, q.name))
    && (q.FirstnameIgnoringCase? ==> c.equal(c.lower(u.firstname), c.lower(q.name)))
    && (q.LastnameIgnoringCase? ==> c.equal(c.lower(u.lastname), c.lower(q.name)))
    && (q.FullNameIgnoringCase? ==> c.equal(c.lower(u.firstname), c.lower(q.first))
                                    && c.equal(c.lower(u.lastname), c.lower(q.last)))
  }

  /** The first user (in table order) a lookup returns. */
  function FirstAnswer(users: seq<User>, q: NameQuery, c: Collation): (r: Option<nat>)
    ensures r.Some? ==> r.value < |users| && Answers(users[r.value], q, c)
                        && forall j :: 0 <= j < r.value ==> !Answers(users[j], q, c)
    ensures r.None? <==> forall j :: 0 <= j < |users| ==> !Answers(users[j], q, c)
  {
    if |users| == 0 then None
    else if Answers(users[0], q, c) then Some(0)
    else match FirstAnswer(users[1..], q, c)
      case Some(k) => Some(k + 1)
      case None => None
  }

  /** The position of the first space, where `explode(' ', name, 2)` cuts. */
  function FirstSpace(s: string): (r: Option<nat>)
    ensures r.Some? ==> r.value < |s| && s[r.value] == ' ' && forall j :: 0 <= j < r.value ==> s[j] != ' '
    ensures r.None? <==> forall j :: 0 <= j < |s| ==> s[j] != ' '
  {
    if |s| == 0 then None
    else if s[0] == ' ' then Some(0)
    else match FirstSpace(s[1..])
      case Some(k) => Some(k + 1)
      case None => None
  }

  /** The lookups tried for a non-empty name; the full-name one only when the name has a
      space, cut at the first space. */
  function Stages(name: string): (r: seq<NameQuery>)
    ensures 3 <= |r| <= 4
    ensures r[0] == ExactFirstname(name) && r[1] == FirstnameIgnoringCase(name)
            && r[2] == LastnameIgnoringCase(name)
    ensures |r| == 4 <==> FirstSpace(name).Some?
    ensures |r| == 4 ==> var k := FirstSpace(name).value; r[3] == FullNameIgnoringCase(name[..k], name[k + 1..])
  {
    [ExactFirstname(name), FirstnameIgnoringCase(name), LastnameIgnoringCase(name)]
    + match FirstSpace(name)
      case Some(k) => [FullNameIgnoringCase(name[..k], name[k + 1..])]
      case None => []
  }

  /** The first lookup that returns a user, as (lookup position, user position). */
  function Cascade(users: seq<User>, stages: seq<NameQuery>, c: Collation): (r: Option<(nat, nat)>)
    ensures r.Some? ==> r.value.0 < |stages| && r.value.1 < |users|
                        && Answers(users[r.value.1], stages[r.value.0], c)
                        && (forall j :: 0 <= j < r.value.1 ==> !Answers(users[j], stages[r.value.0], c))
                        && (forall k, j :: 0 <= k < r.value.0 && 0 <= j < |users| ==> !Answers(users[j], stages[k], c))
    ensures r.None? <==> forall k, j :: 0 <= k < |stages| && 0 <= j < |users| ==> !Answers(users[j], stages[k], c)
  {
    if |stages| == 0 then None
    else match FirstAnswer(users, stages[0], c)
      case Some(j) => Some((0, j))
      case None =>
        match Cascade(users, stages[1..], c)
        case Some(p) => Some((p.0 + 1, p.1))
        case None => None
  }

  predicate EmptyName(name: Option<string>) {
    name.None? || Empty(name.value)
  }

  /** `validateUserByName`: an empty Zoom name keeps the Zoom user id; otherwise the first
      lookup that finds a user decides, and when none does the Zoom user id is kept. */
  function ValidateUserByName(users: seq<User>, c: Collation, name: Option<string>, fallback: int): (r: int)
    ensures EmptyName(name) ==> r == fallback
    ensures !EmptyName(name) && Cascade(users, Stages(name.value), c).None? ==> r == fallback
    ensures !EmptyName(name) && Cascade(users, Stages(name.value), c).Some? ==>
              r == users[Cascade(users, Stages(name.value), c).value.1].id
  {
    if EmptyName(name) then fallback
    else match Cascade(users, Stages(name.value), c)
      case Some(p) => users[p.1].id
      case None => fallback
  }

  /** A first-name hit under the column's own `=` decides before any `LOWER` lookup: the
      first such user. */
  lemma ExactFirstnameWins(users: seq<User>, c: Collation, name: string, fallback: int, i: nat)
    requires !Empty(name) && i < |users| && !users[i].deleted && c.equal(users[i].firstname, name)
    requires forall j :: 0 <= j < i ==> users[j].deleted || !c.equal(users[j].firstname, name)
    ensures ValidateUserByName(users, c, Some(name), fallback) == users[i].id
  {
    assert Answers(users[i], Stages(name)[0], c);
  }

  /** A name that finds nobody in any lookup keeps the Zoom user id, whatever it is. */
  lemma UnknownNameKeepsZoomId(users: seq<User>, c: Collation, name: string, fallback: int)
    requires forall u :: u in users ==> u.deleted || (!c.equal(u.firstname, name)
                                                     && !c.equal(c.lower(u.firstname), c.lower(name))
                                                     && !c.equal(c.lower(u.lastname), c.lower(name)))
    requires forall j :: 0 <= j < |name| ==> name[j] != ' '
    ensures ValidateUserByName(users, c, Some(name), fallback) == fallback
  {
    var st := Stages(name);
    assert |st| == 3;
    forall k, j | 0 <= k < |st| && 0 <= j < |users|
      ensures !Answers(users[j], st[k], c)
    {
      assert users[j] in users;
    }
  }

  // ---------------------------------------------------------------- late tolerance

  /** The tolerance the participant queries pass to their `is_late` column: 10 minutes when
      the installation row or its value is missing, and effectively unlimited when it is 0. */
  function LateTolerance(config: Option<Installation>): (t: int)
    ensures t != 0
    ensures config.None? || config.value.lateTolerance.None? ==> t == DEFAULT_LATE_TOLERANCE
    ensures config.Some? && config.value.lateTolerance == Some(0) ==> t == NO_LATE_LIMIT
    ensures config.Some? && config.value.lateTolerance.Some? && config.value.lateTolerance.value != 0
            ==> t == config.value.lateTolerance.value
  {
    var t := match config
      case None => DEFAULT_LATE_TOLERANCE
      case Some(c) => c.lateTolerance.GetOr(DEFAULT_LATE_TOLERANCE);
    if t == 0 then NO_LATE_LIMIT else t
  }

  /** Both participant queries read the tolerance of the course's first installation. */
  function CourseLateTolerance(installations: seq<Installation>, course: int): (t: int)
    ensures t != 0
  {
    match InstallationByCourse(installations, course)
    case None => LateTolerance(None)
    case Some(k) => LateTolerance(Some(installations[k]))
  }

  // ---------------------------------------------------------------- getStudentsByMeetingId

  /** `get_user_roles($context, $userId)`: the role ids of the user's assignments in any of
      `contexts`, which for a course context are the context itself and all its parents. */
  function RolesOf(roles: seq<RoleAssignment>, userId: int, contexts: seq<int>): (r: seq<int>)
    ensures forall x :: x in r <==> exists a :: a in roles && a.userId == userId && a.contextId in contexts
                                                && a.roleId == x
  {
    if |roles| == 0 then []
    else
      var rest := RolesOf(roles[1..], userId, contexts);
      assert forall a :: a in roles[1..] ==> a in roles;
      if roles[0].userId == userId && roles[0].contextId in contexts then [roles[0].roleId] + rest else rest
  }

  /** `RoleUtils::isTeacher($userId, $courseId)`. */
  predicate IsCourseTeacher(env: Env, userId: int, course: int) {
    IsTeacher(RolesOf(env.roles, userId, env.courseContexts(course)))
  }

  /** A user is a course teacher iff an allowed teacher role is assigned to them in the course
      or in one of its parent contexts (a category, the site). */
  lemma IsCourseTeacherMeans(env: Env, userId: int, course: int)
    ensures IsCourseTeacher(env, userId, course) <==>
            exists a :: a in env.roles && a.userId == userId && a.contextId in env.courseContexts(course)
                        && a.roleId in GetAllowedTeacherRoles()
  {
    var r := RolesOf(env.roles, userId, env.courseContexts(course));
    if IsCourseTeacher(env, userId, course) {
      var i :| 0 <= i < |r| && r[i] in GetAllowedTeacherRoles();
      assert r[i] in r;
    }
    if exists a :: a in env.roles && a.userId == userId && a.contextId in env.courseContexts(course)
                   && a.roleId in GetAllowedTeacherRoles() {
      var a :| a in env.roles && a.userId == userId && a.contextId in env.courseContexts(course)
               && a.roleId in GetAllowedTeacherRoles();
      assert a.roleId in r;
      var i :| 0 <= i < |r| && r[i] == a.roleId;
    }
  }

  /** The camera query: users with a video-on participation row in one of the meetings. */
  function CameraOn(rows: seq<CameraRow>, detailIds: seq<int>): (r: seq<int>)
    ensures forall u :: u in r <==> exists c :: c in rows && c.detailsId in detailIds && c.hasVideo && c.userId == u
  {
    if |rows| == 0 then []
    else
      var rest := CameraOn(rows[1..], detailIds);
      assert forall c :: c in rows[1..] ==> c in rows;
      if rows[0].detailsId in detailIds && rows[0].hasVideo then [rows[0].userId] + rest else rest
  }

  /** One participant row: resolve its user, drop it when the resolved id is 0, and build a
      teacher or student record with the camera flag. */
  function ShapeOne(env: Env, course: int, checkCamera: bool, cameraOn: seq<int>, row: ParticipantRow)
    : (r: Option<Attendance>)
    ensures var uid := ValidateUserByName(env.users, env.collation, row.name, row.userId);
      (r.None? <==> uid == 0)
      && (r.Some? ==> r.value.userId == uid
                      && r.value.hasVideo == (!checkCamera || uid in cameraOn)
                      && (r.value.role == Teacher <==> IsCourseTeacher(env, uid, course))
                      && r.value.email == row.email
                      && r.value.groupId == row.groupId.GetOr(0))
  {
    var uid := ValidateUserByName(env.users, env.collation, row.name, row.userId);
    if uid == 0 then None
    else
      var role := if IsCourseTeacher(env, uid, course) then Teacher else Student;
      Some(NewAttendance(role, row.(userId := uid), !checkCamera || uid in cameraOn))
  }

  /** The records of the kept rows, in row order: the reference the split is checked against. */
  function Kept(env: Env, course: int, checkCamera: bool, cameraOn: seq<int>, rows: seq<ParticipantRow>)
    : (r: seq<Attendance>)
    ensures forall a :: a in r <==> exists row :: row in rows && ShapeOne(env, course, checkCamera, cameraOn, row) == Some(a)
  {
    if |rows| == 0 then []
    else
      var rest := Kept(env, course, checkCamera, cameraOn, rows[..|rows| - 1]);
      var last := rows[|rows| - 1];
      assert forall row :: row in rows <==> row in rows[..|rows| - 1] || row == last;
      match ShapeOne(env, course, checkCamera, cameraOn, last)
      case Some(a) => rest + [a]
      case None => rest
  }

  /** The participant loop: students and teachers, each in row order. */
  function Split(env: Env, course: int, checkCamera: bool, cameraOn: seq<int>, rows: seq<ParticipantRow>)
    : (seq<Attendance>, seq<Attendance>)
  {
    if |rows| == 0 then ([], [])
    else
      var (s, t) := Split(env, course, checkCamera, cameraOn, rows[..|rows| - 1]);
      match ShapeOne(env, course, checkCamera, cameraOn, rows[|rows| - 1])
      case Some(a) => if a.role == Teacher then (s, t + [a]) else (s + [a], t)
      case None => (s, t)
  }

  /** The split is a partition of the kept records by role: students are exactly the kept
      student records and teachers exactly the kept teacher records, and the two lists
      together are as long as the kept list. */
  lemma {:induction false} SplitPartitions(env: Env, course: int, checkCamera: bool, cameraOn: seq<int>,
                                           rows: seq<ParticipantRow>)
    ensures var (s, t) := Split(env, course, checkCamera, cameraOn, rows);
      var k := Kept(env, course, checkCamera, cameraOn, rows);
      |s| + |t| == |k|
      && (forall a :: a in s <==> a in k && a.role == Student)
      && (forall a :: a in t <==> a in k && a.role == Teacher)
  {
    if |rows| > 0 {
      SplitPartitions(env, course, checkCamera, cameraOn, rows[..|rows| - 1]);
    }
  }

  /** Every record handed on has a non-zero user, the camera flag of its user, and the list
      its role names. */
  lemma SplitRecordFacts(env: Env, course: int, checkCamera: bool, cameraOn: seq<int>,
                         rows: seq<ParticipantRow>)
    ensures var (s, t) := Split(env, course, checkCamera, cameraOn, rows);
      (forall a :: a in s ==> a.userId != 0 && a.role == Student && !IsCourseTeacher(env, a.userId, course)
                              && a.hasVideo == (!checkCamera || a.userId in cameraOn))
      && (forall a :: a in t ==> a.userId != 0 && a.role == Teacher && IsCourseTeacher(env, a.userId, course)
                                 && a.hasVideo == (!checkCamera || a.userId in cameraOn))
  {
    SplitPartitions(env, course, checkCamera, cameraOn, rows);
  }

  /** The position of the first entry for the user, if any. */
  function UserIndex(entries: seq<ParticipantRow>, key: int): (r: Option<nat>)
    ensures r.Some? ==> r.value < |entries| && entries[r.value].userId == key
                        && forall i :: 0 <= i < r.value ==> entries[i].userId != key
    ensures r.None? <==> forall i :: 0 <= i < |entries| ==> entries[i].userId != key
  {
    if |entries| == 0 then None
    else if entries[0].userId == key then Some(0)
    else match UserIndex(entries[1..], key)
      case Some(k) => Some(k + 1)
      case None => None
  }

  /** The last row of the user, if any. */
  function LastWithUser(rows: seq<ParticipantRow>, key: int): (r: Option<ParticipantRow>)
    ensures r.Some? ==> r.value in rows && r.value.userId == key
    ensures r.None? <==> forall row :: row in rows ==> row.userId != key
  {
    if |rows| == 0 then None
    else
      assert forall row :: row in rows <==> row in rows[..|rows| - 1] || row == rows[|rows| - 1];
      if rows[|rows| - 1].userId == key then Some(rows[|rows| - 1])
      else LastWithUser(rows[..|rows| - 1], key)
  }

  /** The array `get_records_sql` builds from the participant query, keyed by its first
      column `zmp.userid`: a later row of a user already present overwrites that entry in
      place, and a new user is appended. */
  function Keyed(rows: seq<ParticipantRow>): seq<ParticipantRow>
  {
    if |rows| == 0 then []
    else
      var prev := Keyed(rows[..|rows| - 1]);
      var last := rows[|rows| - 1];
      match UserIndex(prev, last.userId)
      case Some(k) => prev[k := last]
      case None => prev + [last]
  }

  /** A step of `Keyed`: the entry for the last row's user is overwritten in place, or the row
      is appended; no other entry changes. */
  lemma KeyedStep(rows: seq<ParticipantRow>)
    requires |rows| > 0
    ensures var prev := Keyed(rows[..|rows| - 1]);
      var last := rows[|rows| - 1];
      var r := Keyed(rows);
      (UserIndex(prev, last.userId).Some? ==>
         |r| == |prev| && r[UserIndex(prev, last.userId).value] == last
         && (forall i :: 0 <= i < |r| ==>
               r[i].userId == prev[i].userId && (i != UserIndex(prev, last.userId).value ==> r[i] == prev[i])))
      && (UserIndex(prev, last.userId).None? ==>
            r == prev + [last] && forall i :: 0 <= i < |prev| ==> prev[i].userId != last.userId)
  {
  }

  /** The keyed array holds one entry per user. */
  lemma {:induction false} KeyedUsersDistinct(rows: seq<ParticipantRow>)
    ensures var r := Keyed(rows);
      forall i, j :: 0 <= i < j < |r| ==> r[i].userId != r[j].userId
  {
    if |rows| > 0 {
      KeyedUsersDistinct(rows[..|rows| - 1]);
      KeyedStep(rows);
    }
  }

  /** Every user of the rows has an entry. */
  lemma {:induction false} KeyedCoversUsers(rows: seq<ParticipantRow>)
    ensures var r := Keyed(rows);
      forall row :: row in rows ==> exists i :: 0 <= i < |r| && r[i].userId == row.userId
  {
    if |rows| > 0 {
      var p := rows[..|rows| - 1];
      var last := rows[|rows| - 1];
      KeyedCoversUsers(p);
      KeyedStep(rows);
      var prev := Keyed(p);
      var r := Keyed(rows);
      assert |prev| <= |r|;
      forall row | row in rows
        ensures exists i :: 0 <= i < |r| && r[i].userId == row.userId
      {
        if row in p {
          var i :| 0 <= i < |prev| && prev[i].userId == row.userId;
          assert r[i].userId == row.userId;
        } else {
          assert row == last;
          if UserIndex(prev, last.userId).Some? {
            assert r[UserIndex(prev, last.userId).value].userId == row.userId;
          } else {
            assert r[|prev|].userId == row.userId;
          }
        }
      }
    }
  }

  /** Each user's entry is that user's last row: every earlier row of the user is lost. */
  lemma {:induction false} KeyedKeepsLastRow(rows: seq<ParticipantRow>)
    ensures var r := Keyed(rows);
      forall i :: 0 <= i < |r| ==> LastWithUser(rows, r[i].userId) == Some(r[i])
  {
    if |rows| > 0 {
      var p := rows[..|rows| - 1];
      var last := rows[|rows| - 1];
      KeyedKeepsLastRow(p);
      KeyedStep(rows);
      var prev := Keyed(p);
      var r := Keyed(rows);
      forall i | 0 <= i < |r|
        ensures LastWithUser(rows, r[i].userId) == Some(r[i])
      {
        if r[i].userId != last.userId {
          assert i < |prev| && r[i] == prev[i];
          assert LastWithUser(rows, r[i].userId) == LastWithUser(p, prev[i].userId);
        } else if UserIndex(prev, last.userId).Some? {
          KeyedUsersDistinct(rows);
          assert r[UserIndex(prev, last.userId).value].userId == last.userId;
        }
      }
    }
  }

  lemma {:induction false} UserIndexAppend(entries: seq<ParticipantRow>, x: ParticipantRow, key: int)
    ensures UserIndex(entries + [x], key)
            == if UserIndex(entries, key).Some? then UserIndex(entries, key)
               else if x.userId == key then Some(|entries|) else None
  {
    if |entries| > 0 {
      assert (entries + [x])[1..] == entries[1..] + [x];
      UserIndexAppend(entries[1..], x, key);
    }
  }

  /** The entries keep the order in which their users first appear in the rows. */
  lemma {:induction false} KeyedKeepsFirstSeenOrder(rows: seq<ParticipantRow>)
    ensures var r := Keyed(rows);
      (forall i :: 0 <= i < |r| ==> UserIndex(rows, r[i].userId).Some?)
      && (forall i, j :: 0 <= i < j < |r| ==>
            UserIndex(rows, r[i].userId).value < UserIndex(rows, r[j].userId).value)
  {
    if |rows| > 0 {
      var p := rows[..|rows| - 1];
      var last := rows[|rows| - 1];
      assert rows == p + [last];
      KeyedKeepsFirstSeenOrder(p);
      KeyedStep(rows);
      var prev := Keyed(p);
      var r := Keyed(rows);
      forall i | 0 <= i < |prev|
        ensures UserIndex(rows, prev[i].userId) == UserIndex(p, prev[i].userId)
        ensures UserIndex(p, prev[i].userId).Some? && UserIndex(p, prev[i].userId).value < |p|
      {
        UserIndexAppend(p, last, prev[i].userId);
      }
      if UserIndex(prev, last.userId).None? {
        UserIndexAppend(p, last, last.userId);
        KeyedCoversUsers(p);
        if UserIndex(p, last.userId).Some? {
          assert false;
        }
        assert UserIndex(rows, last.userId) == Some(|p|);
        assert r[|prev|] == last;
      }
    }
  }

  /** A user who appears in two rows (two of the day's meetings, or two groups of the course)
      keeps only the later row. */
  lemma SecondRowReplacesFirst(first: ParticipantRow, second: ParticipantRow)
    requires first.userId == second.userId
    ensures Keyed([first, second]) == [second]
  {
    assert [first, second][..1] == [first];
    assert [first][..0] == [];
    assert Keyed([first]) == [first];
  }

  /** `getStudentsByMeetingId` as a value: nothing for no meetings, else the split of the
      participant array of those meetings. */
  function MeetingParticipants(env: Env, course: int, checkCamera: bool, detailIds: seq<int>)
    : (seq<Attendance>, seq<Attendance>)
  {
    if |detailIds| == 0 then ([], [])
    else
      var cameraOn := if checkCamera then CameraOn(env.cameraRows, detailIds) else [];
      Split(env, course, checkCamera, cameraOn, Keyed(env.attendanceData(detailIds)))
  }

  /** Without a camera requirement every record has video. */
  lemma NoCameraCheckMeansVideo(env: Env, course: int, detailIds: seq<int>)
    ensures var (s, t) := MeetingParticipants(env, course, false, detailIds);
      forall a :: a in s + t ==> a.hasVideo
  {
    if |detailIds| > 0 {
      SplitRecordFacts(env, course, false, [], Keyed(env.attendanceData(detailIds)));
    }
  }

  method GetStudentsByMeetingId(env: Env, course: int, checkCamera: bool, detailIds: seq<int>)
    returns (students: seq<Attendance>, teachers: seq<Attendance>)
    ensures (students, teachers) == MeetingParticipants(env, course, checkCamera, detailIds)
  {
    if |detailIds| == 0 {
      return [], [];
    }
    var rows := Keyed(env.attendanceData(detailIds));
    var cameraOn := if checkCamera then CameraOn(env.cameraRows, detailIds) else [];
    students, teachers := [], [];
    var i := 0;
    while i < |rows|
      invariant 0 <= i <= |rows|
      invariant (students, teachers) == Split(env, course, checkCamera, cameraOn, rows[..i])
    {
      assert rows[..i + 1][..i] == rows[..i];
      var uid := ValidateUserByName(env.users, env.collation, rows[i].name, rows[i].userId);
      if uid != 0 {
        var participant := rows[i].(userId := uid);
        var hasVideo := !checkCamera || uid in cameraOn;
        if IsCourseTeacher(env, uid, course) {
          teachers := teachers + [NewAttendance(Teacher, participant, hasVideo)];
        } else {
          students := students + [NewAttendance(Student, participant, hasVideo)];
        }
      }
      i := i + 1;
    }
    assert rows[..i] == rows;
  }

  // ---------------------------------------------------------------- getStudentsByCourseId

  /** The day to process next: the start date on the first run, else the day after the last
      processed one. */
  function TargetDate(config: Installation): int {
    match config.lastProcessedDate
    case None => config.startDate
    case Some(d) => d + ONE_DAY
  }

  /** The Zoom instances of the course (live course modules of the Zoom activity). */
  function ZoomInstances(modules: seq<ZoomModule>, course: int): (r: seq<int>)
    ensures forall z :: z in r <==> exists m :: m in modules && m.course == course && m.instance == z
  {
    if |modules| == 0 then []
    else
      var rest := ZoomInstances(modules[1..], course);
      assert forall m :: m in modules[1..] ==> m in modules;
      if modules[0].course == course then [modules[0].instance] + rest else rest
  }

  /** A meeting of the Zoom instance held on the target day, longer than a minute and with
      more than one participant. */
  predicate OnDay(m: MeetingDetails, zoomId: int, target: int) {
    m.zoomId == zoomId && target <= m.startTime < target + ONE_DAY && m.duration > 1
    && m.participantsCount.Some? && m.participantsCount.value > 1
  }

  /** The meeting query for one Zoom instance and day. */
  function DayMeetings(meetings: seq<MeetingDetails>, zoomId: int, target: int): (r: seq<MeetingDetails>)
    ensures forall m :: m in r <==> m in meetings && OnDay(m, zoomId, target)
  {
    if |meetings| == 0 then []
    else
      var rest := DayMeetings(meetings[1..], zoomId, target);
      assert forall m :: m in meetings[1..] ==> m in meetings;
      if OnDay(meetings[0], zoomId, target) then [meetings[0]] + rest else rest
  }

  function DetailIds(meetings: seq<MeetingDetails>): (r: seq<int>)
    ensures |r| == |meetings| && forall i :: 0 <= i < |meetings| ==> r[i] == meetings[i].id
  {
    if |meetings| == 0 then [] else [meetings[0].id] + DetailIds(meetings[1..])
  }

  /** The loop over Zoom instances: an instance with no meeting that day is skipped; one whose
      participant collection raises ends the loop with `None`. */
  function CollectZooms(env: Env, course: int, checkCamera: bool, target: int, zoomIds: seq<int>)
    : Option<(seq<Attendance>, seq<Attendance>)>
  {
    if |zoomIds| == 0 then Some(([], []))
    else match CollectZooms(env, course, checkCamera, target, zoomIds[..|zoomIds| - 1])
      case None => None
      case Some(acc) =>
        var z := zoomIds[|zoomIds| - 1];
        var ms := DayMeetings(env.meetings, z, target);
        if |ms| == 0 then Some(acc)
        else if z in env.zoomFaults then None
        else
          var (s, t) := MeetingParticipants(env, course, checkCamera, DetailIds(ms));
          Some((acc.0 + s, acc.1 + t))
  }

  /** A Zoom instance without a qualifying meeting that day cannot make the day fail, and
      contributes nothing. */
  lemma {:induction false} QuietInstancesCollectNothing(env: Env, course: int, checkCamera: bool, target: int,
                                                        zoomIds: seq<int>)
    requires forall z :: z in zoomIds ==> forall m :: m in env.meetings ==> !OnDay(m, z, target)
    ensures CollectZooms(env, course, checkCamera, target, zoomIds) == Some(([], []))
  {
    if |zoomIds| > 0 {
      var prefix := zoomIds[..|zoomIds| - 1];
      assert forall z :: z in prefix ==> z in zoomIds;
      QuietInstancesCollectNothing(env, course, checkCamera, target, prefix);
      var z := zoomIds[|zoomIds| - 1];
      assert z in zoomIds;
      NoMeetingOnDay(env.meetings, z, target);
    }
  }

  lemma NoMeetingOnDay(meetings: seq<MeetingDetails>, zoomId: int, target: int)
    requires forall m :: m in meetings ==> !OnDay(m, zoomId, target)
    ensures DayMeetings(meetings, zoomId, target) == []
  {
    if |meetings| > 0 {
      assert meetings[0] in meetings;
      NoMeetingOnDay(meetings[1..], zoomId, target);
    }
  }

  /** `set_field('ortattendance', 'last_processed_date', target, ['course' => course])`. */
  function SetCursor(rows: seq<Installation>, course: int, target: int): (r: seq<Installation>)
    ensures |r| == |rows|
    ensures forall i :: 0 <= i < |rows| ==>
              r[i] == if rows[i].course == course then rows[i].(lastProcessedDate := Some(target)) else rows[i]
  {
    if |rows| == 0 then []
    else
      [if rows[0].course == course then rows[0].(lastProcessedDate := Some(target)) else rows[0]]
      + SetCursor(rows[1..], course, target)
  }

  /** How a call ends: a raised exception (no installation for the course, or a failing
      participant query), caught up with today, or one day collected. */
  datatype CollectOutcome =
    | CollectFailed
    | CaughtUp
    | Collected(students: seq<Attendance>, teachers: seq<Attendance>, processedDate: string)

  /** `getStudentsByCourseId`, with `today` (the start of the current day) and the date
      formatter given. Returns the new installation rows and the outcome. */
  function GetStudentsByCourseId(installations: seq<Installation>, env: Env, course: int, checkCamera: bool,
                                 today: int, formatDate: int -> string): (seq<Installation>, CollectOutcome)
  {
    match InstallationByCourse(installations, course)
    case None => (installations, CollectFailed)
    case Some(k) =>
      var target := TargetDate(installations[k]);
      if target >= today then (installations, CaughtUp)
      else match CollectZooms(env, course, checkCamera, target, ZoomInstances(env.zoomModules, course))
        case None => (installations, CollectFailed)
        case Some((s, t)) => (SetCursor(installations, course, target), Collected(s, t, formatDate(target)))
  }

  /** Anything but a collected day leaves the rows as they were: the cursor is written only
      after every Zoom instance was collected. */
  lemma CursorOnlyMovesOnCollection(installations: seq<Installation>, env: Env, course: int, checkCamera: bool,
                                    today: int, formatDate: int -> string)
    ensures var (rows, outcome) := GetStudentsByCourseId(installations, env, course, checkCamera, today, formatDate);
      !outcome.Collected? ==> rows == installations
  {
  }

  /** The caught-up test: with a configured course the call reports caught up exactly when
      the target day is not before today. */
  lemma CaughtUpIffTargetReached(installations: seq<Installation>, env: Env, course: int, checkCamera: bool,
                                 today: int, formatDate: int -> string)
    requires InstallationByCourse(installations, course).Some?
    ensures var k := InstallationByCourse(installations, course).value;
      GetStudentsByCourseId(installations, env, course, checkCamera, today, formatDate).1.CaughtUp?
      <==> TargetDate(installations[k]) >= today
  {
  }

  /** A collected day moves the cursor of every row of the course to the target day and
      changes nothing else; the next target is exactly one day later, the cursor never goes
      back, and the processed date is the formatted target. */
  lemma CollectedAdvancesOneDay(installations: seq<Installation>, env: Env, course: int, checkCamera: bool,
                                today: int, formatDate: int -> string)
    requires GetStudentsByCourseId(installations, env, course, checkCamera, today, formatDate).1.Collected?
    ensures InstallationByCourse(installations, course).Some?
    ensures var k := InstallationByCourse(installations, course).value;
      var (rows, outcome) := GetStudentsByCourseId(installations, env, course, checkCamera, today, formatDate);
      var target := TargetDate(installations[k]);
      target < today
      && InstallationByCourse(rows, course) == Some(k)
      && rows[k].lastProcessedDate == Some(target)
      && TargetDate(rows[k]) == target + ONE_DAY
      && (installations[k].lastProcessedDate.Some? ==> rows[k].lastProcessedDate.value == installations[k].lastProcessedDate.value + ONE_DAY)
      && outcome.processedDate == formatDate(target)
      && (forall i :: 0 <= i < |rows| ==> rows[i].(lastProcessedDate := installations[i].lastProcessedDate) == installations[i])
  {
    var k := InstallationByCourse(installations, course).value;
    SetCursorKeepsLookup(installations, course, TargetDate(installations[k]));
  }

  /** A call never adds, removes or re-keys an installation row. */
  lemma GetStudentsKeepsIds(installations: seq<Installation>, env: Env, course: int, checkCamera: bool,
                            today: int, formatDate: int -> string)
    ensures var rows := GetStudentsByCourseId(installations, env, course, checkCamera, today, formatDate).0;
      |rows| == |installations| && forall i :: 0 <= i < |rows| ==> rows[i].id == installations[i].id
  {
  }

  lemma SetCursorKeepsLookup(rows: seq<Installation>, course: int, target: int)
    ensures InstallationByCourse(SetCursor(rows, course, target), course) == InstallationByCourse(rows, course)
  {
    var r := SetCursor(rows, course, target);
    assert forall j :: 0 <= j < |r| ==> r[j].course == rows[j].course;
  }

  /** The rows after `n` calls in a row, on unchanged tables. */
  function Repeat(installations: seq<Installation>, env: Env, course: int, checkCamera: bool, today: int,
                  formatDate: int -> string, n: nat): seq<Installation>
  {
    if n == 0 then installations
    else GetStudentsByCourseId(Repeat(installations, env, course, checkCamera, today, formatDate, n - 1),
                               env, course, checkCamera, today, formatDate).0
  }

  /** How many of those `n` calls collected a day. */
  function CollectedCount(installations: seq<Installation>, env: Env, course: int, checkCamera: bool, today: int,
                          formatDate: int -> string, n: nat): nat
  {
    if n == 0 then 0
    else
      var prev := Repeat(installations, env, course, checkCamera, today, formatDate, n - 1);
      CollectedCount(installations, env, course, checkCamera, today, formatDate, n - 1)
      + if GetStudentsByCourseId(prev, env, course, checkCamera, today, formatDate).1.Collected? then 1 else 0
  }

  /** Successive calls move the course's next target day forward by exactly one day per
      collected day and never back; the row the course resolves to stays the same. */
  lemma {:induction false} RepeatAdvancesByDays(installations: seq<Installation>, env: Env, course: int,
                                                checkCamera: bool, today: int, formatDate: int -> string, n: nat)
    requires InstallationByCourse(installations, course).Some?
    ensures var k := InstallationByCourse(installations, course).value;
      var rows := Repeat(installations, env, course, checkCamera, today, formatDate, n);
      InstallationByCourse(rows, course) == Some(k)
      && TargetDate(rows[k])
         == TargetDate(installations[k]) + CollectedCount(installations, env, course, checkCamera, today, formatDate, n) * ONE_DAY
  {
    if n > 0 {
      RepeatAdvancesByDays(installations, env, course, checkCamera, today, formatDate, n - 1);
      var prev := Repeat(installations, env, course, checkCamera, today, formatDate, n - 1);
      CursorOnlyMovesOnCollection(prev, env, course, checkCamera, today, formatDate);
      if GetStudentsByCourseId(prev, env, course, checkCamera, today, formatDate).1.Collected? {
        CollectedAdvancesOneDay(prev, env, course, checkCamera, today, formatDate);
      }
    }
  }

  /** `getStudentsByCourseId` against the database. */
  method GetStudentsByCourseIdRun(db: Database, env: Env, course: int, checkCamera: bool, today: int,
                                  formatDate: int -> string)
    returns (outcome: CollectOutcome)
    modifies db`installations
    ensures (db.installations, outcome)
            == GetStudentsByCourseId(old(db.installations), env, course, checkCamera, today, formatDate)
  {
    var k := InstallationByCourse(db.installations, course);
    if k.None? {
      return CollectFailed;
    }
    var target := TargetDate(db.installations[k.value]);
    if target >= today {
      return CaughtUp;
    }
    var zoomIds := ZoomInstances(env.zoomModules, course);
    var students: seq<Attendance> := [];
    var teachers: seq<Attendance> := [];
    var i := 0;
    while i < |zoomIds|
      invariant 0 <= i <= |zoomIds|
      invariant CollectZooms(env, course, checkCamera, target, zoomIds[..i]) == Some((students, teachers))
      invariant db.installations == old(db.installations)
    {
      assert zoomIds[..i + 1][..i] == zoomIds[..i];
      var meetings := DayMeetings(env.meetings, zoomIds[i], target);
      if |meetings| > 0 {
        if zoomIds[i] in env.zoomFaults {
          assert zoomIds[..i + 1][i] == zoomIds[i];
          assert CollectZooms(env, course, checkCamera, target, zoomIds[..i + 1]).None?;
          FailureSticks(env, course, checkCamera, target, zoomIds, i + 1);
          return CollectFailed;
        }
        var s, t := GetStudentsByMeetingId(env, course, checkCamera, DetailIds(meetings));
        students, teachers := students + s, teachers + t;
      }
      i := i + 1;
    }
    assert zoomIds[..i] == zoomIds;
    db.installations := SetCursor(db.installations, course, target);
    outcome := Collected(students, teachers, formatDate(target));
  }

  /** Once an instance fails, the loop's result is that failure. */
  lemma {:induction false} FailureSticks(env: Env, course: int, checkCamera: bool, target: int,
                                         zoomIds: seq<int>, i: nat)
    requires i <= |zoomIds| && CollectZooms(env, course, checkCamera, target, zoomIds[..i]).None?
    ensures CollectZooms(env, course, checkCamera, target, zoomIds).None?
    decreases |zoomIds| - i
  {
    if i < |zoomIds| {
      assert zoomIds[..i + 1][..i] == zoomIds[..i];
      FailureSticks(env, course, checkCamera, target, zoomIds, i + 1);
    } else {
      assert zoomIds[..i] == zoomIds;
    }
  }
}
