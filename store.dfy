/** The Moodle tables the plugin reads and writes. Tables the plugin changes (its own
    installations, attendance sessions and logs, the recording queue and backup rows) are fields
    of the `Database` class; tables it only reads form the `Env` value. Row order is table
    order: a lookup that may match several rows returns the first, as Moodle's `get_record`
    does. A nullable column is an `Option`; a NULL session group is stored as 0, since every
    query the plugin runs treats the two alike. */
module Store {
  import opened Wrappers
  import opened TeacherAttendance

  /** One `ortattendance` row: an installation of the plugin in a course. */
  datatype Installation = Installation(
    id: int,
    course: int,
    startDate: int,
    endDate: int,
    startTime: int,
    endTime: int,
    minPercentage: int,
    lateTolerance: Option<int>,
    cameraRequired: bool,
    backupRecordings: bool,
    lastProcessedDate: Option<int>,
    processingStatus: string)

  /** One `attendance_sessions` row (the columns the plugin sets or reads). */
  datatype Session = Session(
    id: int,
    attendanceId: int,
    groupId: int,
    sessDate: int,
    duration: int,
    description: string,
    lastTaken: Option<int>,
    lastTakenBy: int,
    studentsCanMark: int,
    automark: int,
    calendarEvent: int,
    includeQrCode: int)

  /** One `attendance_log` row. */
  datatype LogRow = LogRow(
    sessionId: int,
    studentId: int,
    statusId: int,
    timeTaken: int,
    takenBy: int,
    remarks: string)

  /** One `ortattendance_queue` row. */
  datatype QueueRow = QueueRow(
    id: int,
    botId: int,
    uuid: string,
    priority: int,
    processed: int,
    error: Option<string>,
    timeCreated: int)

  /** One `ortattendance_backup` row; only its owner matters here. */
  datatype BackupRow = BackupRow(id: int, botId: int)

  // Read-only tables.
  datatype AttendanceActivity = AttendanceActivity(id: int, course: int)
  datatype StatusRecord = StatusRecord(id: int, attendanceId: int, acronym: string)
  datatype MeetingDetails = MeetingDetails(
    id: int,
    zoomId: int,
    meetingId: string,
    topic: string,
    startTime: int,
    endTime: int,
    duration: int,
    participantsCount: Option<int>)
  datatype User = User(id: int, firstname: string, lastname: string, deleted: bool)
  /** A `role_assignments` row: a role given to a user in a context (a course, a category or
      the whole site). */
  datatype RoleAssignment = RoleAssignment(userId: int, contextId: int, roleId: int)
  /** A `zoom_meeting_participants` row, reduced to what the camera query reads. */
  datatype CameraRow = CameraRow(detailsId: int, userId: int, hasVideo: bool)
  /** A live course module of the Zoom activity: its course and Zoom instance id. */
  datatype ZoomModule = ZoomModule(course: int, instance: int)

  /** How the database compares text: `equal` is the `=` of the column's collation and `lower`
      is SQL `LOWER`. Both belong to the database, not to the plugin: PostgreSQL's `LOWER` folds
      every Unicode letter, and MySQL's default collation makes `=` itself ignore case and
      accents. */
  datatype Collation = Collation(equal: (string, string) -> bool, lower: string -> string)

  /** Everything the core only reads. The aggregated participant query is an injected
      function of the meeting-detail ids, giving its rows in the order the database returns
      them; `courseContexts` gives the ids of a course's context and of all its parent
      contexts; `zoomFaults` names the Zoom instances whose participant collection raises a
      database exception, `persistFault` makes the attendance-activity lookup of persistence
      raise one, and `sessionQueryFaults` names the cohorts (by key) whose first session query
      raises one. */
  datatype Env = Env(
    attendances: seq<AttendanceActivity>,
    statuses: seq<StatusRecord>,
    meetings: seq<MeetingDetails>,
    users: seq<User>,
    collation: Collation,
    roles: seq<RoleAssignment>,
    courseContexts: int -> seq<int>,
    cameraRows: seq<CameraRow>,
    zoomModules: seq<ZoomModule>,
    groupMembers: int -> seq<int>,
    enrolled: int -> seq<int>,
    attendanceData: seq<int> -> seq<ParticipantRow>,
    zoomFaults: set<int>,
    persistFault: bool,
    sessionQueryFaults: set<string>)

  /** The attendance tables the reconciler changes, as one value. */
  datatype Book = Book(sessions: seq<Session>, nextSessionId: int, logs: seq<LogRow>)

  /** Session ids are positive, distinct and below the next id to hand out. */
  ghost predicate SessionsValid(b: Book) {
    1 <= b.nextSessionId
    && (forall i :: 0 <= i < |b.sessions| ==> 1 <= b.sessions[i].id < b.nextSessionId)
    && (forall i, j :: 0 <= i < j < |b.sessions| ==> b.sessions[i].id != b.sessions[j].id)
  }

  ghost predicate QueueValid(queue: seq<QueueRow>, nextQueueId: int) {
    1 <= nextQueueId
    && (forall i :: 0 <= i < |queue| ==> 1 <= queue[i].id < nextQueueId)
    && (forall i, j :: 0 <= i < j < |queue| ==> queue[i].id != queue[j].id)
  }

  /** Installation ids are positive, distinct and below the next id to hand out. */
  ghost predicate InstallationsValid(rows: seq<Installation>, nextId: int) {
    1 <= nextId
    && (forall i :: 0 <= i < |rows| ==> 1 <= rows[i].id < nextId)
    && (forall i, j :: 0 <= i < j < |rows| ==> rows[i].id != rows[j].id)
  }

  class Database {
    var installations: seq<Installation>
    var sessions: seq<Session>
    var nextSessionId: int
    var logs: seq<LogRow>
    var queue: seq<QueueRow>
    var nextQueueId: int
    var backups: seq<BackupRow>
    var nextInstallationId: int

    function Attendance(): Book
      reads this
    {
      Book(sessions, nextSessionId, logs)
    }

    ghost predicate Valid()
      reads this
    {
      SessionsValid(Attendance())
      && LogsUnique(logs)
      && QueueValid(queue, nextQueueId)
      && InstallationsValid(installations, nextInstallationId)
    }

    constructor ()
      ensures Valid()
      ensures installations == [] && sessions == [] && logs == [] && queue == [] && backups == []
    {
      installations, sessions, logs, queue, backups := [], [], [], [], [];
      nextSessionId, nextQueueId, nextInstallationId := 1, 1, 1;
    }
  }

  // ---------------------------------------------------------------- lookups

  /** `get_record('ortattendance', ['course' => c])`: the first installation of the course. */
  function InstallationByCourse(rows: seq<Installation>, course: int): (r: Option<nat>)
    ensures r.Some? ==> r.value < |rows| && rows[r.value].course == course
                        && forall j :: 0 <= j < r.value ==> rows[j].course != course
    ensures r.None? ==> forall j :: 0 <= j < |rows| ==> rows[j].course != course
  {
    if |rows| == 0 then None
    else if rows[0].course == course then Some(0)
    else match InstallationByCourse(rows[1..], course)
      case Some(k) => Some(k + 1)
      case None => None
  }

  /** `get_record('ortattendance', ['id' => id])`. */
  function InstallationById(rows: seq<Installation>, id: int): (r: Option<nat>)
    ensures r.Some? ==> r.value < |rows| && rows[r.value].id == id
                        && forall j :: 0 <= j < r.value ==> rows[j].id != id
    ensures r.None? ==> forall j :: 0 <= j < |rows| ==> rows[j].id != id
  {
    if |rows| == 0 then None
    else if rows[0].id == id then Some(0)
    else match InstallationById(rows[1..], id)
      case Some(k) => Some(k + 1)
      case None => None
  }

  /** `get_record('attendance_sessions', ['id' => id])`. */
  function SessionById(rows: seq<Session>, id: int): (r: Option<nat>)
    ensures r.Some? ==> r.value < |rows| && rows[r.value].id == id
                        && forall j :: 0 <= j < r.value ==> rows[j].id != id
    ensures r.None? ==> forall j :: 0 <= j < |rows| ==> rows[j].id != id
  {
    if |rows| == 0 then None
    else if rows[0].id == id then Some(0)
    else match SessionById(rows[1..], id)
      case Some(k) => Some(k + 1)
      case None => None
  }

  /** `get_record('zoom_meeting_details', ['meeting_id' => m])`: recurring meetings share a
      meeting id, and the first row wins. */
  function MeetingByMeetingId(rows: seq<MeetingDetails>, meetingId: string): (r: Option<MeetingDetails>)
    ensures r.Some? ==> r.value in rows && r.value.meetingId == meetingId
    ensures r.None? ==> forall j :: 0 <= j < |rows| ==> rows[j].meetingId != meetingId
    ensures forall i :: 0 <= i < |rows| && rows[i].meetingId == meetingId
                        && (forall j :: 0 <= j < i ==> rows[j].meetingId != meetingId)
                        ==> r == Some(rows[i])
  {
    if |rows| == 0 then None
    else if rows[0].meetingId == meetingId then Some(rows[0])
    else MeetingByMeetingId(rows[1..], meetingId)
  }

  /** `get_record('attendance_log', ['sessionid' => s, 'studentid' => u])`. */
  function LogIndex(rows: seq<LogRow>, sessionId: int, userId: int): (r: Option<nat>)
    ensures r.Some? ==> r.value < |rows| && rows[r.value].sessionId == sessionId
                        && rows[r.value].studentId == userId
                        && forall j :: 0 <= j < r.value ==> rows[j].sessionId != sessionId || rows[j].studentId != userId
    ensures r.None? <==> !HasLog(rows, sessionId, userId)
  {
    if |rows| == 0 then None
    else if rows[0].sessionId == sessionId && rows[0].studentId == userId then Some(0)
    else match LogIndex(rows[1..], sessionId, userId)
      case Some(k) => Some(k + 1)
      case None => None
  }

  /** `record_exists('attendance_log', …)`. */
  predicate HasLog(rows: seq<LogRow>, sessionId: int, userId: int) {
    exists i :: 0 <= i < |rows| && rows[i].sessionId == sessionId && rows[i].studentId == userId
  }

  /** At most one log row per (session, user). */
  ghost predicate LogsUnique(rows: seq<LogRow>) {
    forall i, j :: 0 <= i < j < |rows| ==>
      rows[i].sessionId != rows[j].sessionId || rows[i].studentId != rows[j].studentId
  }
}
