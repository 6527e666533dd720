/** The participant records the recollector hands to persistence (`TeacherAttendance`, and its
    student twin). A teacher record lacks three accessors that the classifier calls; reading
    them is modelled as `None`, standing for the PHP `\Error` such a call raises. */
module TeacherAttendance {
  import opened Wrappers

  /** One aggregated row of Zoom participation, as the attendance query returns it; nullable
      columns are `Option`s. */
  datatype ParticipantRow = ParticipantRow(
    userId: int,
    email: string,
    name: Option<string>,
    groupId: Option<int>,
    duration: Option<int>,
    joinTime: Option<int>,
    leaveTime: Option<int>,
    meetingId: Option<string>)

  datatype Role = Student | Teacher

  datatype Attendance = Attendance(
    role: Role,
    userId: int,
    email: string,
    name: string,
    groupId: int,
    duration: int,
    hasVideo: bool,
    joinTime: int,
    leaveTime: int,
    meetingId: string)

  /** The constructor: missing columns get their defaults, and `hasVideo` is kept as given. */
  function NewAttendance(role: Role, row: ParticipantRow, hasVideo: bool): (a: Attendance)
    ensures a.role == role && a.userId == row.userId && a.email == row.email
    ensures a.hasVideo == hasVideo
    ensures a.name == (if row.name.Some? then row.name.value else "Unknown")
    ensures a.groupId == (if row.groupId.Some? then row.groupId.value else 0)
    ensures a.duration == (if row.duration.Some? then row.duration.value else 0)
    ensures a.joinTime == (if row.joinTime.Some? then row.joinTime.value else 0)
    ensures a.leaveTime == (if row.leaveTime.Some? then row.leaveTime.value else 0)
    ensures a.meetingId == (if row.meetingId.Some? then row.meetingId.value else "")
  {
    Attendance(role, row.userId, row.email, row.name.GetOr("Unknown"), row.groupId.GetOr(0),
               row.duration.GetOr(0), hasVideo, row.joinTime.GetOr(0), row.leaveTime.GetOr(0),
               row.meetingId.GetOr(""))
  }

  // Accessors every record has.
  function GetUserId(a: Attendance): int { a.userId }
  function GetEmail(a: Attendance): string { a.email }
  function GetName(a: Attendance): string { a.name }
  function GetGroupId(a: Attendance): int { a.groupId }
  function GetJoinTime(a: Attendance): int { a.joinTime }
  function GetMeetingId(a: Attendance): string { a.meetingId }

  // Accessors only student records have.
  function GetDuration(a: Attendance): (r: Option<int>)
    ensures r.None? <==> a.role == Teacher
  {
    if a.role == Teacher then None else Some(a.duration)
  }

  function GetLeaveTime(a: Attendance): (r: Option<int>)
    ensures r.None? <==> a.role == Teacher
  {
    if a.role == Teacher then None else Some(a.leaveTime)
  }

  function GetHasVideo(a: Attendance): (r: Option<bool>)
    ensures r.None? <==> a.role == Teacher
  {
    if a.role == Teacher then None else Some(a.hasVideo)
  }

  /** Every accessor hands back what the constructor stored, so a record built from a row
      reads back that row's values (or the defaults). */
  lemma AccessorsReadBackRow(role: Role, row: ParticipantRow, hasVideo: bool)
    ensures var a := NewAttendance(role, row, hasVideo);
      GetUserId(a) == row.userId && GetEmail(a) == row.email
      && GetGroupId(a) == row.groupId.GetOr(0)
      && GetJoinTime(a) == row.joinTime.GetOr(0)
      && GetMeetingId(a) == row.meetingId.GetOr("")
      && GetName(a) == row.name.GetOr("Unknown")
      && (role == Student ==> GetDuration(a) == Some(row.duration.GetOr(0))
                              && GetLeaveTime(a) == Some(row.leaveTime.GetOr(0))
                              && GetHasVideo(a) == Some(hasVideo))
      && (role == Teacher ==> GetDuration(a).None? && GetLeaveTime(a).None? && GetHasVideo(a).None?)
  {
  }
}
