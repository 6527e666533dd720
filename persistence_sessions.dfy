/** `AttendancePersistence::getOrCreateSession`, `createSession` and
    `updateSessionDescription`: a cohort is attached to the nearest existing attendance session
    of its group within a day of its date, else to the nearest groupless one, else to a new
    session built from the Zoom meeting's details. A reused session is tagged once with a
    marker in its description. */
module PersistenceSessions {
  import opened Wrappers
  import opened Php
  import opened Store
  import opened PersistenceStatus

  const ONE_DAY := 86400
  const GROUP_MARKER := "asistencia de sesion automatica"
  const NO_GROUP_MARKER := "sesion no normalizada"

  function Marker(hasGroup: bool): string {
    if hasGroup then GROUP_MARKER else NO_GROUP_MARKER
  }

  lemma MarkersAreLowercase(hasGroup: bool)
    ensures Lower(Marker(hasGroup)) == Marker(hasGroup)
  {
    var m := Marker(hasGroup);
    forall i | 0 <= i < |m| ensures Lower(m)[i] == m[i] {
      assert !IsUpper(m[i]);
    }
  }

  // ---------------------------------------------------------------- description marker

  /** The description `updateSessionDescription` writes, or `None` when the marker is
      already there, in any letter case. */
  function MarkedDescription(current: string, hasGroup: bool): (r: Option<string>)
    ensures r.None? <==> ContainsIgnoreCase(current, Marker(hasGroup))
  {
    if ContainsIgnoreCase(current, Marker(hasGroup)) then None
    else Some(Trim(current + " - " + Marker(hasGroup)))
  }

  /** Marking is idempotent: the written description holds the marker, so a second call
      writes nothing. */
  lemma MarkedDescriptionIsMarked(current: string, hasGroup: bool)
    requires MarkedDescription(current, hasGroup).Some?
    ensures MarkedDescription(MarkedDescription(current, hasGroup).value, hasGroup).None?
  {
    var m := Marker(hasGroup);
    TrimKeepsSuffix(current + " - ", m);
    var y :| Trim(current + " - " + m) == y + m;
    LowerConcat(y, m);
    MarkersAreLowercase(hasGroup);
    ContainsSuffix(Lower(y), m);
  }

  /** `set_field('attendance_sessions', field, value, ['id' => id])`: every row with the id. */
  function SetDescription(sessions: seq<Session>, id: int, d: string): (r: seq<Session>)
    ensures |r| == |sessions|
    ensures forall i :: 0 <= i < |r| ==>
              r[i] == if sessions[i].id == id then sessions[i].(description := d) else sessions[i]
  {
    seq(|sessions|, i requires 0 <= i < |sessions| =>
      if sessions[i].id == id then sessions[i].(description := d) else sessions[i])
  }

  function UpdateDescription(sessions: seq<Session>, id: int, current: string, hasGroup: bool)
    : seq<Session>
  {
    match MarkedDescription(current, hasGroup)
    case None => sessions
    case Some(d) => SetDescription(sessions, id, d)
  }

  /** Marking changes descriptions only, and only of rows with the given id. */
  lemma UpdateDescriptionOnlyDescriptions(sessions: seq<Session>, id: int, current: string, hasGroup: bool)
    ensures var r := UpdateDescription(sessions, id, current, hasGroup);
      |r| == |sessions|
      && forall i :: 0 <= i < |r| ==>
           r[i] == sessions[i].(description := r[i].description)
           && (sessions[i].id != id ==> r[i] == sessions[i])
  {
  }

  /** `updateSessionDescription` on the sessions table. */
  method UpdateSessionDescription(db: Database, id: int, current: string, hasGroup: bool)
    modifies db`sessions
    ensures db.sessions == UpdateDescription(old(db.sessions), id, current, hasGroup)
  {
    var d := MarkedDescription(current, hasGroup);
    if d.Some? {
      db.sessions := SetDescription(db.sessions, id, d.value);
    }
  }

  // ---------------------------------------------------------------- nearest session

  /** The filter of the two session queries: same activity, within a day of `date` either
      way, and of group `g` (strategy 1) or groupless (strategy 2, `group = None`). */
  predicate Candidate(s: Session, attendanceId: int, group: Option<int>, date: int) {
    s.attendanceId == attendanceId
    && date - ONE_DAY <= s.sessDate <= date + ONE_DAY
    && s.groupId == group.GetOr(0)
  }

  /** The scan for the nearest among the first `n` sessions: a later candidate replaces the
      one held only when it is strictly nearer. */
  function NearestBefore(sessions: seq<Session>, n: nat, attendanceId: int, group: Option<int>, date: int)
    : (r: Option<nat>)
    requires n <= |sessions|
    ensures r.Some? ==> r.value < n
  {
    if n == 0 then None
    else
      var prev := NearestBefore(sessions, n - 1, attendanceId, group, date);
      if Candidate(sessions[n - 1], attendanceId, group, date)
         && (prev.None? || Abs(sessions[n - 1].sessDate - date) < Abs(sessions[prev.value].sessDate - date))
      then Some(n - 1)
      else prev
  }

  /** What the scan holds after `n` sessions: nothing exactly when none is a candidate,
      otherwise a candidate no farther than any other and strictly nearer than every earlier
      one. */
  lemma {:induction false} NearestBeforeSpec(sessions: seq<Session>, n: nat, attendanceId: int, group: Option<int>,
                                             date: int)
    requires n <= |sessions|
    ensures var r := NearestBefore(sessions, n, attendanceId, group, date);
      (r.None? <==> forall j :: 0 <= j < n ==> !Candidate(sessions[j], attendanceId, group, date))
      && (r.Some? ==>
            Candidate(sessions[r.value], attendanceId, group, date)
            && (forall j :: 0 <= j < n && Candidate(sessions[j], attendanceId, group, date) ==>
                  Abs(sessions[r.value].sessDate - date) <= Abs(sessions[j].sessDate - date))
            && (forall j :: 0 <= j < r.value && Candidate(sessions[j], attendanceId, group, date) ==>
                  Abs(sessions[r.value].sessDate - date) < Abs(sessions[j].sessDate - date)))
  {
    if n > 0 {
      NearestBeforeSpec(sessions, n - 1, attendanceId, group, date);
    }
  }

  /** `ORDER BY ABS(sessdate - date) ASC LIMIT 1`: the candidate nearest to `date`; among
      equally near candidates the first in table order. */
  function Nearest(sessions: seq<Session>, attendanceId: int, group: Option<int>, date: int)
    : (r: Option<nat>)
    ensures r.None? <==> forall j :: 0 <= j < |sessions| ==> !Candidate(sessions[j], attendanceId, group, date)
    ensures r.Some? ==>
      r.value < |sessions| && Candidate(sessions[r.value], attendanceId, group, date)
      && (forall j :: 0 <= j < |sessions| && Candidate(sessions[j], attendanceId, group, date) ==>
            Abs(sessions[r.value].sessDate - date) <= Abs(sessions[j].sessDate - date))
      && (forall j :: 0 <= j < r.value && Candidate(sessions[j], attendanceId, group, date) ==>
            Abs(sessions[r.value].sessDate - date) < Abs(sessions[j].sessDate - date))
  {
    NearestBeforeSpec(sessions, |sessions|, attendanceId, group, date);
    NearestBefore(sessions, |sessions|, attendanceId, group, date)
  }

  /** The session the two strategies find, with whether it was found by group. Strategy 1
      runs only for a non-zero group. */
  function FindSession(sessions: seq<Session>, attendanceId: int, groupId: int, date: int)
    : (r: Option<(nat, bool)>)
  {
    var byGroup := if groupId != 0 then Nearest(sessions, attendanceId, Some(groupId), date) else None;
    if byGroup.Some? then Some((byGroup.value, true))
    else match Nearest(sessions, attendanceId, None, date)
      case Some(i) => Some((i, false))
      case None => None
  }

  /** What the search finds: a session of the cohort's group when the group is non-zero and one
      lies within a day; otherwise a groupless one within a day; otherwise nothing, exactly
      when neither kind lies within a day. */
  lemma FindSessionStrategies(sessions: seq<Session>, attendanceId: int, groupId: int, date: int)
    ensures var r := FindSession(sessions, attendanceId, groupId, date);
      (r.Some? ==> r.value.0 < |sessions|
                   && Candidate(sessions[r.value.0], attendanceId, if r.value.1 then Some(groupId) else None, date)
                   && (r.value.1 ==> groupId != 0))
      && (r.None? <==> (groupId == 0 || forall j :: 0 <= j < |sessions| ==> !Candidate(sessions[j], attendanceId, Some(groupId), date))
                       && forall j :: 0 <= j < |sessions| ==> !Candidate(sessions[j], attendanceId, None, date))
      && (groupId != 0 && (exists j :: 0 <= j < |sessions| && Candidate(sessions[j], attendanceId, Some(groupId), date))
          ==> r.Some? && r.value.1)
  {
  }

  // ---------------------------------------------------------------- creation

  /** The description of an automatically created session: the topic, when not empty, with a
      " - " separator, then the irregularity flag, if any, in brackets. */
  function NewDescription(m: MeetingDetails): string {
    var prefix := if !Empty(m.topic) then m.topic + " - " else "";
    var irregular := DetectIrregularMeeting(m.startTime, m.endTime, m.participantsCount.GetOr(0));
    prefix + (if irregular.0 then " [" + irregular.1 + "]" else "")
  }

  /** `createSession`: the meeting's details must exist, have non-zero timestamps, end after
      they start and last at least one whole minute; the new session starts at the meeting's
      start, lasts its whole minutes, and gets the next id. The cohort date is not used. */
  function CreateSession(b: Book, meetings: seq<MeetingDetails>, attendanceId: int, meetingId: string,
                         groupId: int): (r: (Book, Option<int>))
  {
    match MeetingByMeetingId(meetings, meetingId)
    case None => (b, None)
    case Some(m) =>
      if m.startTime == 0 || m.endTime == 0 || m.endTime <= m.startTime then (b, None)
      else
        var minutes := TruncDiv(m.endTime - m.startTime, 60);
        if minutes <= 0 then (b, None)
        else
          var s := Session(b.nextSessionId, attendanceId, groupId, m.startTime, minutes,
                           NewDescription(m), None, 0, 0, 0, 0, 0);
          (b.(sessions := b.sessions + [s], nextSessionId := b.nextSessionId + 1), Some(b.nextSessionId))
  }

  /** A created session starts at the meeting's start, lasts its whole minutes (the seconds
      left over are dropped) and belongs to the requested activity and group; creation fails
      exactly when the details are missing, a timestamp is zero, or the meeting is shorter
      than a minute. */
  lemma CreatedSessionShape(b: Book, meetings: seq<MeetingDetails>, attendanceId: int, meetingId: string,
                            groupId: int)
    ensures var r := CreateSession(b, meetings, attendanceId, meetingId, groupId);
      var m := MeetingByMeetingId(meetings, meetingId);
      (r.1.None? <==> (m.None? || m.value.startTime == 0 || m.value.endTime == 0
                       || m.value.endTime - m.value.startTime < 60))
      && (r.1.None? ==> r.0 == b)
      && (r.1.Some? ==>
            var s := r.0.sessions[|b.sessions|];
            r.0.sessions == b.sessions + [s] && r.0.logs == b.logs
            && r.1.value == s.id == b.nextSessionId && r.0.nextSessionId == b.nextSessionId + 1
            && s.attendanceId == attendanceId && s.groupId == groupId
            && s.sessDate == m.value.startTime && s.lastTaken.None? && s.lastTakenBy == 0
            && s.studentsCanMark == 0 && s.automark == 0 && s.calendarEvent == 0 && s.includeQrCode == 0
            && 1 <= s.duration && s.duration * 60 <= m.value.endTime - m.value.startTime < (s.duration + 1) * 60)
  {
    var r := CreateSession(b, meetings, attendanceId, meetingId, groupId);
    var m := MeetingByMeetingId(meetings, meetingId);
    if m.Some? && m.value.startTime != 0 && m.value.endTime != 0 && m.value.endTime > m.value.startTime {
      var secs := m.value.endTime - m.value.startTime;
      assert TruncDiv(secs, 60) == secs / 60;
    }
  }

  // ---------------------------------------------------------------- get or create

  /** Recurring meetings share a meeting id, and the details lookup takes the first row: a
      session created for a later occurrence starts at the first occurrence's start time. */
  lemma RecurringMeetingTakesFirstDetails(b: Book, meetings: seq<MeetingDetails>, attendanceId: int, groupId: int,
                                          i: nat, k: nat)
    requires i < k < |meetings| && meetings[i].meetingId == meetings[k].meetingId
    requires forall j :: 0 <= j < i ==> meetings[j].meetingId != meetings[i].meetingId
    ensures var r := CreateSession(b, meetings, attendanceId, meetings[k].meetingId, groupId);
      r.1.Some? ==> r.0.sessions[|b.sessions|].sessDate == meetings[i].startTime
  {
    CreatedSessionShape(b, meetings, attendanceId, meetings[k].meetingId, groupId);
  }

  /** `getOrCreateSession` on the attendance tables: the session id, or `None` when no
      session was found and none could be created. */
  function GetOrCreate(b: Book, meetings: seq<MeetingDetails>, attendanceId: int, meetingId: string,
                       groupId: int, date: int): (Book, Option<int>)
  {
    match FindSession(b.sessions, attendanceId, groupId, date)
    case Some((i, hasGroup)) =>
      var s := b.sessions[i];
      (b.(sessions := UpdateDescription(b.sessions, s.id, s.description, hasGroup)), Some(s.id))
    case None => CreateSession(b, meetings, attendanceId, meetingId, groupId)
  }

  /** The facts `GetOrCreateKeepsBook` states, for one outcome. */
  ghost predicate KeepsBook(b: Book, b': Book, id: Option<int>) {
    SessionsValid(b') && b'.logs == b.logs && b.nextSessionId <= b'.nextSessionId
    && |b.sessions| <= |b'.sessions|
    && (forall i :: 0 <= i < |b.sessions| ==> b'.sessions[i] == b.sessions[i].(description := b'.sessions[i].description))
    && (id.Some? ==> exists i :: 0 <= i < |b'.sessions| && b'.sessions[i].id == id.value)
  }

  lemma SameIdsStayValid(b: Book, sessions: seq<Session>)
    requires SessionsValid(b) && |sessions| == |b.sessions|
    requires forall k :: 0 <= k < |sessions| ==> sessions[k].id == b.sessions[k].id
    ensures SessionsValid(b.(sessions := sessions))
  {
  }

  lemma ReuseKeepsBook(b: Book, i: nat, hasGroup: bool)
    requires SessionsValid(b) && i < |b.sessions|
    ensures var s := b.sessions[i];
      KeepsBook(b, b.(sessions := UpdateDescription(b.sessions, s.id, s.description, hasGroup)), Some(s.id))
  {
    var s := b.sessions[i];
    var sessions := UpdateDescription(b.sessions, s.id, s.description, hasGroup);
    UpdateDescriptionOnlyDescriptions(b.sessions, s.id, s.description, hasGroup);
    SameIdsStayValid(b, sessions);
    assert sessions[i].id == s.id;
  }

  lemma CreateKeepsBook(b: Book, meetings: seq<MeetingDetails>, attendanceId: int, meetingId: string,
                        groupId: int)
    requires SessionsValid(b)
    ensures var (b', id) := CreateSession(b, meetings, attendanceId, meetingId, groupId);
      KeepsBook(b, b', id)
  {
    var (b', id) := CreateSession(b, meetings, attendanceId, meetingId, groupId);
    CreatedSessionShape(b, meetings, attendanceId, meetingId, groupId);
    if id.Some? {
      assert b'.sessions[|b.sessions|].id == id.value;
    }
  }

  /** Resolution keeps the session table well formed, only appends, changes nothing but
      descriptions of existing rows, never touches the log, and returns the id of a session
      that is in the table afterwards. */
  lemma GetOrCreateKeepsBook(b: Book, meetings: seq<MeetingDetails>, attendanceId: int, meetingId: string,
                             groupId: int, date: int)
    requires SessionsValid(b)
    ensures var (b', id) := GetOrCreate(b, meetings, attendanceId, meetingId, groupId, date);
      SessionsValid(b') && b'.logs == b.logs && b.nextSessionId <= b'.nextSessionId
      && |b.sessions| <= |b'.sessions|
      && (forall i :: 0 <= i < |b.sessions| ==> b'.sessions[i] == b.sessions[i].(description := b'.sessions[i].description))
      && (id.Some? ==> exists i :: 0 <= i < |b'.sessions| && b'.sessions[i].id == id.value)
  {
    match FindSession(b.sessions, attendanceId, groupId, date)
    case Some((i, hasGroup)) =>
      FindSessionStrategies(b.sessions, attendanceId, groupId, date);
      ReuseKeepsBook(b, i, hasGroup);
    case None =>
      CreateKeepsBook(b, meetings, attendanceId, meetingId, groupId);
  }

  /** The search reads only activity, group and date, never the description. */
  lemma NearestIgnoresDescriptions(s1: seq<Session>, s2: seq<Session>, attendanceId: int,
                                   group: Option<int>, date: int)
    requires |s1| == |s2|
    requires forall i :: 0 <= i < |s1| ==> s2[i] == s1[i].(description := s2[i].description)
    ensures Nearest(s1, attendanceId, group, date) == Nearest(s2, attendanceId, group, date)
  {
    NearestBeforeIgnoresDescriptions(s1, s2, |s1|, attendanceId, group, date);
  }

  lemma {:induction false} NearestBeforeIgnoresDescriptions(s1: seq<Session>, s2: seq<Session>, n: nat,
                                                           attendanceId: int, group: Option<int>, date: int)
    requires n <= |s1| == |s2|
    requires forall i :: 0 <= i < |s1| ==> s2[i] == s1[i].(description := s2[i].description)
    ensures NearestBefore(s1, n, attendanceId, group, date) == NearestBefore(s2, n, attendanceId, group, date)
  {
    if n > 0 {
      NearestBeforeIgnoresDescriptions(s1, s2, n - 1, attendanceId, group, date);
      assert s2[n - 1] == s1[n - 1].(description := s2[n - 1].description);
    }
  }

  /** Reusing an existing session is stable: running the resolution again for the same
      cohort finds the same session and changes nothing, because the marker is now there. */
  lemma ReuseIsIdempotent(b: Book, meetings: seq<MeetingDetails>, attendanceId: int, meetingId: string,
                          groupId: int, date: int)
    requires SessionsValid(b)
    requires FindSession(b.sessions, attendanceId, groupId, date).Some?
    ensures var (b1, id1) := GetOrCreate(b, meetings, attendanceId, meetingId, groupId, date);
      GetOrCreate(b1, meetings, attendanceId, meetingId, groupId, date) == (b1, id1)
  {
    var (b1, id1) := GetOrCreate(b, meetings, attendanceId, meetingId, groupId, date);
    var (i, hasGroup) := FindSession(b.sessions, attendanceId, groupId, date).value;
    GetOrCreateKeepsBook(b, meetings, attendanceId, meetingId, groupId, date);
    NearestIgnoresDescriptions(b.sessions, b1.sessions, attendanceId, Some(groupId), date);
    NearestIgnoresDescriptions(b.sessions, b1.sessions, attendanceId, None, date);
    assert FindSession(b1.sessions, attendanceId, groupId, date) == Some((i, hasGroup));
    var s := b.sessions[i];
    match MarkedDescription(s.description, hasGroup)
    case None =>
    case Some(d) =>
      MarkedDescriptionIsMarked(s.description, hasGroup);
      assert b1.sessions[i].description == d;
      assert b1.sessions == UpdateDescription(b1.sessions, s.id, d, hasGroup);
  }

  /** `getOrCreateSession` against the database. */
  method GetOrCreateSession(db: Database, meetings: seq<MeetingDetails>, attendanceId: int,
                            meetingId: string, groupId: int, date: int) returns (id: Option<int>)
    modifies db`sessions, db`nextSessionId
    ensures (db.Attendance(), id)
            == GetOrCreate(old(db.Attendance()), meetings, attendanceId, meetingId, groupId, date)
  {
    var found := FindSession(db.sessions, attendanceId, groupId, date);
    if found.Some? {
      var s := db.sessions[found.value.0];
      UpdateSessionDescription(db, s.id, s.description, found.value.1);
      id := Some(s.id);
    } else {
      var created := CreateSession(db.Attendance(), meetings, attendanceId, meetingId, groupId);
      db.sessions, db.nextSessionId := created.0.sessions, created.0.nextSessionId;
      id := created.1;
    }
  }
}
