/** The activity callbacks of `lib.php`: creating, updating and deleting an installation,
    and the features the module declares. */
module Lib {
  import opened Wrappers
  import opened Store

  /** Seconds since midnight of an hour and a minute, as `start_time` and `end_time` store
      them. */
  function EncodeTime(hour: int, minute: int): int
  {
    hour * 3600 + minute * 60
  }

  /** Within an hour's minutes the encoding loses nothing... */
  lemma EncodeTimeInjective(h1: int, m1: int, h2: int, m2: int)
    requires 0 <= m1 < 60 && 0 <= m2 < 60
    ensures EncodeTime(h1, m1) == EncodeTime(h2, m2) <==> h1 == h2 && m1 == m2
  {
    if EncodeTime(h1, m1) == EncodeTime(h2, m2) && h1 != h2 {
      EncodeTimeOrder(h1, m1, h2, m2);
      EncodeTimeOrder(h2, m2, h1, m1);
    }
  }

  /** ...and it orders times as the clock does: by hour, then by minute. */
  lemma EncodeTimeOrder(h1: int, m1: int, h2: int, m2: int)
    requires 0 <= m1 < 60 && 0 <= m2 < 60
    ensures EncodeTime(h1, m1) < EncodeTime(h2, m2) <==> h1 < h2 || (h1 == h2 && m1 < m2)
  {
    if h1 < h2 {
      assert h1 * 3600 + 3600 <= h2 * 3600;
    } else if h1 > h2 {
      assert h2 * 3600 + 3600 <= h1 * 3600;
    }
  }

  /** The form data `add_instance` and `update_instance` receive. */
  datatype InstanceData = InstanceData(
    instance: int,
    course: int,
    startDate: int,
    endDate: int,
    startHour: int,
    startMinute: int,
    endHour: int,
    endMinute: int,
    minPercentage: int,
    lateTolerance: int,
    cameraRequired: bool,
    backupRecordings: bool)

  /** The row the form data describes, with the given id and processing state. */
  function RowOf(data: InstanceData, id: int, lastProcessedDate: Option<int>, processingStatus: string): (row: Installation)
    ensures row.id == id && row.course == data.course
    ensures row.startTime == EncodeTime(data.startHour, data.startMinute)
    ensures row.endTime == EncodeTime(data.endHour, data.endMinute)
    ensures row.lastProcessedDate == lastProcessedDate && row.processingStatus == processingStatus
  {
    Installation(id, data.course, data.startDate, data.endDate,
                 EncodeTime(data.startHour, data.startMinute), EncodeTime(data.endHour, data.endMinute),
                 data.minPercentage, Some(data.lateTolerance), data.cameraRequired, data.backupRecordings,
                 processingStatus := processingStatus, lastProcessedDate := lastProcessedDate)
  }

  /** `ortattendance_add_instance`: inserts the installation, with a new id, nothing processed
      yet and the column default status "idle", and returns the id. */
  method AddInstance(db: Database, data: InstanceData) returns (id: int)
    requires db.Valid()
    modifies db`installations, db`nextInstallationId
    ensures db.Valid()
    ensures id == old(db.nextInstallationId) && db.nextInstallationId == id + 1
    ensures db.installations == old(db.installations) + [RowOf(data, id, None, "idle")]
  {
    id := db.nextInstallationId;
    db.installations := db.installations + [RowOf(data, id, None, "idle")];
    db.nextInstallationId := id + 1;
  }

  /** `ortattendance_update_instance`: rewrites the form's columns of the row whose id is
      the form's `instance`, keeping its processing state, and returns true; with no such
      row nothing changes. */
  method UpdateInstance(db: Database, data: InstanceData) returns (ok: bool)
    requires db.Valid()
    modifies db`installations
    ensures db.Valid() && ok
    ensures match InstallationById(old(db.installations), data.instance)
      case None => db.installations == old(db.installations)
      case Some(k) =>
        var before := old(db.installations)[k];
        db.installations == old(db.installations)[k := RowOf(data, data.instance, before.lastProcessedDate, before.processingStatus)]
  {
    ok := true;
    var found := InstallationById(db.installations, data.instance);
    if found.Some? {
      var k := found.value;
      var before := db.installations[k];
      db.installations := db.installations[k := RowOf(data, data.instance, before.lastProcessedDate, before.processingStatus)];
      assert forall i :: 0 <= i < |db.installations| ==> db.installations[i].id == old(db.installations)[i].id;
    }
  }

  /** `delete_records`: the rows `drop` does not select, in table order. */
  function Without<T(!new)>(rows: seq<T>, drop: T -> bool): (r: seq<T>)
    ensures |r| <= |rows|
    ensures forall x :: x in r <==> x in rows && !drop(x)
  {
    if |rows| == 0 then []
    else if drop(rows[0]) then Without(rows[1..], drop)
    else [rows[0]] + Without(rows[1..], drop)
  }

  /** Deleting rows keeps the order of those left: a relation between every earlier and later
      row still holds afterwards. */
  lemma {:induction false} WithoutKeepsPairs<T(!new)>(rows: seq<T>, drop: T -> bool, rel: (T, T) -> bool)
    requires forall i, j :: 0 <= i < j < |rows| ==> rel(rows[i], rows[j])
    ensures forall i, j :: 0 <= i < j < |Without(rows, drop)| ==> rel(Without(rows, drop)[i], Without(rows, drop)[j])
  {
    if |rows| > 0 {
      var tail := rows[1..];
      assert forall i, j :: 0 <= i < j < |tail| ==> rel(tail[i], tail[j]) by {
        forall i, j | 0 <= i < j < |tail|
          ensures rel(tail[i], tail[j])
        {
          assert tail[i] == rows[i + 1] && tail[j] == rows[j + 1];
        }
      }
      WithoutKeepsPairs(tail, drop, rel);
      var rest := Without(tail, drop);
      assert forall i, j :: 0 <= i < j < |rest| ==> rel(rest[i], rest[j]);
      if !drop(rows[0]) {
        var r := [rows[0]] + rest;
        assert Without(rows, drop) == r;
        forall i, j | 0 <= i < j < |r|
          ensures rel(r[i], r[j])
        {
          if i == 0 {
            assert r[j] == rest[j - 1];
            assert rest[j - 1] in tail;
            var k :| 0 <= k < |tail| && tail[k] == rest[j - 1];
            assert rel(rows[0], rows[k + 1]);
          } else {
            assert r[i] == rest[i - 1] && r[j] == rest[j - 1];
            assert rel(rest[i - 1], rest[j - 1]);
          }
        }
      } else {
        assert Without(rows, drop) == rest;
      }
    }
  }

  /** `ortattendance_delete_instance`: false when there is no installation with the id;
      otherwise its queue and backup rows and the installation itself are deleted. */
  method DeleteInstance(db: Database, id: int) returns (deleted: bool)
    requires db.Valid()
    modifies db`queue, db`backups, db`installations
    ensures db.Valid()
    ensures deleted <==> InstallationById(old(db.installations), id).Some?
    ensures !deleted ==> db.queue == old(db.queue) && db.backups == old(db.backups)
                         && db.installations == old(db.installations)
    ensures deleted ==>
      && db.queue == Without(old(db.queue), (q: QueueRow) => q.botId == id)
      && db.backups == Without(old(db.backups), (b: BackupRow) => b.botId == id)
      && db.installations == Without(old(db.installations), (i: Installation) => i.id == id)
    ensures InstallationById(db.installations, id).None?
    ensures deleted ==> (forall q :: q in db.queue ==> q.botId != id) && (forall r :: r in db.backups ==> r.botId != id)
  {
    if InstallationById(db.installations, id).None? {
      return false;
    }
    var dropQueue := (q: QueueRow) => q.botId == id;
    var dropRow := (i: Installation) => i.id == id;
    QueueValidWithout(db.queue, db.nextQueueId, dropQueue);
    InstallationsValidWithout(db.installations, db.nextInstallationId, dropRow);
    db.queue := Without(db.queue, dropQueue);
    db.backups := Without(db.backups, (b: BackupRow) => b.botId == id);
    db.installations := Without(db.installations, dropRow);
    forall j | 0 <= j < |db.installations|
      ensures db.installations[j].id != id
    {
      assert db.installations[j] in db.installations;
    }
    deleted := true;
  }

  lemma QueueValidWithout(queue: seq<QueueRow>, nextId: int, drop: QueueRow -> bool)
    requires QueueValid(queue, nextId)
    ensures QueueValid(Without(queue, drop), nextId)
  {
    var left := Without(queue, drop);
    WithoutKeepsPairs(queue, drop, (a: QueueRow, b: QueueRow) => a.id != b.id);
    forall i | 0 <= i < |left|
      ensures 1 <= left[i].id < nextId
    {
      assert left[i] in queue;
    }
  }

  lemma InstallationsValidWithout(rows: seq<Installation>, nextId: int, drop: Installation -> bool)
    requires InstallationsValid(rows, nextId)
    ensures InstallationsValid(Without(rows, drop), nextId)
  {
    var left := Without(rows, drop);
    WithoutKeepsPairs(rows, drop, (a: Installation, b: Installation) => a.id != b.id);
    forall i | 0 <= i < |left|
      ensures 1 <= left[i].id < nextId
    {
      assert left[i] in rows;
    }
  }

  /** Two `delete_records` calls on one table give the same rows in either order. */
  lemma {:induction false} WithoutCommutes<T(!new)>(rows: seq<T>, first: T -> bool, second: T -> bool)
    ensures Without(Without(rows, first), second) == Without(Without(rows, second), first)
  {
    if |rows| > 0 {
      WithoutCommutes(rows[1..], first, second);
    }
  }

  /** Deleting two installations leaves the same tables in either order, and deleting one
      does not make another one disappear or appear. */
  lemma DeletionsCommute(queue: seq<QueueRow>, backups: seq<BackupRow>, rows: seq<Installation>, a: int, b: int)
    ensures Without(Without(queue, (q: QueueRow) => q.botId == a), (q: QueueRow) => q.botId == b)
         == Without(Without(queue, (q: QueueRow) => q.botId == b), (q: QueueRow) => q.botId == a)
    ensures Without(Without(backups, (r: BackupRow) => r.botId == a), (r: BackupRow) => r.botId == b)
         == Without(Without(backups, (r: BackupRow) => r.botId == b), (r: BackupRow) => r.botId == a)
    ensures Without(Without(rows, (i: Installation) => i.id == a), (i: Installation) => i.id == b)
         == Without(Without(rows, (i: Installation) => i.id == b), (i: Installation) => i.id == a)
    ensures a != b ==>
      (InstallationById(Without(rows, (i: Installation) => i.id == a), b).Some? <==> InstallationById(rows, b).Some?)
  {
    WithoutCommutes(queue, (q: QueueRow) => q.botId == a, (q: QueueRow) => q.botId == b);
    WithoutCommutes(backups, (r: BackupRow) => r.botId == a, (r: BackupRow) => r.botId == b);
    WithoutCommutes(rows, (i: Installation) => i.id == a, (i: Installation) => i.id == b);
    if a != b {
      var left := Without(rows, (i: Installation) => i.id == a);
      match InstallationById(rows, b)
      case Some(k) =>
        assert rows[k] in left;
        var m :| 0 <= m < |left| && left[m] == rows[k];
      case None =>
        forall j | 0 <= j < |left|
          ensures left[j].id != b
        {
          assert left[j] in left;
        }
    }
  }

  const FEATURE_MOD_INTRO: string := "mod_intro"
  const FEATURE_SHOW_DESCRIPTION: string := "showdescription"
  const FEATURE_BACKUP_MOODLE2: string := "backup_moodle2"

  /** `ortattendance_supports`: true for the three declared features, null otherwise. */
  function Supports(feature: string): (r: Option<bool>)
    ensures r == Some(true) <==> feature in {FEATURE_MOD_INTRO, FEATURE_SHOW_DESCRIPTION, FEATURE_BACKUP_MOODLE2}
    ensures r != Some(true) ==> r.None?
  {
    if feature == FEATURE_MOD_INTRO then Some(true)
    else if feature == FEATURE_SHOW_DESCRIPTION then Some(true)
    else if feature == FEATURE_BACKUP_MOODLE2 then Some(true)
    else None
  }
}
