/** `BackupService::processRecording`: validate a Zoom recording request, pick its video
    file, download it and upload it into the course's folder named after the meeting. */
module BackupService {
  import opened Wrappers
  import opened Php
  import opened NameNormalizer

  /** One entry of a recording's `recording_files`; a missing `download_url` is `None`. */
  datatype RecordingFile = RecordingFile(fileType: string, recordingType: string, downloadUrl: Option<string>)

  /** What `processRecording` returns: the local copy and the Moodle file id on success
      (the file size is read from disk and is not modelled), otherwise the error message. */
  datatype Outcome = Success(localPath: string, fileId: int) | Failure(error: string)

  const MSG_MEETING_ID: string := "Meeting ID is required"
  const MSG_COURSE_ID: string := "Course ID is required"
  const MSG_NO_RECORDINGS: string := "No recordings found"
  const MSG_NO_VIDEO: string := "No video file found"
  const MSG_NO_URL: string := "Recording download URL is missing"
  const MSG_UPLOAD: string := "Failed to upload recording to Moodle"

  predicate IsMp4(f: RecordingFile) {
    f.fileType == "MP4"
  }

  /** The view the backup prefers: screen share with the speaker. */
  predicate IsPreferred(f: RecordingFile) {
    IsMp4(f) && f.recordingType == "shared_screen_with_speaker_view"
  }

  /** `empty($file['download_url'])`. */
  predicate UrlMissing(f: RecordingFile) {
    f.downloadUrl.None? || Empty(f.downloadUrl.value)
  }

  /** One `foreach` of `findVideoFile`: the first file at or after `p` that is a preferred
      MP4 (`preferred`) or any MP4 (`!preferred`). */
  function FirstMatch(files: seq<RecordingFile>, p: nat, preferred: bool): (r: Option<nat>)
    requires p <= |files|
    ensures r.Some? ==> p <= r.value < |files|
                        && (if preferred then IsPreferred(files[r.value]) else IsMp4(files[r.value]))
    ensures forall k :: p <= k < |files| && (if preferred then IsPreferred(files[k]) else IsMp4(files[k]))
                        ==> r.Some? && r.value <= k
    decreases |files| - p
  {
    if p == |files| then None
    else if (if preferred then IsPreferred(files[p]) else IsMp4(files[p])) then Some(p)
    else FirstMatch(files, p + 1, preferred)
  }

  /** `findVideoFile`, as the position of the file it returns. */
  function FindVideoIndex(files: seq<RecordingFile>): (r: Option<nat>)
  {
    match FirstMatch(files, 0, true)
    case Some(i) => Some(i)
    case None => FirstMatch(files, 0, false)
  }

  /** The file `findVideoFile` picks: an MP4 if any, no MP4 means no file, the first
      preferred view when there is one and otherwise the first MP4. */
  lemma VideoIndexChoice(files: seq<RecordingFile>)
    ensures var r := FindVideoIndex(files);
      && (r.Some? ==> r.value < |files| && IsMp4(files[r.value]))
      && (r.None? <==> forall k :: 0 <= k < |files| ==> !IsMp4(files[k]))
      && (forall k :: 0 <= k < |files| && IsPreferred(files[k])
            ==> r.Some? && r.value <= k && IsPreferred(files[r.value]))
      && ((forall k :: 0 <= k < |files| ==> !IsPreferred(files[k]))
            ==> forall k :: 0 <= k < |files| && IsMp4(files[k]) ==> r.Some? && r.value <= k)
  {
    var first := FirstMatch(files, 0, true);
    if first.None? {
      var r := FirstMatch(files, 0, false);
      assert forall k :: 0 <= k < |files| ==> !IsPreferred(files[k]);
      if r.None? {
        assert forall k :: 0 <= k < |files| ==> !IsMp4(files[k]);
      }
    }
  }

  function FindVideoFile(files: seq<RecordingFile>): (r: Option<RecordingFile>)
    ensures r.Some? ==> r.value in files && IsMp4(r.value)
    ensures r.None? <==> forall k :: 0 <= k < |files| ==> !IsMp4(files[k])
    ensures (exists k :: 0 <= k < |files| && IsPreferred(files[k])) ==> r.Some? && IsPreferred(r.value)
  {
    VideoIndexChoice(files);
    match FindVideoIndex(files)
    case Some(i) => Some(files[i])
    case None => None
  }

  /** The uploaded file's name: `<name>_<date>.mp4`. */
  function FileName(n: Normalized): (f: string)
    ensures |f| == |n.name| + 1 + |n.date| + 4
  {
    n.name + "_" + n.date + ".mp4"
  }

  /** The folder and sub-folder the upload goes to can be read back out of the file name. */
  lemma FileNameSplits(n: Normalized)
    ensures var f := FileName(n);
      f[..|n.name|] == n.name && f[|n.name|] == '_'
      && f[|n.name| + 1..|f| - 4] == n.date && f[|f| - 4..] == ".mp4"
  {
    var f := FileName(n);
    assert f == n.name + ("_" + (n.date + ".mp4"));
    assert f[|n.name|..] == "_" + (n.date + ".mp4");
    assert f[|n.name| + 1..] == n.date + ".mp4";
  }

  /** The recording-metadata lookup: the message it throws (a cURL error, a non-200 status or
      a JSON decoding error), or `recording_files`, `None` when the metadata is falsy. */
  type Fetch = string -> Result<Option<seq<RecordingFile>>, string>

  /** The recording files of a lookup that returned truthy metadata; none otherwise. */
  function Recordings(m: Result<Option<seq<RecordingFile>>, string>): (files: seq<RecordingFile>)
    ensures files != [] <==> m.Ok? && m.value.Some? && m.value.value != []
    ensures files != [] ==> files == m.value.value
  {
    if m.Ok? && m.value.Some? then m.value.value else []
  }

  /** `processRecording`. The recollector's metadata lookup, the download and the Moodle
      upload are parameters: `fetch` gives the metadata or the message it throws, `download`
      the local path or the message it throws, `upload` the new file id (0 when it fails
      quietly) or the message it throws. Every thrown message becomes the failure's error. */
  function ProcessRecording(meetingId: string, meetingName: string, meetingTimestamp: int, courseId: int,
                            formatYmd: int -> string,
                            fetch: Fetch,
                            download: (RecordingFile, Normalized) -> Result<string, string>,
                            upload: (int, string, string, string, string) -> Result<int, string>): (r: Outcome)
    ensures Empty(meetingId) ==> r == Failure(MSG_MEETING_ID)
    ensures !Empty(meetingId) && courseId == 0 ==> r == Failure(MSG_COURSE_ID)
    ensures !Empty(meetingId) && courseId != 0 && fetch(meetingId).Err? ==> r == Failure(fetch(meetingId).error)
    ensures !Empty(meetingId) && courseId != 0 && fetch(meetingId).Ok? && Recordings(fetch(meetingId)) == []
            ==> r == Failure(MSG_NO_RECORDINGS)
  {
    if Empty(meetingId) then Failure(MSG_MEETING_ID)
    else if courseId == 0 then Failure(MSG_COURSE_ID)
    else if fetch(meetingId).Err? then Failure(fetch(meetingId).error)
    else
      var files := Recordings(fetch(meetingId));
      if files == [] then Failure(MSG_NO_RECORDINGS)
      else
        var normalized := NormalizeFileName(meetingName, meetingTimestamp, formatYmd);
        match FindVideoFile(files)
        case None => Failure(MSG_NO_VIDEO)
        case Some(video) =>
          if UrlMissing(video) then Failure(MSG_NO_URL)
          else match download(video, normalized)
            case Err(msg) => Failure(msg)
            case Ok(localPath) =>
              match upload(courseId, normalized.name, normalized.date, FileName(normalized), localPath)
              case Err(msg) => Failure(msg)
              case Ok(fileId) => if fileId == 0 then Failure(MSG_UPLOAD) else Success(localPath, fileId)
  }

  /** The video checks: with valid ids and some recording files, no MP4 gives "No video file
      found" and a chosen file without a download URL gives "download URL is missing". */
  lemma VideoChecks(meetingId: string, meetingName: string, meetingTimestamp: int, courseId: int,
                    formatYmd: int -> string,
                    fetch: Fetch,
                    download: (RecordingFile, Normalized) -> Result<string, string>,
                    upload: (int, string, string, string, string) -> Result<int, string>)
    requires !Empty(meetingId) && courseId != 0 && Recordings(fetch(meetingId)) != []
    ensures var files := Recordings(fetch(meetingId));
      var r := ProcessRecording(meetingId, meetingName, meetingTimestamp, courseId, formatYmd, fetch, download, upload);
      && ((forall k :: 0 <= k < |files| ==> !IsMp4(files[k])) ==> r == Failure(MSG_NO_VIDEO))
      && (FindVideoFile(files).Some? && UrlMissing(FindVideoFile(files).value) ==> r == Failure(MSG_NO_URL))
  {
  }

  /** A successful backup downloaded the file `findVideoFile` picked and uploaded it into
      the folder named after the meeting and the sub-folder named after its date, under the
      name `<name>_<date>.mp4`, receiving a non-zero file id. */
  lemma SuccessMeans(meetingId: string, meetingName: string, meetingTimestamp: int, courseId: int,
                     formatYmd: int -> string,
                     fetch: Fetch,
                     download: (RecordingFile, Normalized) -> Result<string, string>,
                     upload: (int, string, string, string, string) -> Result<int, string>)
    ensures var r := ProcessRecording(meetingId, meetingName, meetingTimestamp, courseId, formatYmd, fetch, download, upload);
      var n := NormalizeFileName(meetingName, meetingTimestamp, formatYmd);
      r.Success? ==>
        && !Empty(meetingId) && courseId != 0
        && Recordings(fetch(meetingId)) != []
        && FindVideoFile(Recordings(fetch(meetingId))).Some?
        && !UrlMissing(FindVideoFile(Recordings(fetch(meetingId))).value)
        && download(FindVideoFile(Recordings(fetch(meetingId))).value, n) == Ok(r.localPath)
        && upload(courseId, n.name, n.date, n.name + "_" + n.date + ".mp4", r.localPath) == Ok(r.fileId)
        && r.fileId != 0
  {
  }

  /** Once a file with a URL is chosen, the download and the upload decide the outcome: a
      download error or an upload error is the failure message, a zero file id is the upload
      failure, and any other file id is success with the downloaded path. */
  lemma TransferOutcomes(meetingId: string, meetingName: string, meetingTimestamp: int, courseId: int,
                         formatYmd: int -> string,
                         fetch: Fetch,
                         download: (RecordingFile, Normalized) -> Result<string, string>,
                         upload: (int, string, string, string, string) -> Result<int, string>)
    requires !Empty(meetingId) && courseId != 0 && Recordings(fetch(meetingId)) != []
    requires FindVideoFile(Recordings(fetch(meetingId))).Some?
    requires !UrlMissing(FindVideoFile(Recordings(fetch(meetingId))).value)
    ensures var r := ProcessRecording(meetingId, meetingName, meetingTimestamp, courseId, formatYmd, fetch, download, upload);
      var n := NormalizeFileName(meetingName, meetingTimestamp, formatYmd);
      var d := download(FindVideoFile(Recordings(fetch(meetingId))).value, n);
      && (d.Err? ==> r == Failure(d.error))
      && (d.Ok? ==>
            var u := upload(courseId, n.name, n.date, n.name + "_" + n.date + ".mp4", d.value);
            && (u.Err? ==> r == Failure(u.error))
            && (u.Ok? && u.value == 0 ==> r == Failure(MSG_UPLOAD))
            && (u.Ok? && u.value != 0 ==> r == Success(d.value, u.value)))
  {
  }

  /** The id checks come before the metadata lookup, the download and the upload: their
      errors do not depend on what those would do. */
  lemma IdsCheckedFirst(meetingId: string, meetingName: string, meetingTimestamp: int, courseId: int,
                        formatYmd: int -> string,
                        fetch: Fetch, fetch': Fetch,
                        download: (RecordingFile, Normalized) -> Result<string, string>,
                        download': (RecordingFile, Normalized) -> Result<string, string>,
                        upload: (int, string, string, string, string) -> Result<int, string>,
                        upload': (int, string, string, string, string) -> Result<int, string>)
    requires Empty(meetingId) || courseId == 0
    ensures ProcessRecording(meetingId, meetingName, meetingTimestamp, courseId, formatYmd, fetch, download, upload)
         == ProcessRecording(meetingId, meetingName, meetingTimestamp, courseId, formatYmd, fetch', download', upload')
  {
  }

  /** The recording checks come before the download and the upload: when the metadata lookup
      throws, or the metadata has no files, no MP4, or a chosen file without a URL, the outcome
      does not depend on them. */
  lemma RecordingCheckedBeforeDownload(meetingId: string, meetingName: string, meetingTimestamp: int, courseId: int,
                                       formatYmd: int -> string,
                                       fetch: Fetch,
                                       download: (RecordingFile, Normalized) -> Result<string, string>,
                                       download': (RecordingFile, Normalized) -> Result<string, string>,
                                       upload: (int, string, string, string, string) -> Result<int, string>,
                                       upload': (int, string, string, string, string) -> Result<int, string>)
    requires var files := Recordings(fetch(meetingId));
      fetch(meetingId).Err? || files == [] || FindVideoFile(files).None? || UrlMissing(FindVideoFile(files).value)
    ensures ProcessRecording(meetingId, meetingName, meetingTimestamp, courseId, formatYmd, fetch, download, upload)
         == ProcessRecording(meetingId, meetingName, meetingTimestamp, courseId, formatYmd, fetch, download', upload')
  {
  }
}
