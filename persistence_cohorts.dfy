/** `AttendancePersistence::groupBySession`: participants are grouped into cohorts keyed by
    meeting and group, students first, then teachers. A cohort's date is the join time of the
    first participant seen with its key, not the earliest join. */
module PersistenceCohorts {
  import opened Wrappers
  import opened Php
  import opened TeacherAttendance

  /** `sprintf('m%s_g%d', $meetingId, $groupId)`. */
  function CohortKey(meetingId: string, groupId: int): string {
    "m" + meetingId + "_g" + IntToString(groupId)
  }

  /** In a key, the character just before the printed group id is the 'g' of the separator
      and no later character is a 'g'. */
  lemma SeparatorPosition(m: string, g: int)
    ensures var k, d := CohortKey(m, g), IntToString(g);
      k[|k| - |d| - 1] == 'g' && forall j :: |k| - |d| <= j < |k| ==> k[j] != 'g'
  {
    var k, d := CohortKey(m, g), IntToString(g);
    forall j | |k| - |d| <= j < |k| ensures k[j] != 'g' {
      assert k[j] == d[j - (|k| - |d|)];
    }
  }

  /** In equal keys the printed group ids have equal length: both end right after the last 'g'. */
  lemma SeparatorAligned(m1: string, g1: int, m2: string, g2: int)
    requires CohortKey(m1, g1) == CohortKey(m2, g2)
    ensures |IntToString(g1)| == |IntToString(g2)|
  {
    SeparatorPosition(m1, g1);
    SeparatorPosition(m2, g2);
  }

  /** The key separates meeting and group unambiguously: the printed group id holds neither
      '_' nor 'g', so the last "_g" of a key is the separator ("12",34 and "1",234 differ). */
  lemma CohortKeyInjective(m1: string, g1: int, m2: string, g2: int)
    requires CohortKey(m1, g1) == CohortKey(m2, g2)
    ensures m1 == m2 && g1 == g2
  {
    SeparatorAligned(m1, g1, m2, g2);
    var k := CohortKey(m1, g1);
    var d1, d2 := IntToString(g1), IntToString(g2);
    var n := |k|;
    assert k == "m" + m1 + "_g" + d1 && k == "m" + m2 + "_g" + d2;
    assert d1 == k[n - |d1|..] == d2;
    IntToStringInjective(g1, g2);
    assert m1 == k[1..n - |d1| - 2] == m2;
  }

  function KeyOf(a: Attendance): string {
    CohortKey(GetMeetingId(a), GetGroupId(a))
  }

  datatype Cohort = Cohort(
    key: string,
    students: seq<Attendance>,
    teachers: seq<Attendance>,
    date: int,
    groupId: int,
    meetingId: string)

  /** `isset($groups[$key])`, giving the position of the cohort. */
  function IndexOfKey(groups: seq<Cohort>, key: string): (r: Option<nat>)
    ensures r.Some? ==> r.value < |groups| && groups[r.value].key == key
    ensures r.None? ==> forall i :: 0 <= i < |groups| ==> groups[i].key != key
  {
    if |groups| == 0 then None
    else if groups[0].key == key then Some(0)
    else match IndexOfKey(groups[1..], key)
      case Some(k) => Some(k + 1)
      case None => None
  }

  function NewCohort(a: Attendance): Cohort {
    Cohort(KeyOf(a), [], [], GetJoinTime(a), GetGroupId(a), GetMeetingId(a))
  }

  /** A participant as it is scanned: from the students list or from the teachers list. */
  datatype Entry = Entry(a: Attendance, asStudent: bool)

  function Tagged(ps: seq<Attendance>, asStudent: bool): (r: seq<Entry>)
    ensures |r| == |ps| && forall i :: 0 <= i < |ps| ==> r[i] == Entry(ps[i], asStudent)
  {
    seq(|ps|, i requires 0 <= i < |ps| => Entry(ps[i], asStudent))
  }

  /** The scan order of `groupBySession`: all students, then all teachers. */
  function Entries(students: seq<Attendance>, teachers: seq<Attendance>): seq<Entry> {
    Tagged(students, true) + Tagged(teachers, false)
  }

  function Untagged(es: seq<Entry>): (r: seq<Attendance>)
    ensures |r| == |es| && forall i :: 0 <= i < |es| ==> r[i] == es[i].a
  {
    seq(|es|, i requires 0 <= i < |es| => es[i].a)
  }

  /** One iteration of either loop. */
  function Add(groups: seq<Cohort>, e: Entry): seq<Cohort> {
    match IndexOfKey(groups, KeyOf(e.a))
    case None =>
      groups + [if e.asStudent then NewCohort(e.a).(students := [e.a]) else NewCohort(e.a).(teachers := [e.a])]
    case Some(i) =>
      groups[i := if e.asStudent then groups[i].(students := groups[i].students + [e.a])
                  else groups[i].(teachers := groups[i].teachers + [e.a])]
  }

  function AddAll(groups: seq<Cohort>, es: seq<Entry>): seq<Cohort> {
    if |es| == 0 then groups else Add(AddAll(groups, es[..|es| - 1]), es[|es| - 1])
  }

  /** The cohorts `groupBySession` returns, in key-insertion order. */
  function Grouping(students: seq<Attendance>, teachers: seq<Attendance>): seq<Cohort> {
    AddAll([], Entries(students, teachers))
  }

  /** The participants of `ps` with key `key`, in order. */
  function WithKey(ps: seq<Attendance>, key: string): seq<Attendance> {
    if |ps| == 0 then []
    else WithKey(ps[..|ps| - 1], key) + (if KeyOf(ps[|ps| - 1]) == key then [ps[|ps| - 1]] else [])
  }

  /** The entries of one list (students or teachers) with key `key`, in order. */
  function Selected(es: seq<Entry>, key: string, asStudent: bool): seq<Attendance> {
    if |es| == 0 then []
    else Selected(es[..|es| - 1], key, asStudent)
         + (if KeyOf(es[|es| - 1].a) == key && es[|es| - 1].asStudent == asStudent then [es[|es| - 1].a] else [])
  }

  /** The join time of the first participant of `ps` with key `key`. */
  function FirstJoin(ps: seq<Attendance>, key: string): Option<int> {
    if |ps| == 0 then None
    else match FirstJoin(ps[..|ps| - 1], key)
      case Some(t) => Some(t)
      case None => if KeyOf(ps[|ps| - 1]) == key then Some(GetJoinTime(ps[|ps| - 1])) else None
  }

  ghost predicate DistinctKeys(groups: seq<Cohort>) {
    forall i, j :: 0 <= i < j < |groups| ==> groups[i].key != groups[j].key
  }

  /** A cohort agrees with the entries `es` scanned so far. */
  ghost predicate Matches(c: Cohort, es: seq<Entry>) {
    c.key == CohortKey(c.meetingId, c.groupId)
    && c.students == Selected(es, c.key, true)
    && c.teachers == Selected(es, c.key, false)
    && FirstJoin(Untagged(es), c.key) == Some(c.date)
  }

  ghost predicate Covers(groups: seq<Cohort>, es: seq<Entry>) {
    forall j :: 0 <= j < |es| ==> IndexOfKey(groups, KeyOf(es[j].a)).Some?
  }

  /** The facts kept by the scan after the entries `es`. */
  ghost predicate Scanned(groups: seq<Cohort>, es: seq<Entry>) {
    DistinctKeys(groups)
    && (forall i :: 0 <= i < |groups| ==> Matches(groups[i], es))
    && Covers(groups, es)
  }

  lemma {:induction false} AbsentKeySelectsNothing(es: seq<Entry>, key: string)
    requires forall j :: 0 <= j < |es| ==> KeyOf(es[j].a) != key
    ensures Selected(es, key, true) == [] && Selected(es, key, false) == []
    ensures FirstJoin(Untagged(es), key) == None
  {
    if |es| > 0 {
      AbsentKeySelectsNothing(es[..|es| - 1], key);
      assert Untagged(es)[..|es| - 1] == Untagged(es[..|es| - 1]);
    }
  }

  lemma AppendSteps(es: seq<Entry>, e: Entry, key: string)
    ensures Selected(es + [e], key, true)
            == Selected(es, key, true) + (if KeyOf(e.a) == key && e.asStudent then [e.a] else [])
    ensures Selected(es + [e], key, false)
            == Selected(es, key, false) + (if KeyOf(e.a) == key && !e.asStudent then [e.a] else [])
    ensures FirstJoin(Untagged(es + [e]), key)
            == if FirstJoin(Untagged(es), key).Some? then FirstJoin(Untagged(es), key)
               else if KeyOf(e.a) == key then Some(GetJoinTime(e.a)) else None
  {
    assert (es + [e])[..|es|] == es;
    assert Untagged(es + [e])[..|es|] == Untagged(es);
  }

  /** The entry with another key leaves a cohort as it was. */
  lemma OtherKeyKeepsMatch(c: Cohort, es: seq<Entry>, e: Entry)
    requires Matches(c, es) && KeyOf(e.a) != c.key
    ensures Matches(c, es + [e])
  {
    AppendSteps(es, e, c.key);
  }

  /** The entry with the cohort's key joins its list. */
  lemma SameKeyExtendsMatch(c: Cohort, es: seq<Entry>, e: Entry)
    requires Matches(c, es) && KeyOf(e.a) == c.key
    ensures Matches(if e.asStudent then c.(students := c.students + [e.a])
                    else c.(teachers := c.teachers + [e.a]), es + [e])
  {
    AppendSteps(es, e, c.key);
  }

  /** The entry with a key seen for the first time opens a cohort holding just that entry. */
  lemma FreshKeyMatches(es: seq<Entry>, e: Entry)
    requires forall j :: 0 <= j < |es| ==> KeyOf(es[j].a) != KeyOf(e.a)
    ensures Matches(if e.asStudent then NewCohort(e.a).(students := [e.a])
                    else NewCohort(e.a).(teachers := [e.a]), es + [e])
  {
    AbsentKeySelectsNothing(es, KeyOf(e.a));
    AppendSteps(es, e, KeyOf(e.a));
  }

  lemma {:induction false} AddToExisting(groups: seq<Cohort>, es: seq<Entry>, e: Entry, at: nat)
    requires Scanned(groups, es)
    requires IndexOfKey(groups, KeyOf(e.a)) == Some(at)
    ensures Scanned(Add(groups, e), es + [e])
  {
    ExistingKeeps(groups, e, at);
    ExistingMatches(groups, es, e, at);
    ExistingCovers(groups, es, e, at);
  }

  /** Adding to an existing cohort keeps every key where it was. */
  lemma ExistingKeeps(groups: seq<Cohort>, e: Entry, at: nat)
    requires DistinctKeys(groups)
    requires IndexOfKey(groups, KeyOf(e.a)) == Some(at)
    ensures |Add(groups, e)| == |groups|
    ensures forall i :: 0 <= i < |groups| ==> Add(groups, e)[i].key == groups[i].key
    ensures DistinctKeys(Add(groups, e))
  {
  }

  lemma ExistingMatches(groups: seq<Cohort>, es: seq<Entry>, e: Entry, at: nat)
    requires DistinctKeys(groups)
    requires forall i :: 0 <= i < |groups| ==> Matches(groups[i], es)
    requires IndexOfKey(groups, KeyOf(e.a)) == Some(at)
    ensures forall i :: 0 <= i < |Add(groups, e)| ==> Matches(Add(groups, e)[i], es + [e])
  {
    var g' := Add(groups, e);
    var c := groups[at];
    assert g' == groups[at := if e.asStudent then c.(students := c.students + [e.a])
                              else c.(teachers := c.teachers + [e.a])];
    forall i | 0 <= i < |g'| ensures Matches(g'[i], es + [e]) {
      if i == at {
        SameKeyExtendsMatch(c, es, e);
      } else {
        assert groups[i].key != c.key;
        OtherKeyKeepsMatch(groups[i], es, e);
      }
    }
  }

  lemma ExistingCovers(groups: seq<Cohort>, es: seq<Entry>, e: Entry, at: nat)
    requires DistinctKeys(groups) && Covers(groups, es)
    requires IndexOfKey(groups, KeyOf(e.a)) == Some(at)
    ensures Covers(Add(groups, e), es + [e])
  {
    var g' := Add(groups, e);
    ExistingKeeps(groups, e, at);
    forall j | 0 <= j < |es + [e]|
      ensures IndexOfKey(g', KeyOf((es + [e])[j].a)).Some?
    {
      if j < |es| {
        var i := IndexOfKey(groups, KeyOf(es[j].a)).value;
        assert g'[i].key == KeyOf(es[j].a);
      } else {
        assert g'[at].key == KeyOf(e.a);
      }
    }
  }

  lemma {:induction false} AddNewKey(groups: seq<Cohort>, es: seq<Entry>, e: Entry)
    requires Scanned(groups, es)
    requires IndexOfKey(groups, KeyOf(e.a)).None?
    ensures Scanned(Add(groups, e), es + [e])
  {
    NewKeyUnseen(groups, es, e);
    NewKeyDistinct(groups, e);
    NewKeyMatches(groups, es, e);
    NewKeyCovers(groups, es, e);
  }

  /** A key no cohort has was not seen in the entries scanned so far. */
  lemma NewKeyUnseen(groups: seq<Cohort>, es: seq<Entry>, e: Entry)
    requires Covers(groups, es)
    requires IndexOfKey(groups, KeyOf(e.a)).None?
    ensures forall j :: 0 <= j < |es| ==> KeyOf(es[j].a) != KeyOf(e.a)
  {
    forall j | 0 <= j < |es| ensures KeyOf(es[j].a) != KeyOf(e.a) {
      var i := IndexOfKey(groups, KeyOf(es[j].a)).value;
      assert groups[i].key == KeyOf(es[j].a);
    }
  }

  lemma NewKeyDistinct(groups: seq<Cohort>, e: Entry)
    requires DistinctKeys(groups)
    requires IndexOfKey(groups, KeyOf(e.a)).None?
    ensures DistinctKeys(Add(groups, e))
  {
  }

  lemma NewKeyMatches(groups: seq<Cohort>, es: seq<Entry>, e: Entry)
    requires forall i :: 0 <= i < |groups| ==> Matches(groups[i], es)
    requires IndexOfKey(groups, KeyOf(e.a)).None?
    requires forall j :: 0 <= j < |es| ==> KeyOf(es[j].a) != KeyOf(e.a)
    ensures forall i :: 0 <= i < |Add(groups, e)| ==> Matches(Add(groups, e)[i], es + [e])
  {
    var g' := Add(groups, e);
    forall i | 0 <= i < |g'| ensures Matches(g'[i], es + [e]) {
      if i < |groups| {
        OtherKeyKeepsMatch(groups[i], es, e);
      } else {
        FreshKeyMatches(es, e);
      }
    }
  }

  lemma NewKeyCovers(groups: seq<Cohort>, es: seq<Entry>, e: Entry)
    requires Covers(groups, es)
    requires IndexOfKey(groups, KeyOf(e.a)).None?
    ensures Covers(Add(groups, e), es + [e])
  {
    var g' := Add(groups, e);
    forall j | 0 <= j < |es + [e]|
      ensures IndexOfKey(g', KeyOf((es + [e])[j].a)).Some?
    {
      if j < |es| {
        var i := IndexOfKey(groups, KeyOf(es[j].a)).value;
        assert g'[i].key == KeyOf(es[j].a);
      } else {
        assert g'[|groups|].key == KeyOf(e.a);
      }
    }
  }

  lemma {:induction false} AddAllScanned(es: seq<Entry>)
    ensures Scanned(AddAll([], es), es)
  {
    if |es| > 0 {
      var prefix := es[..|es| - 1];
      AddAllScanned(prefix);
      var g := AddAll([], prefix);
      assert prefix + [es[|es| - 1]] == es;
      match IndexOfKey(g, KeyOf(es[|es| - 1].a))
      case Some(at) => AddToExisting(g, prefix, es[|es| - 1], at);
      case None => AddNewKey(g, prefix, es[|es| - 1]);
    }
  }

  lemma {:induction false} SelectedOfTagged(ps: seq<Attendance>, tag: bool, key: string, asStudent: bool)
    ensures Selected(Tagged(ps, tag), key, asStudent) == if tag == asStudent then WithKey(ps, key) else []
  {
    if |ps| > 0 {
      assert Tagged(ps, tag)[..|ps| - 1] == Tagged(ps[..|ps| - 1], tag);
      SelectedOfTagged(ps[..|ps| - 1], tag, key, asStudent);
    }
  }

  lemma {:induction false} SelectedConcat(a: seq<Entry>, b: seq<Entry>, key: string, asStudent: bool)
    ensures Selected(a + b, key, asStudent) == Selected(a, key, asStudent) + Selected(b, key, asStudent)
  {
    if |b| == 0 {
      assert a + b == a;
    } else {
      assert (a + b)[..|a + b| - 1] == a + b[..|b| - 1];
      assert (a + b)[|a + b| - 1] == b[|b| - 1];
      SelectedConcat(a, b[..|b| - 1], key, asStudent);
    }
  }

  lemma {:induction false} SelectedOfEntries(students: seq<Attendance>, teachers: seq<Attendance>, key: string)
    ensures Selected(Entries(students, teachers), key, true) == WithKey(students, key)
    ensures Selected(Entries(students, teachers), key, false) == WithKey(teachers, key)
  {
    SelectedConcat(Tagged(students, true), Tagged(teachers, false), key, true);
    SelectedConcat(Tagged(students, true), Tagged(teachers, false), key, false);
    SelectedOfTagged(students, true, key, true);
    SelectedOfTagged(teachers, false, key, true);
    SelectedOfTagged(students, true, key, false);
    SelectedOfTagged(teachers, false, key, false);
  }

  lemma UntaggedEntries(students: seq<Attendance>, teachers: seq<Attendance>)
    ensures Untagged(Entries(students, teachers)) == students + teachers
  {
    var es := Entries(students, teachers);
    forall k | 0 <= k < |es| ensures Untagged(es)[k] == (students + teachers)[k] {
      if k < |students| {
        assert es[k] == Tagged(students, true)[k];
      } else {
        assert es[k] == Tagged(teachers, false)[k - |students|];
      }
    }
  }

  /** A cohort matching the scan of students then teachers holds exactly the students and
      the teachers with its key. */
  lemma MatchesLists(c: Cohort, students: seq<Attendance>, teachers: seq<Attendance>)
    requires Matches(c, Entries(students, teachers))
    ensures c.students == WithKey(students, c.key) && c.teachers == WithKey(teachers, c.key)
    ensures FirstJoin(students + teachers, c.key) == Some(c.date)
  {
    UntaggedEntries(students, teachers);
    SelectedOfEntries(students, teachers, c.key);
  }

  /** Every student lands in exactly one cohort's students and every teacher in exactly one
      cohort's teachers, in input order: a cohort's lists are exactly the students and the
      teachers carrying its key, its key is `CohortKey` of its meeting and group, keys are
      distinct, every participant's key has a cohort, and a cohort's date is the join time of
      the first participant seen with its key, students scanned before teachers. */
  lemma GroupingIsPartition(students: seq<Attendance>, teachers: seq<Attendance>)
    ensures var groups := Grouping(students, teachers);
      DistinctKeys(groups)
      && (forall i :: 0 <= i < |groups| ==>
            groups[i].key == CohortKey(groups[i].meetingId, groups[i].groupId)
            && groups[i].students == WithKey(students, groups[i].key)
            && groups[i].teachers == WithKey(teachers, groups[i].key)
            && FirstJoin(students + teachers, groups[i].key) == Some(groups[i].date))
      && (forall j :: 0 <= j < |students| ==> IndexOfKey(groups, KeyOf(students[j])).Some?)
      && (forall j :: 0 <= j < |teachers| ==> IndexOfKey(groups, KeyOf(teachers[j])).Some?)
  {
    var es := Entries(students, teachers);
    AddAllScanned(es);
    var groups := Grouping(students, teachers);
    forall i | 0 <= i < |groups|
      ensures groups[i].key == CohortKey(groups[i].meetingId, groups[i].groupId)
      ensures groups[i].students == WithKey(students, groups[i].key)
      ensures groups[i].teachers == WithKey(teachers, groups[i].key)
      ensures FirstJoin(students + teachers, groups[i].key) == Some(groups[i].date)
    {
      MatchesLists(groups[i], students, teachers);
    }
    UntaggedEntries(students, teachers);
    forall j | 0 <= j < |students| ensures IndexOfKey(groups, KeyOf(students[j])).Some? {
      assert Untagged(es)[j] == students[j];
    }
    forall j | 0 <= j < |teachers| ensures IndexOfKey(groups, KeyOf(teachers[j])).Some? {
      assert Untagged(es)[|students| + j] == teachers[j];
    }
  }

  lemma TaggedSnoc(ps: seq<Attendance>, i: nat, tag: bool)
    requires i < |ps|
    ensures Tagged(ps[..i + 1], tag) == Tagged(ps[..i], tag) + [Entry(ps[i], tag)]
  {
  }

  lemma AddAllSnoc(es: seq<Entry>, e: Entry)
    ensures AddAll([], es + [e]) == Add(AddAll([], es), e)
  {
    assert (es + [e])[..|es|] == es;
  }

  /** The body of both loops of `groupBySession`: open the cohort on first sight of its key,
      then append the participant to the students or the teachers. */
  method Place(groups: seq<Cohort>, p: Attendance, asStudent: bool) returns (r: seq<Cohort>)
    ensures r == Add(groups, Entry(p, asStudent))
  {
    var key := CohortKey(GetMeetingId(p), GetGroupId(p));
    var at := IndexOfKey(groups, key);
    if at.None? {
      var c := Cohort(key, [], [], GetJoinTime(p), GetGroupId(p), GetMeetingId(p));
      r := groups + [if asStudent then c.(students := [p]) else c.(teachers := [p])];
    } else if asStudent {
      r := groups[at.value := groups[at.value].(students := groups[at.value].students + [p])];
    } else {
      r := groups[at.value := groups[at.value].(teachers := groups[at.value].teachers + [p])];
    }
  }

  /** `groupBySession`: a loop over the students, then one over the teachers. */
  method GroupBySession(students: seq<Attendance>, teachers: seq<Attendance>)
    returns (groups: seq<Cohort>)
    ensures groups == Grouping(students, teachers)
  {
    groups := [];
    var i := 0;
    while i < |students|
      invariant 0 <= i <= |students|
      invariant groups == AddAll([], Tagged(students[..i], true))
    {
      var before := groups;
      groups := Place(groups, students[i], true);
      StudentStep(students, i, before);
      i := i + 1;
    }
    StudentsDone(students, teachers);
    var j := 0;
    while j < |teachers|
      invariant 0 <= j <= |teachers|
      invariant groups == AddAll([], Tagged(students, true) + Tagged(teachers[..j], false))
    {
      var before := groups;
      groups := Place(groups, teachers[j], false);
      TeacherStep(students, teachers, j, before);
      j := j + 1;
    }
    assert teachers[..j] == teachers;
  }

  lemma StudentStep(students: seq<Attendance>, i: nat, groups: seq<Cohort>)
    requires i < |students| && groups == AddAll([], Tagged(students[..i], true))
    ensures Add(groups, Entry(students[i], true)) == AddAll([], Tagged(students[..i + 1], true))
  {
    TaggedSnoc(students, i, true);
    AddAllSnoc(Tagged(students[..i], true), Entry(students[i], true));
  }

  lemma StudentsDone(students: seq<Attendance>, teachers: seq<Attendance>)
    ensures AddAll([], Tagged(students[..|students|], true))
            == AddAll([], Tagged(students, true) + Tagged(teachers[..0], false))
  {
    assert students[..|students|] == students;
    assert Tagged(students, true) + Tagged(teachers[..0], false) == Tagged(students, true);
  }

  lemma TeacherStep(students: seq<Attendance>, teachers: seq<Attendance>, j: nat, groups: seq<Cohort>)
    requires j < |teachers| && groups == AddAll([], Tagged(students, true) + Tagged(teachers[..j], false))
    ensures Add(groups, Entry(teachers[j], false))
            == AddAll([], Tagged(students, true) + Tagged(teachers[..j + 1], false))
  {
    TaggedSnoc(teachers, j, false);
    assert Tagged(students, true) + Tagged(teachers[..j + 1], false)
        == (Tagged(students, true) + Tagged(teachers[..j], false)) + [Entry(teachers[j], false)];
    AddAllSnoc(Tagged(students, true) + Tagged(teachers[..j], false), Entry(teachers[j], false));
  }
}
