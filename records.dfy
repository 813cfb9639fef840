/**
 * The student-facing tables of the data-access layer as pure functions over
 * their contents: the keyed upserts of grades and attendance, the daily
 * health update, and the attendance statistics and absence report.
 */
module Records {

  import opened Wrappers
  import Text
  import Sorting

  /** The columns of the students table that the modelled queries read. */
  datatype Student = Student(
    studentId: string,
    title: string,
    firstName: string,
    lastName: string,
    classRoom: string,
    classYear: string,
    isActive: bool)

  /** student_id is the students table's primary key. */
  predicate StudentIdsUnique(students: seq<Student>)
  {
    forall i, j :: 0 <= i < j < |students| ==> students[i].studentId != students[j].studentId
  }

  /** Some student already has the id: an insert under it breaks the primary key. */
  predicate HasStudent(students: seq<Student>, studentId: string)
  {
    exists i :: 0 <= i < |students| && students[i].studentId == studentId
  }

  /** `if start_date:` and the like: None and the empty string both mean "no filter". */
  predicate Truthy(o: Option<string>)
  {
    o.Some? && o.value != ""
  }

  // ----------------------------------------------------------------------- grades

  /** The dictionary save_grade receives; a missing full_score stands for the default 100. */
  datatype GradeInput = GradeInput(
    studentId: string,
    academicYear: string,
    semester: string,
    subjectCode: string,
    subjectName: string,
    fullScore: Option<real>,
    score: Option<real>,
    grade: Option<string>)

  datatype GradeRecord = GradeRecord(
    id: int,
    studentId: string,
    academicYear: string,
    semester: string,
    subjectCode: string,
    subjectName: string,
    fullScore: real,
    score: Option<real>,
    grade: Option<string>)

  /** The columns of UNIQUE(student_id, academic_year, semester, subject_code). */
  datatype GradeKey = GradeKey(studentId: string, academicYear: string, semester: string, subjectCode: string)

  function KeyOfGrade(g: GradeRecord): GradeKey
  {
    GradeKey(g.studentId, g.academicYear, g.semester, g.subjectCode)
  }

  function KeyOfInput(g: GradeInput): GradeKey
  {
    GradeKey(g.studentId, g.academicYear, g.semester, g.subjectCode)
  }

  predicate GradeKeysUnique(rows: seq<GradeRecord>)
  {
    forall i, j :: 0 <= i < j < |rows| ==> KeyOfGrade(rows[i]) != KeyOfGrade(rows[j])
  }

  /** Position of the row holding the key, if any. */
  function FindGrade(rows: seq<GradeRecord>, key: GradeKey): (k: Option<nat>)
    ensures k.Some? ==> k.value < |rows| && KeyOfGrade(rows[k.value]) == key
    ensures k.None? ==> forall i :: 0 <= i < |rows| ==> KeyOfGrade(rows[i]) != key
  {
    if rows == [] then None
    else if KeyOfGrade(rows[0]) == key then Some(0)
    else match FindGrade(rows[1..], key)
      case None => None
      case Some(k) => Some(k + 1)
  }

  /** The row the INSERT branch of save_grade creates. */
  function NewGrade(id: int, g: GradeInput): GradeRecord
  {
    GradeRecord(id, g.studentId, g.academicYear, g.semester, g.subjectCode, g.subjectName,
                if g.fullScore.Some? then g.fullScore.value else 100.0, g.score, g.grade)
  }

  /**
   * save_grade: INSERT ... ON CONFLICT(student_id, academic_year, semester,
   * subject_code) DO UPDATE SET score, grade. Only score and grade change on
   * the update branch.
   */
  function UpsertGrade(rows: seq<GradeRecord>, nextId: int, g: GradeInput): seq<GradeRecord>
  {
    match FindGrade(rows, KeyOfInput(g))
    case Some(k) => rows[k := rows[k].(score := g.score, grade := g.grade)]
    case None => rows + [NewGrade(nextId, g)]
  }

  /** The stored row for a key, if any. */
  function GradeAt(rows: seq<GradeRecord>, key: GradeKey): Option<GradeRecord>
  {
    match FindGrade(rows, key)
    case Some(k) => Some(rows[k])
    case None => None
  }

  /**
   * After a save the key is held by exactly one row, carrying the saved score
   * and grade; a row that was there keeps its other columns, and no row with
   * another key is added, lost or changed.
   */
  lemma UpsertGradeSpec(rows: seq<GradeRecord>, nextId: int, g: GradeInput)
    requires GradeKeysUnique(rows)
    ensures GradeKeysUnique(UpsertGrade(rows, nextId, g))
    ensures GradeAt(UpsertGrade(rows, nextId, g), KeyOfInput(g)) ==
      Some(match GradeAt(rows, KeyOfInput(g))
           case Some(old_) => old_.(score := g.score, grade := g.grade)
           case None => NewGrade(nextId, g))
    ensures forall x :: KeyOfGrade(x) != KeyOfInput(g) ==> (x in UpsertGrade(rows, nextId, g) <==> x in rows)
    ensures |UpsertGrade(rows, nextId, g)| == |rows| + (if GradeAt(rows, KeyOfInput(g)).Some? then 0 else 1)
  {
    var key := KeyOfInput(g);
    var r := UpsertGrade(rows, nextId, g);
    match FindGrade(rows, key)
    case Some(k) =>
      assert FindGrade(r, key) == Some(k) by {
        FindGradeUnique(r, k);
      }
      forall x | KeyOfGrade(x) != key
        ensures x in r <==> x in rows
      {
        if x in r {
          var i :| 0 <= i < |r| && r[i] == x;
        }
        if x in rows {
          var i :| 0 <= i < |rows| && rows[i] == x;
          assert r[i] == x;
        }
      }
    case None =>
      assert FindGrade(r, key) == Some(|rows|) by {
        FindGradeUnique(r, |rows|);
      }
  }

  /** With unique keys the row found for a key is the one at which it sits. */
  lemma FindGradeUnique(rows: seq<GradeRecord>, k: nat)
    requires GradeKeysUnique(rows) && k < |rows|
    ensures FindGrade(rows, KeyOfGrade(rows[k])) == Some(k)
  {
  }

  /**
   * Saving the same (student, year, semester, subject) twice leaves one row:
   * score and grade from the second save, subject name and full score from
   * the row the first save found or created.
   */
  lemma SaveGradeTwice(rows: seq<GradeRecord>, n1: int, n2: int, g1: GradeInput, g2: GradeInput)
    requires GradeKeysUnique(rows) && KeyOfInput(g1) == KeyOfInput(g2)
    ensures GradeKeysUnique(UpsertGrade(UpsertGrade(rows, n1, g1), n2, g2))
    ensures GradeAt(UpsertGrade(UpsertGrade(rows, n1, g1), n2, g2), KeyOfInput(g1)) ==
      Some((match GradeAt(rows, KeyOfInput(g1))
            case Some(old_) => old_
            case None => NewGrade(n1, g1)).(score := g2.score, grade := g2.grade))
  {
    UpsertGradeSpec(rows, n1, g1);
    UpsertGradeSpec(UpsertGrade(rows, n1, g1), n2, g2);
  }

  /** Saving the same dictionary again changes nothing. */
  lemma SaveGradeIdempotent(rows: seq<GradeRecord>, n1: int, n2: int, g: GradeInput)
    requires GradeKeysUnique(rows)
    ensures UpsertGrade(UpsertGrade(rows, n1, g), n2, g) == UpsertGrade(rows, n1, g)
  {
    var r := UpsertGrade(rows, n1, g);
    UpsertGradeSpec(rows, n1, g);
    var k := FindGrade(r, KeyOfInput(g)).value;
    assert r[k].score == g.score && r[k].grade == g.grade;
    assert r[k := r[k].(score := g.score, grade := g.grade)] == r;
  }

  // ------------------------------------------------------------------- attendance

  datatype AttendanceRecord = AttendanceRecord(
    id: int,
    studentId: string,
    date: string,
    status: string,
    note: string)

  /** UNIQUE(student_id, att_date). */
  predicate AttendanceKeysUnique(rows: seq<AttendanceRecord>)
  {
    forall i, j :: 0 <= i < j < |rows| ==>
      (rows[i].studentId, rows[i].date) != (rows[j].studentId, rows[j].date)
  }

  function FindAttendance(rows: seq<AttendanceRecord>, studentId: string, date: string): (k: Option<nat>)
    ensures k.Some? ==> k.value < |rows| && rows[k.value].studentId == studentId && rows[k.value].date == date
    ensures k.None? ==> forall i :: 0 <= i < |rows| ==> (rows[i].studentId, rows[i].date) != (studentId, date)
  {
    if rows == [] then None
    else if rows[0].studentId == studentId && rows[0].date == date then Some(0)
    else match FindAttendance(rows[1..], studentId, date)
      case None => None
      case Some(k) => Some(k + 1)
  }

  /** save_attendance: INSERT ... ON CONFLICT(student_id, att_date) DO UPDATE SET status, note. */
  function UpsertAttendance(rows: seq<AttendanceRecord>, nextId: int, studentId: string, date: string,
                            status: string, note: string): seq<AttendanceRecord>
  {
    match FindAttendance(rows, studentId, date)
    case Some(k) => rows[k := rows[k].(status := status, note := note)]
    case None => rows + [AttendanceRecord(nextId, studentId, date, status, note)]
  }

  lemma FindAttendanceUnique(rows: seq<AttendanceRecord>, k: nat)
    requires AttendanceKeysUnique(rows) && k < |rows|
    ensures FindAttendance(rows, rows[k].studentId, rows[k].date) == Some(k)
  {
  }

  /**
   * After a save the (student, date) pair is held by exactly one row, with the
   * saved status and note; rows for other pairs are neither added, lost nor changed.
   */
  lemma UpsertAttendanceSpec(rows: seq<AttendanceRecord>, nextId: int, studentId: string, date: string,
                             status: string, note: string)
    requires AttendanceKeysUnique(rows)
    ensures AttendanceKeysUnique(UpsertAttendance(rows, nextId, studentId, date, status, note))
    ensures var r := UpsertAttendance(rows, nextId, studentId, date, status, note);
      var k := FindAttendance(r, studentId, date);
      k.Some? && r[k.value].status == status && r[k.value].note == note
      && r[k.value].id == (match FindAttendance(rows, studentId, date)
                           case Some(i) => rows[i].id
                           case None => nextId)
    ensures forall x: AttendanceRecord :: (x.studentId, x.date) != (studentId, date) ==>
      (x in UpsertAttendance(rows, nextId, studentId, date, status, note) <==> x in rows)
  {
    var r := UpsertAttendance(rows, nextId, studentId, date, status, note);
    match FindAttendance(rows, studentId, date)
    case Some(k) =>
      FindAttendanceUnique(r, k);
      forall x: AttendanceRecord | (x.studentId, x.date) != (studentId, date)
        ensures x in r <==> x in rows
      {
        if x in r {
          var i :| 0 <= i < |r| && r[i] == x;
        }
        if x in rows {
          var i :| 0 <= i < |rows| && rows[i] == x;
          assert r[i] == x;
        }
      }
    case None =>
      FindAttendanceUnique(r, |rows|);
  }

  /** Saving a second status for the same day replaces the first; there is still one row for that day. */
  lemma SaveAttendanceTwice(rows: seq<AttendanceRecord>, n1: int, n2: int, studentId: string, date: string,
                            s1: string, note1: string, s2: string, note2: string)
    requires AttendanceKeysUnique(rows)
    ensures var r := UpsertAttendance(UpsertAttendance(rows, n1, studentId, date, s1, note1), n2, studentId, date, s2, note2);
      AttendanceKeysUnique(r)
      && |r| == |UpsertAttendance(rows, n1, studentId, date, s1, note1)|
      && var k := FindAttendance(r, studentId, date);
         k.Some? && r[k.value].status == s2 && r[k.value].note == note2
  {
    var r1 := UpsertAttendance(rows, n1, studentId, date, s1, note1);
    UpsertAttendanceSpec(rows, n1, studentId, date, s1, note1);
    UpsertAttendanceSpec(r1, n2, studentId, date, s2, note2);
  }

  /** The four statuses get_attendance_stats always reports. */
  const KnownStatuses: seq<string> := ["มา", "ขาด", "ลา", "มาสาย"]

  /** The status counted by the absence report. */
  const AbsentStatus: string := "ขาด"

  /** `att_date >= start_date` and `att_date <= end_date`, each only when given; dates compare as text. */
  predicate InDateRange(date: string, startDate: Option<string>, endDate: Option<string>)
  {
    && (!Truthy(startDate) || Text.StrLe(startDate.value, date))
    && (!Truthy(endDate) || Text.StrLe(date, endDate.value))
  }

  /** The WHERE clause of get_attendance_stats: one student's rows in the date range. */
  function StudentAttendance(rows: seq<AttendanceRecord>, studentId: string, startDate: Option<string>,
                             endDate: Option<string>): (r: seq<AttendanceRecord>)
    ensures forall x :: x in r <==> x in rows && x.studentId == studentId && InDateRange(x.date, startDate, endDate)
  {
    if rows == [] then []
    else
      assert rows == [rows[0]] + rows[1..];
      var rest := StudentAttendance(rows[1..], studentId, startDate, endDate);
      if rows[0].studentId == studentId && InDateRange(rows[0].date, startDate, endDate) then [rows[0]] + rest
      else rest
  }

  /** COUNT(*) of the rows with the status. */
  function CountStatus(rows: seq<AttendanceRecord>, status: string): nat
  {
    if rows == [] then 0
    else (if rows[0].status == status then 1 else 0) + CountStatus(rows[1..], status)
  }

  /** A status is counted at least once exactly when some row carries it. */
  lemma {:induction false} CountStatusPositive(rows: seq<AttendanceRecord>, status: string)
    ensures CountStatus(rows, status) > 0 <==> exists x :: x in rows && x.status == status
  {
    if rows != [] {
      assert rows == [rows[0]] + rows[1..];
      CountStatusPositive(rows[1..], status);
    }
  }

  /** The distinct statuses present, one per GROUP BY group. */
  function StatusesOf(rows: seq<AttendanceRecord>): (d: seq<string>)
    ensures forall x :: x in rows ==> x.status in d
    ensures forall i, j :: 0 <= i < j < |d| ==> d[i] != d[j]
  {
    if rows == [] then []
    else
      assert rows == [rows[0]] + rows[1..];
      var d := StatusesOf(rows[1..]);
      if rows[0].status in d then d else [rows[0].status] + d
  }

  /** Every group's status is carried by some row. */
  lemma {:induction false} StatusesOfSound(rows: seq<AttendanceRecord>, status: string)
    requires status in StatusesOf(rows)
    ensures exists x :: x in rows && x.status == status
  {
    if rows[0].status != status {
      StatusesOfSound(rows[1..], status);
      var x :| x in rows[1..] && x.status == status;
      assert x in rows;
    }
  }

  /** One (status, count) group per status of `statuses`. */
  function CountEach(rows: seq<AttendanceRecord>, statuses: seq<string>): (g: seq<(string, nat)>)
    ensures |g| == |statuses|
    ensures forall i :: 0 <= i < |g| ==> g[i].0 == statuses[i] && g[i].1 == CountStatus(rows, statuses[i])
  {
    if statuses == [] then []
    else [(statuses[0], CountStatus(rows, statuses[0]))] + CountEach(rows, statuses[1..])
  }

  /** A status with no group has count 0. */
  lemma UnseenStatusCountsZero(rows: seq<AttendanceRecord>, status: string)
    requires status !in StatusesOf(rows)
    ensures CountStatus(rows, status) == 0
  {
    CountStatusPositive(rows, status);
  }

  /** Some row of the student in the date range has the status. */
  predicate StatusSeen(rows: seq<AttendanceRecord>, studentId: string, startDate: Option<string>,
                       endDate: Option<string>, status: string)
  {
    exists x :: x in rows && x.studentId == studentId && InDateRange(x.date, startDate, endDate) && x.status == status
  }

  /** The groups of get_attendance_stats are the statuses of the student's rows in the range. */
  lemma SelectedStatuses(rows: seq<AttendanceRecord>, studentId: string, startDate: Option<string>,
                         endDate: Option<string>, status: string)
    ensures status in StatusesOf(StudentAttendance(rows, studentId, startDate, endDate)) <==>
      StatusSeen(rows, studentId, startDate, endDate, status)
  {
    var selected := StudentAttendance(rows, studentId, startDate, endDate);
    if status in StatusesOf(selected) {
      StatusesOfSound(selected, status);
    }
  }

  /** `SELECT status, COUNT(*) ... GROUP BY status`: one group per distinct status. */
  function GroupByStatus(rows: seq<AttendanceRecord>): (g: seq<(string, nat)>)
    ensures |g| == |StatusesOf(rows)|
    ensures forall i :: 0 <= i < |g| ==> g[i] == (StatusesOf(rows)[i], CountStatus(rows, StatusesOf(rows)[i]))
  {
    CountEach(rows, StatusesOf(rows))
  }

  /** `{'มา': 0, 'ขาด': 0, 'ลา': 0, 'มาสาย': 0}` */
  function ZeroStats(): map<string, nat>
  {
    map st | st in KnownStatuses :: 0
  }

  /**
   * The dictionary get_attendance_stats fills: the four known statuses at 0,
   * then each group in turn writes its count under its status.
   */
  function FoldStats(groups: seq<(string, nat)>): map<string, nat>
  {
    if groups == [] then ZeroStats()
    else FoldStats(groups[..|groups| - 1])[groups[|groups| - 1].0 := groups[|groups| - 1].1]
  }

  /** After the first n groups: known or seen statuses are keys; a seen status maps to its count, the rest to 0. */
  lemma {:induction false} FoldStatsPrefix(rows: seq<AttendanceRecord>, n: nat)
    requires n <= |GroupByStatus(rows)|
    ensures var m := FoldStats(GroupByStatus(rows)[..n]);
      && (forall st :: st in m <==> st in KnownStatuses || st in StatusesOf(rows)[..n])
      && (forall st :: st in m ==> m[st] == if st in StatusesOf(rows)[..n] then CountStatus(rows, st) else 0)
  {
    var g := GroupByStatus(rows);
    var d := StatusesOf(rows);
    if n > 0 {
      FoldStatsPrefix(rows, n - 1);
      assert g[..n][..n - 1] == g[..n - 1];
      var prev := FoldStats(g[..n - 1]);
      var m := FoldStats(g[..n]);
      assert m == prev[d[n - 1] := CountStatus(rows, d[n - 1])];
      assert d[..n] == d[..n - 1] + [d[n - 1]];
      forall st
        ensures st in m <==> st in KnownStatuses || st in d[..n]
        ensures st in m ==> m[st] == if st in d[..n] then CountStatus(rows, st) else 0
      {
      }
    }
  }

  /** The finished dictionary: every known or present status, each mapped to its count. */
  lemma FoldStatsSpec(rows: seq<AttendanceRecord>)
    ensures var m := FoldStats(GroupByStatus(rows));
      && (forall st :: st in m <==> st in KnownStatuses || st in StatusesOf(rows))
      && (forall st :: st in m ==> m[st] == CountStatus(rows, st))
  {
    var g := GroupByStatus(rows);
    var d := StatusesOf(rows);
    FoldStatsPrefix(rows, |g|);
    assert g[..|g|] == g;
    assert d[..|g|] == d;
    forall st | st !in d
      ensures CountStatus(rows, st) == 0
    {
      UnseenStatusCountsZero(rows, st);
    }
  }

  /**
   * get_attendance_stats in full: the dictionary holds the four known
   * statuses and every status the student has in the range, each mapped to
   * the number of such rows.
   */
  lemma AttendanceStatsSpec(rows: seq<AttendanceRecord>, studentId: string, startDate: Option<string>,
                            endDate: Option<string>)
    ensures var m := FoldStats(GroupByStatus(StudentAttendance(rows, studentId, startDate, endDate)));
      && (forall st :: st in m <==> st in KnownStatuses || StatusSeen(rows, studentId, startDate, endDate, st))
      && (forall st :: st in m ==> m[st] == CountStatus(StudentAttendance(rows, studentId, startDate, endDate), st))
  {
    var selected := StudentAttendance(rows, studentId, startDate, endDate);
    FoldStatsSpec(selected);
    forall st
      ensures st in StatusesOf(selected) <==> StatusSeen(rows, studentId, startDate, endDate, st)
    {
      SelectedStatuses(rows, studentId, startDate, endDate, st);
    }
  }

  /** One line of get_students_absent_more_than: the student's columns and absent_days. */
  datatype Absentee = Absentee(student: Student, absentDays: nat)

  /** COUNT(a.id) of a student's absences in the date range: the same rows get_attendance_stats counts. */
  function AbsentDays(rows: seq<AttendanceRecord>, studentId: string, startDate: Option<string>,
                      endDate: Option<string>): nat
  {
    CountStatus(StudentAttendance(rows, studentId, startDate, endDate), AbsentStatus)
  }

  /** The absence report's count is the "ขาด" entry of get_attendance_stats over the same range. */
  lemma AbsenceReportMatchesStats(rows: seq<AttendanceRecord>, studentId: string, startDate: Option<string>,
                                  endDate: Option<string>)
    ensures var m := FoldStats(GroupByStatus(StudentAttendance(rows, studentId, startDate, endDate)));
      && AbsentStatus in m
      && m[AbsentStatus] == AbsentDays(rows, studentId, startDate, endDate)
  {
    AttendanceStatsSpec(rows, studentId, startDate, endDate);
  }

  predicate ClassMatches(s: Student, classRoom: Option<string>)
  {
    !Truthy(classRoom) || s.classRoom == classRoom.value
  }

  /**
   * The groups of the absence query, unsorted: active students of the class
   * with more than `days` absences. The inner join drops students with none,
   * even when `days` is negative.
   */
  function AbsentCandidates(students: seq<Student>, rows: seq<AttendanceRecord>, days: int,
                            classRoom: Option<string>, startDate: Option<string>,
                            endDate: Option<string>): (r: seq<Absentee>)
    ensures forall a :: a in r <==>
      && a.student in students && a.student.isActive && ClassMatches(a.student, classRoom)
      && a.absentDays == AbsentDays(rows, a.student.studentId, startDate, endDate)
      && a.absentDays > 0 && a.absentDays > days
  {
    if students == [] then []
    else
      assert students == [students[0]] + students[1..];
      var s := students[0];
      var n := AbsentDays(rows, s.studentId, startDate, endDate);
      var rest := AbsentCandidates(students[1..], rows, days, classRoom, startDate, endDate);
      if s.isActive && ClassMatches(s, classRoom) && n > 0 && n > days then [Absentee(s, n)] + rest else rest
  }

  /** ORDER BY absent_days DESC. */
  predicate MoreAbsentFirst(a: Absentee, b: Absentee)
  {
    a.absentDays >= b.absentDays
  }

  /**
   * get_students_absent_more_than: each active student of the class whose
   * absences in the range exceed `days` (strictly), with that count, most
   * absences first.
   */
  function StudentsAbsentMoreThan(students: seq<Student>, rows: seq<AttendanceRecord>, days: int,
                                  classRoom: Option<string>, startDate: Option<string>,
                                  endDate: Option<string>): (r: seq<Absentee>)
    ensures multiset(r) == multiset(AbsentCandidates(students, rows, days, classRoom, startDate, endDate))
    ensures forall a :: a in r <==>
      && a.student in students && a.student.isActive && ClassMatches(a.student, classRoom)
      && a.absentDays == AbsentDays(rows, a.student.studentId, startDate, endDate)
      && a.absentDays > 0 && a.absentDays > days
    ensures Sorting.SortedBy(r, MoreAbsentFirst)
  {
    var c := AbsentCandidates(students, rows, days, classRoom, startDate, endDate);
    Sorting.SortSorted(c, MoreAbsentFirst);
    var r := Sorting.SortBy(c, MoreAbsentFirst);
    assert forall a :: a in r <==> a in multiset(r);
    assert forall a :: a in c <==> a in multiset(c);
    r
  }

  /** For a non-negative threshold a student is listed exactly when their absences exceed it. */
  lemma AbsenceThresholdIsStrict(students: seq<Student>, rows: seq<AttendanceRecord>, days: nat,
                                 s: Student, startDate: Option<string>, endDate: Option<string>)
    requires s in students && s.isActive
    ensures Absentee(s, AbsentDays(rows, s.studentId, startDate, endDate))
              in StudentsAbsentMoreThan(students, rows, days, None, startDate, endDate)
        <==> AbsentDays(rows, s.studentId, startDate, endDate) > days
  {
  }

  // ----------------------------------------------------------------------- health

  datatype HealthRecord = HealthRecord(
    id: int,
    studentId: string,
    recordDate: string,
    brushedTeeth: int,
    drankMilk: int,
    weightKg: Option<real>,
    heightCm: Option<real>,
    bmi: Option<real>)

  /** The dictionary save_health_record receives; a missing brushed_teeth or drank_milk stands for 0. */
  datatype HealthInput = HealthInput(
    studentId: string,
    recordDate: string,
    brushedTeeth: Option<int>,
    drankMilk: Option<int>,
    weightKg: Option<real>,
    heightCm: Option<real>,
    bmi: Option<real>)

  /** The row save_health_record inserts. */
  function NewHealth(id: int, h: HealthInput): HealthRecord
  {
    HealthRecord(id, h.studentId, h.recordDate,
                 if h.brushedTeeth.Some? then h.brushedTeeth.value else 0,
                 if h.drankMilk.Some? then h.drankMilk.value else 0,
                 h.weightKg, h.heightCm, h.bmi)
  }

  predicate SameDay(x: HealthRecord, studentId: string, recordDate: string)
  {
    x.studentId == studentId && x.recordDate == recordDate
  }

  predicate HasDay(rows: seq<HealthRecord>, studentId: string, recordDate: string)
  {
    exists i :: 0 <= i < |rows| && SameDay(rows[i], studentId, recordDate)
  }

  /** `UPDATE health_records SET brushed_teeth, drank_milk WHERE student_id = ? AND record_date = ?` */
  function SetDailyFlags(rows: seq<HealthRecord>, studentId: string, recordDate: string,
                         brushedTeeth: int, drankMilk: int): seq<HealthRecord>
  {
    seq(|rows|, i requires 0 <= i < |rows| =>
      if SameDay(rows[i], studentId, recordDate)
      then rows[i].(brushedTeeth := brushedTeeth, drankMilk := drankMilk)
      else rows[i])
  }

  /** The row the insert branch of update_health_daily creates: the flags, no measurements. */
  function FlagsOnly(id: int, studentId: string, recordDate: string, brushedTeeth: int, drankMilk: int): HealthRecord
  {
    HealthRecord(id, studentId, recordDate, brushedTeeth, drankMilk, None, None, None)
  }

  /**
   * update_health_daily: when the student has rows for the date, every one of
   * them gets the two flags (health_records has no uniqueness constraint);
   * otherwise a row with just the flags is inserted.
   */
  function UpdateDaily(rows: seq<HealthRecord>, nextId: int, studentId: string, recordDate: string,
                       brushedTeeth: int, drankMilk: int): seq<HealthRecord>
  {
    if HasDay(rows, studentId, recordDate) then SetDailyFlags(rows, studentId, recordDate, brushedTeeth, drankMilk)
    else rows + [FlagsOnly(nextId, studentId, recordDate, brushedTeeth, drankMilk)]
  }

  /**
   * After the update the student has a row for the date, every such row
   * carries the new flags, and nothing else in the table changed: existing
   * rows keep their id, weight, height and BMI, and a row is added only when
   * there was none for that day.
   */
  lemma UpdateDailySpec(rows: seq<HealthRecord>, nextId: int, studentId: string, recordDate: string,
                        brushedTeeth: int, drankMilk: int)
    ensures var r := UpdateDaily(rows, nextId, studentId, recordDate, brushedTeeth, drankMilk);
      && HasDay(r, studentId, recordDate)
      && (forall x :: x in r && SameDay(x, studentId, recordDate) ==>
            x.brushedTeeth == brushedTeeth && x.drankMilk == drankMilk)
      && (forall x :: !SameDay(x, studentId, recordDate) ==> (x in r <==> x in rows))
      && |r| == |rows| + (if HasDay(rows, studentId, recordDate) then 0 else 1)
      && (forall i :: 0 <= i < |rows| ==>
            r[i] == rows[i].(brushedTeeth := r[i].brushedTeeth, drankMilk := r[i].drankMilk))
  {
    var r := UpdateDaily(rows, nextId, studentId, recordDate, brushedTeeth, drankMilk);
    if HasDay(rows, studentId, recordDate) {
      var k :| 0 <= k < |rows| && SameDay(rows[k], studentId, recordDate);
      assert SameDay(r[k], studentId, recordDate);
      forall x | !SameDay(x, studentId, recordDate)
        ensures x in r <==> x in rows
      {
        if x in r {
          var i :| 0 <= i < |r| && r[i] == x;
        }
        if x in rows {
          var i :| 0 <= i < |rows| && rows[i] == x;
          assert r[i] == x;
        }
      }
    } else {
      assert SameDay(r[|rows|], studentId, recordDate);
    }
  }

  /** Repeating the daily update with the same flags changes nothing. */
  lemma UpdateDailyIdempotent(rows: seq<HealthRecord>, n1: int, n2: int, studentId: string, recordDate: string,
                              brushedTeeth: int, drankMilk: int)
    ensures UpdateDaily(UpdateDaily(rows, n1, studentId, recordDate, brushedTeeth, drankMilk),
                        n2, studentId, recordDate, brushedTeeth, drankMilk)
         == UpdateDaily(rows, n1, studentId, recordDate, brushedTeeth, drankMilk)
  {
    var r := UpdateDaily(rows, n1, studentId, recordDate, brushedTeeth, drankMilk);
    UpdateDailySpec(rows, n1, studentId, recordDate, brushedTeeth, drankMilk);
    var r2 := UpdateDaily(r, n2, studentId, recordDate, brushedTeeth, drankMilk);
    forall i | 0 <= i < |r| ensures r2[i] == r[i] {
      if SameDay(r[i], studentId, recordDate) {
        assert r[i] in r;
      }
    }
  }
}
