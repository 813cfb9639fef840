/**
 * The data-access class: the tables it owns and the operations that change
 * them. Every write is stated against the specification functions of the
 * Schedule and Records modules, and every write keeps the tables' keys unique.
 */
module Db {

  import opened Wrappers
  import S = Schedule
  import R = Records

  class Database {
    var teachers: seq<S.Teacher>
    var students: seq<R.Student>
    var schedule: seq<S.Row>
    var scheduleNextId: int
    var grades: seq<R.GradeRecord>
    var gradeNextId: int
    var attendance: seq<R.AttendanceRecord>
    var attendanceNextId: int
    var health: seq<R.HealthRecord>
    var healthNextId: int

    /** Primary keys and UNIQUE constraints hold, and AUTOINCREMENT counters start above 0. */
    ghost predicate Valid()
      reads this
    {
      && S.TeacherIdsUnique(teachers)
      && R.StudentIdsUnique(students)
      && 0 < scheduleNextId && S.TableOk(schedule, scheduleNextId)
      && 0 < gradeNextId && R.GradeKeysUnique(grades)
      && 0 < attendanceNextId && R.AttendanceKeysUnique(attendance)
      && 0 < healthNextId
    }

    /** A fresh database: every table empty, every id counter at 1. */
    constructor()
      ensures Valid()
      ensures teachers == [] && students == [] && schedule == [] && grades == []
      ensures attendance == [] && health == []
      ensures scheduleNextId == 1 && gradeNextId == 1 && attendanceNextId == 1 && healthNextId == 1
    {
      teachers, students, schedule, grades, attendance, health := [], [], [], [], [], [];
      scheduleNextId, gradeNextId, attendanceNextId, healthNextId := 1, 1, 1, 1;
    }

    /** add_teacher: the insert fails on a duplicate teacher_id; a new teacher is active. */
    method AddTeacher(t: S.Teacher) returns (ok: bool)
      requires Valid()
      modifies this`teachers
      ensures Valid()
      ensures ok <==> S.FindTeacher(old(teachers), t.teacherId).None?
      ensures ok ==> teachers == old(teachers) + [t.(isActive := true)]
      ensures !ok ==> teachers == old(teachers)
    {
      if S.FindTeacher(teachers, t.teacherId).Some? {
        return false;
      }
      teachers := teachers + [t.(isActive := true)];
      return true;
    }

    /** add_student: the insert fails on a duplicate student_id; a new student is active. */
    method AddStudent(s: R.Student) returns (ok: bool)
      requires Valid()
      modifies this`students
      ensures Valid()
      ensures ok <==> !R.HasStudent(old(students), s.studentId)
      ensures ok ==> students == old(students) + [s.(isActive := true)]
      ensures !ok ==> students == old(students)
    {
      if R.HasStudent(students, s.studentId) {
        return false;
      }
      students := students + [s.(isActive := true)];
      return true;
    }

    /**
     * add_schedule: the conflict guard runs first and its message is returned
     * as is; an insert that passes the guard but still meets the UNIQUE
     * constraint (the clashing row's teacher is missing) is a storage error;
     * otherwise exactly one row is appended under the next id.
     */
    method AddSchedule(s: S.Slot) returns (r: S.Outcome)
      requires Valid()
      modifies this`schedule, this`scheduleNextId
      ensures Valid()
      ensures r.Conflict? <==> S.CheckTeacherConflict(old(schedule), teachers, s.teacherId, s.day, s.period, None).Some?
      ensures r.Conflict? ==> r.msg == S.CheckTeacherConflict(old(schedule), teachers, s.teacherId, s.day, s.period, None).value
      ensures r.StorageError? <==>
        S.CheckTeacherConflict(old(schedule), teachers, s.teacherId, s.day, s.period, None).None?
        && S.Occupied(old(schedule), s)
      ensures r.Ok? ==> schedule == old(schedule) + [S.Row(old(scheduleNextId), s)]
                        && scheduleNextId == old(scheduleNextId) + 1
      ensures !r.Ok? ==> schedule == old(schedule) && scheduleNextId == old(scheduleNextId)
    {
      var conflict := S.CheckTeacherConflict(schedule, teachers, s.teacherId, s.day, s.period, None);
      if conflict.Some? {
        return S.Conflict(conflict.value);
      }
      if S.Occupied(schedule, s) {
        return S.StorageError;
      }
      S.AppendKeepsTable(schedule, scheduleNextId, s);
      schedule := schedule + [S.Row(scheduleNextId, s)];
      scheduleNextId := scheduleNextId + 1;
      return S.Ok;
    }

    /**
     * update_schedule: the guard skips the row being edited; the UPDATE
     * rewrites the row with that id (none, when the id is unknown) and fails
     * only when another row already holds the new key.
     */
    method UpdateSchedule(id: int, s: S.Slot) returns (r: S.Outcome)
      requires Valid()
      modifies this`schedule
      ensures Valid()
      ensures r.Conflict? <==> S.CheckTeacherConflict(old(schedule), teachers, s.teacherId, s.day, s.period, Some(id)).Some?
      ensures r.Conflict? ==> r.msg == S.CheckTeacherConflict(old(schedule), teachers, s.teacherId, s.day, s.period, Some(id)).value
      ensures r.StorageError? <==>
        S.CheckTeacherConflict(old(schedule), teachers, s.teacherId, s.day, s.period, Some(id)).None?
        && S.HasId(old(schedule), id) && S.OccupiedByOther(old(schedule), s, id)
      ensures r.Ok? ==> schedule == S.Replace(old(schedule), id, s)
      ensures !r.Ok? ==> schedule == old(schedule)
    {
      var conflict := S.CheckTeacherConflict(schedule, teachers, s.teacherId, s.day, s.period, Some(id));
      if conflict.Some? {
        return S.Conflict(conflict.value);
      }
      if S.HasId(schedule, id) && S.OccupiedByOther(schedule, s, id) {
        return S.StorageError;
      }
      if !S.HasId(schedule, id) {
        S.ReplaceMissing(schedule, id, s);
      } else {
        S.ReplaceKeepsTable(schedule, scheduleNextId, id, s);
      }
      schedule := S.Replace(schedule, id, s);
      return S.Ok;
    }

    /** delete_schedule: an unconditional DELETE ... WHERE id = ?, which always succeeds. */
    method DeleteSchedule(id: int) returns (r: S.Outcome)
      requires Valid()
      modifies this`schedule
      ensures Valid()
      ensures r.Ok?
      ensures schedule == S.Without(old(schedule), id)
    {
      S.WithoutKeepsTable(schedule, scheduleNextId, id);
      schedule := S.Without(schedule, id);
      return S.Ok;
    }

    /**
     * save_grade: the keyed upsert. SQLite draws the AUTOINCREMENT id before
     * it meets the conflict, so the counter moves on the update branch too.
     */
    method SaveGrade(g: R.GradeInput) returns (ok: bool)
      requires Valid()
      modifies this`grades, this`gradeNextId
      ensures Valid()
      ensures ok
      ensures grades == R.UpsertGrade(old(grades), old(gradeNextId), g)
      ensures gradeNextId == old(gradeNextId) + 1
    {
      R.UpsertGradeSpec(grades, gradeNextId, g);
      grades := R.UpsertGrade(grades, gradeNextId, g);
      gradeNextId := gradeNextId + 1;
      return true;
    }

    /** save_attendance: the keyed upsert on (student, date); as with grades, every save draws an id. */
    method SaveAttendance(studentId: string, date: string, status: string, note: string) returns (ok: bool)
      requires Valid()
      modifies this`attendance, this`attendanceNextId
      ensures Valid()
      ensures ok
      ensures attendance == R.UpsertAttendance(old(attendance), old(attendanceNextId), studentId, date, status, note)
      ensures attendanceNextId == old(attendanceNextId) + 1
    {
      R.UpsertAttendanceSpec(attendance, attendanceNextId, studentId, date, status, note);
      attendance := R.UpsertAttendance(attendance, attendanceNextId, studentId, date, status, note);
      attendanceNextId := attendanceNextId + 1;
      return true;
    }

    /** save_health_record: a plain insert; health_records has no uniqueness constraint. */
    method SaveHealthRecord(h: R.HealthInput) returns (ok: bool)
      requires Valid()
      modifies this`health, this`healthNextId
      ensures Valid()
      ensures ok
      ensures health == old(health) + [R.NewHealth(old(healthNextId), h)]
      ensures healthNextId == old(healthNextId) + 1
    {
      health := health + [R.NewHealth(healthNextId, h)];
      healthNextId := healthNextId + 1;
      return true;
    }

    /**
     * update_health_daily: look for the student's rows of that date; when
     * there is one, set the two flags on all of them, otherwise insert a row
     * that carries only the flags.
     */
    method UpdateHealthDaily(studentId: string, recordDate: string, brushedTeeth: int, drankMilk: int)
      returns (ok: bool)
      requires Valid()
      modifies this`health, this`healthNextId
      ensures Valid()
      ensures ok
      ensures health == R.UpdateDaily(old(health), old(healthNextId), studentId, recordDate, brushedTeeth, drankMilk)
      ensures healthNextId == old(healthNextId) + (if R.HasDay(old(health), studentId, recordDate) then 0 else 1)
    {
      var found := R.HasDay(health, studentId, recordDate);
      if found {
        health := R.SetDailyFlags(health, studentId, recordDate, brushedTeeth, drankMilk);
      } else {
        health := health + [R.FlagsOnly(healthNextId, studentId, recordDate, brushedTeeth, drankMilk)];
        healthNextId := healthNextId + 1;
      }
      return true;
    }

    /**
     * get_attendance_stats: the four known statuses start at 0, then each
     * GROUP BY group of the student's rows in the date range overwrites its
     * status's entry with its count. Every status of a selected row appears,
     * known or not, and every entry is that status's count.
     */
    method GetAttendanceStats(studentId: string, startDate: Option<string>, endDate: Option<string>)
      returns (stats: map<string, nat>)
      ensures forall st :: st in stats <==>
        st in R.KnownStatuses || R.StatusSeen(attendance, studentId, startDate, endDate, st)
      ensures forall st :: st in stats ==>
        stats[st] == R.CountStatus(R.StudentAttendance(attendance, studentId, startDate, endDate), st)
    {
      var selected := R.StudentAttendance(attendance, studentId, startDate, endDate);
      var groups := R.GroupByStatus(selected);
      stats := R.ZeroStats();
      var i := 0;
      while i < |groups|
        invariant 0 <= i <= |groups|
        invariant stats == R.FoldStats(groups[..i])
      {
        assert groups[..i + 1][..i] == groups[..i];
        stats := stats[groups[i].0 := groups[i].1];
        i := i + 1;
      }
      assert groups[..|groups|] == groups;
      R.AttendanceStatsSpec(attendance, studentId, startDate, endDate);
    }
  }
}
