# School administration data layer — a verified model

This project models the data-access class `Database` of a Thai primary-school
administration program: the grade classifier, the class timetable with its
teacher-conflict guard, and the keyed writes and counters behind the grade
book, the attendance register and the daily health log.

The tables are values: each modelled table (teachers, students, schedule,
grades, attendance, health_records) is a sequence of rows in a field of the
Dafny class `Db.Database`; the four AUTOINCREMENT tables also carry a
next-id counter. The operations that change a table are methods of that class. Each
method states the new table as a function of the old one. Those functions,
and the read queries, live in three modules:

- `Grading`: `calculate_grade`, from an optional score to one of eight grade
  labels or `"-"`.
- `Schedule`: the timetable. It covers the conflict check and its message,
  the writes the guard protects, the three timetable queries with their
  day-rank ordering, and the per-teacher workload.
- `Records`: students, grades, attendance and health records. It covers the
  two keyed upserts, the daily health update, the per-status attendance
  counts and the absence report.

`Text` (string order, decimal formatting, substring search), `Sorting` (a
stable insertion sort with a permutation proof) and `Wrappers` (`Option`)
support them.

The invariant the timetable keeps is the UNIQUE(teacher_id, day_of_week,
period_no) constraint. Ids are positive, ascending in table order and
below the next id. Every method of `Db.Database` keeps `Valid()`, and
`Valid()` holds this invariant and the keys of the other tables.

`add_schedule` and `update_schedule` give one of three results, modelled as
`Schedule.Outcome`: `Ok` (Python `True`), `Conflict(msg)` (the message
string) or `StorageError` (Python `False`). The dialog at
modules/schedule.py:1261-1269 tells these apart. It closes on `True`, shows the
string on a conflict, and shows a generic error otherwise.

The model keeps these behaviours of the code:

- `save_grade` stores the `grade` the caller passes. It does not derive the
  grade from the score with `calculate_grade`.
- The conflict query joins `teachers`, so a clash with a row whose teacher is
  missing is not reported. The insert then breaks the UNIQUE constraint, and
  the model returns `StorageError` for it.
- A day label outside Monday to Friday is accepted. Its rank is SQL NULL,
  which sorts before the five weekdays; `DayRank` gives it 0.
- `if exclude_id:` treats `None` and `0` alike: neither excludes a row.
- Foreign keys are not enforced (SQLite's default), so a schedule row may
  name a teacher that does not exist.

Scores are exact `real`s. Dates are `YYYY-MM-DD` strings, compared as text,
as SQLite does.

## Model

| member | source | states |
|---|---|---|
| Grading.CalculateGrade | database/db.py:750-777 | `"-"` exactly when there is no score; otherwise one of the eight labels |
| Grading.GradeIsThresholdCount | database/db.py:762-777 | the label is indexed by how many of 50, 55, …, 80 the score reaches, each bound inclusive; no clamping |
| Grading.GradeMonotone | database/db.py:762-777 | a higher score never gets a lower grade |
| Grading.GradeBand | database/db.py:762-777 | the label is the k-th one exactly when the score lies in that band's half-open interval |
| Grading.GradeExamples | tests/test_utils.py:27-48 | 80 → 4.0, 79.99 → 3.5, 150 → 4.0, −10 → 0.0, every band edge, and None → "-" |
| Grading.ThresholdsMetMonotone | database/db.py:762-777 | reaching more thresholds is monotone in the score |
| Grading.RankOfLabel | database/db.py:762-777 | the labels are in increasing order of grade |
| Text.StrLeTotal | database/db.py:1092 | text order, used for `ORDER BY name` and date bounds, is total |
| Text.StrLeTransitive | database/db.py:1092 | text order is transitive |
| Text.StrLeAntisymmetric | database/db.py:1092 | text order is antisymmetric |
| Text.ContainsInLeft | database/db.py:1023 | a piece of the left part of a concatenation is a piece of the whole |
| Text.ContainsInRight | database/db.py:1023 | the same for the right part |
| Sorting.SortBy | database/db.py:1040-1048 | the ORDER BY result is a permutation of the rows |
| Sorting.SortSorted | database/db.py:1040-1048 | under a total, transitive order the result is sorted |
| Sorting.InsertSorted | database/db.py:1040-1048 | inserting into a sorted list keeps it sorted |
| Schedule.DisplayName | database/db.py:1022 | title and first name run together, a space, then the last name; the name inside every conflict message (Schedule.ConflictMessageMentions) and the workload name |
| Schedule.Occupied | database/db.py:139 | some row already holds the slot's (teacher, day, period) key, which the UNIQUE constraint forbids; its use is stated by Db.Database.AddSchedule and Schedule.ReportedIsOccupied |
| Schedule.OccupiedByOther | database/db.py:139 | a row with another id holds the key; the StorageError case of Db.Database.UpdateSchedule |
| Schedule.Excluded | database/db.py:1014-1016 | `if exclude_id:` is a truthiness test, so an id of 0 excludes nothing; used by Schedule.FirstReported |
| Schedule.Reported | database/db.py:1006-1011 | the WHERE on teacher, day and period plus the inner join with teachers; used by Schedule.FirstReported and Schedule.CheckTeacherConflict |
| Schedule.FindTeacher | database/db.py:1009 | the joined teacher row has the id; no row means no teacher has that id |
| Schedule.FindTeacherUnique | database/db.py:113-122 | with teacher_id as primary key, the joined row is the teacher |
| Schedule.FirstReported | database/db.py:1006-1019 | the first row (fetchone) that clashes, is not excluded and joins a teacher; none when no row does |
| Schedule.CheckTeacherConflict | database/db.py:995-1025 | a message exactly when some row with an existing teacher books the teacher on that day and period (the truthy excluded id aside); the message names that teacher and the first such row's class room |
| Schedule.ConflictMessage | database/db.py:1022-1023 | the rejection text, byte for byte; what it contains is stated by Schedule.ConflictMessageMentions |
| Schedule.PeriodLabel | database/db.py:1023 | "คาบที่ " and the period in decimal; contained in the message by Schedule.ConflictMessageMentions |
| Schedule.ConflictMessageMentions | database/db.py:1021-1023 | the message contains "ครู " and the teacher's name, the day, "คาบที่ N" and the class room |
| Schedule.ReportedIsOccupied | database/db.py:1006-1016 | a reported conflict is a real booking of the key (by another row when an id is excluded): the guard rejects only what the constraint forbids |
| Schedule.AppendKeepsTable | database/db.py:907-922 | inserting a free key under the next id keeps ids fresh and ascending and keys unique |
| Schedule.Replace | database/db.py:950-970 | same length and ids; the row with the id gets the new columns, every other row is unchanged |
| Schedule.ReplaceMissing | database/db.py:950-970 | updating an id that is not there changes nothing |
| Schedule.ReplaceKeepsTable | database/db.py:950-970 | rewriting a row to a key no other row holds keeps the invariant |
| Schedule.SelfUpdateAccepted | database/db.py:937-946 | re-saving a row with its own teacher, day and period passes the guard and the constraint |
| Schedule.AcceptedSlotThenConflicts | database/db.py:995-1025 | once a slot is stored for an existing teacher, the same slot is rejected with that teacher's name and the row's class room |
| Schedule.Without | database/db.py:977-993 | the survivors are exactly the rows with another id |
| Schedule.WithoutMissing | database/db.py:985-987 | deleting an id that is not there changes nothing |
| Schedule.WithoutIdempotent | database/db.py:985-987 | deleting twice is the same as deleting once |
| Schedule.WithoutRemovesOne | database/db.py:985-987 | deleting an existing id removes exactly one row |
| Schedule.WithoutKeepsTable | database/db.py:985-987 | deleting keeps the table's invariant |
| Schedule.PrependKeepsTable | database/db.py:128-139 | a row with a smaller id and a different key can head a valid table |
| Schedule.Join | database/db.py:1035-1039 | the listed rows are exactly the selected rows whose teacher exists, each paired with that teacher |
| Schedule.DayRank | database/db.py:1041-1047 | จันทร์ … ศุกร์ rank 1 … 5 (the k-th weekday ranks k); any other label, and only such a label, ranks 0, before them |
| Schedule.DayPeriodLe | database/db.py:1040-1048 | ORDER BY day rank, then period_no; its order properties are stated by Schedule.DayPeriodLeIsPreorder |
| Schedule.RoomDayPeriodLe | database/db.py:1106-1114 | ORDER BY class_room, day rank, period_no; its order properties are stated by Schedule.RoomDayPeriodLeIsPreorder |
| Schedule.DayPeriodLeIsPreorder | database/db.py:1040-1048 | ordering by day rank, then period, is total and transitive |
| Schedule.RoomDayPeriodLeIsPreorder | database/db.py:1106-1114 | ordering by class room, then day rank, then period, is total and transitive |
| Schedule.Query | database/db.py:1027-1116 | get_schedule_by_class, get_schedule_by_teacher and get_all_schedules: a permutation of the joined selected rows, sorted by that query's ORDER BY |
| Schedule.EarlierDayListedFirst | database/db.py:1040-1048 | in a timetable an earlier weekday comes first |
| Schedule.PeriodsOf | database/db.py:1087-1089 | COUNT(s.id) over the left join; equal to the teacher's timetable length by Schedule.WorkloadMatchesTimetable |
| Schedule.WorkloadOf | database/db.py:1084-1089 | one result line: teacher_id, the display name and periods_per_week; used by Schedule.Tally |
| Schedule.HeavierFirst | database/db.py:1092 | ORDER BY periods_per_week DESC, name; its order properties are stated by Schedule.HeavierFirstIsPreorder |
| Schedule.Tally | database/db.py:1083-1091 | one line per active teacher, and no other, with that teacher's count |
| Schedule.HeavierFirstIsPreorder | database/db.py:1092 | ordering by periods descending, then name, is total and transitive |
| Schedule.TeacherWorkload | database/db.py:1077-1094 | every active teacher and no one else, with the number of rows booking them, sorted busiest first and then by name |
| Schedule.TallyOnce | database/db.py:1091 | GROUP BY teacher_id gives each active teacher one line |
| Schedule.WorkloadListsEachActiveTeacherOnce | database/db.py:1077-1094 | each active teacher appears exactly once in the workload list |
| Schedule.IdleTeachersLast | database/db.py:1092 | teachers with no periods come after all teachers with some |
| Schedule.WorkloadMatchesTimetable | database/db.py:1052-1094 | a teacher's periods_per_week is the length of their get_schedule_by_teacher list |
| Schedule.JoinTeacherCount | database/db.py:1060-1064 | counting a teacher's rows equals counting their joined rows |
| Records.FindGrade | database/db.py:684-690 | the row holding the (student, year, semester, subject) key, or none when no row holds it |
| Records.FindGradeUnique | database/db.py:108 | with the key unique, the row found is the one that holds it |
| Records.NewGrade | database/db.py:685-699 | the inserted grade row, full_score defaulting to 100; its use is stated by Records.UpsertGradeSpec |
| Records.UpsertGrade | database/db.py:684-702 | the save_grade upsert; its properties are stated by Records.UpsertGradeSpec, Records.SaveGradeTwice and Records.SaveGradeIdempotent |
| Records.UpsertGradeSpec | database/db.py:675-707 | after save_grade the key is held by exactly one row with the saved score and grade; an existing row keeps its id, subject name and full score; other rows are untouched; a row is added only for a new key |
| Records.SaveGradeTwice | database/db.py:684-702 | two saves of one key leave one row: score and grade from the second, the other columns from the first |
| Records.SaveGradeIdempotent | database/db.py:684-702 | saving the same grade again leaves the grade table unchanged |
| Records.FindAttendance | database/db.py:411-414 | the row holding (student, date), or none |
| Records.FindAttendanceUnique | database/db.py:74 | with the key unique, the row found is the one that holds it |
| Records.UpsertAttendance | database/db.py:412-417 | the save_attendance upsert; its properties are stated by Records.UpsertAttendanceSpec and Records.SaveAttendanceTwice |
| Records.UpsertAttendanceSpec | database/db.py:400-422 | after save_attendance the (student, date) row carries the saved status and note and keeps its id; other rows are untouched |
| Records.SaveAttendanceTwice | database/db.py:411-417 | two saves of one day leave one row, with the second status and note |
| Records.InDateRange | database/db.py:493-499 | each date bound applies only when given and truthy, comparing dates as text; the same test as db.py:532-538; used by Records.StudentAttendance |
| Records.StudentAttendance | database/db.py:486-500 | exactly the student's rows between the dates; an empty or absent date is no bound |
| Records.CountStatus | database/db.py:487 | COUNT(*) of the rows with a status; stated by Records.CountStatusPositive and Records.UnseenStatusCountsZero |
| Records.CountStatusPositive | database/db.py:486-502 | a status counts at least once exactly when some row has it |
| Records.StatusesOf | database/db.py:502 | every status present is a group, and no group repeats |
| Records.StatusesOfSound | database/db.py:502 | every group's status occurs in the rows |
| Records.UnseenStatusCountsZero | database/db.py:503 | a known status with no rows stays at 0 |
| Records.SelectedStatuses | database/db.py:486-502 | the groups are exactly the statuses of the student's rows in range |
| Records.CountEach | database/db.py:486-502 | one group per status, carrying that status's count |
| Records.GroupByStatus | database/db.py:486-501 | one (status, count) group per distinct status present, in the order of Records.StatusesOf |
| Records.ZeroStats | database/db.py:504 | the four known statuses at 0; its keys are stated by Records.FoldStatsSpec |
| Records.FoldStats | database/db.py:504-506 | the dictionary after each group writes its count; stated by Records.FoldStatsPrefix and Records.FoldStatsSpec |
| Records.FoldStatsPrefix | database/db.py:503-506 | after n groups the dictionary holds the known statuses and the first n groups' statuses, each seen one at its count, the rest 0 |
| Records.FoldStatsSpec | database/db.py:503-506 | the filled dictionary holds the known statuses and every present status, each at its count |
| Records.AttendanceStatsSpec | database/db.py:476-507 | get_attendance_stats: keys are the four known statuses and every status the student has in range; each value is that status's count |
| Records.AbsentDays | database/db.py:520-540 | COUNT(a.id) of the student's absences in range, defined as the 'ขาด' count over the rows get_attendance_stats selects; its use is stated by Records.AbsentCandidates and Records.AbsenceThresholdIsStrict |
| Records.AbsenceReportMatchesStats | database/db.py:520-540 | a student's absent_days equals the 'ขาด' entry of get_attendance_stats over the same date range |
| Records.AbsentCandidates | database/db.py:519-541 | the groups: active students of the class (when given) whose absences in range are at least one and more than `days` |
| Records.ClassMatches | database/db.py:528-530 | the class filter applies only when class_room is truthy; used by Records.AbsentCandidates |
| Records.MoreAbsentFirst | database/db.py:540 | ORDER BY absent_days DESC; the result order is stated by Records.StudentsAbsentMoreThan |
| Records.StudentsAbsentMoreThan | database/db.py:509-544 | get_students_absent_more_than: exactly those students with their absence count, most absences first |
| Records.AbsenceThresholdIsStrict | database/db.py:541 | for a non-negative `days` an active student is listed exactly when their absences exceed `days` |
| Records.NewHealth | database/db.py:557-570 | the row save_health_record inserts, brushed_teeth and drank_milk defaulting to 0 |
| Records.HasDay | database/db.py:590-595 | the SELECT that decides update or insert: some row has that student and record date; used by Records.UpdateDaily and Db.Database.UpdateHealthDaily |
| Records.SetDailyFlags | database/db.py:595-601 | the UPDATE branch of update_health_daily; stated by Records.UpdateDailySpec |
| Records.FlagsOnly | database/db.py:602-608 | the INSERT branch's row, flags only; stated by Records.UpdateDailySpec |
| Records.UpdateDaily | database/db.py:590-608 | update-or-insert; its properties are stated by Records.UpdateDailySpec and Records.UpdateDailyIdempotent |
| Records.UpdateDailySpec | database/db.py:577-614 | after update_health_daily the student has a row for the date, every such row has the new flags, rows keep their other columns, other rows are untouched, and a row is added only if there was none |
| Records.UpdateDailyIdempotent | database/db.py:577-614 | repeating the daily update with the same flags changes nothing |
| Db.Database.Valid | database/db.py:47-141 | the primary keys of students and teachers (lines 49 and 115), the UNIQUE keys of attendance, grades and the timetable (lines 74, 108 and 139), and positive next ids; kept by every method |
| Db.Database.constructor | database/db.py:15-25 | a new database has empty tables and every counter at 1 |
| Db.Database.AddTeacher | database/db.py:781-805 | succeeds exactly when the teacher id is new, appending the teacher as active; otherwise nothing changes |
| Db.Database.AddStudent | database/db.py:177-208 | succeeds exactly when the student id is new, appending the student as active; otherwise nothing changes |
| Db.Database.AddSchedule | database/db.py:887-926 | the conflict check's message when it fires; a storage error when the key is taken without a report; otherwise exactly one row appended under the next id. Nothing changes on rejection, and uniqueness holds afterwards |
| Db.Database.UpdateSchedule | database/db.py:928-975 | the check runs with the row's own id excluded; a storage error exactly when the row exists and another row holds the new key without a report; otherwise only the row with that id changes. An unknown id with no reported conflict gives Ok with no change |
| Db.Database.DeleteSchedule | database/db.py:977-993 | always Ok; the table afterwards is the old one without the rows of that id |
| Db.Database.SaveGrade | database/db.py:675-707 | the grade table becomes the upsert of the input; every save draws an AUTOINCREMENT id, so the counter advances on the update branch too |
| Db.Database.SaveAttendance | database/db.py:400-422 | the attendance table becomes the upsert on (student, date); the counter advances on every save, as for grades |
| Db.Database.SaveHealthRecord | database/db.py:548-575 | one row appended, missing flags stored as 0 |
| Db.Database.UpdateHealthDaily | database/db.py:577-614 | update every row of that student and date, or insert a flags-only row when there is none |
| Db.Database.GetAttendanceStats | database/db.py:476-507 | the source's loop over the groups yields every known or present status, each mapped to its count in the student's date range |

## Left out

- User interface, Excel and PDF export, fonts and icons: these are widget code
  and file I/O, with no table logic.
- The SQLite engine: the connection, commits, DDL, NOT NULL checks on missing
  dictionary keys and I/O failures are not modelled. The storage errors
  modelled are the timetable's UNIQUE constraint and the primary keys of
  teachers and students. The other writes always report success.
- Db.Database.SaveGrade: no error case, because the model's grade rows have
  every column and no storage failure is modelled.
- Db.Database.SaveAttendance: no error case, for the same reason.
- Db.Database.SaveHealthRecord: no error case, for the same reason.
- Db.Database.UpdateHealthDaily: no error case, for the same reason.
- Db.Database.AddTeacher: fails only on a duplicate teacher_id. Missing
  required columns are not modelled.
- Db.Database.AddStudent: fails only on a duplicate student_id. Only the
  columns the queries read are kept: birth date, photo and parent details
  are not modelled.
- AUTOINCREMENT after a deleted last row: SQLite never reuses an id, and
  neither does the model, since the counter only grows. A failed insert does
  not consume an id.
- Floating point: scores, weights, heights and BMI are exact reals. The BMI
  computation and GPA averaging are in UI code and not part of this model.
- The order of rows that tie under an ORDER BY, and the order of GROUP BY
  groups, is left unspecified by SQLite. The model sorts stably, in table
  order, and states only sortedness and permutation.
- The other read queries (student lists and search with LIKE, per-date
  attendance and health lists, transcripts, classrooms) and the soft deletes
  of students and teachers: they only filter or flip a flag. The model keeps
  `is_active` only as far as the workload and absence queries read it.
- update_student and update_teacher rewrite every named column of the row and
  are not modelled; a teacher's new name would change the conflict messages
  and the workload names, which the model takes from the teacher row as it
  stands.
- The classrooms table, add_classroom and delete_classroom
  (database/db.py:164-170, 355-371) are not modelled: the table has no reader
  in the modelled queries, which take the class room from the student and
  timetable rows.
- Concurrency: the program is single-user, with one connection.
