/**
 * The class-schedule table and its teacher-conflict guard, as pure functions
 * over the table contents: the conflict query, the storage-level uniqueness
 * of (teacher, day, period), the row updates that the Database class applies,
 * and the sorted read queries over schedule and teachers.
 */
module Schedule {

  import opened Wrappers
  import Text
  import Sorting

  /** A row of the teachers table; `isActive` is the soft-delete flag. */
  datatype Teacher = Teacher(
    teacherId: string,
    title: string,
    firstName: string,
    lastName: string,
    phone: Option<string>,
    isActive: bool)

  /** What a caller supplies for a schedule row: every column except the id. */
  datatype Slot = Slot(
    classRoom: string,
    day: string,
    period: int,
    startTime: Option<string>,
    endTime: Option<string>,
    subjectName: string,
    teacherId: string,
    roomNo: Option<string>)

  /** A stored schedule row. */
  datatype Row = Row(id: int, slot: Slot)

  /**
   * The three answers of add_schedule and update_schedule: True, the conflict
   * message, or False after a storage error.
   */
  datatype Outcome = Ok | Conflict(msg: string) | StorageError

  /** `title || first_name || ' ' || last_name`, as in the conflict message and the workload list. */
  function DisplayName(t: Teacher): string
  {
    t.title + t.firstName + " " + t.lastName
  }

  /** teacher_id is the teachers table's primary key. */
  predicate TeacherIdsUnique(teachers: seq<Teacher>)
  {
    forall i, j :: 0 <= i < j < |teachers| ==> teachers[i].teacherId != teachers[j].teacherId
  }

  /** The teacher a join on teacher_id finds, if any. */
  function FindTeacher(teachers: seq<Teacher>, teacherId: string): (r: Option<Teacher>)
    ensures r.Some? ==> r.value in teachers && r.value.teacherId == teacherId
    ensures r.None? ==> forall i :: 0 <= i < |teachers| ==> teachers[i].teacherId != teacherId
  {
    if teachers == [] then None
    else if teachers[0].teacherId == teacherId then Some(teachers[0])
    else FindTeacher(teachers[1..], teacherId)
  }

  /** With unique teacher ids the join finds the one teacher that has the id. */
  lemma {:induction false} FindTeacherUnique(teachers: seq<Teacher>, t: Teacher)
    requires TeacherIdsUnique(teachers) && t in teachers
    ensures FindTeacher(teachers, t.teacherId) == Some(t)
  {
    if teachers[0] != t {
      assert t in teachers[1..];
      var k :| 0 <= k < |teachers[1..]| && teachers[1..][k] == t;
      assert teachers[k + 1] == t;
      assert teachers[0].teacherId != t.teacherId;
      FindTeacherUnique(teachers[1..], t);
    }
  }

  // ---------------------------------------------------------------- uniqueness

  /** The columns of the UNIQUE(teacher_id, day_of_week, period_no) constraint. */
  function Key(s: Slot): (string, string, int)
  {
    (s.teacherId, s.day, s.period)
  }

  /** No two rows book the same teacher on the same day and period. */
  predicate KeysUnique(rows: seq<Row>)
  {
    forall i, j :: 0 <= i < j < |rows| ==> Key(rows[i].slot) != Key(rows[j].slot)
  }

  /**
   * The table's invariant: AUTOINCREMENT ids are positive, below the next id
   * and ascending in table order, and the uniqueness constraint holds.
   */
  ghost predicate TableOk(rows: seq<Row>, nextId: int)
  {
    && (forall i :: 0 <= i < |rows| ==> 0 < rows[i].id < nextId)
    && (forall i, j :: 0 <= i < j < |rows| ==> rows[i].id < rows[j].id)
    && KeysUnique(rows)
  }

  /** Some row already holds the slot's (teacher, day, period): an INSERT would violate the constraint. */
  predicate Occupied(rows: seq<Row>, s: Slot)
  {
    exists i :: 0 <= i < |rows| && Key(rows[i].slot) == Key(s)
  }

  /** A row other than `id` holds the slot's key: updating row `id` to it would violate the constraint. */
  predicate OccupiedByOther(rows: seq<Row>, s: Slot, id: int)
  {
    exists i :: 0 <= i < |rows| && rows[i].id != id && Key(rows[i].slot) == Key(s)
  }

  predicate HasId(rows: seq<Row>, id: int)
  {
    exists i :: 0 <= i < |rows| && rows[i].id == id
  }

  // ------------------------------------------------------------ conflict check

  /** `if exclude_id:` — None and 0 both mean that no row is excluded. */
  predicate Excluded(exclude: Option<int>, id: int)
  {
    exclude.Some? && exclude.value != 0 && id == exclude.value
  }

  /** What the WHERE clause of the conflict query selects, before the join with teachers. */
  predicate Clashes(r: Row, teacherId: string, day: string, period: int, exclude: Option<int>)
  {
    Key(r.slot) == (teacherId, day, period) && !Excluded(exclude, r.id)
  }

  /** The conflict query joins teachers, so a clash with a row whose teacher is missing is not found. */
  predicate Reported(r: Row, teachers: seq<Teacher>, teacherId: string, day: string, period: int,
                     exclude: Option<int>)
  {
    Clashes(r, teacherId, day, period, exclude) && FindTeacher(teachers, r.slot.teacherId).Some?
  }

  /** Position of the first row the conflict query returns (fetchone), in table order. */
  function FirstReported(rows: seq<Row>, teachers: seq<Teacher>, teacherId: string, day: string,
                         period: int, exclude: Option<int>): (k: Option<nat>)
    ensures k.Some? ==> k.value < |rows| && Reported(rows[k.value], teachers, teacherId, day, period, exclude)
    ensures k.Some? ==> forall i :: 0 <= i < k.value ==> !Reported(rows[i], teachers, teacherId, day, period, exclude)
    ensures k.None? ==> forall i :: 0 <= i < |rows| ==> !Reported(rows[i], teachers, teacherId, day, period, exclude)
  {
    if rows == [] then None
    else if Reported(rows[0], teachers, teacherId, day, period, exclude) then Some(0)
    else
      match FirstReported(rows[1..], teachers, teacherId, day, period, exclude)
      case None => None
      case Some(k) => Some(k + 1)
  }

  /** The rejection text: teacher's name, day, "period N" and the class room of the booked row. */
  function ConflictMessage(name: string, day: string, period: int, classRoom: string): string
  {
    "ครู " + name + " มีคาบสอนอยู่แล้วในวัน " + day + " " + PeriodLabel(period)
    + " ที่ห้อง " + classRoom + " กรุณาเลือกคาบอื่น"
  }

  /** `f"คาบที่ {period_no}"` */
  function PeriodLabel(period: int): string
  {
    "คาบที่ " + Text.IntToString(period)
  }

  /**
   * check_teacher_conflict: a message exactly when some row (with an existing
   * teacher) books the teacher on that day and period, the excluded id aside;
   * the message names the first such row's class room.
   */
  function CheckTeacherConflict(rows: seq<Row>, teachers: seq<Teacher>, teacherId: string, day: string,
                                period: int, exclude: Option<int>): (msg: Option<string>)
    ensures msg.Some? <==>
      exists i :: 0 <= i < |rows| && Reported(rows[i], teachers, teacherId, day, period, exclude)
    ensures msg.Some? ==>
      exists i, t :: 0 <= i < |rows| && Reported(rows[i], teachers, teacherId, day, period, exclude)
        && (forall j :: 0 <= j < i ==> !Reported(rows[j], teachers, teacherId, day, period, exclude))
        && t in teachers && t.teacherId == teacherId
        && msg.value == ConflictMessage(DisplayName(t), day, period, rows[i].slot.classRoom)
  {
    match FirstReported(rows, teachers, teacherId, day, period, exclude)
    case None => None
    case Some(k) =>
      var t := FindTeacher(teachers, rows[k].slot.teacherId).value;
      Some(ConflictMessage(DisplayName(t), day, period, rows[k].slot.classRoom))
  }

  /** The message carries the four facts a caller looks for. */
  lemma ConflictMessageMentions(name: string, day: string, period: int, classRoom: string)
    ensures Text.Contains(ConflictMessage(name, day, period, classRoom), "ครู " + name)
    ensures Text.Contains(ConflictMessage(name, day, period, classRoom), day)
    ensures Text.Contains(ConflictMessage(name, day, period, classRoom), PeriodLabel(period))
    ensures Text.Contains(ConflictMessage(name, day, period, classRoom), classRoom)
  {
    var a := "ครู " + name;
    var b := a + " มีคาบสอนอยู่แล้วในวัน ";
    var c := b + day;
    var d := c + " ";
    var e := d + PeriodLabel(period);
    var f := e + " ที่ห้อง ";
    var g := f + classRoom;
    var tail := " กรุณาเลือกคาบอื่น";
    assert ConflictMessage(name, day, period, classRoom) == g + tail;
    Text.ContainsSelf(a);
    Text.ContainsInLeft(a, " มีคาบสอนอยู่แล้วในวัน ", a);
    Text.ContainsSelf(day);
    Text.ContainsInRight(b, day, day);
    Text.ContainsSelf(PeriodLabel(period));
    Text.ContainsInRight(d, PeriodLabel(period), PeriodLabel(period));
    Text.ContainsSelf(classRoom);
    Text.ContainsInRight(f, classRoom, classRoom);
    forall needle | needle in {a, day, PeriodLabel(period)}
      ensures Text.Contains(g + tail, needle)
    {
      if needle == a {
        Text.ContainsInLeft(b, day, a);
        Text.ContainsInLeft(c, " ", a);
        Text.ContainsInLeft(d, PeriodLabel(period), a);
      } else if needle == day {
        Text.ContainsInLeft(c, " ", day);
        Text.ContainsInLeft(d, PeriodLabel(period), day);
      }
      Text.ContainsInLeft(e, " ที่ห้อง ", needle);
      Text.ContainsInLeft(f, classRoom, needle);
      Text.ContainsInLeft(g, tail, needle);
    }
    Text.ContainsInLeft(g, tail, classRoom);
  }

  // ---------------------------------------------------------- guard and writes

  /** A reported conflict is a real booking of the key, so the guard only rejects what the constraint forbids. */
  lemma ReportedIsOccupied(rows: seq<Row>, teachers: seq<Teacher>, s: Slot, exclude: Option<int>)
    requires CheckTeacherConflict(rows, teachers, s.teacherId, s.day, s.period, exclude).Some?
    ensures Occupied(rows, s)
    ensures exclude.Some? && exclude.value != 0 ==> OccupiedByOther(rows, s, exclude.value)
  {
    var i :| 0 <= i < |rows| && Reported(rows[i], teachers, s.teacherId, s.day, s.period, exclude);
    assert Key(rows[i].slot) == Key(s);
  }

  /** Adding a row with a fresh id and a free key keeps the table's invariant. */
  lemma AppendKeepsTable(rows: seq<Row>, nextId: int, s: Slot)
    requires TableOk(rows, nextId) && 0 < nextId && !Occupied(rows, s)
    ensures TableOk(rows + [Row(nextId, s)], nextId + 1)
  {
    var r := rows + [Row(nextId, s)];
    forall i, j | 0 <= i < j < |r|
      ensures Key(r[i].slot) != Key(r[j].slot)
    {
      if j == |rows| {
        assert Key(rows[i].slot) != Key(s);
      }
    }
  }

  /** `UPDATE schedule SET ... WHERE id = ?`: the row with that id takes the new columns and keeps its id. */
  function Replace(rows: seq<Row>, id: int, s: Slot): (r: seq<Row>)
    ensures |r| == |rows|
    ensures forall i :: 0 <= i < |rows| ==> r[i].id == rows[i].id
    ensures forall i :: 0 <= i < |rows| && rows[i].id != id ==> r[i] == rows[i]
    ensures forall i :: 0 <= i < |rows| && rows[i].id == id ==> r[i].slot == s
  {
    seq(|rows|, i requires 0 <= i < |rows| => if rows[i].id == id then Row(id, s) else rows[i])
  }

  /** An update of a row that does not exist changes nothing. */
  lemma ReplaceMissing(rows: seq<Row>, id: int, s: Slot)
    requires !HasId(rows, id)
    ensures Replace(rows, id, s) == rows
  {
  }

  /** Rewriting a row to a key no other row holds keeps the table's invariant. */
  lemma ReplaceKeepsTable(rows: seq<Row>, nextId: int, id: int, s: Slot)
    requires TableOk(rows, nextId) && !OccupiedByOther(rows, s, id)
    ensures TableOk(Replace(rows, id, s), nextId)
  {
    var r := Replace(rows, id, s);
    forall i, j | 0 <= i < j < |r|
      ensures Key(r[i].slot) != Key(r[j].slot)
    {
      if rows[i].id == id {
        assert rows[j].id != id;
        assert Key(rows[j].slot) != Key(s);
      } else if rows[j].id == id {
        assert Key(rows[i].slot) != Key(s);
      }
    }
  }

  /**
   * Re-saving a row with its own (teacher, day, period) passes both the guard
   * and the constraint, since the only row holding that key is the excluded one.
   */
  lemma SelfUpdateAccepted(rows: seq<Row>, nextId: int, teachers: seq<Teacher>, k: nat, s: Slot)
    requires TableOk(rows, nextId) && k < |rows| && Key(rows[k].slot) == Key(s)
    ensures CheckTeacherConflict(rows, teachers, s.teacherId, s.day, s.period, Some(rows[k].id)).None?
    ensures !OccupiedByOther(rows, s, rows[k].id)
  {
    var id := rows[k].id;
    forall i | 0 <= i < |rows|
      ensures !Reported(rows[i], teachers, s.teacherId, s.day, s.period, Some(id))
    {
      if Key(rows[i].slot) == Key(s) {
        assert Excluded(Some(id), rows[i].id);
      }
    }
  }

  /**
   * Once a slot is accepted for a teacher that exists, asking for the same
   * (teacher, day, period) again is rejected with a message naming that
   * teacher and the class room of the accepted row.
   */
  lemma AcceptedSlotThenConflicts(rows: seq<Row>, nextId: int, teachers: seq<Teacher>, s: Slot, t: Teacher)
    requires TableOk(rows, nextId) && !Occupied(rows, s)
    requires TeacherIdsUnique(teachers) && t in teachers && t.teacherId == s.teacherId
    ensures CheckTeacherConflict(rows + [Row(nextId, s)], teachers, s.teacherId, s.day, s.period, None)
         == Some(ConflictMessage(DisplayName(t), s.day, s.period, s.classRoom))
  {
    var r := rows + [Row(nextId, s)];
    FindTeacherUnique(teachers, t);
    assert Reported(r[|rows|], teachers, s.teacherId, s.day, s.period, None);
    var msg := CheckTeacherConflict(r, teachers, s.teacherId, s.day, s.period, None);
    var i, t' :| 0 <= i < |r| && Reported(r[i], teachers, s.teacherId, s.day, s.period, None)
        && (forall j :: 0 <= j < i ==> !Reported(r[j], teachers, s.teacherId, s.day, s.period, None))
        && t' in teachers && t'.teacherId == s.teacherId
        && msg.value == ConflictMessage(DisplayName(t'), s.day, s.period, r[i].slot.classRoom);
    assert i == |rows|;
    assert t' == t;
  }

  /** `DELETE FROM schedule WHERE id = ?`: every row except those with that id, in order. */
  function Without(rows: seq<Row>, id: int): (r: seq<Row>)
    ensures forall x :: x in r <==> x in rows && x.id != id
    ensures |r| <= |rows|
  {
    if rows == [] then []
    else
      assert rows == [rows[0]] + rows[1..];
      if rows[0].id == id then Without(rows[1..], id) else [rows[0]] + Without(rows[1..], id)
  }

  /** Deleting an id that is not there changes nothing. */
  lemma {:induction false} WithoutMissing(rows: seq<Row>, id: int)
    requires !HasId(rows, id)
    ensures Without(rows, id) == rows
  {
    if rows != [] {
      assert !HasId(rows[1..], id) by {
        forall i | 0 <= i < |rows[1..]| ensures rows[1..][i].id != id {
          assert rows[1..][i] == rows[i + 1];
        }
      }
      WithoutMissing(rows[1..], id);
    }
  }

  /** Deleting twice is deleting once. */
  lemma WithoutIdempotent(rows: seq<Row>, id: int)
    ensures Without(Without(rows, id), id) == Without(rows, id)
  {
    var r := Without(rows, id);
    forall i | 0 <= i < |r| ensures r[i].id != id {
      assert r[i] in r;
    }
    WithoutMissing(r, id);
  }

  /** With unique ids, deleting an id that exists removes exactly one row. */
  lemma {:induction false} WithoutRemovesOne(rows: seq<Row>, nextId: int, id: int)
    requires TableOk(rows, nextId) && HasId(rows, id)
    ensures |Without(rows, id)| == |rows| - 1
  {
    if rows[0].id == id {
      assert !HasId(rows[1..], id) by {
        forall i | 0 <= i < |rows[1..]| ensures rows[1..][i].id != id {
          assert rows[0].id < rows[i + 1].id;
        }
      }
      WithoutMissing(rows[1..], id);
    } else {
      var k :| 0 <= k < |rows| && rows[k].id == id;
      assert rows[1..][k - 1].id == id;
      WithoutRemovesOne(rows[1..], nextId, id);
    }
  }

  /** Deleting rows keeps the table's invariant: the survivors keep their ids, order and distinct keys. */
  lemma {:induction false} WithoutKeepsTable(rows: seq<Row>, nextId: int, id: int)
    requires TableOk(rows, nextId)
    ensures TableOk(Without(rows, id), nextId)
  {
    if rows != [] {
      WithoutKeepsTable(rows[1..], nextId, id);
      if rows[0].id != id {
        var rest := Without(rows[1..], id);
        forall x | x in rest
          ensures rows[0].id < x.id && Key(rows[0].slot) != Key(x.slot)
        {
          var k :| 0 <= k < |rows[1..]| && rows[1..][k] == x;
          assert rows[k + 1] == x;
        }
        PrependKeepsTable(rows[0], rest, nextId);
      }
    }
  }

  lemma PrependKeepsTable(x: Row, rest: seq<Row>, nextId: int)
    requires TableOk(rest, nextId) && 0 < x.id < nextId
    requires forall y | y in rest :: x.id < y.id && Key(x.slot) != Key(y.slot)
    ensures TableOk([x] + rest, nextId)
  {
    var r := [x] + rest;
    forall i, j | 0 <= i < j < |r|
      ensures r[i].id < r[j].id && Key(r[i].slot) != Key(r[j].slot)
    {
      assert r[j] == rest[j - 1];
      if i > 0 {
        assert r[i] == rest[i - 1];
      } else {
        assert r[j] in rest;
      }
    }
  }

  // --------------------------------------------------------------- read queries

  /** A schedule row joined with its teacher's row, as the read queries return it. */
  datatype Listing = Listing(row: Row, teacher: Teacher)

  /** get_schedule_by_class, get_schedule_by_teacher and get_all_schedules differ only in their WHERE clause. */
  datatype Selector = ClassRoomIs(classRoom: string) | TeacherIs(teacherId: string) | Everything

  predicate Selects(sel: Selector, r: Row)
  {
    match sel
    case ClassRoomIs(c) => r.slot.classRoom == c
    case TeacherIs(t) => r.slot.teacherId == t
    case Everything => true
  }

  /** The inner join with teachers: a row whose teacher is missing is not listed. */
  function Join(rows: seq<Row>, teachers: seq<Teacher>, sel: Selector): (r: seq<Listing>)
    ensures forall l :: l in r <==>
      l.row in rows && Selects(sel, l.row) && FindTeacher(teachers, l.row.slot.teacherId) == Some(l.teacher)
  {
    if rows == [] then []
    else
      assert rows == [rows[0]] + rows[1..];
      var t := FindTeacher(teachers, rows[0].slot.teacherId);
      if Selects(sel, rows[0]) && t.Some? then [Listing(rows[0], t.value)] + Join(rows[1..], teachers, sel)
      else Join(rows[1..], teachers, sel)
  }

  /** The five school days, Monday to Friday, in the order the CASE expression ranks them. */
  const Weekdays: seq<string> := ["จันทร์", "อังคาร", "พุธ", "พฤหัสบดี", "ศุกร์"]

  /** `CASE day_of_week WHEN 'จันทร์' THEN 1 ... WHEN 'ศุกร์' THEN 5 END`; any other label is NULL, which sorts first. */
  function DayRank(day: string): (k: int)
    ensures 0 <= k <= |Weekdays|
    ensures k == 0 <==> day !in Weekdays
    ensures k > 0 ==> Weekdays[k - 1] == day
  {
    if day == "จันทร์" then 1
    else if day == "อังคาร" then 2
    else if day == "พุธ" then 3
    else if day == "พฤหัสบดี" then 4
    else if day == "ศุกร์" then 5
    else 0
  }

  /** ORDER BY day rank, period_no. */
  predicate DayPeriodLe(a: Listing, b: Listing)
  {
    || DayRank(a.row.slot.day) < DayRank(b.row.slot.day)
    || (DayRank(a.row.slot.day) == DayRank(b.row.slot.day) && a.row.slot.period <= b.row.slot.period)
  }

  /** ORDER BY class_room, day rank, period_no. */
  predicate RoomDayPeriodLe(a: Listing, b: Listing)
  {
    || (a.row.slot.classRoom != b.row.slot.classRoom && Text.StrLe(a.row.slot.classRoom, b.row.slot.classRoom))
    || (a.row.slot.classRoom == b.row.slot.classRoom && DayPeriodLe(a, b))
  }

  function OrderFor(sel: Selector): (Listing, Listing) -> bool
  {
    if sel.Everything? then RoomDayPeriodLe else DayPeriodLe
  }

  lemma DayPeriodLeIsPreorder()
    ensures Sorting.Total(DayPeriodLe) && Sorting.Transitive(DayPeriodLe)
  {
  }

  lemma RoomDayPeriodLeIsPreorder()
    ensures Sorting.Total(RoomDayPeriodLe) && Sorting.Transitive(RoomDayPeriodLe)
  {
    forall a, b
      ensures RoomDayPeriodLe(a, b) || RoomDayPeriodLe(b, a)
    {
      Text.StrLeTotal(a.row.slot.classRoom, b.row.slot.classRoom);
    }
    forall a, b, c | RoomDayPeriodLe(a, b) && RoomDayPeriodLe(b, c)
      ensures RoomDayPeriodLe(a, c)
    {
      var x, y, z := a.row.slot.classRoom, b.row.slot.classRoom, c.row.slot.classRoom;
      if x != y && y != z {
        Text.StrLeTransitive(x, y, z);
        if x == z {
          Text.StrLeAntisymmetric(x, y);
        }
      }
    }
  }

  /**
   * The three schedule queries: exactly the selected rows that join a teacher,
   * each listed once with that teacher, sorted by the query's ORDER BY.
   */
  function Query(rows: seq<Row>, teachers: seq<Teacher>, sel: Selector): (r: seq<Listing>)
    ensures multiset(r) == multiset(Join(rows, teachers, sel))
    ensures forall l :: l in r <==>
      l.row in rows && Selects(sel, l.row) && FindTeacher(teachers, l.row.slot.teacherId) == Some(l.teacher)
    ensures Sorting.SortedBy(r, OrderFor(sel))
  {
    var joined := Join(rows, teachers, sel);
    DayPeriodLeIsPreorder();
    RoomDayPeriodLeIsPreorder();
    Sorting.SortSorted(joined, OrderFor(sel));
    var r := Sorting.SortBy(joined, OrderFor(sel));
    assert forall l :: l in r <==> l in multiset(r);
    assert forall l :: l in joined <==> l in multiset(joined);
    r
  }

  /** In a class or teacher timetable an earlier weekday is listed first, whatever the order of insertion. */
  lemma EarlierDayListedFirst(r: seq<Listing>, i: nat, j: nat)
    requires Sorting.SortedBy(r, DayPeriodLe)
    requires i < |r| && j < |r| && DayRank(r[i].row.slot.day) < DayRank(r[j].row.slot.day)
    ensures i < j
  {
  }

  // ------------------------------------------------------------ teacher workload

  /** One line of get_teacher_workload. */
  datatype Workload = Workload(teacherId: string, name: string, periodsPerWeek: nat)

  /** COUNT(s.id) over the left join: the number of rows booking the teacher, 0 if none. */
  function PeriodsOf(rows: seq<Row>, teacherId: string): nat
  {
    if rows == [] then 0
    else (if rows[0].slot.teacherId == teacherId then 1 else 0) + PeriodsOf(rows[1..], teacherId)
  }

  function WorkloadOf(t: Teacher, rows: seq<Row>): Workload
  {
    Workload(t.teacherId, DisplayName(t), PeriodsOf(rows, t.teacherId))
  }

  /** The grouped, unsorted result: one line per active teacher, in table order. */
  function Tally(teachers: seq<Teacher>, rows: seq<Row>): (r: seq<Workload>)
    ensures forall w :: w in r <==> exists t :: t in teachers && t.isActive && w == WorkloadOf(t, rows)
  {
    if teachers == [] then []
    else
      assert teachers == [teachers[0]] + teachers[1..];
      (if teachers[0].isActive then [WorkloadOf(teachers[0], rows)] else []) + Tally(teachers[1..], rows)
  }

  /** ORDER BY periods_per_week DESC, name. */
  predicate HeavierFirst(a: Workload, b: Workload)
  {
    || a.periodsPerWeek > b.periodsPerWeek
    || (a.periodsPerWeek == b.periodsPerWeek && Text.StrLe(a.name, b.name))
  }

  lemma HeavierFirstIsPreorder()
    ensures Sorting.Total(HeavierFirst) && Sorting.Transitive(HeavierFirst)
  {
    forall a, b
      ensures HeavierFirst(a, b) || HeavierFirst(b, a)
    {
      Text.StrLeTotal(a.name, b.name);
    }
    forall a, b, c | HeavierFirst(a, b) && HeavierFirst(b, c)
      ensures HeavierFirst(a, c)
    {
      if a.periodsPerWeek == b.periodsPerWeek == c.periodsPerWeek {
        Text.StrLeTransitive(a.name, b.name, c.name);
      }
    }
  }

  /**
   * get_teacher_workload: every active teacher (and no one else) with the
   * number of periods booked for them, busiest first, then by name.
   */
  function TeacherWorkload(teachers: seq<Teacher>, rows: seq<Row>): (r: seq<Workload>)
    ensures multiset(r) == multiset(Tally(teachers, rows))
    ensures forall w :: w in r <==> exists t :: t in teachers && t.isActive && w == WorkloadOf(t, rows)
    ensures Sorting.SortedBy(r, HeavierFirst)
  {
    var tally := Tally(teachers, rows);
    HeavierFirstIsPreorder();
    Sorting.SortSorted(tally, HeavierFirst);
    var r := Sorting.SortBy(tally, HeavierFirst);
    assert forall w :: w in r <==> w in multiset(r);
    assert forall w :: w in tally <==> w in multiset(tally);
    r
  }

  lemma {:induction false} TallyOnce(teachers: seq<Teacher>, rows: seq<Row>, t: Teacher)
    requires TeacherIdsUnique(teachers) && t in teachers && t.isActive
    ensures multiset(Tally(teachers, rows))[WorkloadOf(t, rows)] == 1
  {
    var rest := Tally(teachers[1..], rows);
    assert TeacherIdsUnique(teachers[1..]) by {
      forall i, j | 0 <= i < j < |teachers[1..]|
        ensures teachers[1..][i].teacherId != teachers[1..][j].teacherId
      {
        assert teachers[1..][i] == teachers[i + 1] && teachers[1..][j] == teachers[j + 1];
      }
    }
    if teachers[0] == t {
      assert WorkloadOf(t, rows) !in rest;
    } else {
      assert t in teachers[1..];
      TallyOnce(teachers[1..], rows, t);
      if teachers[0].isActive {
        assert WorkloadOf(teachers[0], rows) != WorkloadOf(t, rows) by {
          var k :| 0 <= k < |teachers| && teachers[k] == t;
          assert k != 0;
        }
      }
    }
  }

  /** With unique teacher ids each active teacher is listed exactly once. */
  lemma WorkloadListsEachActiveTeacherOnce(teachers: seq<Teacher>, rows: seq<Row>, t: Teacher)
    requires TeacherIdsUnique(teachers) && t in teachers && t.isActive
    ensures multiset(TeacherWorkload(teachers, rows))[WorkloadOf(t, rows)] == 1
  {
    TallyOnce(teachers, rows, t);
  }

  /** Teachers with no periods come after every teacher with some. */
  lemma IdleTeachersLast(r: seq<Workload>, i: nat, j: nat)
    requires Sorting.SortedBy(r, HeavierFirst)
    requires i < |r| && j < |r| && r[i].periodsPerWeek == 0 < r[j].periodsPerWeek
    ensures j < i
  {
  }

  /** A teacher's workload is the length of their timetable from get_schedule_by_teacher. */
  lemma {:induction false} WorkloadMatchesTimetable(rows: seq<Row>, teachers: seq<Teacher>, t: Teacher)
    requires TeacherIdsUnique(teachers) && t in teachers
    ensures PeriodsOf(rows, t.teacherId) == |Query(rows, teachers, TeacherIs(t.teacherId))|
  {
    FindTeacherUnique(teachers, t);
    JoinTeacherCount(rows, teachers, t);
    var q := Query(rows, teachers, TeacherIs(t.teacherId));
    assert |q| == |multiset(q)|;
  }

  lemma {:induction false} JoinTeacherCount(rows: seq<Row>, teachers: seq<Teacher>, t: Teacher)
    requires FindTeacher(teachers, t.teacherId).Some?
    ensures PeriodsOf(rows, t.teacherId) == |Join(rows, teachers, TeacherIs(t.teacherId))|
  {
    if rows != [] {
      JoinTeacherCount(rows[1..], teachers, t);
    }
  }
}
