/** The doctor's schedule store: the weekly template `horarios_doctores` and the
    date exceptions `excepciones_horarios`, with the handlers of the schedule
    router that read and write them. Every handler sits behind the doctor guard. */
module Horario {
  import opened Common
  import opened Calendar
  import opened Query

  /** A row of `horarios_doctores`. */
  datatype WeeklyRow = WeeklyRow(doctor: int, weekday: int, start: TimeOfDay, end: TimeOfDay, duration: int)

  /** One element of the list posted to replace the week. */
  datatype DayInput = DayInput(weekday: int, start: TimeOfDay, end: TimeOfDay, duration: int)

  /** A row of `excepciones_horarios`; a null time is `None`. */
  datatype ExceptionRow = ExceptionRow(
    id: int, doctor: int, date: int, available: bool, start: Option<TimeOfDay>, end: Option<TimeOfDay>)

  /** The duration used when the doctor has no weekly row at all. */
  const DEFAULT_DURATION := 30

  // WHERE conditions on the two tables
  function OfDoctor(doctor: int): WeeklyRow -> bool { (w: WeeklyRow) => w.doctor == doctor }
  function NotOfDoctor(doctor: int): WeeklyRow -> bool { (w: WeeklyRow) => w.doctor != doctor }
  function OnWeekday(doctor: int, weekday: int): WeeklyRow -> bool { (w: WeeklyRow) => w.doctor == doctor && w.weekday == weekday }
  function ExceptionOf(doctor: int): ExceptionRow -> bool { (e: ExceptionRow) => e.doctor == doctor }
  function ExceptionOn(doctor: int, date: int): ExceptionRow -> bool { (e: ExceptionRow) => e.doctor == doctor && e.date == date }
  function KeptByDelete(id: int, doctor: int): ExceptionRow -> bool { (e: ExceptionRow) => !(e.id == id && e.doctor == doctor) }

  /** The doctor's weekly rows, in table order. */
  function DoctorWeek(weekly: seq<WeeklyRow>, doctor: int): seq<WeeklyRow>
  {
    Filter(weekly, OfDoctor(doctor))
  }

  /** The weekly row for one weekday: the first row of the lookup by doctor and weekday. */
  function FindWeekly(weekly: seq<WeeklyRow>, doctor: int, weekday: int): (r: Option<WeeklyRow>)
    ensures r.Some? ==> r.value in weekly && r.value.doctor == doctor && r.value.weekday == weekday
    ensures r.None? <==> forall w :: w in weekly ==> !(w.doctor == doctor && w.weekday == weekday)
  {
    var rows := Filter(weekly, OnWeekday(doctor, weekday));
    if rows == [] then None else assert rows[0] in rows; Some(rows[0])
  }

  /** The exception for one date: the first row of the lookup by doctor and date. */
  function FindException(exceptions: seq<ExceptionRow>, doctor: int, date: int): (r: Option<ExceptionRow>)
    ensures r.Some? ==> r.value in exceptions && r.value.doctor == doctor && r.value.date == date
    ensures r.None? <==> forall e :: e in exceptions ==> !(e.doctor == doctor && e.date == date)
  {
    var rows := Filter(exceptions, ExceptionOn(doctor, date));
    if rows == [] then None else assert rows[0] in rows; Some(rows[0])
  }

  /** The slot duration of a doctor: that of the doctor's first weekly row (the
      `LIMIT 1` lookup), or 30 minutes when the doctor has none. Booking and the
      slot generator both resolve the duration through this one function. */
  function SlotDuration(weekly: seq<WeeklyRow>, doctor: int): int
  {
    var rows := DoctorWeek(weekly, doctor);
    if rows == [] then DEFAULT_DURATION else rows[0].duration
  }

  lemma SlotDurationRule(weekly: seq<WeeklyRow>, doctor: int)
    ensures (forall w :: w in weekly ==> w.doctor != doctor) ==> SlotDuration(weekly, doctor) == DEFAULT_DURATION
    ensures (exists w :: w in weekly && w.doctor == doctor) ==>
      exists i :: 0 <= i < |weekly| && weekly[i].doctor == doctor && SlotDuration(weekly, doctor) == weekly[i].duration &&
        forall j :: 0 <= j < i ==> weekly[j].doctor != doctor
  {
    if exists w :: w in weekly && w.doctor == doctor {
      var w :| w in weekly && w.doctor == doctor;
      assert w in DoctorWeek(weekly, doctor);
      FilterFirst(weekly, OfDoctor(doctor));
    } else {
      FilterNone(weekly, OfDoctor(doctor));
    }
  }

  /** One weekly row per doctor and weekday. */
  ghost predicate WeeklyUnique(weekly: seq<WeeklyRow>)
  {
    forall a, b :: a in weekly && b in weekly && a.doctor == b.doctor && a.weekday == b.weekday ==> a == b
  }

  /** One exception per doctor and date. */
  ghost predicate OneExceptionPerDate(exceptions: seq<ExceptionRow>)
  {
    forall a, b :: a in exceptions && b in exceptions && a.doctor == b.doctor && a.date == b.date ==> a == b
  }

  /** Exception ids are unique and below the next id, and there is one exception per doctor and date. */
  ghost predicate ExceptionsValid(exceptions: seq<ExceptionRow>, nextId: int)
  {
    && (forall e :: e in exceptions ==> e.id < nextId)
    && (forall a, b :: a in exceptions && b in exceptions && a.id == b.id ==> a == b)
    && OneExceptionPerDate(exceptions)
  }

  /** The rows the save inserts for `doctor`, one per submitted day, in submitted order. */
  function RowsFor(doctor: int, days: seq<DayInput>): (r: seq<WeeklyRow>)
  {
    seq(|days|, k requires 0 <= k < |days| => WeeklyRow(doctor, days[k].weekday, days[k].start, days[k].end, days[k].duration))
  }

  ghost predicate DistinctWeekdays(days: seq<DayInput>)
  {
    forall i, j :: 0 <= i < j < |days| ==> days[i].weekday != days[j].weekday
  }

  /** The week a successful save leaves: every other doctor's rows, then the submitted ones. */
  function SavedWeek(weekly: seq<WeeklyRow>, doctor: int, days: seq<DayInput>): seq<WeeklyRow>
  {
    Filter(weekly, NotOfDoctor(doctor)) + RowsFor(doctor, days)
  }

  /** After a save the doctor's week is exactly the submitted list, and every other
      doctor's week is what it was. */
  lemma SavedWeekEffect(weekly: seq<WeeklyRow>, doctor: int, days: seq<DayInput>, other: int)
    ensures DoctorWeek(SavedWeek(weekly, doctor, days), doctor) == RowsFor(doctor, days)
    ensures other != doctor ==> DoctorWeek(SavedWeek(weekly, doctor, days), other) == DoctorWeek(weekly, other)
  {
    var kept := Filter(weekly, NotOfDoctor(doctor));
    FilterConcat(kept, RowsFor(doctor, days), OfDoctor(doctor));
    FilterAll(RowsFor(doctor, days), OfDoctor(doctor));
    FilterNone(kept, OfDoctor(doctor));
    if other != doctor {
      FilterConcat(kept, RowsFor(doctor, days), OfDoctor(other));
      FilterNarrow(weekly, NotOfDoctor(doctor), OfDoctor(other));
      FilterNone(RowsFor(doctor, days), OfDoctor(other));
    }
  }

  /** A save of distinct weekdays keeps one row per doctor and weekday. */
  lemma SavedWeekUnique(weekly: seq<WeeklyRow>, doctor: int, days: seq<DayInput>)
    requires WeeklyUnique(weekly)
    requires DistinctWeekdays(days)
    ensures WeeklyUnique(SavedWeek(weekly, doctor, days))
  {
    var rows := RowsFor(doctor, days);
    forall a, b | a in rows && b in rows && a.weekday == b.weekday
      ensures a == b
    {
      var i :| 0 <= i < |rows| && rows[i] == a;
      var j :| 0 <= j < |rows| && rows[j] == b;
      assert days[i].weekday == days[j].weekday;
    }
  }

  class ScheduleTables {
    var weekly: seq<WeeklyRow>
    var exceptions: seq<ExceptionRow>
    var nextExceptionId: int

    ghost predicate Valid()
      reads this
    {
      WeeklyUnique(weekly) && ExceptionsValid(exceptions, nextExceptionId)
    }

    constructor ()
      ensures Valid()
      ensures weekly == [] && exceptions == []
    {
      weekly := [];
      exceptions := [];
      nextExceptionId := 1;
    }
  }

  /** GET /horario: the session doctor's weekly rows, by weekday ascending. */
  method GetWeekly(tables: ScheduleTables, s: Session) returns (r: Response<seq<WeeklyRow>>)
    ensures !Authorize(s, ROL_DOCTOR).Granted? ==> r == Refusal(Authorize(s, ROL_DOCTOR))
    ensures Authorize(s, ROL_DOCTOR).Granted? ==> r.Ok?
    ensures r.Ok? ==> forall w :: w in r.value <==> w in tables.weekly && w.doctor == s.userId
    ensures r.Ok? ==> multiset(r.value) == multiset(DoctorWeek(tables.weekly, s.userId))
    ensures r.Ok? ==> forall i, j :: 0 <= i < j < |r.value| ==> r.value[i].weekday <= r.value[j].weekday
  {
    var access := Authorize(s, ROL_DOCTOR);
    if !access.Granted? {
      return Refusal(access);
    }
    var rows := SortBy(DoctorWeek(tables.weekly, access.userId), (w: WeeklyRow) => w.weekday);
    SortByMembers(DoctorWeek(tables.weekly, access.userId), (w: WeeklyRow) => w.weekday);
    r := Ok(rows);
  }

  /** POST /horario: in one transaction, delete the doctor's weekly rows and insert
      the submitted ones one by one. An insert that repeats a weekday violates the
      (doctor, weekday) uniqueness, the transaction rolls back and the week is as before. */
  method SaveWeekly(tables: ScheduleTables, s: Session, days: seq<DayInput>) returns (r: Response<()>)
    requires tables.Valid()
    modifies tables
    ensures tables.Valid()
    ensures tables.exceptions == old(tables.exceptions) && tables.nextExceptionId == old(tables.nextExceptionId)
    ensures !Authorize(s, ROL_DOCTOR).Granted? ==> r == Refusal(Authorize(s, ROL_DOCTOR))
    ensures Authorize(s, ROL_DOCTOR).Granted? ==> (r == Ok(()) <==> DistinctWeekdays(days))
    ensures r == Ok(()) ==> tables.weekly == SavedWeek(old(tables.weekly), s.userId, days)
    ensures r != Ok(()) ==> tables.weekly == old(tables.weekly)
    ensures Authorize(s, ROL_DOCTOR).Granted? && r != Ok(()) ==> r == ServerError
  {
    var access := Authorize(s, ROL_DOCTOR);
    if !access.Granted? {
      return Refusal(access);
    }
    var doctor := access.userId;
    var base := Filter(tables.weekly, NotOfDoctor(doctor));
    var work := base;
    var i := 0;
    var failed := false;
    while i < |days| && !failed
      invariant 0 <= i <= |days|
      invariant !failed ==> work == base + RowsFor(doctor, days[..i]) && DistinctWeekdays(days[..i])
      invariant failed ==> !DistinctWeekdays(days)
      decreases |days| - i, !failed
    {
      var day := days[i];
      if exists w | w in work :: w.doctor == doctor && w.weekday == day.weekday {
        var w :| w in work && w.doctor == doctor && w.weekday == day.weekday;
        assert w !in base;
        var k :| 0 <= k < i && RowsFor(doctor, days[..i])[k] == w;
        assert days[k].weekday == days[i].weekday;
        failed := true;
      } else {
        assert RowsFor(doctor, days[..i + 1]) == RowsFor(doctor, days[..i]) + [WeeklyRow(doctor, day.weekday, day.start, day.end, day.duration)];
        assert DistinctWeekdays(days[..i + 1]) by {
          forall k | 0 <= k < i ensures days[k].weekday != day.weekday {
            assert RowsFor(doctor, days[..i])[k] in work;
          }
          ghost var prefix := days[..i + 1];
          forall k, j | 0 <= k < j < |prefix| ensures prefix[k].weekday != prefix[j].weekday {
            if j < i {
              assert days[..i][k] == days[k] && days[..i][j] == days[j];
            }
          }
        }
        work := work + [WeeklyRow(doctor, day.weekday, day.start, day.end, day.duration)];
        i := i + 1;
      }
    }
    if failed {
      r := ServerError;
    } else {
      assert days[..i] == days;
      SavedWeekUnique(tables.weekly, doctor, days);
      tables.weekly := work;
      r := Ok(());
    }
  }

  /** GET /horario/excepciones: the session doctor's exceptions, by date descending. */
  method ListExceptions(tables: ScheduleTables, s: Session) returns (r: Response<seq<ExceptionRow>>)
    ensures !Authorize(s, ROL_DOCTOR).Granted? ==> r == Refusal(Authorize(s, ROL_DOCTOR))
    ensures Authorize(s, ROL_DOCTOR).Granted? ==> r.Ok?
    ensures r.Ok? ==> forall e :: e in r.value <==> e in tables.exceptions && e.doctor == s.userId
    ensures r.Ok? ==> multiset(r.value) == multiset(Filter(tables.exceptions, ExceptionOf(s.userId)))
    ensures r.Ok? ==> forall i, j :: 0 <= i < j < |r.value| ==> r.value[i].date >= r.value[j].date
  {
    var access := Authorize(s, ROL_DOCTOR);
    if !access.Granted? {
      return Refusal(access);
    }
    var mine := Filter(tables.exceptions, ExceptionOf(access.userId));
    var rows := SortBy(mine, (e: ExceptionRow) => -e.date);
    SortByMembers(mine, (e: ExceptionRow) => -e.date);
    r := Ok(rows);
  }

  /** POST /horario/excepciones: store an exception for one date. Without a date
      the answer is 400; a second exception for the same date violates the
      (doctor, date) uniqueness and the answer is 409; the failed insert has still
      drawn an id from the table's sequence. An unavailable day is stored with null
      times, whatever times were sent. */
  method AddException(tables: ScheduleTables, s: Session, date: Option<int>, available: bool,
                      start: Option<TimeOfDay>, end: Option<TimeOfDay>)
    returns (r: Response<ExceptionRow>)
    requires tables.Valid()
    modifies tables
    ensures tables.Valid()
    ensures tables.weekly == old(tables.weekly)
    ensures !Authorize(s, ROL_DOCTOR).Granted? ==> r == Refusal(Authorize(s, ROL_DOCTOR))
    ensures Authorize(s, ROL_DOCTOR).Granted? && date.None? ==> r == BadRequest
    ensures Authorize(s, ROL_DOCTOR).Granted? && date.Some? ==>
      (r == Conflict <==> exists e :: e in old(tables.exceptions) && e.doctor == s.userId && e.date == date.value)
    ensures Authorize(s, ROL_DOCTOR).Granted? && date.Some? && r != Conflict ==> r.Created?
    ensures !r.Created? ==> tables.exceptions == old(tables.exceptions)
    ensures r == Conflict ==> tables.nextExceptionId == old(tables.nextExceptionId) + 1
    ensures !r.Created? && r != Conflict ==> tables.nextExceptionId == old(tables.nextExceptionId)
    ensures r.Created? ==>
      && Authorize(s, ROL_DOCTOR).Granted? && date.Some?
      && r.value == ExceptionRow(old(tables.nextExceptionId), s.userId, date.value, available,
                                 if available then start else None, if available then end else None)
      && tables.exceptions == old(tables.exceptions) + [r.value]
      && tables.nextExceptionId == old(tables.nextExceptionId) + 1
    ensures r.Created? && !available ==> r.value.start.None? && r.value.end.None?
  {
    var access := Authorize(s, ROL_DOCTOR);
    if !access.Granted? {
      return Refusal(access);
    }
    if date.None? {
      return BadRequest;
    }
    var doctor := access.userId;
    if exists e | e in tables.exceptions :: e.doctor == doctor && e.date == date.value {
      tables.nextExceptionId := tables.nextExceptionId + 1;
      return Conflict;
    }
    var row := ExceptionRow(tables.nextExceptionId, doctor, date.value, available,
                            if available then start else None, if available then end else None);
    tables.exceptions := tables.exceptions + [row];
    tables.nextExceptionId := tables.nextExceptionId + 1;
    r := Created(row);
  }

  /** DELETE /horario/excepciones/:id: remove the exception only when both its id
      and its doctor match; otherwise 404 and nothing changes. */
  method DeleteException(tables: ScheduleTables, s: Session, id: int) returns (r: Response<()>)
    requires tables.Valid()
    modifies tables
    ensures tables.Valid()
    ensures tables.weekly == old(tables.weekly) && tables.nextExceptionId == old(tables.nextExceptionId)
    ensures !Authorize(s, ROL_DOCTOR).Granted? ==> r == Refusal(Authorize(s, ROL_DOCTOR))
    ensures Authorize(s, ROL_DOCTOR).Granted? ==>
      (r == Ok(()) <==> exists e :: e in old(tables.exceptions) && e.id == id && e.doctor == s.userId)
    ensures Authorize(s, ROL_DOCTOR).Granted? && r != Ok(()) ==> r == NotFound
    ensures r == Ok(()) ==> forall e :: e in tables.exceptions <==> e in old(tables.exceptions) && e.id != id
    ensures r != Ok(()) ==> tables.exceptions == old(tables.exceptions)
  {
    var access := Authorize(s, ROL_DOCTOR);
    if !access.Granted? {
      return Refusal(access);
    }
    var doctor := access.userId;
    if !exists e | e in tables.exceptions :: e.id == id && e.doctor == doctor {
      return NotFound;
    }
    tables.exceptions := Filter(tables.exceptions, KeptByDelete(id, doctor));
    r := Ok(());
  }
}
