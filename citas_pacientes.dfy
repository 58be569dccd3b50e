/** The patient router: the slot route (open to anyone), and booking, listing and
    cancelling, which sit behind the patient guard. */
module CitasPacientes {
  import opened Common
  import opened Calendar
  import opened Query
  import opened Horario
  import opened Citas
  import opened Slots

  /** GET /agendar/horario/:doctorId?fecha=...: the free slots of the doctor on the
      date, as instants; without a date the answer is 400 and nothing is computed. */
  method GetSlots(tables: ScheduleTables, citas: AppointmentTable, doctor: int, date: Option<int>, offset: int)
    returns (r: Response<seq<int>>)
    ensures date.None? ==> r == BadRequest
    ensures date.Some? ==> r == SlotsFor(tables.weekly, tables.exceptions, citas.rows, doctor, date.value, offset)
  {
    if date.None? {
      return BadRequest;
    }
    var day := date.value;
    var window := ResolveWindow(tables.weekly, tables.exceptions, doctor, day);
    if window.Closed? {
      return Ok([]);
    }
    var occupied := Occupied(citas.rows, doctor, day, offset);
    if window.start.None? || window.end.None? {
      return Ok([]);
    }
    var first := LocalInstant(day, window.start.value, offset);
    var limit := LocalInstant(day, window.end.value, offset);
    if first >= limit {
      return Ok([]);
    }
    if window.duration <= 0 {
      return NoResponse;
    }
    var slots := EnumerateSlots(first, limit, window.duration, occupied);
    r := Ok(slots);
  }

  /** The row a booking inserts: the session patient, status Programada, and an end
      one slot duration after the start. */
  function NewAppointment(id: int, patient: int, doctor: int, start: int, duration: int, reason: string): (a: Appointment)
    ensures a.id == id && a.patient == patient && a.doctor == doctor && a.reason == reason
    ensures a.start == start && a.end - a.start == duration && a.status == PROGRAMADA
  {
    Appointment(id, patient, doctor, start, start + duration, PROGRAMADA, reason)
  }

  /** POST /citas: insert the appointment. The duration is resolved as the slot
      route resolves it. The only check is the store's uniqueness of (doctor, start):
      a taken start answers 409 and nothing is inserted, though the failed insert
      has drawn an id from the table's sequence. */
  method Book(tables: ScheduleTables, citas: AppointmentTable, s: Session, doctor: int, start: int, reason: string)
    returns (r: Response<int>)
    requires citas.Valid()
    modifies citas
    ensures citas.Valid()
    ensures !Authorize(s, ROL_PACIENTE).Granted? ==> r == Refusal(Authorize(s, ROL_PACIENTE))
    ensures Authorize(s, ROL_PACIENTE).Granted? ==> (r == Conflict <==> SlotTaken(old(citas.rows), doctor, start))
    ensures Authorize(s, ROL_PACIENTE).Granted? && r != Conflict ==> r.Created?
    ensures !r.Created? ==> citas.rows == old(citas.rows)
    ensures r == Conflict ==> citas.nextId == old(citas.nextId) + 1
    ensures !r.Created? && r != Conflict ==> citas.nextId == old(citas.nextId)
    ensures r.Created? ==>
      && r.value == old(citas.nextId)
      && citas.rows == old(citas.rows) + [NewAppointment(r.value, s.userId, doctor, start, SlotDuration(tables.weekly, doctor), reason)]
      && citas.nextId == old(citas.nextId) + 1
  {
    var access := Authorize(s, ROL_PACIENTE);
    if !access.Granted? {
      return Refusal(access);
    }
    var duration := SlotDuration(tables.weekly, doctor);
    if SlotTaken(citas.rows, doctor, start) {
      citas.nextId := citas.nextId + 1;
      return Conflict;
    }
    var row := NewAppointment(citas.nextId, access.userId, doctor, start, duration, reason);
    citas.rows := citas.rows + [row];
    citas.nextId := citas.nextId + 1;
    r := Created(row.id);
  }

  function OfPatient(patient: int): Appointment -> bool
  {
    (a: Appointment) => a.patient == patient
  }

  /** GET /mis-citas: the session patient's appointments, latest start first. */
  method MyAppointments(citas: AppointmentTable, s: Session) returns (r: Response<seq<Appointment>>)
    ensures !Authorize(s, ROL_PACIENTE).Granted? ==> r == Refusal(Authorize(s, ROL_PACIENTE))
    ensures Authorize(s, ROL_PACIENTE).Granted? ==> r.Ok?
    ensures r.Ok? ==> forall a :: a in r.value <==> a in citas.rows && a.patient == s.userId
    ensures r.Ok? ==> multiset(r.value) == multiset(Filter(citas.rows, OfPatient(s.userId)))
    ensures r.Ok? ==> forall i, j :: 0 <= i < j < |r.value| ==> r.value[i].start >= r.value[j].start
  {
    var access := Authorize(s, ROL_PACIENTE);
    if !access.Granted? {
      return Refusal(access);
    }
    var mine := Filter(citas.rows, OfPatient(access.userId));
    var rows := SortBy(mine, (a: Appointment) => -a.start);
    SortByMembers(mine, (a: Appointment) => -a.start);
    r := Ok(rows);
  }

  /** The condition of the cancelling update: this id, owned by this patient,
      Programada or Confirmada, and starting after `now`. */
  function Cancellable(id: int, patient: int, now: int): Appointment -> bool
  {
    (a: Appointment) => a.id == id && a.patient == patient && (a.status == PROGRAMADA || a.status == CONFIRMADA) && a.start > now
  }

  /** PUT /mis-citas/:citaId/cancelar: set the status to Cancelada when the guard
      holds; when no row satisfies it the answer is 404 and nothing changes. */
  method Cancel(citas: AppointmentTable, s: Session, id: int, now: int) returns (r: Response<()>)
    requires citas.Valid()
    modifies citas
    ensures citas.Valid()
    ensures citas.nextId == old(citas.nextId)
    ensures !Authorize(s, ROL_PACIENTE).Granted? ==> r == Refusal(Authorize(s, ROL_PACIENTE))
    ensures Authorize(s, ROL_PACIENTE).Granted? ==>
      (r == Ok(()) <==> exists a :: a in old(citas.rows) && Cancellable(id, s.userId, now)(a))
    ensures Authorize(s, ROL_PACIENTE).Granted? && r != Ok(()) ==> r == NotFound
    ensures r == Ok(()) ==> citas.rows == SetStatusWhere(old(citas.rows), Cancellable(id, s.userId, now), CANCELADA)
    ensures r != Ok(()) ==> citas.rows == old(citas.rows)
  {
    var access := Authorize(s, ROL_PACIENTE);
    if !access.Granted? {
      return Refusal(access);
    }
    var guard := Cancellable(id, access.userId, now);
    if !exists a | a in citas.rows :: guard(a) {
      return NotFound;
    }
    SetStatusKeepsKeys(citas.rows, guard, CANCELADA);
    citas.rows := SetStatusWhere(citas.rows, guard, CANCELADA);
    r := Ok(());
  }

  /** A successful cancellation changes the status of that one row, to Cancelada. */
  lemma CancelChangesOneRow(rows: seq<Appointment>, id: int, patient: int, now: int, i: int)
    requires IdsUnique(rows)
    requires 0 <= i < |rows| && Cancellable(id, patient, now)(rows[i])
    ensures SetStatusWhere(rows, Cancellable(id, patient, now), CANCELADA) == rows[i := rows[i].(status := CANCELADA)]
  {
    SetStatusOneRow(rows, Cancellable(id, patient, now), CANCELADA, i);
  }

  /** After a cancellation nothing matches the same cancellation again: a second
      cancel of the appointment answers 404. */
  lemma SecondCancelFails(rows: seq<Appointment>, id: int, patient: int, now: int)
    ensures forall a :: a in SetStatusWhere(rows, Cancellable(id, patient, now), CANCELADA) ==>
      !Cancellable(id, patient, now)(a)
  {
    var r := SetStatusWhere(rows, Cancellable(id, patient, now), CANCELADA);
    forall a | a in r ensures !Cancellable(id, patient, now)(a) {
      var k :| 0 <= k < |r| && r[k] == a;
    }
  }
}
