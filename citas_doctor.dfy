/** The doctor's appointment router: listing and status updates, behind the doctor guard. */
module CitasDoctor {
  import opened Common
  import opened Query
  import opened Citas

  function OfDoctor(doctor: int): Appointment -> bool
  {
    (a: Appointment) => a.doctor == doctor
  }

  /** GET /citas-doctor: the session doctor's appointments, latest start first. */
  method DoctorAppointments(citas: AppointmentTable, s: Session) returns (r: Response<seq<Appointment>>)
    ensures !Authorize(s, ROL_DOCTOR).Granted? ==> r == Refusal(Authorize(s, ROL_DOCTOR))
    ensures Authorize(s, ROL_DOCTOR).Granted? ==> r.Ok?
    ensures r.Ok? ==> forall a :: a in r.value <==> a in citas.rows && a.doctor == s.userId
    ensures r.Ok? ==> multiset(r.value) == multiset(Filter(citas.rows, OfDoctor(s.userId)))
    ensures r.Ok? ==> forall i, j :: 0 <= i < j < |r.value| ==> r.value[i].start >= r.value[j].start
  {
    var access := Authorize(s, ROL_DOCTOR);
    if !access.Granted? {
      return Refusal(access);
    }
    var mine := Filter(citas.rows, OfDoctor(access.userId));
    var rows := SortBy(mine, (a: Appointment) => -a.start);
    SortByMembers(mine, (a: Appointment) => -a.start);
    r := Ok(rows);
  }

  /** The condition of the doctor's update: this id, owned by this doctor. */
  function OwnedBy(id: int, doctor: int): Appointment -> bool
  {
    (a: Appointment) => a.id == id && a.doctor == doctor
  }

  /** PUT /citas-doctor/:citaId/estado: overwrite the status of the doctor's
      appointment with the requested one. A missing (or 0) status answers 400; an id
      the doctor does not own answers 404; neither changes anything. */
  method UpdateStatus(citas: AppointmentTable, s: Session, id: int, status: Option<int>) returns (r: Response<()>)
    requires citas.Valid()
    modifies citas
    ensures citas.Valid()
    ensures citas.nextId == old(citas.nextId)
    ensures !Authorize(s, ROL_DOCTOR).Granted? ==> r == Refusal(Authorize(s, ROL_DOCTOR))
    ensures Authorize(s, ROL_DOCTOR).Granted? && (status.None? || status.value == 0) ==> r == BadRequest
    ensures Authorize(s, ROL_DOCTOR).Granted? && status.Some? && status.value != 0 ==>
      && (r == Ok(()) <==> exists a :: a in old(citas.rows) && OwnedBy(id, s.userId)(a))
      && (r != Ok(()) ==> r == NotFound)
    ensures r == Ok(()) ==> citas.rows == SetStatusWhere(old(citas.rows), OwnedBy(id, s.userId), status.value)
    ensures r != Ok(()) ==> citas.rows == old(citas.rows)
  {
    var access := Authorize(s, ROL_DOCTOR);
    if !access.Granted? {
      return Refusal(access);
    }
    if status.None? || status.value == 0 {
      return BadRequest;
    }
    var guard := OwnedBy(id, access.userId);
    if !exists a | a in citas.rows :: guard(a) {
      return NotFound;
    }
    SetStatusKeepsKeys(citas.rows, guard, status.value);
    citas.rows := SetStatusWhere(citas.rows, guard, status.value);
    r := Ok(());
  }

  /** The update writes the requested status into that one row, whatever its current
      status, Completada and Cancelada included; every other row and field is kept. */
  lemma UpdateStatusOneRow(rows: seq<Appointment>, id: int, doctor: int, status: int, i: int)
    requires IdsUnique(rows)
    requires 0 <= i < |rows| && rows[i].id == id && rows[i].doctor == doctor
    ensures SetStatusWhere(rows, OwnedBy(id, doctor), status) == rows[i := rows[i].(status := status)]
  {
    SetStatusOneRow(rows, OwnedBy(id, doctor), status, i);
  }
}
