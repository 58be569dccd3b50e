/** Properties that span several routes: what the slot route offers after a
    booking, a patient's cancellation or a doctor's status update. */
module Scenarios {
  import opened Common
  import opened Calendar
  import opened Horario
  import opened Citas
  import opened Slots
  import opened CitasPacientes
  import opened CitasDoctor

  /** Setting a booked appointment's status to Cancelada brings its start back into
      the slot list, provided the start is a candidate of the day's window. */
  lemma CancelledRowFreesSlot(weekly: seq<WeeklyRow>, exceptions: seq<ExceptionRow>, rows: seq<Appointment>,
                              doctor: int, day: int, offset: int, i: int,
                              a: TimeOfDay, b: TimeOfDay, duration: int, k: nat)
    requires StartsUnique(rows)
    requires 0 <= i < |rows| && Blocks(rows[i], doctor)
    requires ResolveWindow(weekly, exceptions, doctor, day) == Open(Some(a), Some(b), duration) && duration > 0
    requires rows[i].start == Candidate(LocalInstant(day, a, offset), duration, k) < LocalInstant(day, b, offset)
    ensures SlotsFor(weekly, exceptions, rows, doctor, day, offset).Ok?
    ensures rows[i].start !in SlotsFor(weekly, exceptions, rows, doctor, day, offset).value
    ensures var after := rows[i := rows[i].(status := CANCELADA)];
      SlotsFor(weekly, exceptions, after, doctor, day, offset).Ok? &&
      rows[i].start in SlotsFor(weekly, exceptions, after, doctor, day, offset).value
  {
    var x := rows[i].start;
    var after := rows[i := rows[i].(status := CANCELADA)];
    OpenDaySlots(weekly, exceptions, rows, doctor, day, offset, a, b, duration);
    OpenDaySlots(weekly, exceptions, after, doctor, day, offset, a, b, duration);
    assert rows[i] in rows;
    if x in SlotsFor(weekly, exceptions, rows, doctor, day, offset).value {
      SlotsAreUnbooked(weekly, exceptions, rows, doctor, day, offset, x);
      assert false;
    }
    assert x !in Occupied(after, doctor, day, offset) by {
      forall c | c in after && Blocks(c, doctor) ensures c.start != x {
        var j :| 0 <= j < |after| && after[j] == c;
        if j != i {
          assert after[j] == rows[j];
          assert !(rows[i].doctor == rows[j].doctor && rows[i].start == rows[j].start);
        }
      }
    }
  }

  /** A patient's cancellation frees the slot it held. */
  lemma PatientCancelFreesSlot(weekly: seq<WeeklyRow>, exceptions: seq<ExceptionRow>, rows: seq<Appointment>,
                               doctor: int, day: int, offset: int, id: int, patient: int, now: int, i: int,
                               a: TimeOfDay, b: TimeOfDay, duration: int, k: nat)
    requires IdsUnique(rows) && StartsUnique(rows)
    requires 0 <= i < |rows| && Cancellable(id, patient, now)(rows[i]) && rows[i].doctor == doctor
    requires ResolveWindow(weekly, exceptions, doctor, day) == Open(Some(a), Some(b), duration) && duration > 0
    requires rows[i].start == Candidate(LocalInstant(day, a, offset), duration, k) < LocalInstant(day, b, offset)
    ensures rows[i].start !in SlotsFor(weekly, exceptions, rows, doctor, day, offset).value
    ensures var after := SetStatusWhere(rows, Cancellable(id, patient, now), CANCELADA);
      SlotsFor(weekly, exceptions, after, doctor, day, offset).Ok? &&
      rows[i].start in SlotsFor(weekly, exceptions, after, doctor, day, offset).value
  {
    CancelChangesOneRow(rows, id, patient, now, i);
    CancelledRowFreesSlot(weekly, exceptions, rows, doctor, day, offset, i, a, b, duration, k);
  }

  /** With no transition guard, a doctor who sets status Cancelada frees the slot too. */
  lemma DoctorCancelFreesSlot(weekly: seq<WeeklyRow>, exceptions: seq<ExceptionRow>, rows: seq<Appointment>,
                              doctor: int, day: int, offset: int, id: int, i: int,
                              a: TimeOfDay, b: TimeOfDay, duration: int, k: nat)
    requires IdsUnique(rows) && StartsUnique(rows)
    requires 0 <= i < |rows| && OwnedBy(id, doctor)(rows[i]) && rows[i].status != CANCELADA
    requires ResolveWindow(weekly, exceptions, doctor, day) == Open(Some(a), Some(b), duration) && duration > 0
    requires rows[i].start == Candidate(LocalInstant(day, a, offset), duration, k) < LocalInstant(day, b, offset)
    ensures rows[i].start !in SlotsFor(weekly, exceptions, rows, doctor, day, offset).value
    ensures var after := SetStatusWhere(rows, OwnedBy(id, doctor), CANCELADA);
      SlotsFor(weekly, exceptions, after, doctor, day, offset).Ok? &&
      rows[i].start in SlotsFor(weekly, exceptions, after, doctor, day, offset).value
  {
    UpdateStatusOneRow(rows, id, doctor, CANCELADA, i);
    CancelledRowFreesSlot(weekly, exceptions, rows, doctor, day, offset, i, a, b, duration, k);
  }

  /** The row a booking inserts takes its start out of the slot list, and a second
      booking of the same doctor and start now meets the uniqueness backstop. */
  lemma BookingTakesSlot(weekly: seq<WeeklyRow>, exceptions: seq<ExceptionRow>, rows: seq<Appointment>,
                         day: int, offset: int, id: int, patient: int, doctor: int, start: int, reason: string)
    ensures var after := rows + [NewAppointment(id, patient, doctor, start, SlotDuration(weekly, doctor), reason)];
      && SlotTaken(after, doctor, start)
      && (SlotsFor(weekly, exceptions, after, doctor, day, offset).Ok? ==>
            start !in SlotsFor(weekly, exceptions, after, doctor, day, offset).value)
  {
    var row := NewAppointment(id, patient, doctor, start, SlotDuration(weekly, doctor), reason);
    var after := rows + [row];
    assert row in after;
    if SlotsFor(weekly, exceptions, after, doctor, day, offset).Ok? &&
       start in SlotsFor(weekly, exceptions, after, doctor, day, offset).value {
      SlotsAreUnbooked(weekly, exceptions, after, doctor, day, offset, start);
      assert false;
    }
  }

  /** The backstop counts cancelled rows as well: after a patient's cancellation the
      slot is offered again, yet booking it answers 409. */
  lemma CancelledSlotOfferedButTaken(weekly: seq<WeeklyRow>, exceptions: seq<ExceptionRow>, rows: seq<Appointment>,
                                     doctor: int, day: int, offset: int, id: int, patient: int, now: int, i: int,
                                     a: TimeOfDay, b: TimeOfDay, duration: int, k: nat)
    requires IdsUnique(rows) && StartsUnique(rows)
    requires 0 <= i < |rows| && Cancellable(id, patient, now)(rows[i]) && rows[i].doctor == doctor
    requires ResolveWindow(weekly, exceptions, doctor, day) == Open(Some(a), Some(b), duration) && duration > 0
    requires rows[i].start == Candidate(LocalInstant(day, a, offset), duration, k) < LocalInstant(day, b, offset)
    ensures var after := SetStatusWhere(rows, Cancellable(id, patient, now), CANCELADA);
      && rows[i].start in SlotsFor(weekly, exceptions, after, doctor, day, offset).value
      && SlotTaken(after, doctor, rows[i].start)
  {
    PatientCancelFreesSlot(weekly, exceptions, rows, doctor, day, offset, id, patient, now, i, a, b, duration, k);
    SetStatusKeepsKeys(rows, Cancellable(id, patient, now), CANCELADA);
    assert rows[i] in rows;
  }
}
