# Clinic appointment scheduling: a Dafny model

This project models the scheduling engine of the clinic back end: the three
routers that keep a doctor's weekly schedule and date exceptions, generate the
bookable slots of a doctor on a date, book appointments, and let patients cancel
and doctors change an appointment's status.

The database tables are in-memory state:
- `horarios_doctores` and `excepciones_horarios` are the fields of `Horario.ScheduleTables`.
- `citas` is the field of `Citas.AppointmentTable`.

Each route handler is a method that reads these objects or changes them in place.
The method's contract gives the HTTP outcome and the new table contents. The
session is an explicit `Session` value. `Authorize` models the guard in front of
each router: no session (or a falsy user id) gives 401, and the wrong role gives
403. Role 3 is the doctor and role 5 is the patient.

Time is measured in whole minutes:
- A civil date is its day number from 1970-01-01.
- The weekday is computed from the day number, with 0 for Sunday, as `getUTCDay` numbers it.
- An instant is a count of minutes since the epoch, in UTC.
- A schedule time is a count of minutes since local midnight.
- The server's local zone is one fixed `offset`. The slot route parses `fecha` plus a schedule time as a local wall time, so a candidate slot is the instant `day * 1440 + time - offset`.

Modules:
- `Common`: the session guard and the response type.
- `Calendar`: days, weekdays and instants.
- `Query`: the SQL `WHERE` and `ORDER BY` as `Filter` and an insertion `SortBy`.
- `Horario`: the schedule router.
- `Citas`: the appointment table and its status `UPDATE`.
- `Slots`: the slot generator.
- `CitasPacientes`: the patient router.
- `CitasDoctor`: the doctor router.
- `Scenarios`: properties that span routes.

The slot route answers `SlotsFor`. It resolves the day's window with
`ResolveWindow` and runs the loop `EnumerateSlots`. `EnumerateSlots` is proved to
produce `FreeSlots`, and `FreeSlots` is proved to be exactly an `IsSlotList`: the
strictly increasing list of the candidates `first + k * duration` in
`[first, limit)` that are not occupied.

Some checks one might expect of a booking system are absent from the code, and the model follows the code:
- Booking checks no daily cap, no buffer between a patient's appointments and no doctor overlap. The store's uniqueness of (doctor, start) is the only rejection.
- The exception path and booking take the slot duration from whichever single weekly row of the doctor the `LIMIT 1` lookup returns. That lookup has no `ORDER BY`, so the source does not say which row this is. The model fixes it as the doctor's first row in table order (see "Left out").
- A doctor's status update has no transition check.
- The occupancy check compares exact start instants, not intervals.

The database schema is not part of the source. The model assumes these uniqueness constraints:
- `citas` on (doctor, start), over all rows whatever their status.
- `horarios_doctores` on (doctor, weekday).
- `excepciones_horarios` on (doctor, date).

## Model

| member | source | states |
|---|---|---|
| Common.Authorize | src/routes/horario.routes.js:6-14 | the guard lets a request through exactly when there is a session with a non-zero user id and the required role; no session or a falsy id is told apart from a wrong role |
| Common.Refusal | src/routes/citas_pacientes.routes.js:6-14 | a missing session answers 401 and a wrong role answers 403 |
| Calendar.Weekday | src/routes/citas_pacientes.routes.js:46 | the weekday of a date is in 0..6 and congruent to the day number plus 4 modulo 7 (1970-01-01 was a Thursday) |
| Calendar.WeekdayOfEpoch | src/routes/citas_pacientes.routes.js:46 | day 0 is a Thursday (4) |
| Calendar.WeekdayNext | src/routes/citas_pacientes.routes.js:46 | the next date has the next weekday, and Saturday is followed by Sunday |
| Calendar.LocalDateOfLocalInstant | src/routes/citas_pacientes.routes.js:83-84 | every instant from a local wall time of a date up to that date's midnight lies on that date in the local calendar |
| Horario.FindWeekly | src/routes/citas_pacientes.routes.js:64-70 | the weekday lookup finds a row of that doctor and weekday, and finds none exactly when no such row exists |
| Horario.FindException | src/routes/citas_pacientes.routes.js:48-56 | the exception lookup finds a row of that doctor and date, and finds none exactly when no such row exists |
| Horario.SlotDurationRule | src/routes/citas_pacientes.routes.js:61-62 | the slot duration is 30 when the doctor has no weekly row, and otherwise is the duration of one of the doctor's rows, namely the first in table order (the model's choice for the unordered `LIMIT 1`) |
| Horario.SavedWeekEffect | src/routes/horario.routes.js:38-46 | after a save the doctor's weekly rows are exactly the submitted list, and every other doctor's rows are unchanged |
| Horario.SavedWeekUnique | src/routes/horario.routes.js:44-46 | a save of distinct weekdays keeps one weekly row per doctor and weekday |
| Horario.GetWeekly | src/routes/horario.routes.js:16-28 | 401/403 outside the doctor role; otherwise the session doctor's weekly rows, each as often as it is stored, by weekday ascending |
| Horario.SaveWeekly | src/routes/horario.routes.js:30-58 | succeeds exactly when the submitted weekdays are distinct, and then replaces the doctor's rows by the submitted ones; a repeated weekday rolls the transaction back (500) and leaves the week as it was; exceptions are untouched |
| Horario.ListExceptions | src/routes/horario.routes.js:60-72 | the session doctor's exceptions, each as often as it is stored, by date descending |
| Horario.AddException | src/routes/horario.routes.js:74-100 | no date: 400 and nothing stored; an existing exception for the doctor and date: 409, nothing stored, and one id drawn from the sequence; otherwise the answer is 201 and exactly one row is appended with the next id, and an unavailable day is stored with null times |
| Horario.DeleteException | src/routes/horario.routes.js:102-118 | removes the exception only when both the id and the doctor match; otherwise 404 and nothing changes |
| Citas.SetStatusWhere | src/routes/citas_pacientes.routes.js:153-156 | a status update keeps the number of rows |
| Citas.SetStatusOneRow | src/routes/citas_doctor.routes.js:50-53 | an update whose condition names one id changes only that row, and only its status |
| Citas.SetStatusNoMatch | src/routes/citas_pacientes.routes.js:158-160 | an update that matches no row leaves the table unchanged |
| Citas.SetStatusKeepsKeys | src/routes/citas_doctor.routes.js:50-53 | a status update changes no id, doctor or start, so it keeps both uniqueness invariants and leaves every (doctor, start) as taken as before |
| Slots.FreeSlotsSound | src/routes/citas_pacientes.routes.js:86-94 | every slot the loop keeps is a candidate `first + k * duration` in `[first, limit)` that is not occupied |
| Slots.FreeSlotsIncreasing | src/routes/citas_pacientes.routes.js:86-94 | the slots are strictly increasing |
| Slots.FreeSlotsComplete | src/routes/citas_pacientes.routes.js:86-94 | every candidate before the limit that is not occupied is kept |
| Slots.FreeSlotsIsSlotList | src/routes/citas_pacientes.routes.js:86-94 | the loop's output is exactly the increasing list of free candidates |
| Slots.EnumerateSlots | src/routes/citas_pacientes.routes.js:86-94 | the loop that advances the current slot and pushes the free ones yields that slot list |
| Slots.UnavailableExceptionClosesDay | src/routes/citas_pacientes.routes.js:55-57 | an unavailable exception gives no slot, even when a weekly row exists for the weekday |
| Slots.NoScheduleNoSlots | src/routes/citas_pacientes.routes.js:64-68 | with no exception and no weekly row for the weekday there is no slot |
| Slots.AvailableExceptionWindow | src/routes/citas_pacientes.routes.js:59-62 | an available exception supplies the window times, and the duration comes from the same rule booking uses |
| Slots.WeeklyRowWindow | src/routes/citas_pacientes.routes.js:64-73 | without an exception, the weekday's weekly row supplies the times and the duration |
| Slots.OpenDaySlots | src/routes/citas_pacientes.routes.js:83-94 | on an open day with a positive duration the answer is the slot list of the window against the occupied starts |
| Slots.NonPositiveDurationHangs | src/routes/citas_pacientes.routes.js:88-94 | a non-empty window with a duration that is not positive never ends its loop |
| Slots.CancelledNeverBlock | src/routes/citas_pacientes.routes.js:76-80 | removing every cancelled appointment leaves the slots unchanged |
| Slots.SlotsAreUnbooked | src/routes/citas_pacientes.routes.js:76-92 | no slot offered is the start of an appointment of that doctor that is not cancelled |
| Slots.AsWrittenAgreesInUtc | src/routes/citas_pacientes.routes.js:77-84 | on a server whose local zone is UTC, the UTC-date query as written gives the same slots |
| Slots.AsWrittenOffersBookedSlot | src/routes/citas_pacientes.routes.js:77-84 | with a zone five hours behind UTC, the query as written offers a booked evening slot that the local-date query withholds |
| CitasPacientes.GetSlots | src/routes/citas_pacientes.routes.js:39-102 | without a date the answer is 400; otherwise it is the doctor's slots for that date |
| CitasPacientes.NewAppointment | src/routes/citas_pacientes.routes.js:112-119 | the inserted row has the session patient, the requested doctor and start, status 1, and ends one slot duration after its start |
| CitasPacientes.Book | src/routes/citas_pacientes.routes.js:104-129 | 401/403 outside the patient role; 409 exactly when the doctor already has a row at that start, with no row added but one id drawn from the sequence, as a failed insert into a serial column draws one; otherwise exactly one row is appended with the next id, status 1 and end = start + the doctor's slot duration |
| CitasPacientes.MyAppointments | src/routes/citas_pacientes.routes.js:131-147 | the session patient's appointments, each as often as it is stored, latest start first |
| CitasPacientes.Cancel | src/routes/citas_pacientes.routes.js:149-166 | succeeds exactly when some row has the id, belongs to the patient, has status 1 or 2 and starts after now, and then sets those rows to status 4; otherwise 404 and the table is unchanged |
| CitasPacientes.CancelChangesOneRow | src/routes/citas_pacientes.routes.js:153-156 | a successful cancellation changes only that appointment's status, to 4 |
| CitasPacientes.SecondCancelFails | src/routes/citas_pacientes.routes.js:153-160 | after a cancellation no row satisfies the same cancellation, so repeating it answers 404 |
| CitasDoctor.DoctorAppointments | src/routes/citas_doctor.routes.js:16-38 | the session doctor's appointments, each as often as it is stored, latest start first |
| CitasDoctor.UpdateStatus | src/routes/citas_doctor.routes.js:40-63 | 401/403 outside the doctor role; a missing status gives 400; an id the doctor does not own gives 404; neither changes anything; otherwise the requested status is written |
| CitasDoctor.UpdateStatusOneRow | src/routes/citas_doctor.routes.js:50-53 | the requested status replaces the status of that one row whatever its current status, terminal ones included; no other row or field changes |
| Scenarios.CancelledRowFreesSlot | src/routes/citas_pacientes.routes.js:76-92 | a booked candidate start is not offered, and once its appointment's status is 4 it is offered again |
| Scenarios.PatientCancelFreesSlot | src/routes/citas_pacientes.routes.js:153-156 | a patient's cancellation brings the slot back into the slot list |
| Scenarios.DoctorCancelFreesSlot | src/routes/citas_doctor.routes.js:50-53 | a doctor setting status 4 brings the slot back too |
| Scenarios.BookingTakesSlot | src/routes/citas_pacientes.routes.js:115-126 | after a booking its start is no longer offered, and a second booking of the same doctor and start meets the uniqueness backstop (409) |
| Scenarios.CancelledSlotOfferedButTaken | src/routes/citas_pacientes.routes.js:122-126 | because the backstop also counts cancelled rows, a cancelled slot is offered again but booking it answers 409 |

## Findings

| source | as written | input that shows it | evidently intended | confidence | as-written member | corrected member |
|---|---|---|---|---|---|---|
| src/routes/citas_pacientes.routes.js:77 | the occupied starts are the appointments whose UTC date is `fecha`, but line 83 builds the candidates as server-local wall times of `fecha` | server zone UTC-5; weekly Sunday row 20:00-20:30, 30 minutes; Sunday 1970-01-04 20:00 local (01:00 UTC Monday) already booked: the slot is offered again | the occupancy check uses the same calendar as the candidates, so a booked slot is never offered | medium; not executed; depends on the server's zone and on the column type | Slots.AsWrittenOffersBookedSlot | Slots.SlotsAreUnbooked |

The rest of the model uses the corrected query, `Slots.Occupied`, which matches
appointments by their local date. On a UTC server the two queries agree
(`Slots.AsWrittenAgreesInUtc`).

## Left out

- The specialty and doctor pickers and `/mi-historial` of the patient router are not modelled. They are plain catalogue and history reads.
- Authentication, password hashing, account management, the user and clinic CRUD routers, dashboards and reporting are not modelled. The session is only a `(userId, rolId)` parameter.
- `src/index.js` is not modelled. It is server wiring and does not mount these three routers.
- Booking has no daily cap per patient, no minimum gap between a patient's appointments and no check for overlapping appointments of a doctor. The code has none of these checks, so the model has none.
- Horario.SlotDurationRule: the row the `LIMIT 1` lookup returns is unspecified in the source, because the query has no `ORDER BY`. The model fixes it as the doctor's first row in sequence order. A database may instead return another row of the doctor, for example through the (doctor, weekday) index, so the rule promises more than the source does about which row supplies the duration.
- Date strings, ISO instants, daylight-saving changes and sub-minute precision are not modelled. Dates are day numbers, times are whole minutes, and the server zone is one fixed offset.
- Database errors other than the uniqueness violations, and every other 500 path, are not modelled. This includes unknown doctor ids and unknown status ids, which are foreign-key violations. Also left out: CHECK and NOT NULL failures, and connection failures.
- The weekly save fails only on a repeated weekday, since that is the one constraint the model knows.
- Concurrency is not modelled. Each request runs alone, and the uniqueness backstop is a deterministic insert failure.
- The listings return the table rows themselves. The joined doctor, patient and status names are not modelled. Rows that tie on the sort key may come in any order: the model promises the order by the key and the rows with their multiplicity, not the order among ties.
- `esta_disponible` is a boolean. A request that omits it, which would store a null, is not modelled.
- A loop that never ends is the `NoResponse` outcome. The model does not follow it further.
- Horario.DeleteException: the remaining exceptions are stated by membership, not by position, because the model does not rule out two identical rows.
