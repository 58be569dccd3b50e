/** The appointment table `citas`, shared by the patient and the doctor routers. */
module Citas {

  // Rows of `estados_cita`
  const PROGRAMADA := 1
  const CONFIRMADA := 2
  const COMPLETADA := 3
  const CANCELADA := 4

  /** A row of `citas`; `start` and `end` are instants in minutes. */
  datatype Appointment = Appointment(
    id: int, patient: int, doctor: int, start: int, end: int, status: int, reason: string)

  ghost predicate IdsUnique(rows: seq<Appointment>)
  {
    forall i, j :: 0 <= i < j < |rows| ==> rows[i].id != rows[j].id
  }

  /** The store's backstop: no two rows share a doctor and a start instant. */
  ghost predicate StartsUnique(rows: seq<Appointment>)
  {
    forall i, j :: 0 <= i < j < |rows| ==> !(rows[i].doctor == rows[j].doctor && rows[i].start == rows[j].start)
  }

  /** An insert for this doctor and start would violate the uniqueness backstop. */
  predicate SlotTaken(rows: seq<Appointment>, doctor: int, start: int)
  {
    exists a | a in rows :: a.doctor == doctor && a.start == start
  }

  /** `UPDATE citas SET estado_cita_id = status WHERE matches`. */
  function SetStatusWhere(rows: seq<Appointment>, matches: Appointment -> bool, status: int): (r: seq<Appointment>)
    ensures |r| == |rows|
  {
    seq(|rows|, k requires 0 <= k < |rows| => if matches(rows[k]) then rows[k].(status := status) else rows[k])
  }

  /** When the condition names one id, the update changes that one row's status and nothing else. */
  lemma SetStatusOneRow(rows: seq<Appointment>, matches: Appointment -> bool, status: int, i: int)
    requires IdsUnique(rows)
    requires 0 <= i < |rows| && matches(rows[i])
    requires forall a :: matches(a) ==> a.id == rows[i].id
    ensures SetStatusWhere(rows, matches, status) == rows[i := rows[i].(status := status)]
  {
    var r := SetStatusWhere(rows, matches, status);
    forall k | 0 <= k < |rows| && k != i ensures r[k] == rows[k] {
      assert rows[k].id != rows[i].id;
    }
  }

  /** An update that matches no row leaves the table as it is. */
  lemma SetStatusNoMatch(rows: seq<Appointment>, matches: Appointment -> bool, status: int)
    requires forall a :: a in rows ==> !matches(a)
    ensures SetStatusWhere(rows, matches, status) == rows
  {
    var r := SetStatusWhere(rows, matches, status);
    forall k | 0 <= k < |rows| ensures r[k] == rows[k] {
      assert rows[k] in rows;
    }
  }

  /** A status update moves no appointment: ids, doctors and starts stay where they were. */
  lemma SetStatusKeepsKeys(rows: seq<Appointment>, matches: Appointment -> bool, status: int)
    ensures forall k :: 0 <= k < |rows| ==>
      var r := SetStatusWhere(rows, matches, status);
      r[k] == rows[k].(status := r[k].status)
    ensures IdsUnique(rows) ==> IdsUnique(SetStatusWhere(rows, matches, status))
    ensures StartsUnique(rows) ==> StartsUnique(SetStatusWhere(rows, matches, status))
    ensures forall d, x :: SlotTaken(SetStatusWhere(rows, matches, status), d, x) <==> SlotTaken(rows, d, x)
  {
    var r := SetStatusWhere(rows, matches, status);
    forall d, x ensures SlotTaken(r, d, x) <==> SlotTaken(rows, d, x) {
      if SlotTaken(r, d, x) {
        var a :| a in r && a.doctor == d && a.start == x;
        var k :| 0 <= k < |r| && r[k] == a;
        assert rows[k] in rows;
      }
      if SlotTaken(rows, d, x) {
        var a :| a in rows && a.doctor == d && a.start == x;
        var k :| 0 <= k < |rows| && rows[k] == a;
        assert r[k] in r;
      }
    }
  }

  class AppointmentTable {
    var rows: seq<Appointment>
    var nextId: int

    ghost predicate Valid()
      reads this
    {
      IdsUnique(rows) && StartsUnique(rows) && forall a :: a in rows ==> a.id < nextId
    }

    constructor ()
      ensures Valid()
      ensures rows == []
    {
      rows := [];
      nextId := 1;
    }
  }
}
