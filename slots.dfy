/** The slot generator: the bookable start instants of one doctor on one date,
    computed from the schedule store and the appointment table. */
module Slots {
  import opened Common
  import opened Calendar
  import opened Query
  import opened Horario
  import opened Citas

  /** How a date is cut into slots: not at all, or from `start` to `end` (local
      wall times, null when the stored time is null) in steps of `duration`. */
  datatype Window = Closed | Open(start: Option<TimeOfDay>, end: Option<TimeOfDay>, duration: int)

  /** An exception for the date overrides the weekly row: an unavailable day is
      closed, an available one takes the exception's times and the doctor's slot
      duration. Without an exception the weekly row of the date's weekday decides,
      and without one the day is closed. */
  function ResolveWindow(weekly: seq<WeeklyRow>, exceptions: seq<ExceptionRow>, doctor: int, day: int): Window
  {
    match FindException(exceptions, doctor, day)
    case Some(ex) =>
      if !ex.available then Closed else Open(ex.start, ex.end, SlotDuration(weekly, doctor))
    case None =>
      match FindWeekly(weekly, doctor, Weekday(day))
      case None => Closed
      case Some(w) => Open(Some(w.start), Some(w.end), w.duration)
  }

  predicate Blocks(a: Appointment, doctor: int)
  {
    a.doctor == doctor && a.status != CANCELADA
  }

  /** The start instants that block a slot: those of the doctor's appointments
      that are not cancelled and fall on the date in the server's local calendar. */
  function Occupied(rows: seq<Appointment>, doctor: int, day: int, offset: int): set<int>
  {
    set a | a in rows && Blocks(a, doctor) && LocalDate(a.start, offset) == day :: a.start
  }

  /** The k-th candidate start: `k` slot durations after the first. */
  function Candidate(first: int, duration: int, k: nat): int
  {
    first + k * duration
  }

  lemma {:induction false} CandidateAtLeastFirst(first: int, duration: int, k: nat)
    requires duration > 0
    ensures Candidate(first, duration, k) >= first
  {
    if k > 0 {
      CandidateAtLeastFirst(first, duration, k - 1);
      assert Candidate(first, duration, k) == Candidate(first, duration, k - 1) + duration;
    }
  }

  lemma CandidateShift(first: int, duration: int, k: nat)
    ensures Candidate(first + duration, duration, k) == Candidate(first, duration, k + 1)
  {
  }

  ghost predicate StrictlyIncreasing(s: seq<int>)
  {
    forall i, j :: 0 <= i < j < |s| ==> s[i] < s[j]
  }

  /** What a slot list is: every element is a candidate in `[first, limit)` that is
      not occupied, the list is strictly increasing, and no free candidate is missing. */
  ghost predicate IsSlotList(s: seq<int>, first: int, limit: int, duration: int, occupied: set<int>)
  {
    && (forall x :: x in s ==>
          first <= x < limit && x !in occupied && exists k: nat :: x == Candidate(first, duration, k))
    && StrictlyIncreasing(s)
    && (forall k: nat :: Candidate(first, duration, k) < limit && Candidate(first, duration, k) !in occupied ==>
          Candidate(first, duration, k) in s)
  }

  /** The free candidates from `from` on, in the order the loop visits them. */
  function FreeSlots(from: int, limit: int, duration: int, occupied: set<int>): seq<int>
    requires duration > 0
    decreases limit - from
  {
    if from >= limit then []
    else (if from in occupied then [] else [from]) + FreeSlots(from + duration, limit, duration, occupied)
  }

  lemma {:induction false} FreeSlotsSound(from: int, limit: int, duration: int, occupied: set<int>)
    requires duration > 0
    ensures forall x :: x in FreeSlots(from, limit, duration, occupied) ==>
      from <= x < limit && x !in occupied && exists k: nat :: x == Candidate(from, duration, k)
    decreases limit - from
  {
    if from < limit {
      FreeSlotsSound(from + duration, limit, duration, occupied);
      var tail := FreeSlots(from + duration, limit, duration, occupied);
      assert Candidate(from, duration, 0) == from;
      forall x | x in tail ensures exists k: nat :: x == Candidate(from, duration, k) {
        var k: nat :| x == Candidate(from + duration, duration, k);
        CandidateShift(from, duration, k);
      }
    }
  }

  lemma {:induction false} FreeSlotsIncreasing(from: int, limit: int, duration: int, occupied: set<int>)
    requires duration > 0
    ensures StrictlyIncreasing(FreeSlots(from, limit, duration, occupied))
    decreases limit - from
  {
    if from < limit {
      FreeSlotsIncreasing(from + duration, limit, duration, occupied);
      FreeSlotsSound(from + duration, limit, duration, occupied);
      var tail := FreeSlots(from + duration, limit, duration, occupied);
      var head := if from in occupied then [] else [from];
      var s := FreeSlots(from, limit, duration, occupied);
      assert s == head + tail;
      forall i, j | 0 <= i < j < |s| ensures s[i] < s[j] {
        var h := |head|;
        assert s[j] == tail[j - h];
        assert tail[j - h] in tail;
        if i < h {
          assert s[i] == from;
          assert tail[j - h] >= from + duration;
        } else {
          assert s[i] == tail[i - h];
          assert tail[i - h] < tail[j - h];
        }
      }
    }
  }

  lemma {:induction false} FreeSlotsComplete(from: int, limit: int, duration: int, occupied: set<int>)
    requires duration > 0
    ensures forall k: nat :: Candidate(from, duration, k) < limit && Candidate(from, duration, k) !in occupied ==>
      Candidate(from, duration, k) in FreeSlots(from, limit, duration, occupied)
    decreases limit - from
  {
    if from < limit {
      FreeSlotsComplete(from + duration, limit, duration, occupied);
      forall k: nat | Candidate(from, duration, k) < limit && Candidate(from, duration, k) !in occupied
        ensures Candidate(from, duration, k) in FreeSlots(from, limit, duration, occupied)
      {
        if k > 0 {
          CandidateShift(from, duration, k - 1);
        }
      }
    } else {
      forall k: nat ensures Candidate(from, duration, k) >= limit {
        CandidateAtLeastFirst(from, duration, k);
      }
    }
  }

  lemma FreeSlotsIsSlotList(first: int, limit: int, duration: int, occupied: set<int>)
    requires duration > 0
    ensures IsSlotList(FreeSlots(first, limit, duration, occupied), first, limit, duration, occupied)
  {
    FreeSlotsSound(first, limit, duration, occupied);
    FreeSlotsIncreasing(first, limit, duration, occupied);
    FreeSlotsComplete(first, limit, duration, occupied);
  }

  /** The loop of the slot route: walk from the first start in steps of the
      duration while before the limit, keeping the starts that are not occupied. */
  method EnumerateSlots(first: int, limit: int, duration: int, occupied: set<int>) returns (slots: seq<int>)
    requires duration > 0
    ensures IsSlotList(slots, first, limit, duration, occupied)
    ensures slots == FreeSlots(first, limit, duration, occupied)
  {
    slots := [];
    var current := first;
    while current < limit
      invariant slots + FreeSlots(current, limit, duration, occupied) == FreeSlots(first, limit, duration, occupied)
      decreases limit - current
    {
      var rest := FreeSlots(current + duration, limit, duration, occupied);
      if current !in occupied {
        assert FreeSlots(current, limit, duration, occupied) == [current] + rest;
        assert slots + FreeSlots(current, limit, duration, occupied) == (slots + [current]) + rest;
        slots := slots + [current];
      } else {
        assert FreeSlots(current, limit, duration, occupied) == rest;
      }
      current := current + duration;
    }
    assert slots == FreeSlots(first, limit, duration, occupied);
    FreeSlotsIsSlotList(first, limit, duration, occupied);
  }

  /** The answer for a resolved window. A null time parses to an invalid date, so
      the loop never runs; a window whose duration is not positive never ends it. */
  function SlotsInWindow(w: Window, day: int, offset: int, occupied: set<int>): Response<seq<int>>
  {
    if w.Closed? || w.start.None? || w.end.None? then Ok([])
    else
      var first := LocalInstant(day, w.start.value, offset);
      var limit := LocalInstant(day, w.end.value, offset);
      if first >= limit then Ok([])
      else if w.duration <= 0 then NoResponse
      else Ok(FreeSlots(first, limit, w.duration, occupied))
  }

  /** GET /agendar/horario/:doctorId for a given date: the slots of the doctor on that date. */
  function SlotsFor(weekly: seq<WeeklyRow>, exceptions: seq<ExceptionRow>, rows: seq<Appointment>,
                    doctor: int, day: int, offset: int): Response<seq<int>>
  {
    SlotsInWindow(ResolveWindow(weekly, exceptions, doctor, day), day, offset, Occupied(rows, doctor, day, offset))
  }

  /** An unavailable exception closes the day, even when a weekly row exists for its weekday. */
  lemma UnavailableExceptionClosesDay(weekly: seq<WeeklyRow>, exceptions: seq<ExceptionRow>, rows: seq<Appointment>,
                                      doctor: int, day: int, offset: int, ex: ExceptionRow)
    requires OneExceptionPerDate(exceptions)
    requires ex in exceptions && ex.doctor == doctor && ex.date == day && !ex.available
    ensures SlotsFor(weekly, exceptions, rows, doctor, day, offset) == Ok([])
  {
  }

  /** Without an exception and without a weekly row for the weekday there is no slot. */
  lemma NoScheduleNoSlots(weekly: seq<WeeklyRow>, exceptions: seq<ExceptionRow>, rows: seq<Appointment>,
                          doctor: int, day: int, offset: int)
    requires forall e :: e in exceptions ==> !(e.doctor == doctor && e.date == day)
    requires forall w :: w in weekly ==> !(w.doctor == doctor && w.weekday == Weekday(day))
    ensures SlotsFor(weekly, exceptions, rows, doctor, day, offset) == Ok([])
  {
  }

  /** An available exception supplies the times, and the duration is the doctor's
      slot duration, resolved as booking resolves it. */
  lemma AvailableExceptionWindow(weekly: seq<WeeklyRow>, exceptions: seq<ExceptionRow>, doctor: int, day: int,
                                 ex: ExceptionRow)
    requires OneExceptionPerDate(exceptions)
    requires ex in exceptions && ex.doctor == doctor && ex.date == day && ex.available
    ensures ResolveWindow(weekly, exceptions, doctor, day) == Open(ex.start, ex.end, SlotDuration(weekly, doctor))
  {
  }

  /** Without an exception, the weekly row of the date's weekday supplies times and duration. */
  lemma WeeklyRowWindow(weekly: seq<WeeklyRow>, exceptions: seq<ExceptionRow>, doctor: int, day: int, w: WeeklyRow)
    requires WeeklyUnique(weekly)
    requires forall e :: e in exceptions ==> !(e.doctor == doctor && e.date == day)
    requires w in weekly && w.doctor == doctor && w.weekday == Weekday(day)
    ensures ResolveWindow(weekly, exceptions, doctor, day) == Open(Some(w.start), Some(w.end), w.duration)
  {
  }

  /** On an open day the answer is a slot list over the window: candidates
      `first + k * duration` inside `[first, limit)`, strictly increasing, and exactly
      those that no booked appointment occupies. */
  lemma OpenDaySlots(weekly: seq<WeeklyRow>, exceptions: seq<ExceptionRow>, rows: seq<Appointment>,
                     doctor: int, day: int, offset: int, a: TimeOfDay, b: TimeOfDay, duration: int)
    requires ResolveWindow(weekly, exceptions, doctor, day) == Open(Some(a), Some(b), duration)
    requires duration > 0
    ensures SlotsFor(weekly, exceptions, rows, doctor, day, offset).Ok?
    ensures IsSlotList(SlotsFor(weekly, exceptions, rows, doctor, day, offset).value,
                       LocalInstant(day, a, offset), LocalInstant(day, b, offset), duration,
                       Occupied(rows, doctor, day, offset))
  {
    var first, limit := LocalInstant(day, a, offset), LocalInstant(day, b, offset);
    if first < limit {
      FreeSlotsIsSlotList(first, limit, duration, Occupied(rows, doctor, day, offset));
    } else {
      forall k: nat ensures Candidate(first, duration, k) >= limit {
        CandidateAtLeastFirst(first, duration, k);
      }
    }
  }

  /** A non-empty window whose duration is not positive never finishes its loop. */
  lemma NonPositiveDurationHangs(weekly: seq<WeeklyRow>, exceptions: seq<ExceptionRow>, rows: seq<Appointment>,
                                 doctor: int, day: int, offset: int, a: TimeOfDay, b: TimeOfDay, duration: int)
    requires ResolveWindow(weekly, exceptions, doctor, day) == Open(Some(a), Some(b), duration)
    requires a < b && duration <= 0
    ensures SlotsFor(weekly, exceptions, rows, doctor, day, offset) == NoResponse
  {
  }

  function NotCancelled(): Appointment -> bool
  {
    (a: Appointment) => a.status != CANCELADA
  }

  /** Cancelled appointments never block a slot: dropping them changes nothing. */
  lemma CancelledNeverBlock(weekly: seq<WeeklyRow>, exceptions: seq<ExceptionRow>, rows: seq<Appointment>,
                            doctor: int, day: int, offset: int)
    ensures SlotsFor(weekly, exceptions, rows, doctor, day, offset)
         == SlotsFor(weekly, exceptions, Filter(rows, NotCancelled()), doctor, day, offset)
  {
    var live := Filter(rows, NotCancelled());
    assert Occupied(rows, doctor, day, offset) == Occupied(live, doctor, day, offset) by {
      forall x ensures x in Occupied(rows, doctor, day, offset) <==> x in Occupied(live, doctor, day, offset) {
        if x in Occupied(rows, doctor, day, offset) {
          var a :| a in rows && Blocks(a, doctor) && LocalDate(a.start, offset) == day && a.start == x;
          assert a in live;
        }
      }
    }
  }

  /** No slot offered is the start of an appointment of the doctor that is not cancelled. */
  lemma SlotsAreUnbooked(weekly: seq<WeeklyRow>, exceptions: seq<ExceptionRow>, rows: seq<Appointment>,
                         doctor: int, day: int, offset: int, x: int)
    requires SlotsFor(weekly, exceptions, rows, doctor, day, offset).Ok?
    requires x in SlotsFor(weekly, exceptions, rows, doctor, day, offset).value
    ensures forall a :: a in rows && Blocks(a, doctor) ==> a.start != x
  {
    var w := ResolveWindow(weekly, exceptions, doctor, day);
    var occupied := Occupied(rows, doctor, day, offset);
    var first, limit := LocalInstant(day, w.start.value, offset), LocalInstant(day, w.end.value, offset);
    FreeSlotsSound(first, limit, w.duration, occupied);
    LocalDateOfLocalInstant(day, w.start.value, offset, x);
    assert x !in occupied;
    forall a | a in rows && Blocks(a, doctor) ensures a.start != x {
      assert LocalDate(a.start, offset) == day ==> a.start in occupied;
    }
  }

  // The occupancy query as the route writes it: it compares the appointment's
  // date in UTC with the requested date, while the candidates are local wall times.

  /** The occupied starts as the route queries them: by UTC date. */
  function OccupiedAsWritten(rows: seq<Appointment>, doctor: int, day: int): set<int>
  {
    set a | a in rows && Blocks(a, doctor) && UtcDate(a.start) == day :: a.start
  }

  function SlotsForAsWritten(weekly: seq<WeeklyRow>, exceptions: seq<ExceptionRow>, rows: seq<Appointment>,
                             doctor: int, day: int, offset: int): Response<seq<int>>
  {
    SlotsInWindow(ResolveWindow(weekly, exceptions, doctor, day), day, offset, OccupiedAsWritten(rows, doctor, day))
  }

  /** On a server whose local zone is UTC the two queries agree. */
  lemma AsWrittenAgreesInUtc(weekly: seq<WeeklyRow>, exceptions: seq<ExceptionRow>, rows: seq<Appointment>,
                             doctor: int, day: int)
    ensures SlotsForAsWritten(weekly, exceptions, rows, doctor, day, 0) == SlotsFor(weekly, exceptions, rows, doctor, day, 0)
  {
    assert OccupiedAsWritten(rows, doctor, day) == Occupied(rows, doctor, day, 0);
  }

  /** Five hours behind UTC, a doctor works Sundays 20:00-20:30 and the 20:00 slot of
      Sunday 1970-01-04 (day 3) is booked. That instant is 01:00 UTC on Monday, so the
      query as written does not see the booking and offers the slot again. */
  lemma AsWrittenOffersBookedSlot()
    ensures var weekly := [WeeklyRow(1, 0, 1200, 1230, 30)];
            var rows := [Appointment(1, 2, 1, 5820, 5850, PROGRAMADA, "")];
            && SlotsForAsWritten(weekly, [], rows, 1, 3, -300) == Ok([5820])
            && SlotsFor(weekly, [], rows, 1, 3, -300) == Ok([])
  {
    var weekly := [WeeklyRow(1, 0, 1200, 1230, 30)];
    var rows := [Appointment(1, 2, 1, 5820, 5850, PROGRAMADA, "")];
    assert Weekday(3) == 0;
    assert Filter(weekly, OnWeekday(1, 0)) == weekly;
    assert ResolveWindow(weekly, [], 1, 3) == Open(Some(1200), Some(1230), 30);
    assert OccupiedAsWritten(rows, 1, 3) == {};
    assert Occupied(rows, 1, 3, -300) == {5820};
    assert LocalInstant(3, 1200, -300) == 5820 && LocalInstant(3, 1230, -300) == 5850;
    assert FreeSlots(5850, 5850, 30, {}) == [];
    assert FreeSlots(5820, 5850, 30, {}) == [5820];
    assert FreeSlots(5850, 5850, 30, {5820}) == [];
    assert FreeSlots(5820, 5850, 30, {5820}) == [];
  }
}
