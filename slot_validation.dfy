/** The appointment-slot rules of the booking form (`BookingForm.clean`):
    five ordered checks over the leave, availability and booking tables,
    stopping at the first that fails. The tables are read, never written. */
module SlotValidation {
  import opened Calendar
  import opened Records

  /** The three tables the form reads. */
  datatype Stores = Stores(availability: seq<Availability>, leaves: seq<Leave>, bookings: seq<Booking>)

  /** A working window shown to the patient as "start - end". */
  datatype Window = Window(start: Time, end: Time)

  /** Which check failed, with what its messages show. */
  datatype SlotError =
    | PastDate
      /** the leave's reason, when it is not blank */
    | OnLeave(reason: Option<string>)
      /** the requested weekday, and the distinct days the doctor does work
          (empty when the doctor has no availability at all) */
    | NotWorkingThatDay(day: Weekday, availableOn: seq<Weekday>)
      /** the requested weekday and every window of that day */
    | OutsideHours(day: Weekday, windows: seq<Window>)
    | SlotTaken

  // ---------------------------------------------------------------------
  // Table lookups (each a filter over one table, in table order)
  // ---------------------------------------------------------------------

  /** Leave rows of `doctor` on `date`. */
  function LeavesOn(leaves: seq<Leave>, doctor: Id, date: Date): (r: seq<Leave>)
    ensures |r| <= |leaves|
    ensures forall l :: l in r <==> l in leaves && l.doctor == doctor && l.date == date
  {
    if leaves == [] then []
    else
      var rest := LeavesOn(leaves[1..], doctor, date);
      if leaves[0].doctor == doctor && leaves[0].date == date then [leaves[0]] + rest else rest
  }

  /** Availability rows of `doctor` on weekday `day`. */
  function SlotsOn(slots: seq<Availability>, doctor: Id, day: Weekday): (r: seq<Availability>)
    ensures |r| <= |slots|
    ensures forall s :: s in r <==> s in slots && s.doctor == doctor && s.day == day
  {
    if slots == [] then []
    else
      var rest := SlotsOn(slots[1..], doctor, day);
      if slots[0].doctor == doctor && slots[0].day == day then [slots[0]] + rest else rest
  }

  /** Availability rows of `doctor`, any day. */
  function SlotsOf(slots: seq<Availability>, doctor: Id): (r: seq<Availability>)
    ensures |r| <= |slots|
    ensures forall s :: s in r <==> s in slots && s.doctor == doctor
  {
    if slots == [] then []
    else
      var rest := SlotsOf(slots[1..], doctor);
      if slots[0].doctor == doctor then [slots[0]] + rest else rest
  }

  predicate NoDuplicates<T(==)>(s: seq<T>)
  {
    forall i, j :: 0 <= i < j < |s| ==> s[i] != s[j]
  }

  /** The distinct `day` values of `slots`, in order of first occurrence
      (`values_list('day', flat=True).distinct()`). */
  function DistinctDays(slots: seq<Availability>): (r: seq<Weekday>)
    ensures NoDuplicates(r)
    ensures forall d :: d in r <==> exists s :: s in slots && s.day == d
  {
    if slots == [] then []
    else
      var rest := DistinctDays(slots[..|slots| - 1]);
      var last := slots[|slots| - 1];
      assert forall s :: s in slots <==> s in slots[..|slots| - 1] || s == last;
      if last.day in rest then rest else rest + [last.day]
  }

  predicate InWindow(s: Availability, t: Time)
  {
    s.start <= t <= s.end
  }

  function WindowOf(s: Availability): Window
  {
    Window(s.start, s.end)
  }

  /** The windows of `slots`, one per row, in row order. */
  function WindowsOf(slots: seq<Availability>): (r: seq<Window>)
    ensures |r| == |slots|
    ensures forall k :: 0 <= k < |slots| ==> r[k] == WindowOf(slots[k])
  {
    if slots == [] then [] else [WindowOf(slots[0])] + WindowsOf(slots[1..])
  }

  /** A booking on this exact slot that is neither rejected nor cancelled. */
  predicate Occupies(b: Booking, doctor: Id, date: Date, time: Time)
  {
    b.doctor == doctor && b.date == date && b.time == time && HoldsSlot(b.status)
  }

  /** Bookings on (doctor, date, time), excluding rejected and cancelled ones. */
  function HoldersOf(bookings: seq<Booking>, doctor: Id, date: Date, time: Time): (r: seq<Booking>)
    ensures |r| <= |bookings|
    ensures forall b :: b in r <==> b in bookings && Occupies(b, doctor, date, time)
  {
    if bookings == [] then []
    else
      var rest := HoldersOf(bookings[1..], doctor, date, time);
      if Occupies(bookings[0], doctor, date, time) then [bookings[0]] + rest else rest
  }

  /** `DoctorLeave.objects.get` raises unless one row matches: the leave
      table keeps at most one row per (doctor, date). */
  predicate LeavesUnique(leaves: seq<Leave>)
  {
    forall i, j :: 0 <= i < j < |leaves| ==> leaves[i].doctor != leaves[j].doctor || leaves[i].date != leaves[j].date
  }

  /** The reason the leave message shows: none when it is blank. */
  function ShownReason(l: Leave): Option<string>
  {
    if l.reason == "" then None else Some(l.reason)
  }

  // ---------------------------------------------------------------------
  // The rules
  // ---------------------------------------------------------------------

  /** The five checks, in order, for a complete (doctor, date, time). */
  function ValidateSlot(doctor: Id, date: Date, time: Time, today: Date, st: Stores): (r: Option<SlotError>)
    requires LeavesUnique(st.leaves)
    ensures r == Some(PastDate) <==> date < today
    ensures r.Some? && r.value.NotWorkingThatDay? ==> r.value.day == DayOfWeek(date)
    ensures r.Some? && r.value.OutsideHours? ==> r.value.day == DayOfWeek(date) && r.value.windows != []
  {
    if date < today then Some(PastDate)
    else
      var onLeave := LeavesOn(st.leaves, doctor, date);
      if onLeave != [] then Some(OnLeave(ShownReason(onLeave[0])))
      else
        var day := DayOfWeek(date);
        var daySlots := SlotsOn(st.availability, doctor, day);
        if daySlots == [] then Some(NotWorkingThatDay(day, DistinctDays(SlotsOf(st.availability, doctor))))
        else if !(exists s :: s in daySlots && InWindow(s, time)) then Some(OutsideHours(day, WindowsOf(daySlots)))
        else if HoldersOf(st.bookings, doctor, date, time) != [] then Some(SlotTaken)
        else None
  }

  /** `clean`: nothing is checked unless doctor, date and time are all present. */
  function Validate(doctor: Option<Id>, date: Option<Date>, time: Option<Time>, today: Date, st: Stores): (r: Option<SlotError>)
    requires LeavesUnique(st.leaves)
    ensures doctor.None? || date.None? || time.None? ==> r.None?
  {
    if doctor.Some? && date.Some? && time.Some? then ValidateSlot(doctor.value, date.value, time.value, today, st)
    else None
  }

  /** The checks as the form runs them: the table filters, then a search for
      a covering window that stops at the first one, then, on failure, the
      list of that day's windows built one row at a time. */
  method CheckSlot(doctor: Id, date: Date, time: Time, today: Date, st: Stores) returns (outcome: Option<SlotError>)
    requires LeavesUnique(st.leaves)
    ensures outcome == ValidateSlot(doctor, date, time, today, st)
  {
    if date < today {
      return Some(PastDate);
    }
    var onLeave := LeavesOn(st.leaves, doctor, date);
    if onLeave != [] {
      return Some(OnLeave(ShownReason(onLeave[0])));
    }
    var day := DayOfWeek(date);
    var daySlots := SlotsOn(st.availability, doctor, day);
    if daySlots == [] {
      return Some(NotWorkingThatDay(day, DistinctDays(SlotsOf(st.availability, doctor))));
    }
    var withinHours := false;
    var validSlot: Option<Availability> := None;
    var i := 0;
    while i < |daySlots|
      invariant 0 <= i <= |daySlots|
      invariant !withinHours && validSlot.None?
      invariant forall k :: 0 <= k < i ==> !InWindow(daySlots[k], time)
    {
      if InWindow(daySlots[i], time) {
        withinHours := true;
        validSlot := Some(daySlots[i]);
        break;
      }
      i := i + 1;
    }
    if !withinHours {
      var slotsInfo: seq<Window> := [];
      var j := 0;
      while j < |daySlots|
        invariant 0 <= j <= |daySlots|
        invariant slotsInfo == WindowsOf(daySlots[..j])
      {
        assert daySlots[..j + 1] == daySlots[..j] + [daySlots[j]];
        WindowsOfAppend(daySlots[..j], daySlots[j]);
        slotsInfo := slotsInfo + [WindowOf(daySlots[j])];
        j := j + 1;
      }
      assert daySlots[..j] == daySlots;
      return Some(OutsideHours(day, slotsInfo));
    }
    var existing := HoldersOf(st.bookings, doctor, date, time);
    if existing != [] {
      return Some(SlotTaken);
    }
    return None;
  }

  lemma WindowsOfAppend(slots: seq<Availability>, s: Availability)
    ensures WindowsOf(slots + [s]) == WindowsOf(slots) + [WindowOf(s)]
  {
  }

  // ---------------------------------------------------------------------
  // Form errors
  // ---------------------------------------------------------------------

  datatype Field = BookingDate | AppointmentTime

  /** One `add_error` call: the field, the check that failed, and whether
      it is the informational message that follows the main one. */
  datatype FormError = FormError(field: Field, error: SlotError, followUp: bool)

  function FieldOf(e: SlotError): Field
  {
    if e.PastDate? || e.OnLeave? || e.NotWorkingThatDay? then BookingDate else AppointmentTime
  }

  /** Checks three to five add a second, informational message; the
      weekday check only when the doctor works on some day at all. */
  predicate HasFollowUp(e: SlotError)
  {
    match e
    case NotWorkingThatDay(_, days) => days != []
    case OutsideHours(_, _) => true
    case SlotTaken => true
    case _ => false
  }

  /** The errors `clean` adds for an outcome. */
  function Reported(outcome: Option<SlotError>): (errs: seq<FormError>)
    ensures outcome.None? <==> errs == []
    ensures outcome.Some? ==> |errs| == (if HasFollowUp(outcome.value) then 2 else 1)
    ensures forall k :: 0 <= k < |errs| ==>
      errs[k].error == outcome.value && errs[k].field == FieldOf(outcome.value) && (errs[k].followUp <==> k == 1)
  {
    match outcome
    case None => []
    case Some(e) =>
      [FormError(FieldOf(e), e, false)] + (if HasFollowUp(e) then [FormError(FieldOf(e), e, true)] else [])
  }

  /** The booking form: `clean` only adds errors; the form is valid when
      none were added. */
  class BookingForm {
    var errors: seq<FormError>

    constructor ()
      ensures errors == []
    {
      errors := [];
    }

    predicate IsValid()
      reads this
    {
      errors == []
    }

    method Clean(doctor: Option<Id>, date: Option<Date>, time: Option<Time>, today: Date, st: Stores)
      requires LeavesUnique(st.leaves)
      modifies this
      ensures errors == old(errors) + Reported(Validate(doctor, date, time, today, st))
      ensures IsValid() <==> old(IsValid()) && Validate(doctor, date, time, today, st).None?
    {
      if doctor.Some? && date.Some? && time.Some? {
        var outcome := CheckSlot(doctor.value, date.value, time.value, today, st);
        errors := errors + Reported(outcome);
      }
    }
  }

  // ---------------------------------------------------------------------
  // What the rules mean, stated over the tables directly
  // ---------------------------------------------------------------------

  ghost predicate HasLeave(leaves: seq<Leave>, doctor: Id, date: Date)
  {
    exists l :: l in leaves && l.doctor == doctor && l.date == date
  }

  ghost predicate WorksOn(slots: seq<Availability>, doctor: Id, day: Weekday)
  {
    exists s :: s in slots && s.doctor == doctor && s.day == day
  }

  ghost predicate Covered(slots: seq<Availability>, doctor: Id, day: Weekday, time: Time)
  {
    exists s :: s in slots && s.doctor == doctor && s.day == day && InWindow(s, time)
  }

  ghost predicate Taken(bookings: seq<Booking>, doctor: Id, date: Date, time: Time)
  {
    exists b :: b in bookings && Occupies(b, doctor, date, time)
  }

  /** Each outcome happens exactly when the earlier checks pass and its own
      check fails: past date, then leave, then weekday, then hours, then
      double booking. */
  lemma ChecksInOrder(doctor: Id, date: Date, time: Time, today: Date, st: Stores)
    requires LeavesUnique(st.leaves)
    ensures var r := ValidateSlot(doctor, date, time, today, st);
            var day := DayOfWeek(date);
            (r == Some(PastDate) <==> date < today) &&
            (r.Some? && r.value.OnLeave? <==> today <= date && HasLeave(st.leaves, doctor, date)) &&
            (r.Some? && r.value.NotWorkingThatDay? <==>
               today <= date && !HasLeave(st.leaves, doctor, date) && !WorksOn(st.availability, doctor, day)) &&
            (r.Some? && r.value.OutsideHours? <==>
               today <= date && !HasLeave(st.leaves, doctor, date) && WorksOn(st.availability, doctor, day) &&
               !Covered(st.availability, doctor, day, time)) &&
            (r == Some(SlotTaken) <==>
               today <= date && !HasLeave(st.leaves, doctor, date) && Covered(st.availability, doctor, day, time) &&
               Taken(st.bookings, doctor, date, time)) &&
            (r.None? <==>
               today <= date && !HasLeave(st.leaves, doctor, date) && Covered(st.availability, doctor, day, time) &&
               !Taken(st.bookings, doctor, date, time))
  {
    var day := DayOfWeek(date);
    var onLeave := LeavesOn(st.leaves, doctor, date);
    assert onLeave != [] <==> HasLeave(st.leaves, doctor, date) by {
      if onLeave != [] { assert onLeave[0] in onLeave; }
    }
    var daySlots := SlotsOn(st.availability, doctor, day);
    assert daySlots != [] <==> WorksOn(st.availability, doctor, day) by {
      if daySlots != [] { assert daySlots[0] in daySlots; }
    }
    var holders := HoldersOf(st.bookings, doctor, date, time);
    assert holders != [] <==> Taken(st.bookings, doctor, date, time) by {
      if holders != [] { assert holders[0] in holders; }
    }
  }

  /** With at most one leave per (doctor, date), the leave found is the one
      stored, and the message shows its reason exactly when it is not blank. */
  lemma {:induction false} LeaveReported(doctor: Id, date: Date, time: Time, today: Date, st: Stores, l: Leave)
    requires LeavesUnique(st.leaves)
    requires l in st.leaves && l.doctor == doctor && l.date == date
    requires today <= date
    ensures ValidateSlot(doctor, date, time, today, st) == Some(OnLeave(if l.reason == "" then None else Some(l.reason)))
  {
    var found := LeavesOn(st.leaves, doctor, date);
    assert l in found;
    assert found[0] in found;
  }

  /** On a day the doctor does not work, the hint lists exactly the distinct
      days the doctor does work, never the day asked for, and is absent when
      the doctor has no availability at all. */
  lemma NotWorkingHint(doctor: Id, date: Date, time: Time, today: Date, st: Stores)
    requires LeavesUnique(st.leaves)
    requires ValidateSlot(doctor, date, time, today, st).Some? && ValidateSlot(doctor, date, time, today, st).value.NotWorkingThatDay?
    ensures var e := ValidateSlot(doctor, date, time, today, st).value;
            e.day == DayOfWeek(date) &&
            NoDuplicates(e.availableOn) &&
            (forall d: Weekday :: d in e.availableOn <==> WorksOn(st.availability, doctor, d)) &&
            e.day !in e.availableOn &&
            (e.availableOn == [] <==> forall s :: s in st.availability ==> s.doctor != doctor) &&
            (HasFollowUp(e) <==> exists s :: s in st.availability && s.doctor == doctor)
  {
    var e := ValidateSlot(doctor, date, time, today, st).value;
    var mine := SlotsOf(st.availability, doctor);
    forall d: Weekday
      ensures d in e.availableOn <==> WorksOn(st.availability, doctor, d)
    {
      if d in e.availableOn {
        var s :| s in mine && s.day == d;
      }
      if WorksOn(st.availability, doctor, d) {
        var s :| s in st.availability && s.doctor == doctor && s.day == d;
        assert s in mine;
      }
    }
    ChecksInOrder(doctor, date, time, today, st);
    if e.availableOn != [] {
      assert e.availableOn[0] in e.availableOn;
    }
    if exists s :: s in st.availability && s.doctor == doctor {
      var s :| s in st.availability && s.doctor == doctor;
      assert s in mine;
      assert WorksOn(st.availability, doctor, s.day);
    }
  }

  /** When the time is outside the day's hours, the hint lists one window per
      availability row of that weekday, in table order, and the time lies in
      none of them. */
  lemma OutsideHoursHint(doctor: Id, date: Date, time: Time, today: Date, st: Stores)
    requires LeavesUnique(st.leaves)
    requires ValidateSlot(doctor, date, time, today, st).Some? && ValidateSlot(doctor, date, time, today, st).value.OutsideHours?
    ensures var e := ValidateSlot(doctor, date, time, today, st).value;
            var daySlots := SlotsOn(st.availability, doctor, DayOfWeek(date));
            e.day == DayOfWeek(date) &&
            |e.windows| == |daySlots| > 0 &&
            (forall k :: 0 <= k < |daySlots| ==> e.windows[k] == Window(daySlots[k].start, daySlots[k].end)) &&
            (forall w :: w in e.windows ==> !(w.start <= time <= w.end)) &&
            (forall s :: s in st.availability && s.doctor == doctor && s.day == DayOfWeek(date) ==> WindowOf(s) in e.windows)
  {
    var e := ValidateSlot(doctor, date, time, today, st).value;
    var daySlots := SlotsOn(st.availability, doctor, DayOfWeek(date));
    forall w | w in e.windows
      ensures !(w.start <= time <= w.end)
    {
      var k :| 0 <= k < |e.windows| && e.windows[k] == w;
      assert daySlots[k] in daySlots;
    }
    forall s | s in st.availability && s.doctor == doctor && s.day == DayOfWeek(date)
      ensures WindowOf(s) in e.windows
    {
      assert s in daySlots;
      var k :| 0 <= k < |daySlots| && daySlots[k] == s;
      assert e.windows[k] == WindowOf(s);
    }
  }

  // ---------------------------------------------------------------------
  // Bookings and the slot they hold
  // ---------------------------------------------------------------------

  /** No two bookings that hold a slot share (doctor, date, time). */
  ghost predicate SlotExclusive(bookings: seq<Booking>)
  {
    forall i, j :: 0 <= i < j < |bookings| && HoldsSlot(bookings[i].status) && HoldsSlot(bookings[j].status) ==>
      bookings[i].doctor != bookings[j].doctor || bookings[i].date != bookings[j].date || bookings[i].time != bookings[j].time
  }

  /** Once a slot that passed every check is booked (status pending), the same
      request is refused as taken. */
  lemma BookedSlotIsTaken(doctor: Id, date: Date, time: Time, today: Date, st: Stores, b: Booking)
    requires LeavesUnique(st.leaves)
    requires ValidateSlot(doctor, date, time, today, st).None?
    requires b.doctor == doctor && b.date == date && b.time == time && b.status == Pending
    ensures ValidateSlot(doctor, date, time, today, st.(bookings := st.bookings + [b])) == Some(SlotTaken)
  {
    ChecksInOrder(doctor, date, time, today, st);
    ChecksInOrder(doctor, date, time, today, st.(bookings := st.bookings + [b]));
    assert b in st.bookings + [b];
  }

  /** A rejected or cancelled booking frees its slot: the request passes
      again, as it did before the booking was made. */
  lemma ReleasedSlotIsFree(doctor: Id, date: Date, time: Time, today: Date, st: Stores, b: Booking)
    requires LeavesUnique(st.leaves)
    requires ValidateSlot(doctor, date, time, today, st).None?
    requires b.status == Rejected || b.status == Cancelled
    ensures ValidateSlot(doctor, date, time, today, st.(bookings := st.bookings + [b])).None?
  {
    ChecksInOrder(doctor, date, time, today, st);
    ChecksInOrder(doctor, date, time, today, st.(bookings := st.bookings + [b]));
  }

  /** Saving only bookings the form accepted keeps every slot held by at most
      one booking. */
  lemma {:induction false} AcceptedBookingKeepsSlotsExclusive(doctor: Id, date: Date, time: Time, today: Date, st: Stores, b: Booking)
    requires LeavesUnique(st.leaves)
    requires SlotExclusive(st.bookings)
    requires ValidateSlot(doctor, date, time, today, st).None?
    requires b.doctor == doctor && b.date == date && b.time == time
    ensures SlotExclusive(st.bookings + [b])
  {
    ChecksInOrder(doctor, date, time, today, st);
    var bs := st.bookings + [b];
    forall i, j | 0 <= i < j < |bs| && HoldsSlot(bs[i].status) && HoldsSlot(bs[j].status)
      ensures bs[i].doctor != bs[j].doctor || bs[i].date != bs[j].date || bs[i].time != bs[j].time
    {
      if j == |st.bookings| {
        assert bs[i] in st.bookings;
      } else {
        assert bs[i] == st.bookings[i] && bs[j] == st.bookings[j];
      }
    }
  }

  // ---------------------------------------------------------------------
  // A worked example
  // ---------------------------------------------------------------------

  /** 2024-01-01, a Monday. */
  const NewYear2024: Date := 738886

  /** A doctor (id 1) who works Mondays 09:00-12:00: a booking the next
      Monday at 10:00 passes; once booked, the same time is taken; 13:00 is
      outside the hours; with the booking cancelled, 10:00 passes again; and
      a leave that Monday with reason "Conference" refuses it, showing the
      reason. */
  lemma MondayMorningScenario()
    ensures var today := NewYear2024;
            var monday := NewYear2024 + 7;
            var ten := ClockTime(10, 0);
            var slot := Availability(1, 1, Monday, ClockTime(9, 0), ClockTime(12, 0));
            var st := Stores([slot], [], []);
            var booked := Booking(1, "patient", 1, monday, ten, Pending);
            var st2 := st.(bookings := [booked]);
            var st3 := st.(bookings := [booked.(status := Cancelled)]);
            var st4 := st.(leaves := [Leave(1, 1, monday, "Conference")]);
            ValidateSlot(1, monday, ten, today, st).None? &&
            ValidateSlot(1, monday, ten, today, st2) == Some(SlotTaken) &&
            ValidateSlot(1, monday, ClockTime(13, 0), today, st2) == Some(OutsideHours(Monday, [Window(ClockTime(9, 0), ClockTime(12, 0))])) &&
            ValidateSlot(1, monday, ten, today, st3).None? &&
            ValidateSlot(1, monday, ten, today, st4) == Some(OnLeave(Some("Conference")))
  {
    var today := NewYear2024;
    var monday := NewYear2024 + 7;
    var ten := ClockTime(10, 0);
    var slot := Availability(1, 1, Monday, ClockTime(9, 0), ClockTime(12, 0));
    var st := Stores([slot], [], []);
    var booked := Booking(1, "patient", 1, monday, ten, Pending);
    var st2 := st.(bookings := [booked]);
    var st3 := st.(bookings := [booked.(status := Cancelled)]);
    var st4 := st.(leaves := [Leave(1, 1, monday, "Conference")]);
    assert DayOfWeek(monday) == Monday;
    assert SlotsOn([slot], 1, Monday) == [slot];
    assert WindowsOf([slot]) == [Window(ClockTime(9, 0), ClockTime(12, 0))];
    assert !InWindow(slot, ClockTime(13, 0));
    assert ValidateSlot(1, monday, ten, today, st).None?;
    assert ValidateSlot(1, monday, ten, today, st2) == Some(SlotTaken);
    assert ValidateSlot(1, monday, ClockTime(13, 0), today, st2) == Some(OutsideHours(Monday, [Window(ClockTime(9, 0), ClockTime(12, 0))]));
    assert ValidateSlot(1, monday, ten, today, st3).None?;
    assert ValidateSlot(1, monday, ten, today, st4) == Some(OnLeave(Some("Conference")));
  }
}
