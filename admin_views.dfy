/** The doctor portal and admin views: access tests, the doctor dashboard
    counts, and the small table updates a doctor or an administrator makes
    (booking status, availability windows, leave days, the linked user
    account of a doctor, reading contact messages). */
module AdminViews {
  import opened Calendar
  import opened Records
  import opened SlotValidation

  // ---------------------------------------------------------------------
  // Access
  // ---------------------------------------------------------------------

  /** The signed-in user as the access tests see it: the superuser flag and
      the doctor profile linked to the account, if any. An anonymous visitor
      is (false, None). */
  datatype Principal = Principal(isSuperuser: bool, doctor: Option<Id>)

  /** Superusers and doctors may open the dashboard. */
  predicate IsPrivileged(u: Principal)
  {
    u.isSuperuser || u.doctor.Some?
  }

  /** Only superusers manage doctors, departments and messages. */
  predicate IsSuperuser(u: Principal)
    ensures IsSuperuser(u) ==> IsPrivileged(u)
  {
    u.isSuperuser
  }

  /** The doctor portal is open to users with a doctor profile. */
  predicate IsDoctor(u: Principal)
    ensures IsDoctor(u) ==> IsPrivileged(u)
    ensures IsDoctor(u) <==> u.doctor.Some?
  {
    u.doctor.Some?
  }

  lemma PrivilegedIsSuperuserOrDoctor(u: Principal)
    ensures IsPrivileged(u) <==> IsSuperuser(u) || IsDoctor(u)
  {
  }

  /** What a view did. */
  datatype ViewResult =
    | LoginRequired   // the access test failed: redirect to login, nothing done
    | NotFound        // no such row (or not the doctor's own): 404, nothing done
    | Done            // the change was saved
    | Ignored         // the request was accepted but asked for nothing the view does
    | AlreadyExists   // a warning: the row is already there, nothing done
    | Failed          // the save raised and was reported as an error, nothing done

  // ---------------------------------------------------------------------
  // Lookups by key
  // ---------------------------------------------------------------------

  /** Position of the first occurrence of `k` in `keys`. */
  function IndexOf<K(==)>(keys: seq<K>, k: K): (r: Option<nat>)
    ensures r.Some? ==> r.value < |keys| && keys[r.value] == k && forall j :: 0 <= j < r.value ==> keys[j] != k
    ensures r.None? ==> k !in keys
  {
    if keys == [] then None
    else if keys[0] == k then Some(0)
    else match IndexOf(keys[1..], k)
      case None => None
      case Some(j) => Some(j + 1)
  }

  /** (id, doctor) of each booking: `get_object_or_404(Booking, id=…, doc_name=…)`. */
  function BookingKeys(bs: seq<Booking>): (r: seq<(Id, Id)>)
    ensures |r| == |bs| && forall i :: 0 <= i < |bs| ==> r[i] == (bs[i].id, bs[i].doctor)
  {
    seq(|bs|, i requires 0 <= i < |bs| => (bs[i].id, bs[i].doctor))
  }

  function SlotKeys(s: seq<Availability>): (r: seq<(Id, Id)>)
    ensures |r| == |s| && forall i :: 0 <= i < |s| ==> r[i] == (s[i].id, s[i].doctor)
  {
    seq(|s|, i requires 0 <= i < |s| => (s[i].id, s[i].doctor))
  }

  function LeaveKeys(s: seq<Leave>): (r: seq<(Id, Id)>)
    ensures |r| == |s| && forall i :: 0 <= i < |s| ==> r[i] == (s[i].id, s[i].doctor)
  {
    seq(|s|, i requires 0 <= i < |s| => (s[i].id, s[i].doctor))
  }

  function MessageIds(s: seq<Message>): (r: seq<Id>)
    ensures |r| == |s| && forall i :: 0 <= i < |s| ==> r[i] == s[i].id
  {
    seq(|s|, i requires 0 <= i < |s| => s[i].id)
  }

  function DoctorIds(s: seq<Doctor>): (r: seq<Id>)
    ensures |r| == |s| && forall i :: 0 <= i < |s| ==> r[i] == s[i].id
  {
    seq(|s|, i requires 0 <= i < |s| => s[i].id)
  }

  function AccountIds(s: seq<Account>): (r: seq<Id>)
    ensures |r| == |s| && forall i :: 0 <= i < |s| ==> r[i] == s[i].id
  {
    seq(|s|, i requires 0 <= i < |s| => s[i].id)
  }

  function DepartmentIds(s: seq<Department>): (r: seq<Id>)
    ensures |r| == |s| && forall i :: 0 <= i < |s| ==> r[i] == s[i].id
  {
    seq(|s|, i requires 0 <= i < |s| => s[i].id)
  }

  /** The table without its row at `i`. */
  function RemoveAt<T>(s: seq<T>, i: nat): (r: seq<T>)
    requires i < |s|
    ensures |r| == |s| - 1
    ensures forall k :: 0 <= k < |s| && k != i ==> s[k] in r
    ensures forall x :: x in r ==> x in s
    ensures forall k :: 0 <= k < |r| ==> r[k] == s[if k < i then k else k + 1]
  {
    s[..i] + s[i + 1..]
  }

  // ---------------------------------------------------------------------
  // Doctor dashboard counts
  // ---------------------------------------------------------------------

  /** Bookings of `doctor`, restricted to one status when `status` is given. */
  function CountFor(bookings: seq<Booking>, doctor: Id, status: Option<Status>): nat
  {
    if bookings == [] then 0
    else
      var b := bookings[0];
      (if b.doctor == doctor && (status.None? || b.status == status.value) then 1 else 0)
        + CountFor(bookings[1..], doctor, status)
  }

  /** The five per-status counts of a doctor add up to the doctor's total. */
  lemma {:induction false} StatusCountsPartition(bookings: seq<Booking>, doctor: Id)
    ensures CountFor(bookings, doctor, Some(Pending)) + CountFor(bookings, doctor, Some(Accepted))
          + CountFor(bookings, doctor, Some(Rejected)) + CountFor(bookings, doctor, Some(Completed))
          + CountFor(bookings, doctor, Some(Cancelled)) == CountFor(bookings, doctor, None)
  {
    if bookings != [] {
      StatusCountsPartition(bookings[1..], doctor);
    }
  }

  datatype DashboardCounts = DashboardCounts(total: nat, pending: nat, completed: nat)

  /** The doctor dashboard: total, pending and completed bookings, all over
      the same doctor's bookings. */
  function DoctorDashboard(bookings: seq<Booking>, doctor: Id): (c: DashboardCounts)
    ensures c.pending <= c.total && c.completed <= c.total && c.pending + c.completed <= c.total
    ensures c.total <= |bookings|
  {
    StatusCountsPartition(bookings, doctor);
    CountAtMostLength(bookings, doctor);
    DashboardCounts(CountFor(bookings, doctor, None), CountFor(bookings, doctor, Some(Pending)),
                    CountFor(bookings, doctor, Some(Completed)))
  }

  lemma {:induction false} CountAtMostLength(bookings: seq<Booking>, doctor: Id)
    ensures CountFor(bookings, doctor, None) <= |bookings|
  {
    if bookings != [] {
      CountAtMostLength(bookings[1..], doctor);
    }
  }

  // ---------------------------------------------------------------------
  // Booking status
  // ---------------------------------------------------------------------

  function StatusName(s: Status): string
  {
    match s
    case Pending => "pending"
    case Accepted => "accepted"
    case Rejected => "rejected"
    case Completed => "completed"
    case Cancelled => "cancelled"
  }

  /** The status a doctor may set from the URL: only accepted, rejected and
      completed. */
  function DoctorSettable(name: string): (r: Option<Status>)
    ensures r.Some? <==> name == "accepted" || name == "rejected" || name == "completed"
    ensures r.Some? ==> StatusName(r.value) == name && r.value != Pending && r.value != Cancelled
  {
    if name == "accepted" then Some(Accepted)
    else if name == "rejected" then Some(Rejected)
    else if name == "completed" then Some(Completed)
    else None
  }

  /** `update_booking_status` for a signed-in doctor: the outcome and the new
      booking table. The current status is not consulted. */
  function UpdateStatus(bookings: seq<Booking>, doctor: Id, bookingId: Id, newStatus: string): (r: (ViewResult, seq<Booking>))
    ensures |r.1| == |bookings|
    ensures r.0 == Done || r.1 == bookings
    ensures r.0 == NotFound <==> (bookingId, doctor) !in BookingKeys(bookings)
    ensures r.0 == Done <==> (bookingId, doctor) in BookingKeys(bookings) && DoctorSettable(newStatus).Some?
    ensures forall k :: 0 <= k < |bookings| ==>
      r.1[k] == bookings[k] ||
      (bookings[k].id == bookingId && bookings[k].doctor == doctor &&
       r.1[k] == bookings[k].(status := DoctorSettable(newStatus).value))
    ensures r.0 == Done ==> var i := IndexOf(BookingKeys(bookings), (bookingId, doctor)).value;
              r.1 == bookings[i := bookings[i].(status := DoctorSettable(newStatus).value)]
  {
    match IndexOf(BookingKeys(bookings), (bookingId, doctor))
    case None => (NotFound, bookings)
    case Some(i) =>
      match DoctorSettable(newStatus)
      case None => (Ignored, bookings)
      case Some(s) => (Done, bookings[i := bookings[i].(status := s)])
  }

  /** Rejecting, or re-setting a booking that already held its slot, keeps
      every slot held by at most one booking. */
  lemma UpdateStatusKeepsSlotsExclusive(bookings: seq<Booking>, doctor: Id, bookingId: Id, newStatus: string)
    requires SlotExclusive(bookings)
    requires forall b :: b in bookings && b.id == bookingId && b.doctor == doctor ==>
               HoldsSlot(b.status) || newStatus == "rejected"
    ensures SlotExclusive(UpdateStatus(bookings, doctor, bookingId, newStatus).1)
  {
    var r := UpdateStatus(bookings, doctor, bookingId, newStatus).1;
    forall i, j | 0 <= i < j < |r| && HoldsSlot(r[i].status) && HoldsSlot(r[j].status)
      ensures r[i].doctor != r[j].doctor || r[i].date != r[j].date || r[i].time != r[j].time
    {
      assert bookings[i] in bookings && bookings[j] in bookings;
    }
  }

  /** Because the current status is not consulted, a doctor who accepts a
      cancelled booking puts it back on a slot that another patient may
      have booked since: two bookings then hold the same slot. */
  lemma ReopenedBookingCanDoubleBook()
    ensures var day: Date := NewYear2024;
            var ten := ClockTime(10, 0);
            var first := Booking(1, "first patient", 1, day, ten, Cancelled);
            var second := Booking(2, "second patient", 1, day, ten, Pending);
            SlotExclusive([first, second]) &&
            UpdateStatus([first, second], 1, 1, "accepted").0 == Done &&
            !SlotExclusive(UpdateStatus([first, second], 1, 1, "accepted").1)
  {
    var day: Date := NewYear2024;
    var ten := ClockTime(10, 0);
    var first := Booking(1, "first patient", 1, day, ten, Cancelled);
    var second := Booking(2, "second patient", 1, day, ten, Pending);
    var r := UpdateStatus([first, second], 1, 1, "accepted").1;
    assert BookingKeys([first, second])[0] == (1, 1);
    assert r == [first.(status := Accepted), second];
    assert HoldsSlot(r[0].status) && HoldsSlot(r[1].status);
  }

  // ---------------------------------------------------------------------
  // Availability windows and leave days
  // ---------------------------------------------------------------------

  /** `schedule_management`: the new row is appended as given; a missing
      value makes the insert raise, and nothing is added. No check that the
      window starts before it ends. */
  function AddSlot(slots: seq<Availability>, newId: Id, doctor: Id, day: Option<Weekday>, start: Option<Time>, end: Option<Time>): (r: (ViewResult, seq<Availability>))
    ensures r.0 == Done <==> day.Some? && start.Some? && end.Some?
    ensures r.0 == Done ==> r.1 == slots + [Availability(newId, doctor, day.value, start.value, end.value)]
    ensures r.0 != Done ==> r.0 == Failed && r.1 == slots
  {
    if day.Some? && start.Some? && end.Some? then
      (Done, slots + [Availability(newId, doctor, day.value, start.value, end.value)])
    else (Failed, slots)
  }

  /** `delete_schedule`: removes the doctor's own row with that id. */
  function DeleteSlot(slots: seq<Availability>, doctor: Id, slotId: Id): (r: (ViewResult, seq<Availability>))
    ensures r.0 == Done || r.0 == NotFound
    ensures r.0 == NotFound <==> (slotId, doctor) !in SlotKeys(slots)
    ensures r.0 == NotFound ==> r.1 == slots
    ensures r.0 == Done ==> |r.1| == |slots| - 1
    ensures r.0 == Done ==> exists i :: 0 <= i < |slots| && slots[i].id == slotId && slots[i].doctor == doctor &&
                                  r.1 == slots[..i] + slots[i + 1..]
    ensures forall s :: s in slots && (s.id != slotId || s.doctor != doctor) ==> s in r.1
    ensures forall s :: s in r.1 ==> s in slots
  {
    match IndexOf(SlotKeys(slots), (slotId, doctor))
    case None => (NotFound, slots)
    case Some(i) =>
      (Done, RemoveAt(slots, i))
  }

  /** `leave_management`: inserts a leave only when the doctor has none that
      day; a missing date makes the insert raise. */
  function AddLeave(leaves: seq<Leave>, newId: Id, doctor: Id, date: Option<Date>, reason: string): (r: (ViewResult, seq<Leave>))
    ensures r.0 in {Done, AlreadyExists, Failed}
    ensures r.0 == Done ==> date.Some? && r.1 == leaves + [Leave(newId, doctor, date.value, reason)]
    ensures r.0 != Done ==> r.1 == leaves
    ensures r.0 == AlreadyExists <==> date.Some? && HasLeave(leaves, doctor, date.value)
    ensures r.0 == Failed <==> date.None?
  {
    if date.None? then (Failed, leaves)
    else if LeavesOn(leaves, doctor, date.value) != [] then
      assert LeavesOn(leaves, doctor, date.value)[0] in LeavesOn(leaves, doctor, date.value);
      (AlreadyExists, leaves)
    else (Done, leaves + [Leave(newId, doctor, date.value, reason)])
  }

  /** Leave creation keeps at most one leave per (doctor, date), and the
      doctor is on leave that day afterwards. */
  lemma AddLeaveKeepsLeavesUnique(leaves: seq<Leave>, newId: Id, doctor: Id, date: Option<Date>, reason: string)
    requires LeavesUnique(leaves)
    ensures LeavesUnique(AddLeave(leaves, newId, doctor, date, reason).1)
    ensures date.Some? ==> HasLeave(AddLeave(leaves, newId, doctor, date, reason).1, doctor, date.value)
  {
    var r := AddLeave(leaves, newId, doctor, date, reason);
    if r.0 == Done {
      var l := Leave(newId, doctor, date.value, reason);
      forall i | 0 <= i < |leaves|
        ensures leaves[i].doctor != doctor || leaves[i].date != date.value
      {
        assert leaves[i] in leaves;
      }
      assert r.1[|leaves|] == l;
    }
  }

  /** Submitting the same leave day twice adds it once. */
  lemma RepeatedLeaveIsNoOp(leaves: seq<Leave>, id1: Id, id2: Id, doctor: Id, date: Option<Date>, reason1: string, reason2: string)
    ensures var once := AddLeave(leaves, id1, doctor, date, reason1).1;
            AddLeave(once, id2, doctor, date, reason2).1 == once
  {
    var once := AddLeave(leaves, id1, doctor, date, reason1).1;
    if date.Some? {
      AddLeaveRecordsLeave(leaves, id1, doctor, date.value, reason1);
    }
  }

  lemma AddLeaveRecordsLeave(leaves: seq<Leave>, newId: Id, doctor: Id, date: Date, reason: string)
    ensures HasLeave(AddLeave(leaves, newId, doctor, Some(date), reason).1, doctor, date)
  {
    var r := AddLeave(leaves, newId, doctor, Some(date), reason);
    if r.0 == Done {
      assert r.1[|leaves|] in r.1;
    }
  }

  /** `delete_leave`: removes the doctor's own leave row with that id. */
  function DeleteLeave(leaves: seq<Leave>, doctor: Id, leaveId: Id): (r: (ViewResult, seq<Leave>))
    ensures r.0 == Done || r.0 == NotFound
    ensures r.0 == NotFound <==> (leaveId, doctor) !in LeaveKeys(leaves)
    ensures r.0 == NotFound ==> r.1 == leaves
    ensures r.0 == Done ==> |r.1| == |leaves| - 1
    ensures r.0 == Done ==> exists i :: 0 <= i < |leaves| && leaves[i].id == leaveId && leaves[i].doctor == doctor &&
                                  r.1 == leaves[..i] + leaves[i + 1..]
    ensures forall l :: l in leaves && (l.id != leaveId || l.doctor != doctor) ==> l in r.1
    ensures forall l :: l in r.1 ==> l in leaves
  {
    match IndexOf(LeaveKeys(leaves), (leaveId, doctor))
    case None => (NotFound, leaves)
    case Some(i) => (Done, RemoveAt(leaves, i))
  }

  /** Deleting a leave keeps at most one leave per (doctor, date). */
  lemma DeleteLeaveKeepsLeavesUnique(leaves: seq<Leave>, doctor: Id, leaveId: Id)
    requires LeavesUnique(leaves)
    ensures LeavesUnique(DeleteLeave(leaves, doctor, leaveId).1)
  {
    match IndexOf(LeaveKeys(leaves), (leaveId, doctor))
    case None =>
    case Some(i) =>
      var r := RemoveAt(leaves, i);
      forall a, b | 0 <= a < b < |r|
        ensures r[a].doctor != r[b].doctor || r[a].date != r[b].date
      {
        var a' := if a < i then a else a + 1;
        var b' := if b < i then b else b + 1;
        assert r[a] == leaves[a'] && r[b] == leaves[b'];
      }
  }

  // ---------------------------------------------------------------------
  // Contact messages
  // ---------------------------------------------------------------------

  /** `view_message`: the message is marked read when it is not already. */
  function MarkRead(msgs: seq<Message>, messageId: Id): (r: (ViewResult, seq<Message>))
    ensures |r.1| == |msgs|
    ensures r.0 == Done || r.0 == NotFound
    ensures r.0 == NotFound <==> messageId !in MessageIds(msgs)
    ensures forall k :: 0 <= k < |msgs| ==> r.1[k].id == msgs[k].id
    ensures r.0 == Done ==> var i := IndexOf(MessageIds(msgs), messageId).value;
              r.1 == msgs[i := msgs[i].(isRead := true)]
    ensures r.0 == NotFound ==> r.1 == msgs
  {
    match IndexOf(MessageIds(msgs), messageId)
    case None => (NotFound, msgs)
    case Some(i) => if msgs[i].isRead then (Done, msgs) else (Done, msgs[i := msgs[i].(isRead := true)])
  }

  /** Viewing marks the message read, and viewing it again changes nothing. */
  lemma MarkReadIdempotent(msgs: seq<Message>, messageId: Id)
    ensures var once := MarkRead(msgs, messageId).1;
            MarkRead(once, messageId).1 == once
  {
    var once := MarkRead(msgs, messageId).1;
    match IndexOf(MessageIds(msgs), messageId)
    case None =>
    case Some(i) =>
      assert MessageIds(once) == MessageIds(msgs);
  }

  // ---------------------------------------------------------------------
  // A doctor's linked user account (`edit_doctor`)
  // ---------------------------------------------------------------------

  /** The characters Python's `str.strip()` removes. */
  predicate IsSpace(c: char)
  {
    c == ' ' || c == '\t' || c == '\n' || c == '\r' || c == '\U{000B}' || c == '\U{000C}'
    || ('\U{001C}' <= c <= '\U{001F}') || c == '\U{0085}' || c == '\U{00A0}' || c == '\U{1680}'
    || ('\U{2000}' <= c <= '\U{200A}') || c == '\U{2028}' || c == '\U{2029}' || c == '\U{202F}'
    || c == '\U{205F}' || c == '\U{3000}'
  }

  function TrimStart(s: string): (r: string)
    ensures |r| <= |s| && r == s[|s| - |r|..]
    ensures r == "" || !IsSpace(r[0])
    ensures forall k :: 0 <= k < |s| - |r| ==> IsSpace(s[k])
  {
    if s != [] && IsSpace(s[0]) then TrimStart(s[1..]) else s
  }

  function TrimEnd(s: string): (r: string)
    ensures |r| <= |s| && r == s[..|r|]
    ensures r == "" || !IsSpace(r[|r| - 1])
    ensures forall k :: |r| <= k < |s| ==> IsSpace(s[k])
  {
    if s != [] && IsSpace(s[|s| - 1]) then TrimEnd(s[..|s| - 1]) else s
  }

  /** `str.strip()`: whitespace removed from both ends. */
  function Strip(s: string): string
  {
    TrimEnd(TrimStart(s))
  }

  /** A field is blank after stripping exactly when it is all whitespace,
      and a non-blank one starts and ends with a non-space. */
  lemma {:induction false} StripBlank(s: string)
    ensures var r := Strip(s);
            (r == "" <==> forall k :: 0 <= k < |s| ==> IsSpace(s[k])) &&
            (r == "" || (!IsSpace(r[0]) && !IsSpace(r[|r| - 1])))
  {
    var t := TrimStart(s);
    var r := TrimEnd(t);
    if r != "" {
      assert r[0] == t[0];
      assert !IsSpace(s[|s| - |t|]);
    }
  }

  /** What `edit_doctor` does with the account fields. */
  datatype AccountPlan =
    | UpdateAccount       // a linked account, and a username or an email given
    | KeepAccount         // a linked account, and neither given
    | CreateAccount       // no account, and all three fields given
    | PartialCredentials  // no account, some but not all given: a warning, shown only when the save goes through
    | NoCredentials       // no account, nothing given

  /** The submitted doctor form. */
  datatype DoctorForm = DoctorForm(name: string, specialization: string, department: Id,
                                   username: string, email: string, password: string)

  /** The three account fields after stripping; "" is a blank field. */
  datatype Credentials = Credentials(username: string, email: string, password: string)

  function Stripped(f: DoctorForm): Credentials
  {
    Credentials(Strip(f.username), Strip(f.email), Strip(f.password))
  }

  /** The decision on the stripped fields. */
  function PlanAccount(linked: bool, c: Credentials): (p: AccountPlan)
    ensures p == UpdateAccount || p == KeepAccount <==> linked
    ensures p == UpdateAccount <==> linked && (c.username != "" || c.email != "")
    ensures p == CreateAccount <==> !linked && c.username != "" && c.email != "" && c.password != ""
    ensures p == NoCredentials <==> !linked && c.username == "" && c.email == "" && c.password == ""
  {
    if linked then
      if c.username != "" || c.email != "" then UpdateAccount else KeepAccount
    else if c.username != "" && c.email != "" && c.password != "" then CreateAccount
    else if c.username != "" || c.email != "" || c.password != "" then PartialCredentials
    else NoCredentials
  }

  /** The tables `edit_doctor` writes, with the next free primary key. */
  datatype Staff = Staff(doctors: seq<Doctor>, accounts: seq<Account>, nextId: Id)

  /** Some account other than the one at `except` already uses `name`
      (user names are unique, so saving it raises). */
  predicate UsernameTaken(accounts: seq<Account>, name: string, except: Option<nat>)
  {
    exists k :: 0 <= k < |accounts| && Some(k) != except && accounts[k].username == name
  }

  /** The linked account after an update: each of username, email and
      password is replaced only when given; the first name follows the
      doctor's name. */
  function Updated(a: Account, c: Credentials, firstName: string): Account
  {
    a.(username := if c.username != "" then c.username else a.username,
       email := if c.email != "" then c.email else a.email,
       password := if c.password != "" then c.password else a.password,
       firstName := firstName)
  }

  /** The new doctor row's profile fields. */
  function Profile(d: Doctor, f: DoctorForm): Doctor
  {
    d.(name := f.name, specialization := f.specialization, department := f.department)
  }

  /** Every doctor's linked account exists. */
  predicate LinksResolve(s: Staff)
  {
    forall d :: d in s.doctors && d.user.Some? ==> d.user.value in AccountIds(s.accounts)
  }

  /** `edit_doctor` POST for a superuser: the account fields are stripped,
      then the tables are saved on the stripped values. */
  function EditDoctor(s: Staff, departments: seq<Department>, doctorId: Id, f: DoctorForm): (r: (ViewResult, AccountPlan, Staff))
    requires LinksResolve(s)
    ensures r.0 != Done ==> r.2 == s
    ensures |r.2.doctors| == |s.doctors|
  {
    EditWith(s, departments, doctorId, f, Stripped(f))
  }

  /** The outcome, the account decision and the new tables, given the
      stripped account fields `c`. */
  function EditWith(s: Staff, departments: seq<Department>, doctorId: Id, f: DoctorForm, c: Credentials): (r: (ViewResult, AccountPlan, Staff))
    requires LinksResolve(s)
    ensures r.0 != Done ==> r.2 == s
    ensures |r.2.doctors| == |s.doctors|
  {
    match IndexOf(DoctorIds(s.doctors), doctorId)
    case None => (NotFound, NoCredentials, s)
    case Some(i) =>
      var plan := PlanAccount(s.doctors[i].user.Some?, c);
      if f.department !in DepartmentIds(departments) then (Failed, plan, s)
      else
        var (res, s') := ApplyPlan(s, i, plan, f, c);
        (res, plan, s')
  }

  /** Saving the doctor row at `i` and its account as `plan` says. */
  function ApplyPlan(s: Staff, i: nat, plan: AccountPlan, f: DoctorForm, c: Credentials): (r: (ViewResult, Staff))
    requires LinksResolve(s) && i < |s.doctors|
    requires plan == UpdateAccount ==> s.doctors[i].user.Some?
    ensures r.0 == Done || (r.0 == Failed && r.1 == s)
    ensures |r.1.doctors| == |s.doctors|
    ensures plan != UpdateAccount && plan != CreateAccount ==> r.0 == Done && r.1.accounts == s.accounts && r.1.nextId == s.nextId
  {
    match plan
    case UpdateAccount => SaveLinked(s, i, f, c)
    case CreateAccount => SaveCreated(s, i, f, c)
    case _ => (Done, s.(doctors := s.doctors[i := Profile(s.doctors[i], f)]))
  }

  /** The profile, and the linked account updated; a clash with another
      account's username raises and nothing is saved. */
  function SaveLinked(s: Staff, i: nat, f: DoctorForm, c: Credentials): (r: (ViewResult, Staff))
    requires LinksResolve(s) && i < |s.doctors| && s.doctors[i].user.Some?
    ensures r.0 == Done || (r.0 == Failed && r.1 == s)
    ensures |r.1.doctors| == |s.doctors|
  {
    var d := s.doctors[i];
    assert d in s.doctors;
    var k := IndexOf(AccountIds(s.accounts), d.user.value).value;
    if c.username != "" && UsernameTaken(s.accounts, c.username, Some(k)) then (Failed, s)
    else (Done, s.(doctors := s.doctors[i := Profile(d, f)],
                   accounts := s.accounts[k := Updated(s.accounts[k], c, f.name)]))
  }

  /** The profile, and a new account under the next key linked to it; an
      existing username raises and nothing is saved. */
  function SaveCreated(s: Staff, i: nat, f: DoctorForm, c: Credentials): (r: (ViewResult, Staff))
    requires i < |s.doctors|
    ensures r.0 == Done || (r.0 == Failed && r.1 == s)
    ensures |r.1.doctors| == |s.doctors|
    ensures r.0 == Failed <==> UsernameTaken(s.accounts, c.username, None)
    ensures r.0 == Done ==>
      r.1.accounts == s.accounts + [Account(s.nextId, c.username, c.email, c.password, f.name)] &&
      r.1.doctors == s.doctors[i := Profile(s.doctors[i], f).(user := Some(s.nextId))] &&
      r.1.nextId == s.nextId + 1
  {
    if UsernameTaken(s.accounts, c.username, None) then (Failed, s)
    else (Done, Staff(s.doctors[i := Profile(s.doctors[i], f).(user := Some(s.nextId))],
                      s.accounts + [Account(s.nextId, c.username, c.email, c.password, f.name)], s.nextId + 1))
  }

  /** With a linked account, the account changes only when a username or an
      email is given; a password given alone is dropped. */
  lemma LinkedAccountChangesOnlyWithUsernameOrEmail(s: Staff, departments: seq<Department>, doctorId: Id, f: DoctorForm, c: Credentials, i: nat)
    requires LinksResolve(s)
    requires IndexOf(DoctorIds(s.doctors), doctorId) == Some(i)
    requires s.doctors[i].user.Some?
    requires c.username == "" && c.email == ""
    ensures var r := EditWith(s, departments, doctorId, f, c);
            r.1 == KeepAccount && r.2.accounts == s.accounts && r.2.nextId == s.nextId
  {
  }

  /** With a linked account and a username or an email given, the account
      takes each given field and keeps the others, unless the username
      clashes with another account's. */
  lemma LinkedAccountTakesGivenFields(s: Staff, departments: seq<Department>, doctorId: Id, f: DoctorForm, c: Credentials, i: nat)
    requires LinksResolve(s)
    requires IndexOf(DoctorIds(s.doctors), doctorId) == Some(i)
    requires s.doctors[i].user.Some?
    requires f.department in DepartmentIds(departments)
    requires c.username != "" || c.email != ""
    ensures var r := EditWith(s, departments, doctorId, f, c);
            var k := IndexOf(AccountIds(s.accounts), s.doctors[i].user.value);
            r.1 == UpdateAccount && k.Some? &&
            (r.0 == Failed <==> c.username != "" && UsernameTaken(s.accounts, c.username, k)) &&
            (r.0 == Done ==>
               r.2.accounts == s.accounts[k.value := Updated(s.accounts[k.value], c, f.name)] &&
               r.2.doctors == s.doctors[i := Profile(s.doctors[i], f)] &&
               r.2.nextId == s.nextId)
  {
    assert s.doctors[i] in s.doctors;
  }

  /** Without a linked account, one is created only when all three fields
      are given; it then carries them, under the next key, and the doctor is
      linked to it. */
  lemma AccountCreatedOnlyWithAllThree(s: Staff, departments: seq<Department>, doctorId: Id, f: DoctorForm, c: Credentials, i: nat)
    requires LinksResolve(s)
    requires IndexOf(DoctorIds(s.doctors), doctorId) == Some(i)
    requires s.doctors[i].user.None?
    requires EditWith(s, departments, doctorId, f, c).2.accounts != s.accounts
    ensures c.username != "" && c.email != "" && c.password != ""
    ensures var r := EditWith(s, departments, doctorId, f, c);
            r.0 == Done && r.1 == CreateAccount &&
            r.2.accounts == s.accounts + [Account(s.nextId, c.username, c.email, c.password, f.name)] &&
            r.2.doctors[i].user == Some(s.nextId)
  {
    var plan := PlanAccount(false, c);
    assert EditWith(s, departments, doctorId, f, c) == (ApplyPlan(s, i, plan, f, c).0, plan, ApplyPlan(s, i, plan, f, c).1);
  }

  /** Without a linked account, a known department, all three fields given
      and a username no account uses, the save creates the account under the
      next key and links the doctor to it. */
  lemma AccountCreatedWithAllThree(s: Staff, departments: seq<Department>, doctorId: Id, f: DoctorForm, c: Credentials, i: nat)
    requires LinksResolve(s)
    requires IndexOf(DoctorIds(s.doctors), doctorId) == Some(i)
    requires s.doctors[i].user.None?
    requires f.department in DepartmentIds(departments)
    requires c.username != "" && c.email != "" && c.password != ""
    requires !UsernameTaken(s.accounts, c.username, None)
    ensures var r := EditWith(s, departments, doctorId, f, c);
            r.0 == Done && r.1 == CreateAccount &&
            r.2.accounts == s.accounts + [Account(s.nextId, c.username, c.email, c.password, f.name)] &&
            r.2.doctors == s.doctors[i := Profile(s.doctors[i], f).(user := Some(s.nextId))] &&
            r.2.nextId == s.nextId + 1
  {
    assert EditWith(s, departments, doctorId, f, c) == (SaveCreated(s, i, f, c).0, CreateAccount, SaveCreated(s, i, f, c).1);
  }

  /** The same on the raw form: when the stripped username, email and
      password are all non-blank and the stripped username is free, editing
      a doctor without an account creates and links one. */
  lemma {:induction false} EditDoctorCreatesAccount(s: Staff, departments: seq<Department>, doctorId: Id, f: DoctorForm, i: nat)
    requires LinksResolve(s)
    requires IndexOf(DoctorIds(s.doctors), doctorId) == Some(i)
    requires s.doctors[i].user.None?
    requires f.department in DepartmentIds(departments)
    requires Strip(f.username) != "" && Strip(f.email) != "" && Strip(f.password) != ""
    requires !UsernameTaken(s.accounts, Strip(f.username), None)
    ensures var r := EditDoctor(s, departments, doctorId, f);
            r.0 == Done && r.1 == CreateAccount &&
            r.2.accounts == s.accounts + [Account(s.nextId, Strip(f.username), Strip(f.email), Strip(f.password), f.name)] &&
            r.2.doctors[i].user == Some(s.nextId) && r.2.nextId == s.nextId + 1
  {
    AccountCreatedWithAllThree(s, departments, doctorId, f, Stripped(f), i);
  }

  /** Without a linked account, giving some but not all of the three fields
      is warned about and creates nothing. */
  lemma PartialCredentialsCreateNothing(s: Staff, departments: seq<Department>, doctorId: Id, f: DoctorForm, c: Credentials, i: nat)
    requires LinksResolve(s)
    requires IndexOf(DoctorIds(s.doctors), doctorId) == Some(i)
    requires s.doctors[i].user.None?
    requires c.username != "" || c.email != "" || c.password != ""
    requires c.username == "" || c.email == "" || c.password == ""
    ensures var r := EditWith(s, departments, doctorId, f, c);
            r.1 == PartialCredentials && r.2.accounts == s.accounts && r.2.doctors[i].user.None? &&
            (r.0 == Done <==> f.department in DepartmentIds(departments))
  {
    var plan := PlanAccount(false, c);
    assert plan == PartialCredentials;
    var r := EditWith(s, departments, doctorId, f, c);
    assert r.1 == plan;
    if f.department in DepartmentIds(departments) {
      assert r.2 == ApplyPlan(s, i, plan, f, c).1;
      assert r.2.doctors[i] == Profile(s.doctors[i], f);
    }
  }

  /** A field of only whitespace counts as not given: with no linked account
      and such a field, editing a doctor creates no account. */
  lemma {:induction false} WhitespaceFieldCreatesNoAccount(s: Staff, departments: seq<Department>, doctorId: Id, f: DoctorForm, i: nat)
    requires LinksResolve(s)
    requires IndexOf(DoctorIds(s.doctors), doctorId) == Some(i)
    requires s.doctors[i].user.None?
    requires (forall k :: 0 <= k < |f.username| ==> IsSpace(f.username[k])) ||
             (forall k :: 0 <= k < |f.email| ==> IsSpace(f.email[k])) ||
             (forall k :: 0 <= k < |f.password| ==> IsSpace(f.password[k]))
    ensures EditDoctor(s, departments, doctorId, f).2.accounts == s.accounts
  {
    var c := Stripped(f);
    StripBlank(f.username);
    StripBlank(f.email);
    StripBlank(f.password);
    if EditWith(s, departments, doctorId, f, c).2.accounts != s.accounts {
      AccountCreatedOnlyWithAllThree(s, departments, doctorId, f, c, i);
    }
  }

  /** Replacing a doctor row without changing its link, and an account row
      without changing its key, keeps every link resolving. */
  lemma LinkedUpdateKeepsLinks(s: Staff, i: nat, k: nat, d: Doctor, a: Account)
    requires LinksResolve(s) && i < |s.doctors| && k < |s.accounts|
    requires d.user == s.doctors[i].user && a.id == s.accounts[k].id
    ensures LinksResolve(Staff(s.doctors[i := d], s.accounts[k := a], s.nextId))
  {
    var accounts := s.accounts[k := a];
    assert AccountIds(accounts) == AccountIds(s.accounts);
    forall x | x in s.doctors[i := d] && x.user.Some?
      ensures x.user.value in AccountIds(accounts)
    {
      if x != d {
        assert x in s.doctors;
      } else {
        assert s.doctors[i] in s.doctors;
      }
    }
  }

  // ---------------------------------------------------------------------
  // The tables, updated in place by the views
  // ---------------------------------------------------------------------

  class Portal {
    var bookings: seq<Booking>
    var availability: seq<Availability>
    var leaves: seq<Leave>
    var messages: seq<Message>
    var doctors: seq<Doctor>
    var accounts: seq<Account>
    var departments: seq<Department>
    /** The next primary key the database hands out. */
    var nextId: Id

    /** At most one leave per (doctor, date), every linked account exists,
        and no key in use is at or above `nextId`. */
    ghost predicate Valid()
      reads this
    {
      LeavesUnique(leaves) &&
      LinksResolve(Staff(doctors, accounts, nextId)) &&
      (forall a :: a in availability ==> a.id < nextId) &&
      (forall l :: l in leaves ==> l.id < nextId) &&
      (forall a :: a in accounts ==> a.id < nextId)
    }

    constructor ()
      ensures Valid()
      ensures bookings == [] && availability == [] && leaves == [] && messages == []
      ensures doctors == [] && accounts == [] && departments == []
    {
      bookings, availability, leaves, messages := [], [], [], [];
      doctors, accounts, departments := [], [], [];
      nextId := 1;
    }

    /** The booking form run against the current tables; it writes none of
        them (this method may change nothing but the form it creates). */
    method CheckBooking(doctor: Option<Id>, date: Option<Date>, time: Option<Time>, today: Date) returns (errors: seq<FormError>)
      requires Valid()
      ensures errors == Reported(Validate(doctor, date, time, today, Stores(availability, leaves, bookings)))
      ensures errors == [] <==> Validate(doctor, date, time, today, Stores(availability, leaves, bookings)).None?
    {
      var form := new BookingForm();
      form.Clean(doctor, date, time, today, Stores(availability, leaves, bookings));
      errors := form.errors;
    }

    /** `update_booking_status`. */
    method UpdateBookingStatus(who: Principal, bookingId: Id, newStatus: string) returns (res: ViewResult)
      requires Valid()
      modifies this`bookings
      ensures Valid()
      ensures !IsDoctor(who) ==> res == LoginRequired && bookings == old(bookings)
      ensures IsDoctor(who) ==> (res, bookings) == UpdateStatus(old(bookings), who.doctor.value, bookingId, newStatus)
    {
      if !IsDoctor(who) {
        return LoginRequired;
      }
      var found := IndexOf(BookingKeys(bookings), (bookingId, who.doctor.value));
      if found.None? {
        return NotFound;
      }
      var i := found.value;
      var status := DoctorSettable(newStatus);
      if status.Some? {
        bookings := bookings[i := bookings[i].(status := status.value)];
        res := Done;
      } else {
        res := Ignored;
      }
    }

    /** `schedule_management` POST: a new window for the signed-in doctor,
        under a fresh key. */
    method AddAvailability(who: Principal, day: Option<Weekday>, start: Option<Time>, end: Option<Time>) returns (res: ViewResult)
      requires Valid()
      modifies this`availability, this`nextId
      ensures Valid()
      ensures !IsDoctor(who) ==> res == LoginRequired && availability == old(availability) && nextId == old(nextId)
      ensures IsDoctor(who) ==> (res, availability) == AddSlot(old(availability), old(nextId), who.doctor.value, day, start, end)
      ensures res == Done ==> nextId == old(nextId) + 1 && forall a :: a in old(availability) ==> a.id != old(nextId)
      ensures res != Done ==> nextId == old(nextId)
    {
      if !IsDoctor(who) {
        return LoginRequired;
      }
      if day.None? || start.None? || end.None? {
        return Failed;
      }
      availability := availability + [Availability(nextId, who.doctor.value, day.value, start.value, end.value)];
      nextId := nextId + 1;
      res := Done;
    }

    /** `delete_schedule`. */
    method DeleteSchedule(who: Principal, slotId: Id) returns (res: ViewResult)
      requires Valid()
      modifies this`availability
      ensures Valid()
      ensures !IsDoctor(who) ==> res == LoginRequired && availability == old(availability)
      ensures IsDoctor(who) ==> (res, availability) == DeleteSlot(old(availability), who.doctor.value, slotId)
    {
      if !IsDoctor(who) {
        return LoginRequired;
      }
      var found := IndexOf(SlotKeys(availability), (slotId, who.doctor.value));
      if found.None? {
        return NotFound;
      }
      availability := availability[..found.value] + availability[found.value + 1..];
      res := Done;
    }

    /** `leave_management` POST: check, then insert. */
    method RequestLeave(who: Principal, date: Option<Date>, reason: string) returns (res: ViewResult)
      requires Valid()
      modifies this`leaves, this`nextId
      ensures Valid()
      ensures !IsDoctor(who) ==> res == LoginRequired && leaves == old(leaves) && nextId == old(nextId)
      ensures IsDoctor(who) ==> (res, leaves) == AddLeave(old(leaves), old(nextId), who.doctor.value, date, reason)
      ensures nextId == old(nextId) + (if res == Done then 1 else 0)
    {
      if !IsDoctor(who) {
        return LoginRequired;
      }
      if date.None? {
        return Failed;
      }
      if LeavesOn(leaves, who.doctor.value, date.value) != [] {
        return AlreadyExists;
      }
      AddLeaveKeepsLeavesUnique(leaves, nextId, who.doctor.value, date, reason);
      leaves := leaves + [Leave(nextId, who.doctor.value, date.value, reason)];
      nextId := nextId + 1;
      res := Done;
    }

    /** `delete_leave`. */
    method CancelLeave(who: Principal, leaveId: Id) returns (res: ViewResult)
      requires Valid()
      modifies this`leaves
      ensures Valid()
      ensures !IsDoctor(who) ==> res == LoginRequired && leaves == old(leaves)
      ensures IsDoctor(who) ==> (res, leaves) == DeleteLeave(old(leaves), who.doctor.value, leaveId)
    {
      if !IsDoctor(who) {
        return LoginRequired;
      }
      DeleteLeaveKeepsLeavesUnique(leaves, who.doctor.value, leaveId);
      var found := IndexOf(LeaveKeys(leaves), (leaveId, who.doctor.value));
      if found.None? {
        return NotFound;
      }
      leaves := leaves[..found.value] + leaves[found.value + 1..];
      res := Done;
    }

    /** `view_message`. */
    method ViewMessage(who: Principal, messageId: Id) returns (res: ViewResult)
      requires Valid()
      modifies this`messages
      ensures Valid()
      ensures !IsSuperuser(who) ==> res == LoginRequired && messages == old(messages)
      ensures IsSuperuser(who) ==> (res, messages) == MarkRead(old(messages), messageId)
    {
      if !IsSuperuser(who) {
        return LoginRequired;
      }
      var found := IndexOf(MessageIds(messages), messageId);
      if found.None? {
        return NotFound;
      }
      var i := found.value;
      if !messages[i].isRead {
        messages := messages[i := messages[i].(isRead := true)];
      }
      res := Done;
    }

    /** `edit_doctor` POST: the doctor's profile, then the linked account
        field by field, or a new account created and linked. */
    method EditDoctorProfile(who: Principal, doctorId: Id, f: DoctorForm) returns (res: ViewResult, plan: AccountPlan)
      requires Valid()
      modifies this`doctors, this`accounts, this`nextId
      ensures Valid()
      ensures !IsSuperuser(who) ==> res == LoginRequired && doctors == old(doctors) && accounts == old(accounts) && nextId == old(nextId)
      ensures IsSuperuser(who) ==>
        var r := EditDoctor(Staff(old(doctors), old(accounts), old(nextId)), departments, doctorId, f);
        res == r.0 && plan == r.1 && doctors == r.2.doctors && accounts == r.2.accounts && nextId == r.2.nextId
    {
      if !IsSuperuser(who) {
        return LoginRequired, NoCredentials;
      }
      var c := Stripped(f);
      res, plan := EditWithCredentials(doctorId, f, c);
    }

    /** The rest of `edit_doctor` on the stripped account fields. */
    method EditWithCredentials(doctorId: Id, f: DoctorForm, c: Credentials) returns (res: ViewResult, plan: AccountPlan)
      requires Valid()
      modifies this`doctors, this`accounts, this`nextId
      ensures Valid()
      ensures var r := EditWith(Staff(old(doctors), old(accounts), old(nextId)), departments, doctorId, f, c);
              res == r.0 && plan == r.1 && doctors == r.2.doctors && accounts == r.2.accounts && nextId == r.2.nextId
    {
      var found := IndexOf(DoctorIds(doctors), doctorId);
      if found.None? {
        return NotFound, NoCredentials;
      }
      var i := found.value;
      plan := PlanAccount(doctors[i].user.Some?, c);
      if f.department !in DepartmentIds(departments) {
        return Failed, plan;
      }
      res := SaveDoctor(i, plan, f, c);
    }

    /** Saving the doctor row at `i` and its account as `plan` says. */
    method SaveDoctor(i: nat, plan: AccountPlan, f: DoctorForm, c: Credentials) returns (res: ViewResult)
      requires Valid() && i < |doctors|
      requires plan == UpdateAccount ==> doctors[i].user.Some?
      modifies this`doctors, this`accounts, this`nextId
      ensures Valid()
      ensures var r := ApplyPlan(Staff(old(doctors), old(accounts), old(nextId)), i, plan, f, c);
              res == r.0 && doctors == r.1.doctors && accounts == r.1.accounts && nextId == r.1.nextId
    {
      if plan == UpdateAccount {
        res := SaveWithLinkedAccount(i, f, c);
      } else if plan == CreateAccount {
        res := SaveWithNewAccount(i, f, c);
      } else {
        res := SaveProfileOnly(i, f);
      }
    }

    /** Only the profile fields; the account tables are left alone. */
    method SaveProfileOnly(i: nat, f: DoctorForm) returns (res: ViewResult)
      requires Valid() && i < |doctors|
      modifies this`doctors
      ensures Valid()
      ensures res == Done && doctors == old(doctors)[i := Profile(old(doctors)[i], f)]
    {
      doctors := doctors[i := Profile(doctors[i], f)];
      res := Done;
      assert LinksResolve(Staff(doctors, accounts, nextId)) by {
        forall x | x in doctors && x.user.Some?
          ensures x.user.value in AccountIds(accounts)
        {
          if x != doctors[i] {
            assert x in old(doctors);
          } else {
            assert old(doctors)[i] in old(doctors);
          }
        }
      }
    }

    /** The existing account: username, email and password each set only
        when given, the first name from the doctor's name; a clash with
        another account's username saves nothing. */
    method SaveWithLinkedAccount(i: nat, f: DoctorForm, c: Credentials) returns (res: ViewResult)
      requires Valid() && i < |doctors| && doctors[i].user.Some?
      modifies this`doctors, this`accounts
      ensures Valid()
      ensures var r := SaveLinked(Staff(old(doctors), old(accounts), nextId), i, f, c);
              res == r.0 && doctors == r.1.doctors && accounts == r.1.accounts && nextId == r.1.nextId
    {
      assert doctors[i] in doctors;
      var k := IndexOf(AccountIds(accounts), doctors[i].user.value).value;
      var a := accounts[k];
      if c.username != "" {
        a := a.(username := c.username);
      }
      if c.email != "" {
        a := a.(email := c.email);
      }
      if c.password != "" {
        a := a.(password := c.password);
      }
      a := a.(firstName := f.name);
      assert a == Updated(accounts[k], c, f.name);
      if c.username != "" && UsernameTaken(accounts, c.username, Some(k)) {
        return Failed;
      }
      LinkedUpdateKeepsLinks(Staff(doctors, accounts, nextId), i, k, Profile(doctors[i], f), a);
      accounts := accounts[k := a];
      doctors := doctors[i := Profile(doctors[i], f)];
      res := Done;
    }

    /** A new account with the three given fields, under a fresh key, linked
        to the doctor; a clash with an existing username saves nothing. */
    method SaveWithNewAccount(i: nat, f: DoctorForm, c: Credentials) returns (res: ViewResult)
      requires Valid() && i < |doctors|
      modifies this`doctors, this`accounts, this`nextId
      ensures Valid()
      ensures var r := SaveCreated(Staff(old(doctors), old(accounts), old(nextId)), i, f, c);
              res == r.0 && doctors == r.1.doctors && accounts == r.1.accounts && nextId == r.1.nextId
    {
      if UsernameTaken(accounts, c.username, None) {
        return Failed;
      }
      accounts := accounts + [Account(nextId, c.username, c.email, c.password, f.name)];
      assert AccountIds(accounts) == AccountIds(old(accounts)) + [nextId];
      var d := Profile(doctors[i], f).(user := Some(nextId));
      doctors := doctors[i := d];
      nextId := nextId + 1;
      res := Done;
      assert LinksResolve(Staff(doctors, accounts, nextId)) by {
        forall x | x in doctors && x.user.Some?
          ensures x.user.value in AccountIds(accounts)
        {
          if x != d {
            assert x in old(doctors);
          }
        }
      }
    }
  }
}
