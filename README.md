# Clinic booking rules and doctor portal, in Dafny

This project models the core of a Django clinic site: the checks the
appointment booking form runs before a booking is saved, and the views of the
doctor portal and admin area that change the clinic's tables.

- **The booking form** (`SlotValidation`). `BookingForm.clean` accepts a
  (doctor, date, time) only when all of these hold:
  - the date is not in the past;
  - the doctor is not on leave that day;
  - the doctor works on that weekday;
  - the time falls in one of that day's windows;
  - no booking that still holds the slot has the same doctor, date and time.

  The checks run in that order. The first failing check adds one error to the
  form, and most checks also add an informational follow-up. A rejected or
  cancelled booking does not hold its slot.
- **The portal** (`AdminViews`):
  - access tests: superuser, doctor, and privileged (either of the two);
  - the doctor dashboard counts;
  - a doctor setting a booking's status;
  - adding and deleting weekly availability windows;
  - requesting and cancelling a leave day;
  - an administrator reading a contact message, which marks it read;
  - an administrator editing a doctor, which updates or creates the doctor's
    linked user account.

  The views act on the tables of one `Portal` object. Its methods update
  those tables in place. Each method is proved equal to a pure function of
  the old tables, and the lemmas about those functions state what the views
  guarantee.
- **Calendar and records.** `Calendar` holds the date and time encoding:
  - a date is its proleptic-Gregorian ordinal, as Python's `toordinal()`
    gives it;
  - a time is minutes since midnight;
  - the weekday runs Monday = 0 .. Sunday = 6.

  `Records` holds the table rows.

Files:
- `calendar.dfy`
- `records.dfy`
- `slot_validation.dfy`
- `admin_views.dfy`

## Model

| member | source | states |
|---|---|---|
| Calendar.WeekLater | django_tutorial/bookings/forms.py:53 | dates a whole number of weeks apart fall on the same weekday |
| Calendar.ClockTime | django_tutorial/bookings/forms.py:37 | a clock time's minute count gives back its hour and minute |
| SlotValidation.DistinctDays | django_tutorial/bookings/forms.py:61 | the hint's day list has no duplicates and holds exactly the weekdays of the doctor's availability rows |
| SlotValidation.LeavesOn | django_tutorial/bookings/forms.py:46 | the doctor's leaves on that date: a row is kept exactly when it is in the table and matches the doctor and the date |
| SlotValidation.SlotsOn | django_tutorial/bookings/forms.py:55 | the doctor's availability rows for that weekday: exactly the matching rows of the table |
| SlotValidation.SlotsOf | django_tutorial/bookings/forms.py:61 | all of the doctor's availability rows: exactly the matching rows of the table |
| SlotValidation.HoldersOf | django_tutorial/bookings/forms.py:89-93 | the bookings on that doctor, date and time, neither rejected nor cancelled: exactly the matching rows |
| SlotValidation.ValidateSlot | django_tutorial/bookings/forms.py:39-100 | the past-date error happens exactly when the date is before today; the day-off and outside-hours errors name the requested weekday, and the latter lists at least one window |
| SlotValidation.Validate | django_tutorial/bookings/forms.py:33-39 | when the doctor, date or time is missing, nothing is reported |
| SlotValidation.CheckSlot | django_tutorial/bookings/forms.py:39-100 | the form's loops compute exactly the outcome of the five checks: the window search that stops at the first covering row, and the window list built row by row |
| SlotValidation.Reported | django_tutorial/bookings/forms.py:42-99 | no error exactly when the checks pass; otherwise one or two errors, all for the failing check and on its field (booking date for checks 0-2, appointment time for 3-4); the second is the follow-up |
| SlotValidation.BookingForm.Clean | django_tutorial/bookings/forms.py:33-102 | the form's error list grows by exactly the errors of the validation outcome, and the form stays valid exactly when it was valid and the request passes |
| SlotValidation.ChecksInOrder | django_tutorial/bookings/forms.py:39-100 | each outcome happens exactly when every earlier check passes and its own fails (past date, leave, weekday, hours, double booking); the slot is accepted exactly when all pass |
| SlotValidation.LeaveReported | django_tutorial/bookings/forms.py:46-50 | on a leave day (not in the past) the request is refused on leave, and the message carries that leave's reason exactly when the reason is not the empty string |
| SlotValidation.NotWorkingHint | django_tutorial/bookings/forms.py:52-65 | on a day off, the hint lists exactly the distinct days the doctor works, never the requested day, and is shown exactly when the doctor has some availability row |
| SlotValidation.OutsideHoursHint | django_tutorial/bookings/forms.py:67-86 | outside the hours, the hint lists one window per row of that weekday, in table order, and the time lies in none of them |
| SlotValidation.BookedSlotIsTaken | django_tutorial/bookings/forms.py:88-100 | once a slot that passed is booked as pending, the same request is refused as taken |
| SlotValidation.ReleasedSlotIsFree | django_tutorial/bookings/forms.py:89-93 | a rejected or cancelled booking does not block its slot |
| SlotValidation.AcceptedBookingKeepsSlotsExclusive | django_tutorial/bookings/forms.py:88-100 | saving only bookings the form accepts keeps every slot held by at most one booking |
| SlotValidation.MondayMorningScenario | django_tutorial/bookings/forms.py:41-100 | a worked example: a Monday 09:00-12:00 doctor; 10:00 passes, then is taken once booked, 13:00 is outside the hours with the one window listed, a cancelled booking frees 10:00, and a leave day with a reason refuses it showing the reason |
| AdminViews.IndexOf | django_tutorial/custom_admin/views.py:346 | the lookup `get_object_or_404` stands for: a found position holds the key and no earlier one does; not found means the key is nowhere in the table |
| AdminViews.IsSuperuser | django_tutorial/custom_admin/views.py:14-16 | a superuser is privileged |
| AdminViews.IsDoctor | django_tutorial/custom_admin/views.py:320-322 | a user is a doctor exactly when a doctor profile is linked, and a doctor is privileged |
| AdminViews.PrivilegedIsSuperuserOrDoctor | django_tutorial/custom_admin/views.py:10-12 | privileged exactly when superuser or doctor |
| AdminViews.StatusCountsPartition | django_tutorial/custom_admin/views.py:24-26 | a doctor's per-status booking counts add up to the doctor's total |
| AdminViews.DoctorDashboard | django_tutorial/custom_admin/views.py:24-26 | pending and completed counts, and their sum, are at most the doctor's total, which is at most the number of bookings |
| AdminViews.DoctorSettable | django_tutorial/custom_admin/views.py:348 | a status name is accepted exactly when it is accepted, rejected or completed, and maps back to its name; pending and cancelled are never set |
| AdminViews.UpdateStatus | django_tutorial/custom_admin/views.py:344-353 | 404 exactly when the doctor has no booking with that id; saved exactly when the booking is found and the status name is settable; a save sets the found booking's status to the named one and changes nothing else |
| AdminViews.UpdateStatusKeepsSlotsExclusive | django_tutorial/custom_admin/views.py:344-353 | rejecting, or re-setting a booking that already holds its slot, keeps slots exclusive |
| AdminViews.ReopenedBookingCanDoubleBook | django_tutorial/custom_admin/views.py:346-350 | the current status is not checked: accepting a cancelled booking whose slot was rebooked leaves two bookings on one slot |
| AdminViews.AddSlot | django_tutorial/custom_admin/views.py:360-375 | the window is appended as given exactly when day, start and end are all present; otherwise the insert fails and the table is unchanged |
| AdminViews.DeleteSlot | django_tutorial/custom_admin/views.py:387-393 | 404 exactly when the doctor has no row with that id; otherwise the doctor's row with that id is removed and every other row is kept, in order |
| AdminViews.AddLeave | django_tutorial/custom_admin/views.py:400-417 | a missing date fails; an existing leave that day gives a warning and nothing changes; otherwise the leave is appended |
| AdminViews.AddLeaveKeepsLeavesUnique | django_tutorial/custom_admin/views.py:406-415 | check-then-insert keeps at most one leave per doctor and date, and afterwards the doctor is on leave that day |
| AdminViews.RepeatedLeaveIsNoOp | django_tutorial/custom_admin/views.py:406-408 | submitting the same leave day twice adds it once |
| AdminViews.DeleteLeave | django_tutorial/custom_admin/views.py:425-431 | 404 exactly when the doctor has no leave with that id; otherwise the doctor's leave with that id is removed and every other row is kept, in order |
| AdminViews.DeleteLeaveKeepsLeavesUnique | django_tutorial/custom_admin/views.py:425-431 | cancelling a leave keeps at most one leave per doctor and date |
| AdminViews.MarkRead | django_tutorial/custom_admin/views.py:293-300 | 404 exactly when no message has that id; otherwise exactly that message is read afterwards; ids and order are kept |
| AdminViews.MarkReadIdempotent | django_tutorial/custom_admin/views.py:297-300 | viewing a message twice changes nothing more than viewing it once |
| AdminViews.StripBlank | django_tutorial/custom_admin/views.py:143-145 | a stripped field is blank exactly when it is all whitespace; a non-blank one starts and ends with a non-space |
| AdminViews.EditDoctor | django_tutorial/custom_admin/views.py:130-190 | anything but a save leaves the doctor and account tables unchanged; the number of doctors never changes (what a save writes is stated by the lemmas below) |
| AdminViews.PlanAccount | django_tutorial/custom_admin/views.py:151-185 | with a linked account the plan is update exactly when a username or email is given, otherwise keep; without one it is create exactly when all three are given, nothing exactly when none is, and the partial warning otherwise |
| AdminViews.EditWith | django_tutorial/custom_admin/views.py:132-190 | on the stripped fields: anything but a save leaves the tables unchanged; the number of doctors never changes |
| AdminViews.SaveLinked | django_tutorial/custom_admin/views.py:153-161 | the save either succeeds or fails with nothing changed; the number of doctors is kept |
| AdminViews.SaveCreated | django_tutorial/custom_admin/views.py:171-178 | fails with nothing changed exactly when the username is taken; otherwise the account is appended under the next key, the doctor is linked to it and the key advances |
| AdminViews.ApplyPlan | django_tutorial/custom_admin/views.py:151-187 | the save either succeeds or fails with nothing changed; without an account to update or create, the accounts are untouched |
| AdminViews.LinkedAccountChangesOnlyWithUsernameOrEmail | django_tutorial/custom_admin/views.py:151-168 | with a linked account and neither username nor email given, the account is kept even when a password is given |
| AdminViews.LinkedAccountTakesGivenFields | django_tutorial/custom_admin/views.py:151-165 | with a linked account and a username or email given, the save fails exactly on a username clash; otherwise that account alone takes each given field, keeps the others, and takes the doctor's name as first name |
| AdminViews.AccountCreatedOnlyWithAllThree | django_tutorial/custom_admin/views.py:169-179 | without a linked account, an account appears only when username, email and password are all given; it holds the stripped values as given, under the next key, and the doctor is linked to it |
| AdminViews.AccountCreatedWithAllThree | django_tutorial/custom_admin/views.py:169-179 | conversely, without a linked account, with a known department, all three fields and a free username, the save creates that account, links the doctor and advances the key |
| AdminViews.EditDoctorCreatesAccount | django_tutorial/custom_admin/views.py:143-179 | the same on the raw form: stripped username, email and password all non-blank and the username free give a created and linked account |
| AdminViews.PartialCredentialsCreateNothing | django_tutorial/custom_admin/views.py:180-183 | some but not all of the three given: the partial-credentials plan, no account is created or linked, and the save (with its warning) goes through exactly when the department exists |
| AdminViews.WhitespaceFieldCreatesNoAccount | django_tutorial/custom_admin/views.py:143-179 | an account field of only whitespace counts as not given, so no account is created |
| AdminViews.LinkedUpdateKeepsLinks | django_tutorial/custom_admin/views.py:151-161 | updating the linked account in place keeps every doctor's account link resolving |
| AdminViews.Portal.CheckBooking | django_tutorial/bookings/forms.py:33-102 | the booking form run against the portal's tables reports exactly the validation outcome's errors, and none exactly when the request passes |
| AdminViews.Portal.UpdateBookingStatus | django_tutorial/custom_admin/views.py:343-353 | non-doctors change nothing; for a doctor the outcome and table are those of UpdateStatus |
| AdminViews.Portal.AddAvailability | django_tutorial/custom_admin/views.py:355-375 | non-doctors change nothing; for a doctor the table is that of AddSlot under a fresh key |
| AdminViews.Portal.DeleteSchedule | django_tutorial/custom_admin/views.py:386-393 | non-doctors change nothing; for a doctor the table is that of DeleteSlot |
| AdminViews.Portal.RequestLeave | django_tutorial/custom_admin/views.py:395-417 | non-doctors change nothing; for a doctor the table is that of AddLeave, and uniqueness of leaves is kept |
| AdminViews.Portal.CancelLeave | django_tutorial/custom_admin/views.py:424-431 | non-doctors change nothing; for a doctor the table is that of DeleteLeave |
| AdminViews.Portal.ViewMessage | django_tutorial/custom_admin/views.py:292-300 | non-superusers change nothing; otherwise the outcome and table are those of MarkRead |
| AdminViews.Portal.EditDoctorProfile | django_tutorial/custom_admin/views.py:129-190 | non-superusers change nothing; otherwise the doctor and account tables are those of EditDoctor, and every account link still resolves |
| AdminViews.Portal.SaveWithLinkedAccount | django_tutorial/custom_admin/views.py:153-161 | the linked account is updated field by field, with the result SaveLinked describes |
| AdminViews.Portal.SaveWithNewAccount | django_tutorial/custom_admin/views.py:171-178 | the new account is created and linked, with the result SaveCreated describes |

## Left out

- Rendering, flash messages, redirects and date formatting (`strftime`) are left out. The model records which check failed and the data its message shows, not the text.
- Reading the clock is left out. `today` is a parameter of the booking check.
- The database is modelled as in-memory sequences. Concurrency, transactions and the order rows come back in are not modelled. A query returns rows in table order, and `distinct()` keeps first occurrences.
- `get_object_or_404` is modelled as "the first row with that key".
- The leave lookup (`get()` at forms.py:47) raises when two leaves share a doctor and a date.
  - The booking check therefore requires at most one leave per (doctor, date).
  - The portal keeps that invariant itself.
  - Rows written some other way are outside the model.
- A missing leave reason and an empty one are both the empty string. A reason of only spaces is shown, as in the source.
- Times are whole minutes since midnight. The source's times may carry seconds, which the model cannot express: 12:00:30 against a 09:00-12:00 window, which the source finds outside the hours, has no counterpart here.
- An availability row's day is assumed to lie in 0..6, as the form's select offers. The models file is not part of this model.
- Password hashing (`set_password`, `create_user`) is left out. The account stores the given password as its credential.
- Creating an auth user is modelled by two things: a unique-username clash, which fails and saves nothing, and the next primary key.
- SaveCreated: `create_user` normalises the username (NFKC) and lowercases the email's domain before saving; the model checks clashes on, and stores, the stripped values unchanged. A username "ﬁ" clashes with an existing "fi" in the source but not in the model, and "a@Clinic.COM" is stored as given rather than as "a@clinic.com".
- EditDoctor: its own contract states only that nothing changes unless the save goes through. What a save writes is stated by PlanAccount and by the lemmas AccountCreatedWithAllThree, EditDoctorCreatesAccount, AccountCreatedOnlyWithAllThree, LinkedAccountTakesGivenFields, LinkedAccountChangesOnlyWithUsernameOrEmail and PartialCredentialsCreateNothing.
- The account plan is returned even when the department lookup fails. The source raises at that lookup before any account message, so the partial-credentials warning is shown only when the result is a save.
- The doctor's image upload is left out. The doctor's name and specialization are taken as present strings; a missing value is not modelled.
- Several views are not part of this model:
  - plain create/list/delete views for doctors, departments and messages;
  - search (`icontains`), ordering and recent-bookings lists;
  - `cancel_booking` and `get_available_slots`, whose code is not part of this model;
  - the views in bookings/views.py, core/views.py and accounts/views.py;
  - the maintenance script check_doctor_accounts.py.
- `AdminViews.AddSlot`: the view does not check that a window starts before it ends, and neither does the model.
- `AdminViews.IsSpace`: the whitespace set is the one Python's `str.strip()` uses for `str`.
- `AdminViews.UpdateStatus`: the view does not look at the current status. `ReopenedBookingCanDoubleBook` shows the consequence: a cancelled booking can be accepted back onto a slot that was rebooked. This is modelled as written; it is not claimed to be a fault.
