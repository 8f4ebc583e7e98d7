# Hospital management backend and front-end guard — a Dafny model

This project models the core of a small hospital management system. That core has two parts.

- **A Flask back end.**
  - Roles are admin, doctor and patient.
  - It handles appointment booking, rescheduling and cancellation.
  - It stores doctor availability windows with optional lunch breaks.
  - It records treatments and the patient's medical history.
  - It covers department and staff administration.
  - It runs three periodic jobs:
    - the automatic cancellation of missed appointments, with refunds;
    - the clean-up of old availability;
    - the monthly doctor report.
- **A Vue front end.** The model covers its router guard and its pinia user store.

The database tables become immutable sequences in row-id order, so `.first()` is the earliest matching row. A fresh id is one more than the largest id already used, which is what SQLite's integer primary key does.

Each route handler becomes a pure function. It takes the tables and the JSON body, and returns `Result<tables, Failure>`. A `Failure` carries the HTTP status and the error message the handler returns.

JSON fields are `Option` values:

- a missing key is `None`;
- `Given` captures the handlers' truthiness tests (`not data.get(k)`).

`now()` and `date.today()` become parameters (`Instant`, `Day`). `Calendar` is a model of Python's proleptic Gregorian `date`:

- years run from 1 to 9999;
- `timedelta` arithmetic returns `None` where Python raises `OverflowError`.

Times of day are seconds since midnight. Money is integer cents, so the default consultation fee of 500.00 is `50000`.

Modules:

| module | models |
|---|---|
| `Wrappers` | `Option`, `Result` |
| `Calendar` | dates, weekdays, `timedelta` days, times of day |
| `TextFormat` | `strptime('%Y-%m-%d')`, `strptime('%H:%M')`, `isoformat`, `strftime('%H:%M')` |
| `Validators` | `backend/app/utils/validators.py` |
| `Api` | the JSON error responses |
| `Models` | `models/appointment.py`, `models/availability.py`, and the user, department and credential rows they refer to |
| `Availability` | the availability upsert shared by the doctor and admin routes |
| `PatientRoutes` | booking, rescheduling, cancellation (`routes/patient.py`) |
| `DoctorRoutes` | availability management, completion, cancellation, treatments, history (`routes/doctor.py`) |
| `AdminRoutes` | departments, doctors, deactivation, permanent deletion, appointment edit, admin availability (`routes/admin.py`) |
| `Auth` | register, login, change password (`routes/auth.py`) |
| `Decorators` | `role_required` (`utils/decorators.py`) |
| `Sweeps` | `tasks/auto_cancel.py` and `tasks/cleanup.py` |
| `Reports` | `tasks/reports.py`: the period, counts, distributions, top diagnoses, completion rate, highlight |
| `Lifecycle` | cross-route facts about the appointment status machine and the "one booking per slot" invariant |
| `UserStore` | `frontend/src/store/user.js` |
| `Router` | `frontend/src/router/index.js` |

## Model

| member | source | states |
|---|---|---|
| Calendar.PrevDate | backend/app/tasks/auto_cancel.py:17 | yesterday exists unless today is 0001-01-01 (Python's overflow); it is strictly earlier and exactly one day before |
| Calendar.NextPrevInverse | backend/app/tasks/auto_cancel.py:17 | stepping one day back and one day forward are inverse on every valid date |
| Calendar.NothingBetween | backend/app/tasks/auto_cancel.py:17 | no date lies strictly between a day and the next one, so "yesterday" is the single previous date |
| Calendar.AddDays | backend/app/tasks/cleanup.py:11 | `today - timedelta(days=n)` raises OverflowError (None) exactly when the ordinal n days away falls before 0001-01-01 or after 9999-12-31; otherwise it lands exactly n days away, in the right direction |
| Calendar.OrdinalBounds | backend/app/tasks/cleanup.py:11 | every representable date has an ordinal between that of `date.min` and that of `date.max` |
| Calendar.DaysFrom | backend/app/routes/doctor.py:516-533 | the seven-day run used by bulk availability is consecutive and strictly increasing, or fails only past year 9999 |
| Calendar.Weekday | backend/app/tasks/reports.py:112-115 | every date has one of the seven weekdays |
| Calendar.WeekdayAnchors | backend/app/tasks/reports.py:112-115 | 0001-01-01 is a Monday and 1970-01-01 a Thursday, as Python's `weekday()` numbers them |
| Calendar.WeekdayOfNextDate | backend/app/tasks/reports.py:112-115 | the day after any date falls on the next weekday, with Sunday followed by Monday |
| Calendar.ClockOfFields | backend/app/models/appointment.py:35 | a time of day is determined by its hour, minute and second |
| TextFormat.ParseIsoDate | backend/app/models/appointment.py:34 | parsing the ISO text of any date gives back that date |
| TextFormat.IsoDateCanonical | backend/app/utils/validators.py:18-24 | a ten-character string that parses as a date is exactly that date's ISO text |
| TextFormat.ParseClockText | backend/app/models/appointment.py:35 | parsing the `HH:MM` text of a time gives back the time truncated to the minute |
| TextFormat.ClockTextCanonical | backend/app/utils/validators.py:26-32 | a five-character string that parses as a time is exactly that time's `HH:MM` text |
| TextFormat.NatToStringReadsBack | backend/app/routes/patient.py:439 | `str(n)` read back as a decimal number gives n |
| TextFormat.FirstIndexOf | backend/app/utils/validators.py:4-7 | finds the first occurrence of a character, or proves there is none |
| Validators.ValidateEmail | backend/app/utils/validators.py:4-7 | accepts exactly the strings (minus one final newline, as `$` allows) matching local@domain.tld with the pattern's character classes and a TLD of at least two letters |
| Validators.EmailSplitIsUnique | backend/app/utils/validators.py:4-7 | a string matching the pattern splits only at its first `@` and last `.` |
| Validators.EmailPatternUsesMarks | backend/app/utils/validators.py:4-7 | a match has at least one `@` and the split positions are the first `@` and the last `.` |
| Validators.ValidatePhone | backend/app/utils/validators.py:9-12 | accepts exactly ten digits, optionally followed by one newline |
| Validators.CountDigits | backend/app/utils/validators.py:9-12 | the digit count equals the length exactly when every character is a digit |
| Validators.ValidatePassword | backend/app/utils/validators.py:14-16 | accepts exactly the passwords of length at least 6 |
| Validators.ValidateDateIsCalendar | backend/app/utils/validators.py:18-24 | a zero-padded `YYYY-MM-DD` string validates exactly when it names a real calendar date |
| Validators.ValidateDateRejectsImpossibleFebruary | backend/app/utils/validators.py:18-24 | February 30 never validates; February 29 validates only in leap years |
| Validators.ValidateTimeIsClock | backend/app/utils/validators.py:26-32 | a zero-padded `HH:MM` string validates exactly when the hour is at most 23 and the minute at most 59 |
| Validators.ValidateTimeAcceptsOneDigitHour | backend/app/utils/validators.py:26-32 | `strptime` also accepts a one-digit hour, such as `9:30`, and it means the same time as `09:30` |
| Models.FirstMatch | backend/app/routes/patient.py:373-377 | a filtered `.first()`: the earliest row satisfying the filter, no earlier row satisfies it, and None exactly when no row does |
| Models.ParseStatus | backend/app/models/appointment.py:12 | the three status strings parse back to their status, and nothing else parses |
| Models.NewAppointment | backend/app/models/appointment.py:7-25 | a row built with the column defaults is booked, costs 500.00, has payment status `pending`, and has no reason, refund or treatment |
| Models.AppointmentToDict | backend/app/models/appointment.py:27-45 | the view keeps ids and status; the fee is null exactly when it is missing or zero; the refund date is null exactly when absent; `has_treatment` is true exactly when a treatment exists |
| Models.AppointmentViewParsesBack | backend/app/models/appointment.py:34-35 | the view's date and time strings parse back to the row's date and to its time truncated to the minute |
| Models.WindowToDict | backend/app/models/availability.py:21-30 | the view keeps id, doctor and availability; each lunch field is null exactly when the row's is |
| Models.WindowViewParsesBack | backend/app/models/availability.py:21-30 | the window view's date parses back to the row's date, and its times to the row's times truncated to the minute |
| Models.SlotStr | backend/app/models/availability.py:17-18 | `slot_str` is `HH:MM-HH:MM`, and both halves parse back to the window's start and end, truncated to the minute |
| Models.FindAppointment | backend/app/routes/patient.py:543-546 | `filter_by(id, patient_id).first()` finds the earliest row with that id visible to the caller, or proves there is none |
| Models.Without | backend/app/routes/admin.py:686-712 | a bulk delete keeps every unmatched row with its multiplicity and no matched row, so its length drops by the number of matched rows |
| Availability.ParseHours | backend/app/routes/doctor.py:427-450 | date, start and end must all be given and parse, otherwise the answer is 400 |
| Availability.Upsert | backend/app/routes/doctor.py:465-488 | an existing window for that doctor and date is overwritten in place; otherwise one fresh window is appended |
| Availability.UpsertKeepsOtherRows | backend/app/routes/doctor.py:465-488 | an upsert leaves every window of another doctor or another date as it was |
| Availability.UpsertThenFind | backend/app/routes/doctor.py:465-488 | after an upsert the doctor's window for that date carries the new hours |
| Availability.UpsertKeepsOneWindowPerDay | backend/app/routes/doctor.py:465-488 | an upsert never creates a second window for the same doctor and day |
| Availability.UpsertKeepsLunchesInside | backend/app/routes/doctor.py:451-488 | when a lunch is set inside the hours, every lunch stays inside its window |
| Availability.RemoveKeepsOneWindowPerDay | backend/app/routes/doctor.py:544-562 | deleting a window keeps at most one window per doctor and day |
| PatientRoutes.FindActiveDoctor | backend/app/routes/patient.py:363-370 | finds the booked doctor only if it is an active doctor row, and fails exactly when none exists |
| PatientRoutes.FirstOpenWindow | backend/app/routes/patient.py:373-380 | the first available window of that doctor on that date, or proof that there is none |
| PatientRoutes.IsSlotHeld | backend/app/routes/patient.py:396-406 | true exactly when another booked row holds the same doctor, date and time |
| PatientRoutes.CountInClockHour | backend/app/routes/patient.py:410-427 | counting rows whose time falls in `[h:00, h:59:59]` is the same as counting rows whose hour is h |
| PatientRoutes.InClockHourIsHour | backend/app/routes/patient.py:410-427 | the hour-window test is equivalent to comparing hours |
| PatientRoutes.TransactionId | backend/app/routes/patient.py:430-441 | `TXN` plus fourteen timestamp digits plus the patient id |
| PatientRoutes.TransactionIdReadsBack | backend/app/routes/patient.py:439 | the fourteen digits read back as now's year, month, day, hour, minute and second, and the tail reads back as the patient id |
| PatientRoutes.BookedRow | backend/app/routes/patient.py:430-441 | the inserted row is booked with the requested slot and carries the body's reason, payment status and method, or their defaults. Its fee is the body's fee, else the doctor's non-zero fee, else 500.00 |
| PatientRoutes.Admit | backend/app/routes/patient.py:359-427 | succeeds exactly when the checks admit the request: past date 400; inactive or missing doctor 404; no window, outside hours, in lunch or hour full 400; 409 exactly when the date, doctor and first open window pass and the slot is held. The row built is the one for the first active doctor row |
| PatientRoutes.AdmitInWindow | backend/app/routes/patient.py:383-444 | once a window is found: outside its hours or inside its lunch break 400, 409 exactly when the time is inside the hours, outside lunch and the slot is held by a booked row; six booked in that clock hour 400; otherwise the new booked row with the next id. It never produces the past-date error |
| PatientRoutes.AdmissibleAt | backend/app/routes/patient.py:372-427 | when window k is the first available one for the doctor and date, booking is admissible exactly when k's hours, k's lunch, the slot and the hour cap allow it, and it conflicts exactly when k's hours and lunch allow it but the slot is held |
| PatientRoutes.Book | backend/app/routes/patient.py:330-478 | a malformed body is a 400. A success appends exactly one booked row, built from the active doctor's row, the body and the clock, and leaves every earlier row unchanged; the past-date 400 exactly for a well-formed request dated before today; 404 exactly for a well-formed request not in the past naming no active doctor; 409 exactly for a well-formed request that passes the date, doctor, window, hours and lunch checks on a held slot; no other status |
| PatientRoutes.BookKeepsHourCap | backend/app/routes/patient.py:410-427 | after a booking the doctor has at most six bookings in that clock hour |
| PatientRoutes.BookKeepsSlotsUnique | backend/app/routes/patient.py:396-406 | booking preserves "no two booked rows share a slot" |
| PatientRoutes.BookIgnoresTimeOfDay | backend/app/routes/patient.py:359-360 | only today's date matters, so a slot earlier today can still be booked |
| PatientRoutes.InvertedWindowAdmitsNothing | backend/app/routes/patient.py:383-386 | a window whose end is not after its start admits no time |
| PatientRoutes.LunchIsHalfOpen | backend/app/routes/patient.py:389-393 | the lunch start is refused and the lunch end is allowed |
| PatientRoutes.Reschedule | backend/app/routes/patient.py:535-598 | fails 404 for a row the patient does not own; succeeds exactly for a booked row moved to a parsable non-past slot in an open window that no other booked row holds; only date and time change. 409 exactly when the row is booked, both fields are well formed, the date is not past, a window is open and another booked row holds the slot; every other failure is 400 or 404 |
| PatientRoutes.MoveTo | backend/app/routes/patient.py:563-592 | for a booked row, the move succeeds exactly when the new date is not past, an available window exists that day and no other booked row holds the slot; only that row changes, and only its date and time. 409 exactly when the date is not past, a window is open and another booked row holds the slot; every other failure is 400 |
| PatientRoutes.HourLoadUpdate | backend/app/routes/patient.py:410-427 | replacing one row changes an hour's load by at most that row's contribution |
| PatientRoutes.RescheduleCanOverfillHour | backend/app/routes/patient.py:535-598 | rescheduling skips the six-per-hour cap, so the target hour's load can exceed six |
| PatientRoutes.RescheduleKeepsSlotsUnique | backend/app/routes/patient.py:580-592 | rescheduling preserves "no two booked rows share a slot" |
| PatientRoutes.PatientCancel | backend/app/routes/patient.py:505-532 | cancels exactly the caller's own booked row: already-cancelled and completed rows give 400, and others' rows give 404 |
| DoctorRoutes.DoctorLunch | backend/app/routes/doctor.py:451-463 | a lunch is dropped unless both times are given and valid; a given lunch is accepted exactly when it lies inside the hours with start before end, and is then the parsed pair; otherwise 400 |
| DoctorRoutes.SetAvailability | backend/app/routes/doctor.py:427-492 | succeeds exactly when the hours and the lunch checks pass, and is then the shared upsert with `is_available` defaulting to true and the checked lunch. The doctor's window for the date has the requested hours and lunch; windows of other doctors or dates are untouched; one window per day and lunches inside hours are kept. Errors are 400 |
| DoctorRoutes.UpsertLunchAtFound | backend/app/routes/doctor.py:465-488 | after an upsert with a lunch, the found window carries that lunch |
| DoctorRoutes.DoctorUpsertInvariants | backend/app/routes/doctor.py:451-488 | the doctor upsert preserves both window invariants |
| DoctorRoutes.BulkAvailability | backend/app/routes/doctor.py:495-539 | both times are required and valid, and then the fill succeeds unless the seventh day is past year 9999. On success only rows are appended; every day of the week from today has a window; fresh rows cover only days that had none; `created` is the number of the seven days the doctor had no window on; one window per day is kept |
| DoctorRoutes.FillDays | backend/app/routes/doctor.py:516-533 | the loop adds a window exactly for the days that have none, counts them, and leaves existing rows alone |
| DoctorRoutes.MissingInPrefix | backend/app/routes/doctor.py:519-533 | windows appended on other dates do not change whether a date already has a window |
| DoctorRoutes.UpdateWindow | backend/app/routes/doctor.py:565-599 | 404 for another doctor's or a missing window. On success only the given fields of that window change |
| DoctorRoutes.UpdateWindowCanStrandLunch | backend/app/routes/doctor.py:565-599 | moving the end before a stored lunch is accepted and leaves the lunch outside the hours |
| DoctorRoutes.DeleteWindow | backend/app/routes/doctor.py:544-562 | removes exactly the doctor's own window, otherwise 404 |
| DoctorRoutes.Complete | backend/app/routes/doctor.py:198-225 | completes exactly the doctor's own booked row; cancelled and completed rows give 400 and others' rows give 404 |
| DoctorRoutes.DoctorCancel | backend/app/routes/doctor.py:228-255 | cancels any of the doctor's rows that is not completed, even one already cancelled |
| DoctorRoutes.AddTreatment | backend/app/routes/doctor.py:257-319 | needs the doctor's own row and a diagnosis, and a next-visit date that parses if one is given. It attaches the treatment and marks the row completed, whatever its status; nothing else changes |
| DoctorRoutes.Truncate | backend/app/routes/doctor.py:650 | the result is the prefix of the input of length min(length, limit) |
| DoctorRoutes.AddPatientHistory | backend/app/routes/doctor.py:629-655 | needs an existing patient (404 otherwise), a diagnosis and a visit date that parses; then it appends exactly one row, the history row for the next id, the visit date and the current time, and keeps every earlier row |
| DoctorRoutes.HistoryRow | backend/app/routes/doctor.py:644-672 | a completed appointment on the visit date at the current time. The reason is the notes or the default, cut to fifty characters; the diagnosis is the given one; the prescription is the given one or empty; the treatment notes are the notes followed by the lab-tests paragraph when tests are given; the next visit is the parsed date when one is given, absent otherwise |
| AdminRoutes.FindDepartmentNamed | backend/app/routes/admin.py:69-78 | finds a department by name or proves none has it |
| AdminRoutes.AddDepartment | backend/app/routes/admin.py:62-90 | succeeds exactly for a given, unused name; appends one department; keeps names unique |
| AdminRoutes.UpdateDepartment | backend/app/routes/admin.py:93-123 | 404 for a missing id. It succeeds exactly when no name is sent or the first department holding the name is this one; otherwise 400. Only this department changes, and names stay unique |
| AdminRoutes.DoctorsIn | backend/app/routes/admin.py:137-141 | zero exactly when no doctor row belongs to the department |
| AdminRoutes.DeleteDepartment | backend/app/routes/admin.py:126-149 | deletes exactly an existing department with no doctors |
| AdminRoutes.AddDoctor | backend/app/routes/admin.py:207-267 | missing keys give 400. 404 exactly when every earlier check passes and the department is unknown. It succeeds exactly for new credentials and appends one active doctor carrying the given username, e-mail, full name, phone, password, department and fee (0 when none is given) |
| AdminRoutes.AddDoctorThenLogin | backend/app/routes/admin.py:207-267 | an added doctor logs in with the chosen password, unless the username is empty, which login refuses with 400 |
| AdminRoutes.Deactivate | backend/app/routes/admin.py:324-341 | soft delete: flips only `is_active` of the doctor or patient row, otherwise 404 |
| AdminRoutes.DeactivateThenRefused | backend/app/routes/admin.py:324-341 | after a soft delete the role gate answers 403 "Account is inactive" and login answers 401 "Account is inactive", whatever the password |
| AdminRoutes.PurgeDoctor | backend/app/routes/admin.py:686-712 | removes the doctor, all of their appointments and availability, and nothing else |
| AdminRoutes.PurgePatient | backend/app/routes/admin.py:715-738 | removes the patient and all of their appointments, and nothing else |
| AdminRoutes.DoctorIds | backend/app/routes/admin.py:741-774 | exactly the ids of the department's doctors |
| AdminRoutes.PurgeDepartment | backend/app/routes/admin.py:746-749 | 404 exactly when no department has the id; otherwise the result is the purge of the department row found |
| AdminRoutes.Purged | backend/app/routes/admin.py:751-765 | removes the department row, every doctor of the department, and their appointments and availability; every other user, appointment and window is kept |
| AdminRoutes.AdminSetAvailability | backend/app/routes/admin.py:610-663 | 404 for a non-doctor. On success it is the shared upsert with the lunch kept, and one window per day is kept |
| AdminRoutes.ParseAdminTime | backend/app/routes/admin.py:553-561 | a text of at most five characters never yields seconds, and a five-character text that parses is the `HH:MM` text of its time |
| AdminRoutes.AdminTimeOfClockText | backend/app/routes/admin.py:556-557 | an `HH:MM` text is stored as its time truncated to the minute |
| AdminRoutes.AdminTimeWithSeconds | backend/app/routes/admin.py:558-559 | an `HH:MM:SS` text is stored as exactly that time |
| AdminRoutes.ShortTextWithSecondsRefused | backend/app/routes/admin.py:556-561 | "1:2:3" is five characters, so it is read as `HH:MM` and refused, though `HH:MM:SS` would accept it |
| AdminRoutes.AdminEditAppointment | backend/app/routes/admin.py:532-584 | 404 for a missing id. It succeeds exactly when the given fields parse, and then changes only those fields |
| Auth.MissingField | backend/app/routes/auth.py:18-21 | names the first missing field in the source's order, or none when all are given |
| Auth.Register | backend/app/routes/auth.py:9-62 | checks run in this order: no body gives 500, a missing field gives 400, a taken username or email gives 400. Success appends one active patient holding the password's hash |
| Auth.RegisterSkipsPasswordRule | backend/app/routes/auth.py:18-44 | registration accepts a one-character password that `validate_password` rejects |
| Auth.FindUsername | backend/app/routes/auth.py:84-87 | the first user with the username, or none exactly when the username is unused |
| Auth.Login | backend/app/routes/auth.py:65-118 | no body or a missing field gives 400. Otherwise it succeeds exactly for an active user whose password checks, and returns that user |
| Auth.UnknownUserLooksLikeWrongPassword | backend/app/routes/auth.py:84-95 | an unknown username and a wrong password give the same 401 |
| Auth.InactiveBeforePassword | backend/app/routes/auth.py:89-95 | a deactivated account gets "Account is inactive", whatever the password |
| Auth.RegisterThenLogin | backend/app/routes/auth.py:9-118 | after registering, logging in with the same username and password succeeds |
| Auth.FirstUsernameAt | backend/app/routes/auth.py:84 | `filter_by(username).first()` finds the earliest row with that username |
| Auth.ChangePassword | backend/app/routes/auth.py:156-179 | checks run in this order: 404, missing fields 400, wrong current password 401, short new password 400. Success changes only that user's credential |
| Auth.ChangePasswordThenLogin | backend/app/routes/auth.py:156-179 | after a change, the new password logs in and the old one no longer does |
| Decorators.Authorize | backend/app/utils/decorators.py:6-26 | admits exactly an existing, active user with an allowed role. Otherwise: 404 user not found, then 403 inactive, then 403 access denied |
| Decorators.FirstUser | backend/app/utils/decorators.py:13 | user lookup by id finds the earliest row with that id |
| Decorators.Guarded | backend/app/utils/decorators.py:6-26 | the wrapped handler's answer passes through exactly when the caller is admitted; otherwise 403 or 404 |
| Decorators.InactiveBeforeRole | backend/app/utils/decorators.py:15-24 | an inactive user is refused as inactive even when the role would not be allowed |
| Sweeps.CancelWithRefund | backend/app/tasks/auto_cancel.py:38-57 | marks the row cancelled with the reason. A paid row gets an approved refund dated today; other fields do not change |
| Sweeps.ListedFee | backend/app/tasks/auto_cancel.py:80 | a missing fee counts as zero in the refund total |
| Sweeps.CancelMissed | backend/app/tasks/auto_cancel.py:10-91 | fails only when yesterday overflows. It cancels exactly yesterday's booked rows, reporting their number and the sum of their fees, and leaves the table unchanged when none are missed |
| Sweeps.CancelEach | backend/app/tasks/auto_cancel.py:38-57 | each row missed yesterday is cancelled with the no-show reason and, when paid, an approved refund; every other row is unchanged; the count and fee total are those of the missed rows |
| Sweeps.NoneMissed | backend/app/tasks/auto_cancel.py:26-33 | a zero missed count means no row is missed |
| Sweeps.CancelSpecific | backend/app/tasks/auto_cancel.py:189-232 | a missing id or an already-cancelled row is an error. Otherwise only that row is cancelled, with the given or default reason and the refund rule |
| Sweeps.Retained | backend/app/tasks/cleanup.py:14-16 | keeps every window dated on or after the cutoff and none before it; its length drops by the number of expired windows |
| Sweeps.RetainedMultiplicity | backend/app/tasks/cleanup.py:14-16 | a window dated before the cutoff occurs zero times in what is kept; any other window occurs exactly as often as in the table |
| Sweeps.Cleanup | backend/app/tasks/cleanup.py:9-33 | the cutoff is exactly thirty days before today. Windows before it are deleted, and `deleted_count` is their number; the job fails, with OverflowError's message, exactly when today is on or before 0001-01-30, so that the cutoff would precede 0001-01-01 |
| Reports.PreviousMonth | backend/app/tasks/reports.py:18-21 | the period ends the day before the first of this month and starts on the first of that same month; none only when that day would be before year 1 |
| Reports.PreviousMonthIsWholeMonth | backend/app/tasks/reports.py:18-21 | the period is a whole calendar month: from day 1 to the month's last day |
| Reports.Covered | backend/app/tasks/reports.py:85-89 | exactly the doctor's appointments dated inside the period, each with its multiplicity |
| Reports.CountsPartition | backend/app/tasks/reports.py:92-95 | counts over a list of distinct keys that covers every row add up to the number of rows |
| Reports.StatusCountsAddUp | backend/app/tasks/reports.py:92-95 | completed plus cancelled plus booked equals the total |
| Reports.PartOf | backend/app/tasks/reports.py:126-128 | morning before 12:00, afternoon from 12:00 to 16:59, evening from 17:00 |
| Reports.DayPartsAddUp | backend/app/tasks/reports.py:126-128 | the three time-of-day buckets add up to the total |
| Reports.ByDay | backend/app/tasks/reports.py:112-115 | seven weekday counts that add up to the total |
| Reports.WeekdaysAddUp | backend/app/tasks/reports.py:112-115 | the weekday counts partition the appointments |
| Reports.PatientsOf | backend/app/tasks/reports.py:131 | exactly the set of patient ids that occur, never more than the appointments |
| Reports.Revenue | backend/app/tasks/reports.py:98-102 | zero when nothing is paid; non-negative when no fee is negative |
| Reports.Diagnoses | backend/app/tasks/reports.py:105-123 | one diagnosis per treated appointment: every listed diagnosis comes from a treated appointment, every treated appointment's diagnosis is listed, and the length is the number of treated appointments |
| Reports.DiagnosesCount | backend/app/tasks/reports.py:105-121 | each diagnosis occurs in the list exactly as often as appointments carry it |
| Reports.Tally | backend/app/tasks/reports.py:118-121 | one entry per distinct non-empty diagnosis, each with its exact number of occurrences |
| Reports.NotTallied | backend/app/tasks/reports.py:118-121 | a diagnosis missing from the tally never occurs |
| Reports.SortByCount | backend/app/tasks/reports.py:123 | a permutation of the tally ordered by decreasing count |
| Reports.Insert | backend/app/tasks/reports.py:123 | inserting into a sorted list keeps it sorted and adds exactly one element |
| Reports.TopDiagnoses | backend/app/tasks/reports.py:118-123 | at most five entries with distinct names and exact counts, sorted by count; no omitted diagnosis occurs more often than any listed one; the length is the smaller of five and the number of distinct diagnoses, so a diagnosis is left out only from a full list |
| Reports.CompletionTenths | backend/app/tasks/reports.py:144 | 0 when there are no appointments. Otherwise within half a tenth of completed/total x 100, a tie goes to the even tenth, and it never exceeds 100.0 |
| Reports.HighlightOf | backend/app/tasks/reports.py:577-590 | "Excellent" exactly from 80.0, "Good" exactly from 60.0 below 80.0, otherwise "Room for improvement" |
| Reports.HighlightMonotone | backend/app/tasks/reports.py:577-590 | a higher completion rate never gets a worse highlight |
| Reports.ExcellentThreshold | backend/app/tasks/reports.py:577-590 | "Excellent" is shown exactly when completed/total is at least 79.95% |
| Reports.ExactTieRoundsUp | backend/app/tasks/reports.py:579-580 | a rate of exactly 79.95% rounds to 80.0 and is excellent |
| Reports.Summarize | backend/app/tasks/reports.py:90-162 | each figure of a report over a set of appointments is its definition: status counts, rate, revenue, unique patients, weekday and time-of-day counts, treatments and top diagnoses; the counts add up to the total |
| Reports.TopLength | backend/app/tasks/reports.py:118-123 | the top list has the smaller of five and the number of distinct diagnoses entries, and when it is shorter than five every diagnosis is on it |
| Reports.DoctorReport | backend/app/tasks/reports.py:83-162 | each figure is its definition over the covered appointments: status counts, rate, revenue, unique patients, weekday and time-of-day counts, treatments (the treated appointments) and top diagnoses; the counts add up to the total |
| Reports.MonthlyReport | backend/app/tasks/reports.py:12-21 | the report for the previous month, or none when that month is before year 1 |
| Lifecycle.UnbookKeepsSlotsUnique | backend/app/models/appointment.py:12 | replacing one row by a row that is not booked preserves the one-booking-per-slot invariant |
| Lifecycle.RoutesKeepSlotsUnique | backend/app/routes/doctor.py:198-319 | patient cancel, doctor complete and cancel, treatment and history all preserve one booking per slot |
| Lifecycle.SweepsKeepSlotsUnique | backend/app/tasks/auto_cancel.py:38-57 | both cancellation jobs preserve one booking per slot |
| Lifecycle.AdminEditCanBreakSlotsUnique | backend/app/routes/admin.py:544-566 | the admin can set a cancelled row back to booked over a slot already booked, breaking the invariant |
| Lifecycle.FindsById | backend/app/tasks/auto_cancel.py:196 | with distinct ids every row is found by its own id |
| Lifecycle.CancelTwiceDiffers | backend/app/routes/doctor.py:243-246 | cancelling a cancelled row is a 400 for the patient but succeeds unchanged for the doctor |
| Lifecycle.TreatmentCompletesCancelled | backend/app/routes/doctor.py:273-312 | a cancelled row cannot be completed but a treatment turns it into completed |
| Lifecycle.CompletedCancelledOnlyByTask | backend/app/tasks/auto_cancel.py:196-216 | a completed row is refused by the patient and doctor cancel routes but cancelled by the background task |
| UserStore.InitialStore | frontend/src/store/user.js:4-8 | starts signed out with no user; the token comes from storage only when it is truthy |
| UserStore.UserRole | frontend/src/store/user.js:11 | the role only when a user object with a truthy role is present |
| UserStore.Login | frontend/src/store/user.js:15-21 | signs in and writes both token and user to storage |
| UserStore.Logout | frontend/src/store/user.js:23-29 | clears the state and both storage keys, leaving no role |
| UserStore.InitializeAuth | frontend/src/store/user.js:31-40 | restores the session exactly when a truthy token and a user are stored; it never signs anyone out |
| UserStore.InitializeAuthIdempotent | frontend/src/store/user.js:31-40 | restoring twice is the same as restoring once |
| UserStore.LoginSurvivesReload | frontend/src/store/user.js:15-40 | after a login with a non-empty token, a fresh store restored from storage is signed in as the same user |
| UserStore.LogoutStays | frontend/src/store/user.js:23-40 | after a logout, restoring from storage stays signed out |
| UserStore.EmptyTokenLostOnReload | frontend/src/store/user.js:15-40 | a login with an empty token is signed in until a reload, after which it is not |
| Router.Resolve | frontend/src/router/index.js:4-48 | a path reaches a static route exactly when it matches that route's pattern: the route's path up to ASCII case, followed by at most one "/" (the router sets neither `sensitive` nor `strict`, so the root's pattern accepts "/" and "//" but not ""); every other path reaches the catch-all NotFound |
| Router.FoldCase | frontend/src/router/index.js:45-48 | lowers exactly the ASCII capitals and leaves every other character as it is, as a case-insensitive pattern without the Unicode flag compares |
| Router.ResolveByCanonical | frontend/src/router/index.js:4-48 | a path whose lower-cased form, less one trailing "/" (never the root's own), is a route's path reaches that route, so "/" and "//" reach Home; every other path, "" included, reaches NotFound |
| Router.MatchTable | frontend/src/router/index.js:4-43 | every route's pattern, Home's included, matches exactly the paths whose normal form is its path |
| Router.MatchRoute | frontend/src/router/index.js:9-38 | one route's pattern is matched exactly by the paths whose normal form is its path |
| Router.PatternMatch | frontend/src/router/index.js:45-48 | for the root or a path without a trailing "/", a path folds to it or to it plus "/" exactly when its normal form is that path |
| Router.RootSpellings | frontend/src/router/index.js:5-9 | "/" and "//", in any case, reach Home, and the empty path reaches NotFound |
| Router.FirstRoute | frontend/src/router/index.js:4-43 | the first route whose pattern matches the path, or none when no pattern does |
| Router.Guard | frontend/src/router/index.js:51-65 | restores the store first. It proceeds exactly when the route is public or the user is signed in, and the route's role, if any, is the user's role; otherwise it redirects to /login |
| Router.PublicRoutesProceed | frontend/src/router/index.js:51-65 | routes without meta always proceed |
| Router.OnlyDashboardsGuarded | frontend/src/router/index.js:4-48 | exactly the paths whose normal form (lower-cased, one trailing "/" dropped) is /admin, /doctor or /patient carry meta; so "/ADMIN" and "/admin/" are guarded too |
| Router.TrailingSlash | frontend/src/router/index.js:20-25 | "/admin/" reaches the admin dashboard |
| Router.DoubleSlashNotFound | frontend/src/router/index.js:20-25 | "/admin//" reaches NotFound: only one trailing "/" is optional |
| Router.CapitalsFold | frontend/src/router/index.js:20-25 | "/ADMIN" reaches the admin dashboard |
| Router.FoldLower | frontend/src/router/index.js:45-48 | a text without ASCII capitals is its own folded form |
| Router.DashboardNeedsRole | frontend/src/router/index.js:51-65 | a dashboard proceeds only for a signed-in user with that dashboard's role |
| Router.DoctorPassesGuards | frontend/src/router/index.js:51-65 | a signed-in doctor passes the doctor dashboard's meta and is redirected to /login by the admin dashboard's |
| Router.DoctorSeesOwnDashboard | frontend/src/router/index.js:51-65 | after a doctor logs in with a non-empty token, every spelling of /doctor proceeds and every spelling of /admin redirects to /login |

## Left out

- **Excluded side effects and infrastructure.**
  - Notifications, e-mails, reminders and HTML/CSV rendering are left out. They are side effects that change no model state: `send_admin_notification`, the report HTML, the export tasks.
  - Database errors and the resulting 500 responses are left out, and so are the `rollback` paths. The model has no failing storage.
  - Concurrency is left out. Check-then-insert races between two bookings of the same slot cannot happen in a sequential model.
  - bcrypt is modelled as an ideal hash: a password checks exactly when it is the one stored. JWT issuance and verification are abstract: the current user id is a parameter.
- **Routes left out.**
  - Read-only routes: dashboards, listings, searches and statistics.
  - Profile edits, `update_doctor`, `update_patient` and the patient-side `change_password` in `routes/patient.py`. Each of these only copies given fields onto one row.
  - The admin's availability delete. It does the same as `DeleteWindow` without the ownership check.
  - Pagination and caching.
- **Representation gaps.**
  - Microseconds of `now()` are not modelled. They do not affect any decision in the core.
  - Characters are modelled as ASCII, in two places:
    - the validators' `\d` and the pattern classes are ASCII-only, whereas Python's `re` also accepts other Unicode digits;
    - `strptime` digits likewise.
  - The JSON body types are not modelled: a field is either absent or a string (or number where the source converts it). A JSON `null` is not modelled separately. `None` stands for a missing key, and a null value behaves like a missing key only where the source tests truthiness (`not data.get(k)`). Elsewhere a null differs from a missing key, and the model does not show it:
    - DoctorRoutes.AddPatientHistory: null `notes` raises on `[:50]` (500) instead of using the default.
    - DoctorRoutes.UpdateWindow: null `start_time` or `end_time` raises inside `validate_time` (500); null `is_available` stores false.
    - DoctorRoutes.SetAvailability: null `is_available` stores NULL instead of the default true.
    - DoctorRoutes.AddTreatment: null `prescription` or `notes` stores NULL instead of an empty string.
    - AdminRoutes.AdminEditAppointment: null `appointment_time` becomes the text "None" and is a 400; null `status` is a 400; null `reason` stores NULL.
    - PatientRoutes.BookedRow: a null `consultation_fee` stores NULL (backend/app/routes/patient.py:437) instead of the doctor's fee or 500; null `reason`, `payment_status` or `payment_method` stores NULL instead of "", "paid" or "card" (patient.py:435, 438-439). PatientRoutes.Book inherits this.
    - AdminRoutes.AddDoctor: a null `consultation_fee` stores NULL (backend/app/routes/admin.py:254) instead of 0.
    - AdminRoutes.AddDepartment: a null `description` stores NULL (backend/app/routes/admin.py:78) instead of "".
    - AdminRoutes.AdminSetAvailability: a null `is_available` stores NULL (backend/app/routes/admin.py:647, 656) instead of true.
  - Patient and doctor names in the `to_dict` views are left out. They are joins on other tables.
- **Reports.**
  - Reports.Revenue: the source sums Python floats; the model sums integer cents. They agree except for float rounding of large sums.
  - Reports.CompletionTenths: the source rounds a binary float with `round(x, 1)`; the model rounds the exact rational half-to-even. The two can differ when the float product lands just beside a .x5 boundary.
  - Reports.ByDay: the source's `by_day` dict has no key for weekdays without appointments; the model keeps seven counts, with zero for those days.
  - Reports.TopDiagnoses: stability is not stated. The source's stable sort keeps tied diagnoses in first-seen order. The model's insertion sort is also stable, but only the order by count and the selection of the largest counts are proved. First-seen order is taken from the appointments, not from the treatment rows' own order.
- **Sweeps.**
  - Sweeps.CancelMissed: the per-row `try/except` is not modelled. In the source, an exception while building one row's notification details leaves that row cancelled but uncounted. `total_refund_amount` sums the fees of all missed rows, paid or not, as the source does.
  - Rows orphaned by bulk deletes are not tracked. Treatment rows of deleted appointments are an example: the model keeps a treatment inside its appointment row, so they disappear together.
- **Front end.**
  - The `JSON.parse(JSON.stringify(user))` round trip in the store is taken as the identity on user objects.
  - Router.Resolve: the path is taken as the router hands it to its matcher, after the query and hash are split off. Percent-encoding and the router's own path normalisation are not modelled. The matching rules (case-insensitive, one optional trailing "/", static routes ranked above the catch-all) are the router library's defaults for a table built without options; the library itself is not part of this model.
- **Files outside this model.** `department.py` and `user.py` are not part of this model. Users and departments appear only with the fields the core routes read.
