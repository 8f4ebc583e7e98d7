/**
 * The patient side of the appointment table (backend/app/routes/patient.py):
 * booking, rescheduling and cancelling one's own appointments.
 *
 * Each route is a function from the tables, the request and the clock to either the
 * new appointment table or the error response; an error leaves every table as it was.
 */
module PatientRoutes {
  import opened Wrappers
  import opened Calendar
  import opened TextFormat
  import opened Validators
  import opened Models
  import opened Api

  /** At most this many booked appointments per doctor in one clock hour. */
  const MaxPerHour := 6

  datatype BookingRequest = BookingRequest(
    doctorId: Option<int>,
    date: Option<string>,
    time: Option<string>,
    reason: Option<string>,
    fee: Option<int>,
    paymentStatus: Option<string>,
    paymentMethod: Option<string>)

  // ------------------------------------------------------------- the booking rules

  /** The window is open for bookings with that doctor on that date. */
  predicate OpenOn(w: Window, doctorId: int, date: Day) {
    w.doctorId == doctorId && w.date == date && w.isAvailable
  }

  /** `start_time <= t < end_time`. */
  predicate InsideHours(w: Window, t: TimeOfDay) {
    w.start <= t < w.end
  }

  /** Both lunch bounds are set and `lunch_start <= t < lunch_end`. */
  predicate DuringLunch(w: Window, t: TimeOfDay) {
    w.lunchStart.Some? && w.lunchEnd.Some? && w.lunchStart.value <= t < w.lunchEnd.value
  }

  /** The doctor exists, has the doctor role and is active. */
  ghost predicate ActiveDoctor(users: seq<User>, doctorId: int) {
    exists k :: 0 <= k < |users| && users[k].id == doctorId && users[k].role == Doctor && users[k].isActive
  }

  /** A booked appointment, other than the one with id `except`, holds the slot. */
  ghost predicate SlotHeld(s: seq<Appointment>, slot: Slot, except: Option<int>) {
    exists i :: 0 <= i < |s| && s[i].status == Booked && SlotOf(s[i]) == slot && (except.Some? ==> s[i].id != except.value)
  }

  /** The number of booked appointments of the doctor on the date whose time falls in hour `h`. */
  function HourLoad(s: seq<Appointment>, doctorId: int, date: Day, h: int): (n: nat)
    ensures n <= |s|
  {
    if |s| == 0 then 0
    else
      var a := s[|s| - 1];
      HourLoad(s[..|s| - 1], doctorId, date, h)
        + (if a.status == Booked && a.doctorId == doctorId && a.date == date && Hour(a.time) == h then 1 else 0)
  }

  /**
   * When a booking for (doctor, date, time) is accepted: not in the past, an active
   * doctor, and the FIRST open window of that doctor on that date admits the time
   * outside its lunch break; the slot is free and the hour has room.
   */
  ghost predicate Admissible(appts: seq<Appointment>, users: seq<User>, windows: seq<Window>, today: Day,
                             doctorId: int, date: Day, time: TimeOfDay)
  {
    && OnOrBefore(today, date)
    && ActiveDoctor(users, doctorId)
    && (exists k :: 0 <= k < |windows| && OpenOn(windows[k], doctorId, date)
          && (forall j :: 0 <= j < k ==> !OpenOn(windows[j], doctorId, date))
          && InsideHours(windows[k], time) && !DuringLunch(windows[k], time))
    && !SlotHeld(appts, Slot(doctorId, date, time), None)
    && HourLoad(appts, doctorId, date, Hour(time)) < MaxPerHour
  }

  /**
   * When a booking is refused with 409: the date is not past, the doctor is active, the
   * first open window admits the time outside its lunch break, and a booked appointment
   * already holds the slot.
   */
  ghost predicate Conflicting(appts: seq<Appointment>, users: seq<User>, windows: seq<Window>, today: Day,
                              doctorId: int, date: Day, time: TimeOfDay)
  {
    && OnOrBefore(today, date)
    && ActiveDoctor(users, doctorId)
    && (exists k :: 0 <= k < |windows| && OpenOn(windows[k], doctorId, date)
          && (forall j :: 0 <= j < k ==> !OpenOn(windows[j], doctorId, date))
          && InsideHours(windows[k], time) && !DuringLunch(windows[k], time))
    && SlotHeld(appts, Slot(doctorId, date, time), None)
  }

  // ------------------------------------------------------------- queries as the route runs them

  /** `User.query.filter_by(id=.., role='doctor', is_active=True).first()`. */
  function FindActiveDoctor(users: seq<User>, doctorId: int): (r: Option<nat>)
    ensures r.Some? ==> r.value < |users| && users[r.value].id == doctorId && users[r.value].role == Doctor && users[r.value].isActive
    ensures r.None? <==> !ActiveDoctor(users, doctorId)
  {
    FirstMatch(users, (u: User) => u.id == doctorId && u.role == Doctor && u.isActive)
  }

  /** `DoctorAvailability.query.filter_by(doctor_id=.., date=.., is_available=True).first()`. */
  function FirstOpenWindow(windows: seq<Window>, doctorId: int, date: Day): (r: Option<nat>)
    ensures r.Some? ==> r.value < |windows| && OpenOn(windows[r.value], doctorId, date)
    ensures r.Some? ==> forall j :: 0 <= j < r.value ==> !OpenOn(windows[j], doctorId, date)
    ensures r.None? ==> forall j :: 0 <= j < |windows| ==> !OpenOn(windows[j], doctorId, date)
  {
    if |windows| == 0 then None
    else if OpenOn(windows[0], doctorId, date) then Some(0)
    else
      var r := FirstOpenWindow(windows[1..], doctorId, date);
      assert forall k :: 1 <= k < |windows| ==> windows[1..][k - 1] == windows[k];
      if r.Some? then Some(r.value + 1) else None
  }

  /** The conflict query: a booked row, other than `except`, at the slot. */
  function IsSlotHeld(s: seq<Appointment>, slot: Slot, except: Option<int>): (r: bool)
    ensures r <==> SlotHeld(s, slot, except)
  {
    if |s| == 0 then false
    else
      var a := s[|s| - 1];
      var rest := s[..|s| - 1];
      assert forall i :: 0 <= i < |s| - 1 ==> rest[i] == s[i];
      if a.status == Booked && SlotOf(a) == slot && (except.Some? ==> a.id != except.value) then true
      else IsSlotHeld(rest, slot, except)
  }

  /** `apt_time` lies between `HH:00:00` and `HH:59:59` of hour `h`, both inclusive. */
  predicate InClockHour(t: TimeOfDay, h: int)
    requires 0 <= h < 24
  {
    Clock(h, 0, 0) <= t <= Clock(h, 59, 59)
  }

  /** The inclusive range the route queries is exactly the clock hour. */
  lemma InClockHourIsHour(t: TimeOfDay, h: int)
    requires 0 <= h < 24
    ensures InClockHour(t, h) <==> Hour(t) == h
  {
    assert Clock(h, 0, 0) == h * 3600;
    assert Clock(h, 59, 59) == h * 3600 + 3599;
  }

  /** The capacity query: booked rows of the doctor on the date between `HH:00:00` and `HH:59:59`. */
  function CountInClockHour(s: seq<Appointment>, doctorId: int, date: Day, h: int): (n: nat)
    requires 0 <= h < 24
    ensures n == HourLoad(s, doctorId, date, h)
  {
    if |s| == 0 then 0
    else
      var a := s[|s| - 1];
      InClockHourIsHour(a.time, h);
      CountInClockHour(s[..|s| - 1], doctorId, date, h)
        + (if a.status == Booked && a.doctorId == doctorId && a.date == date && InClockHour(a.time, h) then 1 else 0)
  }

  /** `"TXN" + now.strftime('%Y%m%d%H%M%S') + str(patient.id)`. */
  function TransactionId(now: Instant, patientId: nat): (s: string)
    ensures |s| == 17 + |NatToString(patientId)|
    ensures s[..3] == "TXN" && s[17..] == NatToString(patientId)
    ensures forall i :: 3 <= i < 17 ==> IsDigit(s[i])
  {
    "TXN" + Pad4(now.date.year) + Pad2(now.date.month) + Pad2(now.date.day)
      + Pad2(Hour(now.time)) + Pad2(Minute(now.time)) + Pad2(Second(now.time)) + NatToString(patientId)
  }

  /** The fourteen digits after "TXN" read back as the clock's fields, and the tail as the patient id. */
  lemma TransactionIdReadsBack(now: Instant, patientId: nat)
    ensures var s := TransactionId(now, patientId);
      && YearToken(s[3..7]) == Some(now.date.year)
      && MonthToken(s[7..9]) == Some(now.date.month)
      && DayToken(s[9..11]) == Some(now.date.day)
      && HourToken(s[11..13]) == Some(Hour(now.time))
      && SexagesimalToken(s[13..15]) == Some(Minute(now.time))
      && SexagesimalToken(s[15..17]) == Some(Second(now.time))
      && DigitsValue(s[17..]) == patientId
  {
    var s := TransactionId(now, patientId);
    assert s[3..7] == Pad4(now.date.year);
    assert s[7..9] == Pad2(now.date.month);
    assert s[9..11] == Pad2(now.date.day);
    assert s[11..13] == Pad2(Hour(now.time));
    assert s[13..15] == Pad2(Minute(now.time));
    assert s[15..17] == Pad2(Second(now.time));
    YearTokenOfPad4(now.date.year);
    MonthTokenOfPad2(now.date.month);
    DayTokenOfPad2(now.date.day);
    HourTokenOfPad2(Hour(now.time));
    SexagesimalTokenOfPad2(Minute(now.time));
    SexagesimalTokenOfPad2(Second(now.time));
    NatToStringReadsBack(patientId);
  }

  // ------------------------------------------------------------- book_appointment

  /** The three required fields are present and non-empty and the date and time are well formed. */
  predicate WellFormed(req: BookingRequest) {
    GivenId(req.doctorId) && Given(req.date) && Given(req.time)
    && ValidateDate(req.date.value) && ValidateTime(req.time.value)
  }

  function RequestedDate(req: BookingRequest): Day
    requires WellFormed(req)
  {
    ParseDate(req.date.value).value
  }

  function RequestedTime(req: BookingRequest): TimeOfDay
    requires WellFormed(req)
  {
    ParseClock(req.time.value).value
  }

  /** The row a successful booking inserts. */
  function BookedRow(id: nat, patientId: nat, doctor: User, req: BookingRequest, date: Day, time: TimeOfDay, now: Instant): (a: Appointment)
    ensures a.id == id && a.patientId == patientId && a.doctorId == doctor.id && a.date == date && a.time == time
    ensures a.status == Booked && a.treatment.None? && a.refundStatus.None? && a.refundDate.None?
    ensures a.reason == Some(req.reason.GetOr(""))
    ensures a.paymentStatus == Some(req.paymentStatus.GetOr("paid"))
    ensures a.paymentMethod == Some(req.paymentMethod.GetOr("card"))
    ensures req.fee.Some? ==> a.fee == req.fee
    ensures req.fee.None? && doctor.consultationFee.Some? && doctor.consultationFee.value != 0 ==> a.fee == doctor.consultationFee
    ensures req.fee.None? && (doctor.consultationFee.None? || doctor.consultationFee == Some(0)) ==> a.fee == Some(DefaultFee)
    ensures a.transactionId == Some(TransactionId(now, patientId))
  {
    var doctorFee := if doctor.consultationFee.Some? && doctor.consultationFee.value != 0 then doctor.consultationFee.value else DefaultFee;
    NewAppointment(id, patientId, doctor.id, date, time).(
      reason := Some(req.reason.GetOr("")),
      fee := Some(req.fee.GetOr(doctorFee)),
      paymentStatus := Some(req.paymentStatus.GetOr("paid")),
      paymentMethod := Some(req.paymentMethod.GetOr("card")),
      transactionId := Some(TransactionId(now, patientId)))
  }

  const PastMessage := "Cannot book appointment in the past"

  /** The checks that follow parsing, in the route's order; the fields are well formed. */
  function Admit(appts: seq<Appointment>, users: seq<User>, windows: seq<Window>, patientId: nat,
                 req: BookingRequest, now: Instant, date: Day, time: TimeOfDay): (r: Result<Appointment, Failure>)
    requires GivenId(req.doctorId)
    ensures r.Ok? <==> Admissible(appts, users, windows, now.date, req.doctorId.value, date, time)
    ensures r.Ok? ==> r.value.doctorId == req.doctorId.value && r.value.date == date && r.value.time == time
    ensures r.Ok? ==> r.value.id == NextId(appts, AppointmentId) && r.value.patientId == patientId && r.value.status == Booked
    ensures r.Ok? ==> var d := FindActiveDoctor(users, req.doctorId.value);
      d.Some? && r.value == BookedRow(NextId(appts, AppointmentId), patientId, users[d.value], req, date, time, now)
    ensures r == Err(BadRequest(PastMessage)) <==> Before(date, now.date)
    ensures r.Err? && r.error.code == 409 <==> Conflicting(appts, users, windows, now.date, req.doctorId.value, date, time)
    ensures r.Err? && r.error.code == 404 <==> OnOrBefore(now.date, date) && !ActiveDoctor(users, req.doctorId.value)
    ensures r.Err? && r.error.code == 409 ==> SlotHeld(appts, Slot(req.doctorId.value, date, time), None)
    ensures r.Err? ==> r.error.code in {400, 404, 409}
  {
    var doctorId := req.doctorId.value;
    if Before(date, now.date) then Err(BadRequest(PastMessage))
    else match FindActiveDoctor(users, doctorId)
      case None => Err(NotFound("Doctor not found or inactive"))
      case Some(d) =>
        match FirstOpenWindow(windows, doctorId, date)
        case None => Err(BadRequest("Doctor is not available on this date"))
        case Some(k) =>
          AdmissibleAt(appts, users, windows, now.date, doctorId, date, time, k);
          AdmitInWindow(appts, users[d], windows[k], patientId, req, now, date, time)
  }

  /** The 400 message for a time outside the window's hours. */
  function HoursMessage(w: Window): (m: string)
    ensures m != PastMessage
  {
    var m := "Time must be between " + ClockText(w.start) + " and " + ClockText(w.end);
    assert m[0] != PastMessage[0];
    m
  }

  /** The 400 message for a time inside the window's lunch break. */
  function LunchMessage(w: Window): (m: string)
    requires w.lunchStart.Some? && w.lunchEnd.Some?
    ensures m != PastMessage
  {
    var m := "This time is during lunch break (" + ClockText(w.lunchStart.value) + " - " + ClockText(w.lunchEnd.value) + ")";
    assert m[0] != PastMessage[0];
    m
  }

  const FullHourMessage := "Maximum appointments per hour (6) reached. Please select a different time."

  /** The checks against the doctor's first open window, the slot and the hour, in the route's order. */
  function AdmitInWindow(appts: seq<Appointment>, doctor: User, w: Window, patientId: nat,
                         req: BookingRequest, now: Instant, date: Day, time: TimeOfDay): (r: Result<Appointment, Failure>)
    ensures r.Ok? <==> (&& InsideHours(w, time) && !DuringLunch(w, time)
                        && !SlotHeld(appts, Slot(doctor.id, date, time), None)
                        && HourLoad(appts, doctor.id, date, Hour(time)) < MaxPerHour)
    ensures r.Ok? ==> r.value == BookedRow(NextId(appts, AppointmentId), patientId, doctor, req, date, time, now)
    ensures r.Err? && r.error.code == 409 <==> InsideHours(w, time) && !DuringLunch(w, time) && SlotHeld(appts, Slot(doctor.id, date, time), None)
    ensures r.Err? ==> r.error.code in {400, 409} && r.error != BadRequest(PastMessage)
  {
    if time < w.start || time >= w.end then Err(BadRequest(HoursMessage(w)))
    else if DuringLunch(w, time) then Err(BadRequest(LunchMessage(w)))
    else if IsSlotHeld(appts, Slot(doctor.id, date, time), None) then
      Err(Conflict("This time slot is already booked. Please choose another time."))
    else if CountInClockHour(appts, doctor.id, date, Hour(time)) >= MaxPerHour then Err(BadRequest(FullHourMessage))
    else Ok(BookedRow(NextId(appts, AppointmentId), patientId, doctor, req, date, time, now))
  }

  /** Once the first open window is known, admissibility is about that window, the slot and the hour. */
  lemma AdmissibleAt(appts: seq<Appointment>, users: seq<User>, windows: seq<Window>, today: Day,
                     doctorId: int, date: Day, time: TimeOfDay, k: nat)
    requires OnOrBefore(today, date) && ActiveDoctor(users, doctorId)
    requires k < |windows| && OpenOn(windows[k], doctorId, date)
    requires forall j :: 0 <= j < k ==> !OpenOn(windows[j], doctorId, date)
    ensures Admissible(appts, users, windows, today, doctorId, date, time) <==>
      (&& InsideHours(windows[k], time) && !DuringLunch(windows[k], time)
       && !SlotHeld(appts, Slot(doctorId, date, time), None)
       && HourLoad(appts, doctorId, date, Hour(time)) < MaxPerHour)
    ensures Conflicting(appts, users, windows, today, doctorId, date, time) <==>
      (InsideHours(windows[k], time) && !DuringLunch(windows[k], time) && SlotHeld(appts, Slot(doctorId, date, time), None))
  {
    forall k' | 0 <= k' < |windows| && OpenOn(windows[k'], doctorId, date)
        && (forall j :: 0 <= j < k' ==> !OpenOn(windows[j], doctorId, date))
      ensures k' == k
    {
      assert k <= k';
      assert k' <= k;
    }
  }

  /** `book_appointment`: a new booked row is appended, or nothing changes. */
  function Book(appts: seq<Appointment>, users: seq<User>, windows: seq<Window>, patientId: nat,
                req: BookingRequest, now: Instant): (r: Result<seq<Appointment>, Failure>)
    ensures !WellFormed(req) ==> r.Err? && r.error.code == 400
    ensures r.Ok? <==> (WellFormed(req)
      && Admissible(appts, users, windows, now.date, req.doctorId.value, RequestedDate(req), RequestedTime(req)))
    ensures r.Ok? ==> |r.value| == |appts| + 1 && r.value[..|appts|] == appts
    ensures r.Ok? ==> var a := r.value[|appts|];
      && a.id == NextId(appts, AppointmentId) && a.patientId == patientId && a.status == Booked
      && a.doctorId == req.doctorId.value && a.date == RequestedDate(req) && a.time == RequestedTime(req)
    ensures r.Ok? ==> var d := FindActiveDoctor(users, req.doctorId.value);
      && d.Some?
      && r.value[|appts|] == BookedRow(NextId(appts, AppointmentId), patientId, users[d.value], req, RequestedDate(req), RequestedTime(req), now)
    ensures r.Err? && r.error.code == 409 <==>
      WellFormed(req) && Conflicting(appts, users, windows, now.date, req.doctorId.value, RequestedDate(req), RequestedTime(req))
    ensures r.Err? && r.error.code == 404 <==>
      WellFormed(req) && OnOrBefore(now.date, RequestedDate(req)) && !ActiveDoctor(users, req.doctorId.value)
    ensures r == Err(BadRequest(PastMessage)) <==> WellFormed(req) && Before(RequestedDate(req), now.date)
    ensures r.Err? ==> r.error.code in {400, 404, 409}
  {
    if !GivenId(req.doctorId) then Err(BadRequest("Doctor ID is required"))
    else if !Given(req.date) then Err(BadRequest("Appointment date is required"))
    else if !Given(req.time) then Err(BadRequest("Appointment time is required"))
    else if !ValidateDate(req.date.value) then Err(BadRequest("Invalid date format (use YYYY-MM-DD)"))
    else if !ValidateTime(req.time.value) then Err(BadRequest("Invalid time format (use HH:MM)"))
    else match Admit(appts, users, windows, patientId, req, now, RequestedDate(req), RequestedTime(req))
      case Err(f) => Err(f)
      case Ok(a) =>
        assert (appts + [a])[..|appts|] == appts;
        Ok(appts + [a])
  }

  /** A successful booking never pushes an hour above the cap: every hour count either stays as it was or is at most 6. */
  lemma BookKeepsHourCap(appts: seq<Appointment>, users: seq<User>, windows: seq<Window>, patientId: nat,
                         req: BookingRequest, now: Instant, doctorId: int, date: Day, h: int)
    requires Book(appts, users, windows, patientId, req, now).Ok?
    ensures var after := Book(appts, users, windows, patientId, req, now).value;
      HourLoad(after, doctorId, date, h) == HourLoad(appts, doctorId, date, h) || HourLoad(after, doctorId, date, h) <= MaxPerHour
  {
    var after := Book(appts, users, windows, patientId, req, now).value;
    var a := after[|appts|];
    assert after == appts + [a] by {
      assert after[..|appts|] == appts;
    }
    assert after[..|after| - 1] == appts;
  }

  /** Booking keeps "at most one booked appointment per (doctor, date, time)". */
  lemma BookKeepsSlotsUnique(appts: seq<Appointment>, users: seq<User>, windows: seq<Window>, patientId: nat,
                             req: BookingRequest, now: Instant)
    requires SlotUnique(appts)
    requires Book(appts, users, windows, patientId, req, now).Ok?
    ensures SlotUnique(Book(appts, users, windows, patientId, req, now).value)
  {
    var after := Book(appts, users, windows, patientId, req, now).value;
    var a := after[|appts|];
    assert !SlotHeld(appts, SlotOf(a), None);
    forall i, j | 0 <= i < j < |after| && after[i].status == Booked && after[j].status == Booked
      ensures SlotOf(after[i]) != SlotOf(after[j])
    {
      assert after[i] == after[..|appts|][i] == appts[i];
      if j < |appts| {
        assert after[j] == after[..|appts|][j] == appts[j];
      }
    }
  }

  /** Only the date matters for the past check: a booking for today is not refused as past at any time of day. */
  lemma BookIgnoresTimeOfDay(appts: seq<Appointment>, users: seq<User>, windows: seq<Window>, patientId: nat,
                             req: BookingRequest, now: Instant, later: Instant)
    requires now.date == later.date
    ensures Book(appts, users, windows, patientId, req, now).Ok? == Book(appts, users, windows, patientId, req, later).Ok?
    ensures WellFormed(req) && RequestedDate(req) == now.date ==>
      Book(appts, users, windows, patientId, req, now) != Err(BadRequest(PastMessage))
  {
    if WellFormed(req) {
      var date, time := RequestedDate(req), RequestedTime(req);
      assert Book(appts, users, windows, patientId, req, now)
          == match Admit(appts, users, windows, patientId, req, now, date, time)
             case Err(f) => Err(f)
             case Ok(a) => Ok(appts + [a]);
    }
  }

  /** A first open window whose start is not before its end admits no time at all. */
  lemma InvertedWindowAdmitsNothing(appts: seq<Appointment>, users: seq<User>, windows: seq<Window>, today: Day,
                                    doctorId: int, date: Day, k: nat, time: TimeOfDay)
    requires k < |windows| && OpenOn(windows[k], doctorId, date)
    requires forall j :: 0 <= j < k ==> !OpenOn(windows[j], doctorId, date)
    requires windows[k].end <= windows[k].start
    ensures !Admissible(appts, users, windows, today, doctorId, date, time)
  {
    forall k' | 0 <= k' < |windows| && OpenOn(windows[k'], doctorId, date)
        && (forall j :: 0 <= j < k' ==> !OpenOn(windows[j], doctorId, date))
      ensures !InsideHours(windows[k'], time)
    {
    }
  }

  /** The lunch break is half open: its start is refused and its end is bookable. */
  lemma LunchIsHalfOpen(w: Window)
    requires w.lunchStart.Some? && w.lunchEnd.Some? && w.lunchStart.value < w.lunchEnd.value
    ensures DuringLunch(w, w.lunchStart.value)
    ensures !DuringLunch(w, w.lunchEnd.value)
  {
  }

  // ------------------------------------------------------------- reschedule_appointment

  /**
   * When a reschedule of appointment `k` to (date, time) is accepted: it is booked, the
   * date is not past, the doctor has some open window that day, and no OTHER booked
   * appointment holds the slot. Window bounds, lunch and the hourly cap are not consulted.
   */
  ghost predicate MayReschedule(appts: seq<Appointment>, windows: seq<Window>, k: nat, today: Day, date: Day, time: TimeOfDay)
    requires k < |appts|
  {
    && appts[k].status == Booked
    && OnOrBefore(today, date)
    && (exists j :: 0 <= j < |windows| && OpenOn(windows[j], appts[k].doctorId, date))
    && !SlotHeld(appts, Slot(appts[k].doctorId, date, time), Some(appts[k].id))
  }

  /** Both new fields are present, non-empty and well formed. */
  predicate NewSlotGiven(date: Option<string>, time: Option<string>) {
    Given(date) && Given(time) && ValidateDate(date.value) && ValidateTime(time.value)
  }

  /** `reschedule_appointment`: only the date and time of the patient's own booked appointment change. */
  function Reschedule(appts: seq<Appointment>, windows: seq<Window>, patientId: nat, appointmentId: nat,
                      date: Option<string>, time: Option<string>, today: Day): (r: Result<seq<Appointment>, Failure>)
    ensures FindAppointment(appts, appointmentId, AsPatient(patientId)).None? ==> r == Err(NotFound("Appointment not found"))
    ensures r.Ok? <==> (var k := FindAppointment(appts, appointmentId, AsPatient(patientId));
      k.Some? && NewSlotGiven(date, time)
      && MayReschedule(appts, windows, k.value, today, ParseDate(date.value).value, ParseClock(time.value).value))
    ensures r.Ok? ==> var k := FindAppointment(appts, appointmentId, AsPatient(patientId)).value;
      && |r.value| == |appts|
      && (forall i :: 0 <= i < |appts| && i != k ==> r.value[i] == appts[i])
      && r.value[k] == appts[k].(date := ParseDate(date.value).value, time := ParseClock(time.value).value)
    ensures r.Err? && r.error.code == 409 ==>
      var k := FindAppointment(appts, appointmentId, AsPatient(patientId));
      k.Some? && NewSlotGiven(date, time) && SlotHeld(appts, Slot(appts[k.value].doctorId, ParseDate(date.value).value, ParseClock(time.value).value), Some(appointmentId))
    ensures (r.Err? && r.error.code == 409)
            <==> (var k := FindAppointment(appts, appointmentId, AsPatient(patientId));
                  && k.Some? && appts[k.value].status == Booked && NewSlotGiven(date, time)
                  && OnOrBefore(today, ParseDate(date.value).value)
                  && FirstOpenWindow(windows, appts[k.value].doctorId, ParseDate(date.value).value).Some?
                  && SlotHeld(appts, Slot(appts[k.value].doctorId, ParseDate(date.value).value, ParseClock(time.value).value), Some(appointmentId)))
    ensures r.Err? ==> r.error.code in {400, 404, 409}
  {
    match FindAppointment(appts, appointmentId, AsPatient(patientId))
    case None => Err(NotFound("Appointment not found"))
    case Some(k) =>
      var a := appts[k];
      if a.status != Booked then Err(BadRequest("Can only reschedule booked appointments"))
      else if !Given(date) || !Given(time) then Err(BadRequest("New date and time are required"))
      else if !ValidateDate(date.value) || !ValidateTime(time.value) then Err(BadRequest("Invalid date or time format"))
      else
        MoveTo(appts, windows, k, today, ParseDate(date.value).value, ParseClock(time.value).value)
  }

  /** The checks on the new date and time of a booked appointment, and the move itself. */
  function MoveTo(appts: seq<Appointment>, windows: seq<Window>, k: nat, today: Day, newDate: Day, newTime: TimeOfDay)
    : (r: Result<seq<Appointment>, Failure>)
    requires k < |appts| && appts[k].status == Booked
    ensures r.Ok? <==> MayReschedule(appts, windows, k, today, newDate, newTime)
    ensures r.Ok? ==> |r.value| == |appts| && r.value[k] == appts[k].(date := newDate, time := newTime)
    ensures r.Ok? ==> forall i :: 0 <= i < |appts| && i != k ==> r.value[i] == appts[i]
    ensures r.Err? && r.error.code == 409 ==> SlotHeld(appts, Slot(appts[k].doctorId, newDate, newTime), Some(appts[k].id))
    ensures (r.Err? && r.error.code == 409)
            <==> (&& OnOrBefore(today, newDate)
                 && FirstOpenWindow(windows, appts[k].doctorId, newDate).Some?
                 && SlotHeld(appts, Slot(appts[k].doctorId, newDate, newTime), Some(appts[k].id)))
    ensures r.Err? ==> r.error.code in {400, 409}
  {
    var a := appts[k];
    if Before(newDate, today) then Err(BadRequest("Cannot reschedule to a past date"))
    else if FirstOpenWindow(windows, a.doctorId, newDate).None? then Err(BadRequest("Doctor is not available on this date"))
    else if IsSlotHeld(appts, Slot(a.doctorId, newDate, newTime), Some(a.id)) then
      Err(Conflict("This time slot is already booked"))
    else Ok(appts[k := a.(date := newDate, time := newTime)])
  }

  /** The hour count after replacing one row: the old row's share is removed and the new row's added. */
  lemma {:induction false} HourLoadUpdate(s: seq<Appointment>, k: nat, b: Appointment, doctorId: int, date: Day, h: int)
    requires k < |s|
    ensures HourLoad(s[k := b], doctorId, date, h)
      == HourLoad(s, doctorId, date, h)
         - (if s[k].status == Booked && s[k].doctorId == doctorId && s[k].date == date && Hour(s[k].time) == h then 1 else 0)
         + (if b.status == Booked && b.doctorId == doctorId && b.date == date && Hour(b.time) == h then 1 else 0)
  {
    var t := s[k := b];
    if k < |s| - 1 {
      assert t[..|t| - 1] == s[..|s| - 1][k := b];
      HourLoadUpdate(s[..|s| - 1], k, b, doctorId, date, h);
    } else {
      assert t[..|t| - 1] == s[..|s| - 1];
    }
  }

  /** Rescheduling skips the hourly cap: moving a booking into a full hour makes it hold seven. */
  lemma RescheduleCanOverfillHour(appts: seq<Appointment>, windows: seq<Window>, patientId: nat, appointmentId: nat,
                                  date: Option<string>, time: Option<string>, today: Day)
    requires Reschedule(appts, windows, patientId, appointmentId, date, time, today).Ok?
    requires var k := FindAppointment(appts, appointmentId, AsPatient(patientId)).value;
      && HourLoad(appts, appts[k].doctorId, ParseDate(date.value).value, Hour(ParseClock(time.value).value)) == MaxPerHour
      && appts[k].date != ParseDate(date.value).value
    ensures var k := FindAppointment(appts, appointmentId, AsPatient(patientId)).value;
      var after := Reschedule(appts, windows, patientId, appointmentId, date, time, today).value;
      HourLoad(after, appts[k].doctorId, ParseDate(date.value).value, Hour(ParseClock(time.value).value)) == MaxPerHour + 1
  {
    var k := FindAppointment(appts, appointmentId, AsPatient(patientId)).value;
    var after := Reschedule(appts, windows, patientId, appointmentId, date, time, today).value;
    assert after == appts[k := after[k]];
    HourLoadUpdate(appts, k, after[k], appts[k].doctorId, ParseDate(date.value).value, Hour(ParseClock(time.value).value));
  }

  /** Rescheduling keeps slots unique when ids are unique (the conflict query excludes the moved row by id). */
  lemma RescheduleKeepsSlotsUnique(appts: seq<Appointment>, windows: seq<Window>, patientId: nat, appointmentId: nat,
                                   date: Option<string>, time: Option<string>, today: Day)
    requires SlotUnique(appts) && DistinctIds(appts, AppointmentId)
    requires Reschedule(appts, windows, patientId, appointmentId, date, time, today).Ok?
    ensures SlotUnique(Reschedule(appts, windows, patientId, appointmentId, date, time, today).value)
  {
    var k := FindAppointment(appts, appointmentId, AsPatient(patientId)).value;
    var after := Reschedule(appts, windows, patientId, appointmentId, date, time, today).value;
    assert !SlotHeld(appts, SlotOf(after[k]), Some(appointmentId));
    forall i, j | 0 <= i < j < |after| && after[i].status == Booked && after[j].status == Booked
      ensures SlotOf(after[i]) != SlotOf(after[j])
    {
      if i == k {
        assert AppointmentId(appts[j]) != AppointmentId(appts[k]);
      } else if j == k {
        assert AppointmentId(appts[i]) != AppointmentId(appts[k]);
      }
    }
  }

  // ------------------------------------------------------------- cancel_appointment

  /** The patient's cancel: a completed or already cancelled appointment is refused; otherwise only the status changes. */
  function PatientCancel(appts: seq<Appointment>, patientId: nat, appointmentId: nat): (r: Result<seq<Appointment>, Failure>)
    ensures FindAppointment(appts, appointmentId, AsPatient(patientId)).None? ==> r == Err(NotFound("Appointment not found"))
    ensures r.Ok? <==> (var k := FindAppointment(appts, appointmentId, AsPatient(patientId)); k.Some? && appts[k.value].status == Booked)
    ensures r.Ok? ==> var k := FindAppointment(appts, appointmentId, AsPatient(patientId)).value;
      && |r.value| == |appts|
      && (forall i :: 0 <= i < |appts| && i != k ==> r.value[i] == appts[i])
      && r.value[k] == appts[k].(status := Cancelled)
    ensures r.Err? ==> r.error.code in {400, 404}
  {
    match FindAppointment(appts, appointmentId, AsPatient(patientId))
    case None => Err(NotFound("Appointment not found"))
    case Some(k) =>
      if appts[k].status == Completed then Err(BadRequest("Cannot cancel a completed appointment"))
      else if appts[k].status == Cancelled then Err(BadRequest("Appointment is already cancelled"))
      else Ok(appts[k := appts[k].(status := Cancelled)])
  }
}
