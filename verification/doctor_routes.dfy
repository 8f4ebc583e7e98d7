/**
 * The doctor side (backend/app/routes/doctor.py): availability windows, and the
 * transitions a doctor drives on their own appointments.
 */
module DoctorRoutes {
  import opened Wrappers
  import opened Calendar
  import opened TextFormat
  import opened Validators
  import opened Models
  import opened Api
  import opened Availability

  // ------------------------------------------------------------- set_availability

  /** Both lunch strings are present, non-empty and well formed; otherwise the lunch is dropped. */
  predicate LunchGiven(req: AvailabilityRequest) {
    Given(req.lunchStart) && Given(req.lunchEnd) && ValidateTime(req.lunchStart.value) && ValidateTime(req.lunchEnd.value)
  }

  /** The lunch columns the doctor's upsert writes. */
  function DoctorLunch(req: AvailabilityRequest, h: Hours): (r: Result<LunchUpdate, Failure>)
    ensures r.Ok? ==> r.value.SetLunch? && (r.value.start.Some? <==> r.value.end.Some?)
    ensures r.Ok? && r.value.start.Some? ==>
      h.start <= r.value.start.value && r.value.end.value <= h.end && r.value.start.value < r.value.end.value
    ensures r.Ok? && r.value.start.None? <==> !LunchGiven(req)
    ensures r.Ok? && r.value.start.Some? ==>
      Some(r.value.start.value) == ParseClock(req.lunchStart.value) && Some(r.value.end.value) == ParseClock(req.lunchEnd.value)
    ensures r.Err? ==> r.error.code == 400 && LunchGiven(req)
    ensures LunchGiven(req) ==>
      var ls := ParseClock(req.lunchStart.value).value; var le := ParseClock(req.lunchEnd.value).value;
      r.Ok? <==> h.start <= ls && le <= h.end && ls < le
  {
    if Given(req.lunchStart) && Given(req.lunchEnd) && ValidateTime(req.lunchStart.value) && ValidateTime(req.lunchEnd.value) then
      var ls := ParseClock(req.lunchStart.value).value;
      var le := ParseClock(req.lunchEnd.value).value;
      if ls < h.start || le > h.end then Err(BadRequest("Lunch break must be within working hours"))
      else if ls >= le then Err(BadRequest("Lunch break start must be before end time"))
      else Ok(SetLunch(Some(ls), Some(le)))
    else Ok(SetLunch(None, None))
  }

  /** `set_availability`: the doctor's upsert for one date, lunch included. */
  function SetAvailability(ws: seq<Window>, doctorId: nat, req: AvailabilityRequest): (r: Result<seq<Window>, Failure>)
    ensures r.Ok? <==> ParseHours(req).Ok? && DoctorLunch(req, ParseHours(req).value).Ok?
    ensures r.Ok? ==> r.value == Upsert(ws, doctorId, ParseHours(req).value, req.isAvailable.GetOr(true), DoctorLunch(req, ParseHours(req).value).value)
    ensures r.Ok? ==> HoursGiven(req)
    ensures r.Err? ==> r.error.code == 400
    ensures r.Ok? && OneWindowPerDay(ws) ==> OneWindowPerDay(r.value)
    ensures r.Ok? && LunchesInside(ws) ==> LunchesInside(r.value)
    ensures r.Ok? ==> var h := ParseHours(req).value; var k := FindWindow(r.value, doctorId, h.date);
      && k.Some? && r.value[k.value].start == h.start && r.value[k.value].end == h.end
      && r.value[k.value].isAvailable == req.isAvailable.GetOr(true)
    ensures r.Ok? && !LunchGiven(req) ==> var h := ParseHours(req).value; var k := FindWindow(r.value, doctorId, h.date);
      k.Some? && r.value[k.value].lunchStart.None? && r.value[k.value].lunchEnd.None?
    ensures r.Ok? && LunchGiven(req) ==> var h := ParseHours(req).value; var k := FindWindow(r.value, doctorId, h.date);
      && k.Some? && r.value[k.value].lunchStart == ParseClock(req.lunchStart.value)
      && r.value[k.value].lunchEnd == ParseClock(req.lunchEnd.value)
    ensures r.Ok? ==> var h := ParseHours(req).value;
      && |ws| <= |r.value| <= |ws| + 1
      && forall i :: 0 <= i < |ws| && !(ws[i].doctorId == doctorId && ws[i].date == h.date) ==> r.value[i] == ws[i]
  {
    match ParseHours(req)
    case Err(f) => Err(f)
    case Ok(h) =>
      match DoctorLunch(req, h)
      case Err(f) => Err(f)
      case Ok(lunch) =>
        var isAvailable := req.isAvailable.GetOr(true);
        var r := Upsert(ws, doctorId, h, isAvailable, lunch);
        UpsertThenFind(ws, doctorId, h, isAvailable, lunch);
        UpsertLunchAtFound(ws, doctorId, h, isAvailable, lunch);
        DoctorUpsertInvariants(ws, doctorId, h, isAvailable, lunch.start, lunch.end);
        UpsertKeepsOtherRows(ws, doctorId, h, isAvailable, lunch);
        Ok(r)
  }

  /** After an upsert that sets the lunch, the row found for (doctor, date) carries that lunch. */
  lemma UpsertLunchAtFound(ws: seq<Window>, doctorId: nat, h: Hours, isAvailable: bool, lunch: LunchUpdate)
    requires lunch.SetLunch?
    ensures var r := Upsert(ws, doctorId, h, isAvailable, lunch); var k := FindWindow(r, doctorId, h.date);
      k.Some? && r[k.value].lunchStart == lunch.start && r[k.value].lunchEnd == lunch.end
  {
    var r := Upsert(ws, doctorId, h, isAvailable, lunch);
    match FindWindow(ws, doctorId, h.date)
    case Some(k) =>
      assert r[k].doctorId == doctorId && r[k].date == h.date;
      assert forall j :: 0 <= j < k ==> r[j] == ws[j];
    case None =>
      assert r[|ws|].doctorId == doctorId && r[|ws|].date == h.date;
      assert forall j :: 0 <= j < |ws| ==> r[j] == r[..|ws|][j] == ws[j];
  }

  /** The doctor's upsert keeps one row per (doctor, date), and keeps lunches inside hours when the new lunch is. */
  lemma DoctorUpsertInvariants(ws: seq<Window>, doctorId: nat, h: Hours, isAvailable: bool, ls: Option<TimeOfDay>, le: Option<TimeOfDay>)
    requires ls.Some? && le.Some? ==> h.start <= ls.value && le.value <= h.end && ls.value < le.value
    ensures OneWindowPerDay(ws) ==> OneWindowPerDay(Upsert(ws, doctorId, h, isAvailable, SetLunch(ls, le)))
    ensures LunchesInside(ws) ==> LunchesInside(Upsert(ws, doctorId, h, isAvailable, SetLunch(ls, le)))
  {
    if OneWindowPerDay(ws) {
      UpsertKeepsOneWindowPerDay(ws, doctorId, h, isAvailable, SetLunch(ls, le));
    }
    if LunchesInside(ws) {
      UpsertKeepsLunchesInside(ws, doctorId, h, isAvailable, ls, le);
    }
  }

  // ------------------------------------------------------------- set_bulk_availability

  /** Some row of the doctor falls on the day `offset` days after `today`. */
  ghost predicate HasWindowOn(ws: seq<Window>, doctorId: nat, today: Day, offset: int) {
    exists k :: 0 <= k < |ws| && ws[k].doctorId == doctorId && Ordinal(ws[k].date) == Ordinal(today) + offset
  }

  /** A row the bulk fill creates: the given hours, available, no lunch, on one of the seven days, a day the doctor had no row for. */
  predicate BulkRow(w: Window, ws: seq<Window>, doctorId: nat, today: Day, start: TimeOfDay, end: TimeOfDay) {
    && w.doctorId == doctorId && w.start == start && w.end == end && w.isAvailable
    && w.lunchStart.None? && w.lunchEnd.None?
    && Ordinal(today) <= Ordinal(w.date) < Ordinal(today) + 7
    && FindWindow(ws, doctorId, w.date).None?
  }

  /**
   * `set_bulk_availability`: a window for each of today and the six following days on
   * which the doctor has none; existing rows are never touched. `created` is the count
   * the response reports.
   */
  method BulkAvailability(ws: seq<Window>, doctorId: nat, startTime: Option<string>, endTime: Option<string>, today: Day)
    returns (r: Result<seq<Window>, Failure>, created: nat)
    ensures !(Given(startTime) && Given(endTime)) ==> r == Err(BadRequest("Start time and end time are required"))
    ensures r.Ok? ==> Given(startTime) && Given(endTime) && ValidateTime(startTime.value) && ValidateTime(endTime.value)
    ensures r.Err? ==> created == 0
    ensures r.Err? && r.error.code == 500 ==> Ordinal(today) + 6 > Ordinal(LastDay)
    ensures r.Ok? ==> |r.value| == |ws| + created && r.value[..|ws|] == ws && created <= 7
    ensures r.Ok? ==> forall i :: 0 <= i < 7 ==> HasWindowOn(r.value, doctorId, today, i)
    ensures r.Ok? ==> forall k :: |ws| <= k < |r.value| ==>
      BulkRow(r.value[k], ws, doctorId, today, ParseClock(startTime.value).value, ParseClock(endTime.value).value)
    ensures r.Ok? && OneWindowPerDay(ws) ==> OneWindowPerDay(r.value)
    ensures r.Ok? ==> DaysFrom(today, 7).Some? && created == MissingDays(ws, doctorId, DaysFrom(today, 7).value)
    ensures (Given(startTime) && Given(endTime) && ValidateTime(startTime.value) && ValidateTime(endTime.value)
             && Ordinal(today) + 6 <= Ordinal(LastDay)) ==> r.Ok?
  {
    created := 0;
    if !Given(startTime) || !Given(endTime) {
      return Err(BadRequest("Start time and end time are required")), 0;
    }
    if !ValidateTime(startTime.value) || !ValidateTime(endTime.value) {
      return Err(BadRequest("Invalid time format (use HH:MM)")), 0;
    }
    var start := ParseClock(startTime.value).value;
    var end := ParseClock(endTime.value).value;
    var days := DaysFrom(today, 7);
    if days.None? {
      return Err(ServerError("date value out of range")), 0;
    }
    var out;
    out, created := FillDays(ws, doctorId, days.value, today, start, end);
    return Ok(out), created;
  }

  /** The loop of the bulk fill over the seven consecutive days starting today. */
  method FillDays(ws: seq<Window>, doctorId: nat, days: seq<Day>, today: Day, start: TimeOfDay, end: TimeOfDay)
    returns (out: seq<Window>, created: nat)
    requires |days| == 7 && forall i :: 0 <= i < 7 ==> Ordinal(days[i]) == Ordinal(today) + i
    ensures |out| == |ws| + created && out[..|ws|] == ws && created <= 7
    ensures forall i :: 0 <= i < 7 ==> HasWindowOn(out, doctorId, today, i)
    ensures forall k :: |ws| <= k < |out| ==> BulkRow(out[k], ws, doctorId, today, start, end)
    ensures OneWindowPerDay(ws) ==> OneWindowPerDay(out)
    ensures created == MissingDays(ws, doctorId, days)
  {
    out := ws;
    created := 0;
    var i := 0;
    while i < 7
      invariant 0 <= i <= 7
      invariant |out| == |ws| + created && out[..|ws|] == ws && created <= i
      invariant forall j :: 0 <= j < i ==> HasWindowOn(out, doctorId, today, j)
      invariant forall k :: |ws| <= k < |out| ==> BulkRow(out[k], ws, doctorId, today, start, end) && Ordinal(out[k].date) < Ordinal(today) + i
      invariant OneWindowPerDay(ws) ==> OneWindowPerDay(out)
      invariant created == MissingDays(ws, doctorId, days[..i])
    {
      var d := days[i];
      CountStep(ws, out, doctorId, days, today, i);
      if FindWindow(out, doctorId, d).None? {
        var w := Window(NextId(out, WindowId), doctorId, d, start, end, true, None, None);
        FillStep(ws, out, w, doctorId, today, start, end, i);
        out := out + [w];
        created := created + 1;
      } else {
        var k := FindWindow(out, doctorId, d).value;
        assert out[k].doctorId == doctorId && Ordinal(out[k].date) == Ordinal(today) + i;
      }
      i := i + 1;
    }
    assert days[..7] == days;
  }

  /** How many of `days` the doctor has no row for in `ws`: the rows the bulk fill creates. */
  function MissingDays(ws: seq<Window>, doctorId: nat, days: seq<Day>): (n: nat)
    ensures n <= |days|
  {
    if |days| == 0 then 0
    else MissingDays(ws, doctorId, days[..|days| - 1]) + (if FindWindow(ws, doctorId, days[|days| - 1]).None? then 1 else 0)
  }

  /** Day `i` is counted as missing exactly when the fill finds no row for it, since the rows added so far lie on earlier days. */
  lemma CountStep(ws: seq<Window>, out: seq<Window>, doctorId: nat, days: seq<Day>, today: Day, i: nat)
    requires i < |days| && |ws| <= |out| && out[..|ws|] == ws
    requires Ordinal(days[i]) == Ordinal(today) + i
    requires forall k :: |ws| <= k < |out| ==> Ordinal(out[k].date) < Ordinal(today) + i
    ensures MissingDays(ws, doctorId, days[..i + 1])
            == MissingDays(ws, doctorId, days[..i]) + (if FindWindow(out, doctorId, days[i]).None? then 1 else 0)
  {
    assert days[..i + 1][..i] == days[..i];
    MissingInPrefix(ws, out, doctorId, days[i]);
  }

  /** Rows appended on other dates do not change whether a date has a row. */
  lemma MissingInPrefix(ws: seq<Window>, out: seq<Window>, doctorId: nat, d: Day)
    requires |ws| <= |out| && out[..|ws|] == ws
    requires forall k :: |ws| <= k < |out| ==> out[k].date != d
    ensures FindWindow(out, doctorId, d).None? <==> FindWindow(ws, doctorId, d).None?
  {
    assert forall k :: 0 <= k < |ws| ==> out[k] == out[..|ws|][k];
    if FindWindow(ws, doctorId, d).Some? {
      var j := FindWindow(ws, doctorId, d).value;
      assert out[j] == ws[j];
    }
  }

  /** One step of the bulk fill: the appended row for day `i` keeps every loop fact and covers day `i`. */
  lemma FillStep(ws: seq<Window>, out: seq<Window>, w: Window, doctorId: nat, today: Day,
                 start: TimeOfDay, end: TimeOfDay, i: nat)
    requires i < 7 && |ws| <= |out| && out[..|ws|] == ws
    requires w.doctorId == doctorId && w.start == start && w.end == end && w.isAvailable
    requires w.lunchStart.None? && w.lunchEnd.None? && Ordinal(w.date) == Ordinal(today) + i
    requires FindWindow(out, doctorId, w.date).None?
    requires forall j :: 0 <= j < i ==> HasWindowOn(out, doctorId, today, j)
    requires forall k :: |ws| <= k < |out| ==> BulkRow(out[k], ws, doctorId, today, start, end) && Ordinal(out[k].date) < Ordinal(today) + i
    requires OneWindowPerDay(ws) ==> OneWindowPerDay(out)
    ensures (out + [w])[..|ws|] == ws
    ensures forall j :: 0 <= j <= i ==> HasWindowOn(out + [w], doctorId, today, j)
    ensures forall k :: |ws| <= k < |out + [w]| ==>
      BulkRow((out + [w])[k], ws, doctorId, today, start, end) && Ordinal((out + [w])[k].date) < Ordinal(today) + i + 1
    ensures OneWindowPerDay(ws) ==> OneWindowPerDay(out + [w])
  {
    FreshWindowFacts(ws, out, w);
    forall j | 0 <= j < i
      ensures HasWindowOn(out + [w], doctorId, today, j)
    {
      assert HasWindowOn(out, doctorId, today, j);
      var k :| 0 <= k < |out| && out[k].doctorId == doctorId && Ordinal(out[k].date) == Ordinal(today) + j;
      assert (out + [w])[k] == out[k];
    }
    assert (out + [w])[|out|] == w;
  }

  /** Appending a row for a (doctor, date) that has none keeps the prefix, the earlier rows and one row per day. */
  lemma FreshWindowFacts(ws: seq<Window>, out: seq<Window>, w: Window)
    requires |ws| <= |out| && out[..|ws|] == ws
    requires FindWindow(out, w.doctorId, w.date).None?
    ensures (out + [w])[..|ws|] == ws
    ensures forall k :: 0 <= k < |out| ==> (out + [w])[k] == out[k]
    ensures (out + [w])[|out|] == w
    ensures FindWindow(ws, w.doctorId, w.date).None?
    ensures OneWindowPerDay(out) ==> OneWindowPerDay(out + [w])
  {
    assert (out + [w])[..|out|] == out;
    assert forall k :: 0 <= k < |ws| ==> ws[k] == out[k];
  }

  // ------------------------------------------------------------- update and delete one window

  /** `update_availability`: a present key must hold a well-formed time; only hours and availability change, never the lunch. */
  function UpdateWindow(ws: seq<Window>, doctorId: nat, windowId: nat,
                        startTime: Option<string>, endTime: Option<string>, isAvailable: Option<bool>): (r: Result<seq<Window>, Failure>)
    ensures FindDoctorWindow(ws, windowId, doctorId).None? ==> r == Err(NotFound("Availability not found"))
    ensures r.Ok? <==> (FindDoctorWindow(ws, windowId, doctorId).Some?
      && (startTime.Some? ==> ValidateTime(startTime.value)) && (endTime.Some? ==> ValidateTime(endTime.value)))
    ensures r.Ok? ==> var k := FindDoctorWindow(ws, windowId, doctorId).value;
      && |r.value| == |ws|
      && (forall i :: 0 <= i < |ws| && i != k ==> r.value[i] == ws[i])
      && r.value[k].id == ws[k].id && r.value[k].doctorId == ws[k].doctorId && r.value[k].date == ws[k].date
      && r.value[k].lunchStart == ws[k].lunchStart && r.value[k].lunchEnd == ws[k].lunchEnd
      && (startTime.Some? ==> Some(r.value[k].start) == ParseClock(startTime.value))
      && (startTime.None? ==> r.value[k].start == ws[k].start)
      && (endTime.Some? ==> Some(r.value[k].end) == ParseClock(endTime.value))
      && (endTime.None? ==> r.value[k].end == ws[k].end)
      && r.value[k].isAvailable == isAvailable.GetOr(ws[k].isAvailable)
  {
    match FindDoctorWindow(ws, windowId, doctorId)
    case None => Err(NotFound("Availability not found"))
    case Some(k) =>
      if startTime.Some? && !ValidateTime(startTime.value) then Err(BadRequest("Invalid start time format (use HH:MM)"))
      else if endTime.Some? && !ValidateTime(endTime.value) then Err(BadRequest("Invalid end time format (use HH:MM)"))
      else
        var w := ws[k];
        var start := if startTime.Some? then ParseClock(startTime.value).value else w.start;
        var end := if endTime.Some? then ParseClock(endTime.value).value else w.end;
        Ok(ws[k := w.(start := start, end := end, isAvailable := isAvailable.GetOr(w.isAvailable))])
  }

  /** `update_availability` does not re-check the lunch: moving the end before a stored lunch leaves that lunch outside the hours. */
  lemma UpdateWindowCanStrandLunch(ws: seq<Window>, doctorId: nat, windowId: nat, endTime: string)
    requires FindDoctorWindow(ws, windowId, doctorId).Some?
    requires var w := ws[FindDoctorWindow(ws, windowId, doctorId).value];
      w.lunchStart.Some? && w.lunchEnd.Some? && w.start <= w.lunchStart.value
    requires var w := ws[FindDoctorWindow(ws, windowId, doctorId).value];
      ParseClock(endTime).Some? && ParseClock(endTime).value < w.lunchEnd.value
    ensures UpdateWindow(ws, doctorId, windowId, None, Some(endTime), None).Ok?
    ensures !LunchesInside(UpdateWindow(ws, doctorId, windowId, None, Some(endTime), None).value)
  {
    var k := FindDoctorWindow(ws, windowId, doctorId).value;
    assert !LunchInside(UpdateWindow(ws, doctorId, windowId, None, Some(endTime), None).value[k]);
  }

  /** `delete_availability` (and the admin's delete, which takes the doctor from the URL): exactly that row is removed. */
  function DeleteWindow(ws: seq<Window>, doctorId: nat, windowId: nat): (r: Result<seq<Window>, Failure>)
    ensures r.Err? <==> FindDoctorWindow(ws, windowId, doctorId).None?
    ensures r.Err? ==> r == Err(NotFound("Availability not found"))
    ensures r.Ok? ==> var k := FindDoctorWindow(ws, windowId, doctorId).value;
      |r.value| == |ws| - 1 && r.value[..k] == ws[..k] && r.value[k..] == ws[k + 1..]
    ensures r.Ok? && OneWindowPerDay(ws) ==> OneWindowPerDay(r.value)
  {
    match FindDoctorWindow(ws, windowId, doctorId)
    case None => Err(NotFound("Availability not found"))
    case Some(k) =>
      var r := ws[..k] + ws[k + 1..];
      assert r[..k] == ws[..k] && r[k..] == ws[k + 1..];
      if OneWindowPerDay(ws) then RemoveKeepsOneWindowPerDay(ws, k); Ok(r) else Ok(r)
  }

  // ------------------------------------------------------------- the doctor's appointment transitions

  /** Only row `k` changes, and it becomes `b`. */
  predicate ChangedOnly(before: seq<Appointment>, after: seq<Appointment>, k: nat, b: Appointment) {
    |after| == |before| && k < |before| && after[k] == b
    && forall i :: 0 <= i < |before| && i != k ==> after[i] == before[i]
  }

  /** `complete_appointment`: only a booked appointment of this doctor becomes completed. */
  function Complete(appts: seq<Appointment>, doctorId: nat, appointmentId: nat): (r: Result<seq<Appointment>, Failure>)
    ensures FindAppointment(appts, appointmentId, AsDoctor(doctorId)).None? ==> r == Err(NotFound("Appointment not found"))
    ensures r.Ok? <==> (var k := FindAppointment(appts, appointmentId, AsDoctor(doctorId)); k.Some? && appts[k.value].status == Booked)
    ensures r.Ok? ==> var k := FindAppointment(appts, appointmentId, AsDoctor(doctorId)).value;
      ChangedOnly(appts, r.value, k, appts[k].(status := Completed))
    ensures r.Err? ==> r.error.code in {400, 404}
  {
    match FindAppointment(appts, appointmentId, AsDoctor(doctorId))
    case None => Err(NotFound("Appointment not found"))
    case Some(k) =>
      if appts[k].status == Completed then Err(BadRequest("Appointment already completed"))
      else if appts[k].status == Cancelled then Err(BadRequest("Cannot complete a cancelled appointment"))
      else Ok(appts[k := appts[k].(status := Completed)])
  }

  /** The doctor's `cancel_appointment`: refuses only a completed appointment; an already cancelled one stays cancelled. */
  function DoctorCancel(appts: seq<Appointment>, doctorId: nat, appointmentId: nat): (r: Result<seq<Appointment>, Failure>)
    ensures FindAppointment(appts, appointmentId, AsDoctor(doctorId)).None? ==> r == Err(NotFound("Appointment not found"))
    ensures r.Ok? <==> (var k := FindAppointment(appts, appointmentId, AsDoctor(doctorId)); k.Some? && appts[k.value].status != Completed)
    ensures r.Ok? ==> var k := FindAppointment(appts, appointmentId, AsDoctor(doctorId)).value;
      ChangedOnly(appts, r.value, k, appts[k].(status := Cancelled))
    ensures r.Err? ==> r.error.code in {400, 404}
  {
    match FindAppointment(appts, appointmentId, AsDoctor(doctorId))
    case None => Err(NotFound("Appointment not found"))
    case Some(k) =>
      if appts[k].status == Completed then Err(BadRequest("Cannot cancel a completed appointment"))
      else Ok(appts[k := appts[k].(status := Cancelled)])
  }

  // ------------------------------------------------------------- add_treatment

  datatype TreatmentRequest = TreatmentRequest(
    diagnosis: Option<string>,
    prescription: Option<string>,
    notes: Option<string>,
    nextVisitDate: Option<string>)

  /** A present next-visit date is well formed. */
  predicate NextVisitOk(req: TreatmentRequest) {
    Given(req.nextVisitDate) ==> ParseDate(req.nextVisitDate.value).Some?
  }

  /**
   * `add_treatment`: writes the appointment's one treatment (replacing the fields of an
   * existing one) and forces the status to completed whatever it was.
   */
  function AddTreatment(appts: seq<Appointment>, doctorId: nat, appointmentId: nat, req: TreatmentRequest): (r: Result<seq<Appointment>, Failure>)
    ensures FindAppointment(appts, appointmentId, AsDoctor(doctorId)).None? ==> r == Err(NotFound("Appointment not found"))
    ensures r.Ok? <==> (FindAppointment(appts, appointmentId, AsDoctor(doctorId)).Some? && Given(req.diagnosis) && NextVisitOk(req))
    ensures r.Ok? ==> var k := FindAppointment(appts, appointmentId, AsDoctor(doctorId)).value;
      && |r.value| == |appts|
      && ChangedOnly(appts, r.value, k, appts[k].(status := Completed, treatment := r.value[k].treatment))
      && r.value[k].treatment.Some?
      && r.value[k].treatment.value.diagnosis == req.diagnosis.value
      && r.value[k].treatment.value.prescription == req.prescription.GetOr("")
      && r.value[k].treatment.value.notes == req.notes.GetOr("")
    ensures r.Ok? ==> var k := FindAppointment(appts, appointmentId, AsDoctor(doctorId)).value;
      var t := r.value[k].treatment.value;
      && (Given(req.nextVisitDate) ==> t.nextVisit == ParseDate(req.nextVisitDate.value))
      && (!Given(req.nextVisitDate) && appts[k].treatment.Some? ==> t.nextVisit == appts[k].treatment.value.nextVisit)
      && (!Given(req.nextVisitDate) && appts[k].treatment.None? ==> t.nextVisit.None?)
  {
    match FindAppointment(appts, appointmentId, AsDoctor(doctorId))
    case None => Err(NotFound("Appointment not found"))
    case Some(k) =>
      if !Given(req.diagnosis) then Err(BadRequest("Diagnosis is required"))
      else if Given(req.nextVisitDate) && ParseDate(req.nextVisitDate.value).None? then
        Err(BadRequest("Invalid date format (use YYYY-MM-DD)"))
      else
        var a := appts[k];
        var nextVisit :=
          if Given(req.nextVisitDate) then ParseDate(req.nextVisitDate.value)
          else if a.treatment.Some? then a.treatment.value.nextVisit
          else None;
        var t := Treatment(req.diagnosis.value, req.prescription.GetOr(""), req.notes.GetOr(""), nextVisit);
        Ok(appts[k := a.(treatment := Some(t), status := Completed)])
  }

  // ------------------------------------------------------------- add_patient_history

  datatype HistoryRequest = HistoryRequest(
    diagnosis: Option<string>,
    visitDate: Option<string>,
    notes: Option<string>,
    prescription: Option<string>,
    tests: Option<string>,
    nextVisit: Option<string>)

  const MaxHistoryReason := 50

  /** Python's `s[:n]`. */
  function Truncate(s: string, n: nat): (r: string)
    ensures |r| <= n && r <= s
    ensures |s| <= n ==> r == s
    ensures |s| > n ==> |r| == n
  {
    if |s| <= n then s else s[..n]
  }

  /**
   * The row `add_patient_history` stores: a completed appointment dated on the visit
   * date, at the current time of day, carrying the treatment. An unparseable
   * next-visit date is ignored rather than refused.
   */
  function HistoryRow(id: nat, patientId: nat, doctorId: nat, visit: Day, req: HistoryRequest, now: Instant): (a: Appointment)
    requires Given(req.diagnosis)
    ensures a.id == id && a.patientId == patientId && a.doctorId == doctorId
    ensures a.status == Completed && a.date == visit && a.time == now.time
    ensures a.reason.Some? && |a.reason.value| <= MaxHistoryReason && a.reason.value <= req.notes.GetOr("Follow-up consultation")
    ensures a.reason.value == Truncate(req.notes.GetOr("Follow-up consultation"), MaxHistoryReason)
    ensures a.treatment.Some? && a.treatment.value.diagnosis == req.diagnosis.value
    ensures a.treatment.value.prescription == req.prescription.GetOr("")
    ensures req.notes.GetOr("") <= a.treatment.value.notes
    ensures Given(req.tests) ==> a.treatment.value.notes == req.notes.GetOr("") + "\n\nLab Tests: " + req.tests.value
    ensures !Given(req.tests) ==> a.treatment.value.notes == req.notes.GetOr("")
    ensures Given(req.nextVisit) ==> a.treatment.value.nextVisit == ParseDate(req.nextVisit.value)
    ensures !Given(req.nextVisit) ==> a.treatment.value.nextVisit.None?
  {
    var notes := req.notes.GetOr("")
      + (if Given(req.tests) then "\n\nLab Tests: " + req.tests.value else "");
    var nextVisit := if Given(req.nextVisit) then ParseDate(req.nextVisit.value) else None;
    NewAppointment(id, patientId, doctorId, visit, now.time).(
      status := Completed,
      reason := Some(Truncate(req.notes.GetOr("Follow-up consultation"), MaxHistoryReason)),
      treatment := Some(Treatment(req.diagnosis.value, req.prescription.GetOr(""), notes, nextVisit)))
  }

  /** `add_patient_history`: the patient must exist, and a diagnosis and a parseable visit date are required. */
  function AddPatientHistory(appts: seq<Appointment>, users: seq<User>, doctorId: nat, patientId: nat,
                             req: HistoryRequest, now: Instant): (r: Result<seq<Appointment>, Failure>)
    ensures FindUserWithRole(users, patientId, Patient).None? ==> r == Err(NotFound("Patient not found"))
    ensures r.Ok? <==> (FindUserWithRole(users, patientId, Patient).Some? && Given(req.diagnosis) && Given(req.visitDate)
      && ParseDate(req.visitDate.value).Some?)
    ensures r.Ok? ==> |r.value| == |appts| + 1 && r.value[..|appts|] == appts
    ensures r.Ok? ==> r.value[|appts|] == HistoryRow(NextId(appts, AppointmentId), patientId, doctorId, ParseDate(req.visitDate.value).value, req, now)
  {
    if FindUserWithRole(users, patientId, Patient).None? then Err(NotFound("Patient not found"))
    else if !Given(req.diagnosis) then Err(BadRequest("Diagnosis is required"))
    else if !Given(req.visitDate) then Err(BadRequest("Visit date is required"))
    else match ParseDate(req.visitDate.value)
      case None => Err(BadRequest("Invalid date format (use YYYY-MM-DD)"))
      case Some(visit) =>
        var a := HistoryRow(NextId(appts, AppointmentId), patientId, doctorId, visit, req, now);
        assert (appts + [a])[..|appts|] == appts;
        Ok(appts + [a])
  }

}
