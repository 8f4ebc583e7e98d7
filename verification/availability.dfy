/**
 * Writing availability windows (backend/app/routes/doctor.py and admin.py): the
 * request fields both upserts share, and the upsert itself, which overwrites the
 * first row for (doctor, date) or appends a new one.
 */
module Availability {
  import opened Wrappers
  import opened Calendar
  import opened TextFormat
  import opened Validators
  import opened Models
  import opened Api

  datatype AvailabilityRequest = AvailabilityRequest(
    date: Option<string>,
    startTime: Option<string>,
    endTime: Option<string>,
    isAvailable: Option<bool>,
    lunchStart: Option<string>,
    lunchEnd: Option<string>)

  /** The request's date and working hours, parsed. */
  datatype Hours = Hours(date: Day, start: TimeOfDay, end: TimeOfDay)

  /** The date and both times are present, non-empty and well formed. */
  predicate HoursGiven(req: AvailabilityRequest) {
    Given(req.date) && ValidateDate(req.date.value)
    && Given(req.startTime) && Given(req.endTime)
    && ValidateTime(req.startTime.value) && ValidateTime(req.endTime.value)
  }

  /** The first four checks of both upserts, in order. Start before end is never required. */
  function ParseHours(req: AvailabilityRequest): (r: Result<Hours, Failure>)
    ensures r.Ok? <==> HoursGiven(req)
    ensures r.Ok? ==> && Some(r.value.date) == ParseDate(req.date.value)
                      && Some(r.value.start) == ParseClock(req.startTime.value)
                      && Some(r.value.end) == ParseClock(req.endTime.value)
    ensures r.Err? ==> r.error.code == 400
  {
    if !Given(req.date) then Err(BadRequest("Date is required"))
    else if !ValidateDate(req.date.value) then Err(BadRequest("Invalid date format (use YYYY-MM-DD)"))
    else if !Given(req.startTime) || !Given(req.endTime) then Err(BadRequest("Start time and end time are required"))
    else if !ValidateTime(req.startTime.value) || !ValidateTime(req.endTime.value) then Err(BadRequest("Invalid time format (use HH:MM)"))
    else Ok(Hours(ParseDate(req.date.value).value, ParseClock(req.startTime.value).value, ParseClock(req.endTime.value).value))
  }

  /** What an overwrite does to the lunch columns: the doctor's upsert sets them, the admin's leaves them. */
  datatype LunchUpdate = SetLunch(start: Option<TimeOfDay>, end: Option<TimeOfDay>) | KeepLunch

  /** The row `r` is `w` with new hours and availability, its lunch per `lunch`. */
  predicate Overwritten(w: Window, r: Window, start: TimeOfDay, end: TimeOfDay, isAvailable: bool, lunch: LunchUpdate) {
    && r.id == w.id && r.doctorId == w.doctorId && r.date == w.date
    && r.start == start && r.end == end && r.isAvailable == isAvailable
    && (lunch.SetLunch? ==> r.lunchStart == lunch.start && r.lunchEnd == lunch.end)
    && (lunch.KeepLunch? ==> r.lunchStart == w.lunchStart && r.lunchEnd == w.lunchEnd)
  }

  /** Overwrite the first row for (doctor, date), or append a new row with the next id. */
  function Upsert(ws: seq<Window>, doctorId: nat, h: Hours, isAvailable: bool, lunch: LunchUpdate): (r: seq<Window>)
    ensures FindWindow(ws, doctorId, h.date).Some? ==>
      var k := FindWindow(ws, doctorId, h.date).value;
      && |r| == |ws|
      && (forall i :: 0 <= i < |ws| && i != k ==> r[i] == ws[i])
      && Overwritten(ws[k], r[k], h.start, h.end, isAvailable, lunch)
    ensures FindWindow(ws, doctorId, h.date).None? ==>
      && |r| == |ws| + 1 && r[..|ws|] == ws
      && r[|ws|].id == NextId(ws, WindowId) && r[|ws|].doctorId == doctorId && r[|ws|].date == h.date
      && r[|ws|].start == h.start && r[|ws|].end == h.end && r[|ws|].isAvailable == isAvailable
      && (lunch.SetLunch? ==> r[|ws|].lunchStart == lunch.start && r[|ws|].lunchEnd == lunch.end)
      && (lunch.KeepLunch? ==> r[|ws|].lunchStart.None? && r[|ws|].lunchEnd.None?)
  {
    match FindWindow(ws, doctorId, h.date)
    case Some(k) =>
      var w := ws[k];
      var lunchStart := if lunch.SetLunch? then lunch.start else w.lunchStart;
      var lunchEnd := if lunch.SetLunch? then lunch.end else w.lunchEnd;
      ws[k := w.(start := h.start, end := h.end, isAvailable := isAvailable, lunchStart := lunchStart, lunchEnd := lunchEnd)]
    case None =>
      var lunchStart := if lunch.SetLunch? then lunch.start else None;
      var lunchEnd := if lunch.SetLunch? then lunch.end else None;
      var r := ws + [Window(NextId(ws, WindowId), doctorId, h.date, h.start, h.end, isAvailable, lunchStart, lunchEnd)];
      assert r[..|ws|] == ws;
      r
  }

  /** After the upsert the first row for (doctor, date) carries the requested hours. */
  lemma UpsertThenFind(ws: seq<Window>, doctorId: nat, h: Hours, isAvailable: bool, lunch: LunchUpdate)
    ensures var r := Upsert(ws, doctorId, h, isAvailable, lunch);
      && FindWindow(r, doctorId, h.date).Some?
      && r[FindWindow(r, doctorId, h.date).value].start == h.start
      && r[FindWindow(r, doctorId, h.date).value].end == h.end
      && r[FindWindow(r, doctorId, h.date).value].isAvailable == isAvailable
  {
    var r := Upsert(ws, doctorId, h, isAvailable, lunch);
    match FindWindow(ws, doctorId, h.date)
    case Some(k) =>
      assert r[k].doctorId == doctorId && r[k].date == h.date;
      assert forall j :: 0 <= j < k ==> r[j] == ws[j];
    case None =>
      assert r[|ws|].doctorId == doctorId && r[|ws|].date == h.date;
      assert forall j :: 0 <= j < |ws| ==> r[j] == r[..|ws|][j] == ws[j];
  }

  /** The upsert leaves every row of another doctor or another date as it was. */
  lemma UpsertKeepsOtherRows(ws: seq<Window>, doctorId: nat, h: Hours, isAvailable: bool, lunch: LunchUpdate)
    ensures var r := Upsert(ws, doctorId, h, isAvailable, lunch);
      && |ws| <= |r|
      && forall i :: 0 <= i < |ws| && !(ws[i].doctorId == doctorId && ws[i].date == h.date) ==> r[i] == ws[i]
  {
    var r := Upsert(ws, doctorId, h, isAvailable, lunch);
    if FindWindow(ws, doctorId, h.date).None? {
      forall i | 0 <= i < |ws| ensures r[i] == ws[i] {
        assert r[i] == r[..|ws|][i];
      }
    }
  }

  /** The upsert keeps at most one row per (doctor, date). */
  lemma UpsertKeepsOneWindowPerDay(ws: seq<Window>, doctorId: nat, h: Hours, isAvailable: bool, lunch: LunchUpdate)
    requires OneWindowPerDay(ws)
    ensures OneWindowPerDay(Upsert(ws, doctorId, h, isAvailable, lunch))
  {
    var r := Upsert(ws, doctorId, h, isAvailable, lunch);
    if FindWindow(ws, doctorId, h.date).None? {
      forall i, j | 0 <= i < j < |r|
        ensures !(r[i].doctorId == r[j].doctorId && r[i].date == r[j].date)
      {
        assert r[i] == r[..|ws|][i] == ws[i];
        if j < |ws| {
          assert r[j] == r[..|ws|][j] == ws[j];
        }
      }
    }
  }

  /** Every stored lunch break lies inside its window's hours. */
  predicate LunchesInside(ws: seq<Window>) {
    forall i :: 0 <= i < |ws| ==> LunchInside(ws[i])
  }

  /** An upsert whose new lunch lies inside the new hours keeps every lunch inside its window. */
  lemma UpsertKeepsLunchesInside(ws: seq<Window>, doctorId: nat, h: Hours, isAvailable: bool, ls: Option<TimeOfDay>, le: Option<TimeOfDay>)
    requires LunchesInside(ws)
    requires ls.Some? && le.Some? ==> h.start <= ls.value && le.value <= h.end && ls.value < le.value
    ensures LunchesInside(Upsert(ws, doctorId, h, isAvailable, SetLunch(ls, le)))
  {
    var r := Upsert(ws, doctorId, h, isAvailable, SetLunch(ls, le));
    if FindWindow(ws, doctorId, h.date).None? {
      forall i | 0 <= i < |r|
        ensures LunchInside(r[i])
      {
        if i < |ws| {
          assert r[i] == r[..|ws|][i] == ws[i];
        }
      }
    }
  }

  /** Removing a row keeps at most one row per (doctor, date). */
  lemma RemoveKeepsOneWindowPerDay(ws: seq<Window>, k: nat)
    requires k < |ws| && OneWindowPerDay(ws)
    ensures OneWindowPerDay(ws[..k] + ws[k + 1..])
  {
    var r := ws[..k] + ws[k + 1..];
    forall i, j | 0 <= i < j < |r|
      ensures !(r[i].doctorId == r[j].doctorId && r[i].date == r[j].date)
    {
      var i' := if i < k then i else i + 1;
      var j' := if j < k then j else j + 1;
      assert r[i] == ws[i'] && r[j] == ws[j'];
    }
  }
}
