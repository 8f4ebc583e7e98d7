/**
 * The database records of the hospital backend (backend/app/models) as immutable
 * datatypes, their column defaults, and the JSON views their `to_dict` methods build.
 *
 * A table is a sequence of rows in primary-key order; a query's `.first()` without
 * ORDER BY is the earliest matching row. SQLite gives a new row the id one greater
 * than the largest id in the table, which `NextId` reproduces.
 */
module Models {
  import opened Wrappers
  import opened Calendar
  import opened TextFormat

  // ------------------------------------------------------------- appointments

  datatype Status = Booked | Completed | Cancelled

  function StatusText(s: Status): string {
    match s
    case Booked => "booked"
    case Completed => "completed"
    case Cancelled => "cancelled"
  }

  /** The three status strings the backend writes; anything else is refused. */
  function ParseStatus(s: string): (r: Option<Status>)
    ensures r.Some? ==> StatusText(r.value) == s
    ensures forall st: Status :: s == StatusText(st) ==> r == Some(st)
  {
    if s == "booked" then Some(Booked)
    else if s == "completed" then Some(Completed)
    else if s == "cancelled" then Some(Cancelled)
    else None
  }

  /** A Treatment row; it belongs to exactly one appointment and is deleted with it. */
  datatype Treatment = Treatment(diagnosis: string, prescription: string, notes: string, nextVisit: Option<Day>)

  /** Fees are held in cents: NUMERIC(10, 2) scaled by 100. */
  const DefaultFee := 50000
  const DefaultPaymentStatus := "pending"

  datatype Appointment = Appointment(
    id: nat,
    patientId: nat,
    doctorId: nat,
    date: Day,
    time: TimeOfDay,
    status: Status,
    reason: Option<string>,
    fee: Option<int>,
    paymentStatus: Option<string>,
    paymentMethod: Option<string>,
    transactionId: Option<string>,
    refundStatus: Option<string>,
    refundDate: Option<Day>,
    treatment: Option<Treatment>)

  /** `Appointment(patient_id=.., doctor_id=.., appointment_date=.., appointment_time=..)`: every other column takes its default. */
  function NewAppointment(id: nat, patientId: nat, doctorId: nat, date: Day, time: TimeOfDay): (a: Appointment)
    ensures a.id == id && a.patientId == patientId && a.doctorId == doctorId && a.date == date && a.time == time
    ensures a.status == Booked
    ensures a.fee == Some(DefaultFee) && a.paymentStatus == Some(DefaultPaymentStatus)
    ensures a.reason.None? && a.paymentMethod.None? && a.transactionId.None?
    ensures a.refundStatus.None? && a.refundDate.None? && a.treatment.None?
  {
    Appointment(id, patientId, doctorId, date, time, Booked, None, Some(DefaultFee),
      Some(DefaultPaymentStatus), None, None, None, None, None)
  }

  /** The (doctor, date, time) a booked appointment occupies. */
  datatype Slot = Slot(doctorId: nat, date: Day, time: TimeOfDay)

  function SlotOf(a: Appointment): Slot {
    Slot(a.doctorId, a.date, a.time)
  }

  /** At most one `booked` appointment per (doctor, date, time). */
  predicate SlotUnique(s: seq<Appointment>) {
    forall i, j :: 0 <= i < j < |s| && s[i].status == Booked && s[j].status == Booked ==> SlotOf(s[i]) != SlotOf(s[j])
  }

  /** No two rows share an id. */
  predicate DistinctIds<T>(s: seq<T>, id: T -> nat) {
    forall i, j :: 0 <= i < j < |s| ==> id(s[i]) != id(s[j])
  }

  /** The id SQLite assigns to the next row: one more than the largest id present. */
  function NextId<T>(s: seq<T>, id: T -> nat): (r: nat)
    ensures r >= 1
    ensures forall i :: 0 <= i < |s| ==> id(s[i]) < r
  {
    if |s| == 0 then 1
    else
      var rest := NextId(s[..|s| - 1], id);
      var last := id(s[|s| - 1]);
      assert forall i :: 0 <= i < |s| - 1 ==> s[..|s| - 1][i] == s[i];
      if last < rest then rest else last + 1
  }

  function AppointmentId(a: Appointment): nat { a.id }

  /** Whose appointments a lookup may return: `filter_by(id=.., patient_id=..)`, `filter_by(id=.., doctor_id=..)` or `query.get(id)`. */
  datatype Party = AsPatient(patientId: nat) | AsDoctor(doctorId: nat) | AsAnyone

  predicate Involves(a: Appointment, who: Party) {
    match who
    case AsPatient(p) => a.patientId == p
    case AsDoctor(d) => a.doctorId == d
    case AsAnyone => true
  }

  /**
   * `.first()` on a filtered query over a table kept in rowid order: the
   * position of the earliest row satisfying `p`, or None when no row does.
   */
  function FirstMatch<T>(s: seq<T>, p: T -> bool): (r: Option<nat>)
    ensures r.Some? ==> r.value < |s| && p(s[r.value])
    ensures r.Some? ==> forall k :: 0 <= k < r.value ==> !p(s[k])
    ensures r.None? <==> forall k :: 0 <= k < |s| ==> !p(s[k])
  {
    if |s| == 0 then None
    else if p(s[0]) then Some(0)
    else
      var r := FirstMatch(s[1..], p);
      assert forall k :: 1 <= k < |s| ==> s[1..][k - 1] == s[k];
      if r.Some? then Some(r.value + 1) else None
  }

  /** Position of the first row with the given id that the party may see. */
  function FindAppointment(s: seq<Appointment>, id: int, who: Party): (r: Option<nat>)
    ensures r.Some? ==> r.value < |s| && s[r.value].id == id && Involves(s[r.value], who)
    ensures r.None? ==> forall k :: 0 <= k < |s| ==> !(s[k].id == id && Involves(s[k], who))
  {
    FirstMatch(s, (a: Appointment) => a.id == id && Involves(a, who))
  }

  // ------------------------------------------------------------- availability windows

  /** A DoctorAvailability row. No uniqueness of (doctor, date) is declared on the table. */
  datatype Window = Window(
    id: nat,
    doctorId: nat,
    date: Day,
    start: TimeOfDay,
    end: TimeOfDay,
    isAvailable: bool,
    lunchStart: Option<TimeOfDay>,
    lunchEnd: Option<TimeOfDay>)

  function WindowId(w: Window): nat { w.id }

  /** Position of the first row for (doctor, date): `filter_by(doctor_id=.., date=..).first()`. */
  function FindWindow(ws: seq<Window>, doctorId: nat, date: Day): (r: Option<nat>)
    ensures r.Some? ==> r.value < |ws| && ws[r.value].doctorId == doctorId && ws[r.value].date == date
    ensures r.Some? ==> forall k :: 0 <= k < r.value ==> !(ws[k].doctorId == doctorId && ws[k].date == date)
    ensures r.None? ==> forall k :: 0 <= k < |ws| ==> !(ws[k].doctorId == doctorId && ws[k].date == date)
  {
    FirstMatch(ws, (w: Window) => w.doctorId == doctorId && w.date == date)
  }

  /** Position of the row with that id belonging to that doctor: `filter_by(id=.., doctor_id=..).first()`. */
  function FindDoctorWindow(ws: seq<Window>, id: nat, doctorId: nat): (r: Option<nat>)
    ensures r.Some? ==> r.value < |ws| && ws[r.value].id == id && ws[r.value].doctorId == doctorId
    ensures r.None? ==> forall k :: 0 <= k < |ws| ==> !(ws[k].id == id && ws[k].doctorId == doctorId)
  {
    FirstMatch(ws, (w: Window) => w.id == id && w.doctorId == doctorId)
  }

  /** At most one row per (doctor, date): the invariant the upserts keep. */
  predicate OneWindowPerDay(ws: seq<Window>) {
    forall i, j :: 0 <= i < j < |ws| ==> !(ws[i].doctorId == ws[j].doctorId && ws[i].date == ws[j].date)
  }

  /** A stored lunch break lies inside the working hours and starts before it ends. */
  predicate LunchInside(w: Window) {
    w.lunchStart.Some? && w.lunchEnd.Some? ==>
      w.start <= w.lunchStart.value && w.lunchEnd.value <= w.end && w.lunchStart.value < w.lunchEnd.value
  }

  // ------------------------------------------------------------- users and departments

  datatype Role = Admin | Doctor | Patient

  /** bcrypt is treated as an ideal hash: a stored credential accepts exactly its own password. */
  datatype Credential = Hashed(secret: string)

  predicate CheckPassword(c: Credential, password: string) {
    c.secret == password
  }

  datatype User = User(
    id: nat,
    username: string,
    email: string,
    credential: Credential,
    role: Role,
    isActive: bool,
    fullName: string,
    phone: string,
    specializationId: Option<nat>,
    consultationFee: Option<int>)

  function UserId(u: User): nat { u.id }

  /** `User.query.get(id)`. */
  function FindUser(us: seq<User>, id: nat): (r: Option<nat>)
    ensures r.Some? ==> r.value < |us| && us[r.value].id == id
    ensures r.None? ==> forall k :: 0 <= k < |us| ==> us[k].id != id
  {
    FirstMatch(us, (u: User) => u.id == id)
  }

  /** `User.query.filter_by(id=.., role=..).first()`. */
  function FindUserWithRole(us: seq<User>, id: nat, role: Role): (r: Option<nat>)
    ensures r.Some? ==> r.value < |us| && us[r.value].id == id && us[r.value].role == role
    ensures r.None? ==> forall k :: 0 <= k < |us| ==> !(us[k].id == id && us[k].role == role)
  {
    FirstMatch(us, (u: User) => u.id == id && u.role == role)
  }

  predicate UsernameTaken(us: seq<User>, username: string) {
    exists k :: 0 <= k < |us| && us[k].username == username
  }

  predicate EmailTaken(us: seq<User>, email: string) {
    exists k :: 0 <= k < |us| && us[k].email == email
  }

  datatype Department = Department(id: nat, name: string, description: string)

  function DepartmentId(d: Department): nat { d.id }

  /** `Department.query.get(id)`. */
  function FindDepartment(ds: seq<Department>, id: int): (r: Option<nat>)
    ensures r.Some? ==> r.value < |ds| && ds[r.value].id == id
    ensures r.None? ==> forall k :: 0 <= k < |ds| ==> ds[k].id != id
  {
    FirstMatch(ds, (d: Department) => d.id == id)
  }

  // ------------------------------------------------------------- whole database

  datatype Db = Db(users: seq<User>, departments: seq<Department>, appointments: seq<Appointment>, windows: seq<Window>)

  /** The number of rows of `s` that `p` selects. */
  function CountWhere<T>(s: seq<T>, p: T -> bool): (n: nat)
    ensures n <= |s|
  {
    if |s| == 0 then 0 else (if p(s[0]) then 1 else 0) + CountWhere(s[1..], p)
  }

  /**
   * The rows of `s` that `drop` does not select, in their order: a bulk `DELETE ... WHERE`.
   * Every kept row keeps its multiplicity, and exactly the selected rows go.
   */
  function Without<T(!new)>(s: seq<T>, drop: T -> bool): (r: seq<T>)
    ensures |r| == |s| - CountWhere(s, drop)
    ensures forall x :: multiset(r)[x] == if drop(x) then 0 else multiset(s)[x]
    ensures forall i :: 0 <= i < |r| ==> r[i] in s && !drop(r[i])
    ensures forall i :: 0 <= i < |s| && !drop(s[i]) ==> s[i] in r
  {
    if |s| == 0 then []
    else
      var rest := Without(s[1..], drop);
      assert forall i :: 1 <= i < |s| ==> s[i] == s[1..][i - 1];
      assert s == [s[0]] + s[1..];
      assert multiset(s) == multiset{s[0]} + multiset(s[1..]);
      if drop(s[0]) then rest
      else
        assert multiset([s[0]] + rest) == multiset{s[0]} + multiset(rest);
        [s[0]] + rest
  }

  // ------------------------------------------------------------- to_dict views

  datatype AppointmentView = AppointmentView(
    id: nat,
    patientId: nat,
    doctorId: nat,
    appointmentDate: string,
    appointmentTime: string,
    status: string,
    reason: Option<string>,
    consultationFee: Option<int>,
    paymentStatus: Option<string>,
    paymentMethod: Option<string>,
    transactionId: Option<string>,
    refundStatus: Option<string>,
    refundDate: Option<string>,
    hasTreatment: bool)

  /**
   * `refund_date` is a DATETIME column that the backend only ever fills with a date,
   * which reads back as midnight of that date.
   */
  function MidnightIso(d: Day): (s: string)
    ensures |s| == 19 && s[..10] == IsoDate(d)
  {
    IsoDate(d) + "T00:00:00"
  }

  /** `Appointment.to_dict()` without the patient and doctor names, which come from the users table. */
  function AppointmentToDict(a: Appointment): (v: AppointmentView)
    ensures v.id == a.id && v.patientId == a.patientId && v.doctorId == a.doctorId
    ensures ParseStatus(v.status) == Some(a.status)
    ensures v.consultationFee.None? <==> (a.fee.None? || a.fee == Some(0))
    ensures v.consultationFee.Some? ==> v.consultationFee == a.fee
    ensures v.refundDate.None? <==> a.refundDate.None?
    ensures v.hasTreatment <==> a.treatment.Some?
  {
    AppointmentView(
      a.id, a.patientId, a.doctorId,
      IsoDate(a.date),
      ClockText(a.time),
      StatusText(a.status),
      a.reason,
      if a.fee.Some? && a.fee.value != 0 then a.fee else None,
      a.paymentStatus, a.paymentMethod, a.transactionId, a.refundStatus,
      if a.refundDate.Some? then Some(MidnightIso(a.refundDate.value)) else None,
      a.treatment.Some?)
  }

  /** The date and time strings of the appointment view parse back to the stored values, the time truncated to the minute. */
  lemma AppointmentViewParsesBack(a: Appointment)
    ensures var v := AppointmentToDict(a);
      && ParseDate(v.appointmentDate) == Some(a.date)
      && ParseClock(v.appointmentTime) == Some(ToMinute(a.time))
      && (v.refundDate.Some? ==> ParseDate(v.refundDate.value[..10]) == a.refundDate)
  {
    ParseIsoDate(a.date);
    ParseClockText(a.time);
    if a.refundDate.Some? {
      ParseIsoDate(a.refundDate.value);
    }
  }

  datatype WindowView = WindowView(
    id: nat,
    doctorId: nat,
    date: string,
    startTime: string,
    endTime: string,
    isAvailable: bool,
    lunchBreakStart: Option<string>,
    lunchBreakEnd: Option<string>)

  /** `DoctorAvailability.to_dict()`. */
  function WindowToDict(w: Window): (v: WindowView)
    ensures v.id == w.id && v.doctorId == w.doctorId && v.isAvailable == w.isAvailable
    ensures v.lunchBreakStart.None? <==> w.lunchStart.None?
    ensures v.lunchBreakEnd.None? <==> w.lunchEnd.None?
  {
    WindowView(
      w.id, w.doctorId, IsoDate(w.date), ClockText(w.start), ClockText(w.end), w.isAvailable,
      if w.lunchStart.Some? then Some(ClockText(w.lunchStart.value)) else None,
      if w.lunchEnd.Some? then Some(ClockText(w.lunchEnd.value)) else None)
  }

  /** Every string of the window view parses back to the stored value, times truncated to the minute. */
  lemma WindowViewParsesBack(w: Window)
    ensures var v := WindowToDict(w);
      && ParseDate(v.date) == Some(w.date)
      && ParseClock(v.startTime) == Some(ToMinute(w.start))
      && ParseClock(v.endTime) == Some(ToMinute(w.end))
      && (v.lunchBreakStart.Some? ==> ParseClock(v.lunchBreakStart.value) == Some(ToMinute(w.lunchStart.value)))
      && (v.lunchBreakEnd.Some? ==> ParseClock(v.lunchBreakEnd.value) == Some(ToMinute(w.lunchEnd.value)))
  {
    ParseIsoDate(w.date);
    ParseClockText(w.start);
    ParseClockText(w.end);
    if w.lunchStart.Some? {
      ParseClockText(w.lunchStart.value);
    }
    if w.lunchEnd.Some? {
      ParseClockText(w.lunchEnd.value);
    }
  }

  /** `DoctorAvailability.slot_str()`: "HH:MM-HH:MM"; both halves parse back to the window's bounds. */
  function SlotStr(w: Window): (s: string)
    ensures |s| == 11 && s[5] == '-'
    ensures ParseClock(s[..5]) == Some(ToMinute(w.start))
    ensures ParseClock(s[6..]) == Some(ToMinute(w.end))
  {
    var s := ClockText(w.start) + "-" + ClockText(w.end);
    assert s[..5] == ClockText(w.start) && s[6..] == ClockText(w.end);
    ParseClockText(w.start);
    ParseClockText(w.end);
    s
  }
}
