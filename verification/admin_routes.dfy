/**
 * The admin side (backend/app/routes/admin.py): departments, doctor accounts, soft and
 * permanent deletes, the admin's availability upsert and the unrestricted appointment edit.
 */
module AdminRoutes {
  import opened Wrappers
  import opened Calendar
  import opened TextFormat
  import opened Validators
  import opened Models
  import opened Api
  import opened Availability
  import Auth
  import Decorators

  // ------------------------------------------------------------- departments

  /** No two departments share a name. */
  predicate NamesUnique(ds: seq<Department>) {
    forall i, j :: 0 <= i < j < |ds| ==> ds[i].name != ds[j].name
  }

  /** `Department.query.filter_by(name=..).first()`. */
  function FindDepartmentNamed(ds: seq<Department>, name: string): (r: Option<nat>)
    ensures r.Some? ==> r.value < |ds| && ds[r.value].name == name
    ensures r.None? ==> forall k :: 0 <= k < |ds| ==> ds[k].name != name
  {
    FirstMatch(ds, (d: Department) => d.name == name)
  }

  /** `add_department`: a non-empty name no department holds yet. */
  function AddDepartment(ds: seq<Department>, name: Option<string>, description: Option<string>): (r: Result<seq<Department>, Failure>)
    ensures r.Ok? <==> Given(name) && forall k :: 0 <= k < |ds| ==> ds[k].name != name.value
    ensures r.Err? ==> r.error.code == 400
    ensures r.Ok? ==> r.value == ds + [Department(NextId(ds, DepartmentId), name.value, description.GetOr(""))]
    ensures r.Ok? && NamesUnique(ds) ==> NamesUnique(r.value)
  {
    if !Given(name) then Err(BadRequest("Department name is required"))
    else if FindDepartmentNamed(ds, name.value).Some? then Err(BadRequest("Department already exists"))
    else Ok(ds + [Department(NextId(ds, DepartmentId), name.value, description.GetOr(""))])
  }

  /**
   * `update_department`: a present name is refused only when the first department
   * holding it is another one; the name is not required to be non-empty.
   */
  function UpdateDepartment(ds: seq<Department>, id: nat, name: Option<string>, description: Option<string>): (r: Result<seq<Department>, Failure>)
    ensures FindDepartment(ds, id).None? ==> r == Err(NotFound("Department not found"))
    ensures r.Ok? ==> var k := FindDepartment(ds, id).value;
      && |r.value| == |ds|
      && (forall i :: 0 <= i < |ds| && i != k ==> r.value[i] == ds[i])
      && r.value[k] == Department(ds[k].id, name.GetOr(ds[k].name), description.GetOr(ds[k].description))
    ensures r.Ok? && NamesUnique(ds) && DistinctIds(ds, DepartmentId) ==> NamesUnique(r.value)
    ensures r.Err? && r.error.code == 400 ==> name.Some? && exists k :: 0 <= k < |ds| && ds[k].name == name.value && ds[k].id != id
    ensures r.Ok? <==> (FindDepartment(ds, id).Some?
      && (name.Some? ==> var holder := FindDepartmentNamed(ds, name.value); holder.None? || ds[holder.value].id == id))
    ensures r.Err? && r.error.code == 400 <==> (FindDepartment(ds, id).Some? && name.Some?
      && (var holder := FindDepartmentNamed(ds, name.value); holder.Some? && ds[holder.value].id != id))
  {
    match FindDepartment(ds, id)
    case None => Err(NotFound("Department not found"))
    case Some(k) =>
      var holder := if name.Some? then FindDepartmentNamed(ds, name.value) else None;
      if holder.Some? && ds[holder.value].id != id then Err(BadRequest("Department name already exists"))
      else
        var r := ds[k := Department(ds[k].id, name.GetOr(ds[k].name), description.GetOr(ds[k].description))];
        assert NamesUnique(ds) && DistinctIds(ds, DepartmentId) ==> NamesUnique(r) by {
          if NamesUnique(ds) && DistinctIds(ds, DepartmentId) && name.Some? {
            assert forall i :: 0 <= i < |ds| && i != k ==> ds[i].name != name.value by {
              if holder.Some? {
                assert holder.value == k by {
                  assert DepartmentId(ds[holder.value]) == DepartmentId(ds[k]);
                }
              }
            }
          }
        }
        Ok(r)
  }

  /** The doctors (active or not) assigned to the department. */
  function DoctorsIn(users: seq<User>, deptId: nat): (n: nat)
    ensures n == 0 <==> forall k :: 0 <= k < |users| ==> !(users[k].role == Doctor && users[k].specializationId == Some(deptId))
  {
    if |users| == 0 then 0
    else
      assert forall k :: 1 <= k < |users| ==> users[k] == users[1..][k - 1];
      (if users[0].role == Doctor && users[0].specializationId == Some(deptId) then 1 else 0) + DoctorsIn(users[1..], deptId)
  }

  /** `delete_department`: refused while any doctor, active or not, references it. */
  function DeleteDepartment(ds: seq<Department>, users: seq<User>, id: nat): (r: Result<seq<Department>, Failure>)
    ensures FindDepartment(ds, id).None? ==> r == Err(NotFound("Department not found"))
    ensures r.Ok? <==> FindDepartment(ds, id).Some? && DoctorsIn(users, id) == 0
    ensures r.Ok? ==> forall k :: 0 <= k < |users| ==> !(users[k].role == Doctor && users[k].specializationId == Some(id))
    ensures r.Ok? ==> var k := FindDepartment(ds, id).value; r.value == ds[..k] + ds[k + 1..]
  {
    match FindDepartment(ds, id)
    case None => Err(NotFound("Department not found"))
    case Some(k) =>
      var n := DoctorsIn(users, id);
      if n > 0 then
        Err(BadRequest("Cannot delete department. " + NatToString(n) + " doctor(s) are assigned to this department."))
      else Ok(ds[..k] + ds[k + 1..])
  }

  // ------------------------------------------------------------- add_doctor

  datatype DoctorRequest = DoctorRequest(
    username: Option<string>,
    email: Option<string>,
    password: Option<string>,
    fullName: Option<string>,
    phone: Option<string>,
    specializationId: Option<int>,
    consultationFee: Option<int>)

  /** The six keys are present; only presence is checked, so an empty string passes here. */
  predicate KeysPresent(req: DoctorRequest) {
    req.username.Some? && req.email.Some? && req.password.Some? && req.fullName.Some? && req.phone.Some? && req.specializationId.Some?
  }

  /** `add_doctor`: presence, email, phone, password length, unique username, unique email, existing department, in that order. */
  function AddDoctor(users: seq<User>, ds: seq<Department>, req: DoctorRequest): (r: Result<seq<User>, Failure>)
    ensures !KeysPresent(req) ==> r.Err? && r.error.code == 400
    ensures r.Ok? <==> (KeysPresent(req)
      && ValidateEmail(req.email.value) && ValidatePhone(req.phone.value) && ValidatePassword(req.password.value)
      && !UsernameTaken(users, req.username.value) && !EmailTaken(users, req.email.value)
      && FindDepartment(ds, req.specializationId.value).Some?)
    ensures r.Err? && r.error.code == 404 <==> (KeysPresent(req)
      && ValidateEmail(req.email.value) && ValidatePhone(req.phone.value) && ValidatePassword(req.password.value)
      && !UsernameTaken(users, req.username.value) && !EmailTaken(users, req.email.value)
      && FindDepartment(ds, req.specializationId.value).None?)
    ensures r.Ok? ==> |r.value| == |users| + 1 && r.value[..|users|] == users
    ensures r.Ok? ==> var u := r.value[|users|];
      && u.id == NextId(users, UserId) && u.role == Doctor && u.isActive
      && u.username == req.username.value && u.email == req.email.value
      && u.fullName == req.fullName.value && u.phone == req.phone.value
      && CheckPassword(u.credential, req.password.value)
      && u.specializationId.Some? && u.specializationId.value == req.specializationId.value
      && u.consultationFee == Some(req.consultationFee.GetOr(0))
  {
    if req.username.None? then Err(BadRequest("username is required"))
    else if req.email.None? then Err(BadRequest("email is required"))
    else if req.password.None? then Err(BadRequest("password is required"))
    else if req.fullName.None? then Err(BadRequest("full_name is required"))
    else if req.phone.None? then Err(BadRequest("phone is required"))
    else if req.specializationId.None? then Err(BadRequest("specialization_id is required"))
    else if !ValidateEmail(req.email.value) then Err(BadRequest("Invalid email format"))
    else if !ValidatePhone(req.phone.value) then Err(BadRequest("Invalid phone number"))
    else if |req.password.value| < MinPasswordLength then Err(BadRequest("Password must be at least 6 characters"))
    else if UsernameTaken(users, req.username.value) then Err(BadRequest("Username already exists"))
    else if EmailTaken(users, req.email.value) then Err(BadRequest("Email already exists"))
    else match FindDepartment(ds, req.specializationId.value)
      case None => Err(NotFound("Department not found"))
      case Some(d) =>
        var u := User(NextId(users, UserId), req.username.value, req.email.value, Hashed(req.password.value), Doctor, true,
                      req.fullName.value, req.phone.value, Some(ds[d].id), Some(req.consultationFee.GetOr(0)));
        assert (users + [u])[..|users|] == users;
        Ok(users + [u])
  }

  /**
   * A doctor the admin adds can log in with the password the admin chose, unless the
   * username is empty: presence is all `add_doctor` checks, and login refuses an empty one.
   */
  lemma AddDoctorThenLogin(users: seq<User>, ds: seq<Department>, req: DoctorRequest)
    requires AddDoctor(users, ds, req).Ok?
    ensures var after := AddDoctor(users, ds, req).value;
      && (req.username.value != "" ==> Auth.Login(after, Some(Auth.LoginRequest(req.username, req.password))) == Ok(after[|users|]))
      && (req.username.value == "" ==>
            Auth.Login(after, Some(Auth.LoginRequest(req.username, req.password))) == Err(BadRequest("Username and password required")))
  {
    var after := AddDoctor(users, ds, req).value;
    assert after[|users|].username == req.username.value;
    assert forall j :: 0 <= j < |users| ==> after[j] == after[..|users|][j] == users[j];
    if req.username.value != "" {
      Auth.FirstUsernameAt(after, req.username.value, |users|);
    }
  }

  // ------------------------------------------------------------- deletes

  /** The soft deletes of a doctor or a patient: only `is_active` of that account changes. */
  function Deactivate(users: seq<User>, id: nat, role: Role): (r: Result<seq<User>, Failure>)
    requires role != Admin
    ensures r.Err? <==> FindUserWithRole(users, id, role).None?
    ensures r.Err? ==> r.error.code == 404
    ensures r.Ok? ==> var k := FindUserWithRole(users, id, role).value;
      && |r.value| == |users|
      && (forall i :: 0 <= i < |users| && i != k ==> r.value[i] == users[i])
      && r.value[k] == users[k].(isActive := false)
  {
    match FindUserWithRole(users, id, role)
    case None => Err(NotFound(if role == Doctor then "Doctor not found" else "Patient not found"))
    case Some(k) => Ok(users[k := users[k].(isActive := false)])
  }

  /**
   * A deactivated account is turned away as inactive, both by the role gate of every
   * protected route and by login, whatever password is tried.
   */
  lemma DeactivateThenRefused(users: seq<User>, id: nat, role: Role, allowed: set<Role>, password: string)
    requires role != Admin && DistinctIds(users, UserId)
    requires Deactivate(users, id, role).Ok?
    requires var k := FindUserWithRole(users, id, role).value;
      users[k].username != "" && Auth.FindUsername(users, users[k].username) == Some(k)
    requires password != ""
    ensures var after := Deactivate(users, id, role).value; var k := FindUserWithRole(users, id, role).value;
      && Decorators.Authorize(after, id, allowed) == Err(Forbidden("Account is inactive"))
      && Auth.Login(after, Some(Auth.LoginRequest(Some(users[k].username), Some(password)))) == Err(Unauthorized("Account is inactive"))
  {
    var after := Deactivate(users, id, role).value;
    var k := FindUserWithRole(users, id, role).value;
    assert after[k].id == id;
    var j := FindUser(after, id).value;
    assert UserId(users[j]) == UserId(users[k]);
    assert j == k;
    var name := users[k].username;
    assert forall i :: 0 <= i < k ==> after[i].username == users[i].username != name;
    Auth.FirstUsernameAt(after, name, k);
  }

  /** `permanent_delete_doctor`: the doctor, every appointment they hold and every window they own go. */
  function PurgeDoctor(db: Db, id: nat): (r: Result<Db, Failure>)
    ensures r.Err? <==> FindUserWithRole(db.users, id, Doctor).None?
    ensures r.Ok? ==> r.value.departments == db.departments
    ensures r.Ok? ==> forall i :: 0 <= i < |r.value.appointments| ==> r.value.appointments[i].doctorId != id
    ensures r.Ok? ==> forall i :: 0 <= i < |db.appointments| && db.appointments[i].doctorId != id ==> db.appointments[i] in r.value.appointments
    ensures r.Ok? ==> forall i :: 0 <= i < |r.value.windows| ==> r.value.windows[i].doctorId != id
    ensures r.Ok? ==> forall i :: 0 <= i < |db.windows| && db.windows[i].doctorId != id ==> db.windows[i] in r.value.windows
    ensures r.Ok? ==> var k := FindUserWithRole(db.users, id, Doctor).value; r.value.users == db.users[..k] + db.users[k + 1..]
  {
    match FindUserWithRole(db.users, id, Doctor)
    case None => Err(NotFound("Doctor not found"))
    case Some(k) =>
      Ok(Db(db.users[..k] + db.users[k + 1..], db.departments,
            Without(db.appointments, (a: Appointment) => a.doctorId == id),
            Without(db.windows, (w: Window) => w.doctorId == id)))
  }

  /** `permanent_delete_patient`: the patient and every appointment they hold go; windows stay. */
  function PurgePatient(db: Db, id: nat): (r: Result<Db, Failure>)
    ensures r.Err? <==> FindUserWithRole(db.users, id, Patient).None?
    ensures r.Ok? ==> r.value.departments == db.departments && r.value.windows == db.windows
    ensures r.Ok? ==> forall i :: 0 <= i < |r.value.appointments| ==> r.value.appointments[i].patientId != id
    ensures r.Ok? ==> forall i :: 0 <= i < |db.appointments| && db.appointments[i].patientId != id ==> db.appointments[i] in r.value.appointments
    ensures r.Ok? ==> var k := FindUserWithRole(db.users, id, Patient).value; r.value.users == db.users[..k] + db.users[k + 1..]
  {
    match FindUserWithRole(db.users, id, Patient)
    case None => Err(NotFound("Patient not found"))
    case Some(k) =>
      Ok(Db(db.users[..k] + db.users[k + 1..], db.departments,
            Without(db.appointments, (a: Appointment) => a.patientId == id), db.windows))
  }

  /** The user is a doctor assigned to the department. */
  predicate DoctorOf(u: User, deptId: nat) {
    u.role == Doctor && u.specializationId == Some(deptId)
  }

  /** The ids of the department's doctors. */
  function DoctorIds(users: seq<User>, deptId: nat): (r: set<nat>)
    ensures forall k :: 0 <= k < |users| && DoctorOf(users[k], deptId) ==> users[k].id in r
    ensures forall d :: d in r ==> exists k :: 0 <= k < |users| && DoctorOf(users[k], deptId) && users[k].id == d
  {
    set k | 0 <= k < |users| && DoctorOf(users[k], deptId) :: users[k].id
  }

  /** `permanent_delete_department`: the department, its doctors, and their appointments and windows go. */
  function PurgeDepartment(db: Db, id: nat): (r: Result<Db, Failure>)
    ensures r.Err? <==> FindDepartment(db.departments, id).None?
    ensures r.Err? ==> r.error == NotFound("Department not found")
    ensures r.Ok? ==> var k := FindDepartment(db.departments, id).value;
      db.departments[k].id == id && r.value == Purged(db, id, k)
  {
    match FindDepartment(db.departments, id)
    case None => Err(NotFound("Department not found"))
    case Some(k) => Ok(Purged(db, id, k))
  }

  /** The tables once department row `k` (with id `id`), its doctors and their rows are gone. */
  function Purged(db: Db, id: nat, k: nat): (r: Db)
    requires k < |db.departments|
    ensures r.departments == db.departments[..k] + db.departments[k + 1..]
    ensures forall i :: 0 <= i < |r.users| ==> !DoctorOf(r.users[i], id)
    ensures forall i :: 0 <= i < |db.users| && !DoctorOf(db.users[i], id) ==> db.users[i] in r.users
    ensures forall i :: 0 <= i < |r.appointments| ==> r.appointments[i].doctorId !in DoctorIds(db.users, id)
    ensures forall i :: 0 <= i < |r.windows| ==> r.windows[i].doctorId !in DoctorIds(db.users, id)
    ensures forall i :: 0 <= i < |db.appointments| && db.appointments[i].doctorId !in DoctorIds(db.users, id)
              ==> db.appointments[i] in r.appointments
    ensures forall i :: 0 <= i < |db.windows| && db.windows[i].doctorId !in DoctorIds(db.users, id)
              ==> db.windows[i] in r.windows
  {
    var doctors := DoctorIds(db.users, id);
    Db(Without(db.users, (u: User) => DoctorOf(u, id)),
       db.departments[..k] + db.departments[k + 1..],
       Without(db.appointments, (a: Appointment) => a.doctorId in doctors),
       Without(db.windows, (w: Window) => w.doctorId in doctors))
  }

  // ------------------------------------------------------------- set_doctor_availability_admin

  /** The admin's upsert: any doctor account (active or not); hours only, an existing lunch is kept. */
  function AdminSetAvailability(users: seq<User>, ws: seq<Window>, doctorId: nat, req: AvailabilityRequest): (r: Result<seq<Window>, Failure>)
    ensures FindUserWithRole(users, doctorId, Doctor).None? ==> r == Err(NotFound("Doctor not found"))
    ensures r.Ok? <==> FindUserWithRole(users, doctorId, Doctor).Some? && HoursGiven(req)
    ensures r.Ok? ==> r.value == Upsert(ws, doctorId, ParseHours(req).value, req.isAvailable.GetOr(true), KeepLunch)
    ensures r.Ok? && OneWindowPerDay(ws) ==> OneWindowPerDay(r.value)
  {
    if FindUserWithRole(users, doctorId, Doctor).None? then Err(NotFound("Doctor not found"))
    else match ParseHours(req)
      case Err(f) => Err(f)
      case Ok(h) =>
        var isAvailable := req.isAvailable.GetOr(true);
        if OneWindowPerDay(ws) then UpsertKeepsOneWindowPerDay(ws, doctorId, h, isAvailable, KeepLunch); Ok(Upsert(ws, doctorId, h, isAvailable, KeepLunch))
        else Ok(Upsert(ws, doctorId, h, isAvailable, KeepLunch))
  }

  // ------------------------------------------------------------- update_appointment

  datatype AppointmentEdit = AppointmentEdit(
    date: Option<string>,
    time: Option<string>,
    status: Option<string>,
    reason: Option<string>)

  /**
   * The admin's time field: `%H:%M` when at most five characters long, `%H:%M:%S` otherwise.
   * A short text never carries seconds, and a five-character one that parses is the
   * zero-padded HH:MM text of its time.
   */
  function ParseAdminTime(s: string): (r: Option<TimeOfDay>)
    ensures |s| <= 5 && r.Some? ==> Second(r.value) == 0
    ensures |s| == 5 && r.Some? ==> ClockText(r.value) == s
  {
    if |s| <= 5 then
      if |s| == 5 && ParseClock(s).Some? then ClockTextCanonical(s); ParseClock(s) else ParseClock(s)
    else ParseClockSeconds(s)
  }

  /** A time the admin sends as HH:MM is stored truncated to the minute. */
  lemma AdminTimeOfClockText(t: TimeOfDay)
    ensures ParseAdminTime(ClockText(t)) == Some(ToMinute(t))
  {
    ParseClockText(t);
  }

  /** A time the admin sends as HH:MM:SS is stored exactly. */
  lemma AdminTimeWithSeconds(t: TimeOfDay)
    ensures ParseAdminTime(ClockText(t) + ":" + Pad2(Second(t))) == Some(t)
  {
    var s := ClockText(t) + ":" + Pad2(Second(t));
    FirstIndexOfAt(s, ':', 2);
    var rest := s[3..];
    assert rest == Pad2(Minute(t)) + ":" + Pad2(Second(t));
    FirstIndexOfAt(rest, ':', 2);
    assert s[..2] == Pad2(Hour(t));
    assert s[3..5] == Pad2(Minute(t));
    assert s[6..] == Pad2(Second(t));
    HourTokenOfPad2(Hour(t));
    SexagesimalTokenOfPad2(Minute(t));
    SexagesimalTokenOfPad2(Second(t));
    ClockOfFields(t);
  }

  /**
   * The length test picks the format before parsing: "1:2:3" is five characters, so it is
   * read with `%H:%M` and refused, although `%H:%M:%S` would read it as 01:02:03.
   */
  lemma ShortTextWithSecondsRefused()
    ensures ParseAdminTime("1:2:3").None?
    ensures ParseClockSeconds("1:2:3") == Some(Clock(1, 2, 3))
  {
    var s := "1:2:3";
    assert s[0] == '1' && s[1] == ':' && s[2] == '2' && s[3] == ':' && s[4] == '3';
    FirstIndexOfAt(s, ':', 1);
    assert |s[2..]| == 3;
    assert SexagesimalToken(s[2..]).None?;
    assert ParseClock(s).None?;
    assert ParseClockSeconds(s) == Some(Clock(1, 2, 3)) by {
      FirstIndexOfAt(s[2..], ':', 1);
      assert s[..1] == ['1'] && s[2..3] == ['2'] && s[4..] == ['3'];
      assert HourToken(s[..1]) == Some(1);
      assert SexagesimalToken(s[2..3]) == Some(2);
      assert SexagesimalToken(s[4..]) == Some(3);
    }
  }

  /** Every present field parses. */
  predicate EditParses(e: AppointmentEdit) {
    && (e.date.Some? ==> ParseDate(e.date.value).Some?)
    && (e.time.Some? ==> ParseAdminTime(e.time.value).Some?)
    && (e.status.Some? ==> ParseStatus(e.status.value).Some?)
  }

  /**
   * `update_appointment`: any present field is written once all of them parse; there is
   * no past-date, availability, conflict or transition check.
   */
  function AdminEditAppointment(appts: seq<Appointment>, appointmentId: nat, e: AppointmentEdit): (r: Result<seq<Appointment>, Failure>)
    ensures FindAppointment(appts, appointmentId, AsAnyone).None? ==> r == Err(NotFound("Appointment not found"))
    ensures r.Ok? <==> FindAppointment(appts, appointmentId, AsAnyone).Some? && EditParses(e)
    ensures r.Ok? ==> var k := FindAppointment(appts, appointmentId, AsAnyone).value;
      && |r.value| == |appts|
      && (forall i :: 0 <= i < |appts| && i != k ==> r.value[i] == appts[i])
      && r.value[k] == appts[k].(
           date := if e.date.Some? then ParseDate(e.date.value).value else appts[k].date,
           time := if e.time.Some? then ParseAdminTime(e.time.value).value else appts[k].time,
           status := if e.status.Some? then ParseStatus(e.status.value).value else appts[k].status,
           reason := if e.reason.Some? then e.reason else appts[k].reason)
  {
    match FindAppointment(appts, appointmentId, AsAnyone)
    case None => Err(NotFound("Appointment not found"))
    case Some(k) =>
      var a := appts[k];
      if e.date.Some? && ParseDate(e.date.value).None? then Err(BadRequest("Invalid date format"))
      else if e.time.Some? && ParseAdminTime(e.time.value).None? then Err(BadRequest("Invalid time format"))
      else if e.status.Some? && ParseStatus(e.status.value).None? then Err(BadRequest("Invalid status"))
      else
        Ok(appts[k := a.(
          date := if e.date.Some? then ParseDate(e.date.value).value else a.date,
          time := if e.time.Some? then ParseAdminTime(e.time.value).value else a.time,
          status := if e.status.Some? then ParseStatus(e.status.value).value else a.status,
          reason := if e.reason.Some? then e.reason else a.reason)])
  }
}
