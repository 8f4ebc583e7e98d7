/**
 * The appointment status across the routes and tasks that write it: which operations
 * keep the booked-slot invariant, and where the routes disagree about the same status.
 */
module Lifecycle {
  import opened Wrappers
  import opened Calendar
  import opened Models
  import opened Api
  import opened PatientRoutes
  import opened DoctorRoutes
  import opened AdminRoutes
  import opened Sweeps

  /** Replacing one row by a row that is not booked cannot make two booked rows share a slot. */
  lemma UnbookKeepsSlotsUnique(s: seq<Appointment>, k: nat, b: Appointment)
    requires SlotUnique(s) && k < |s| && b.status != Booked
    ensures SlotUnique(s[k := b])
  {
  }

  /** Every status-changing route of a patient or a doctor keeps booked slots distinct. */
  lemma RoutesKeepSlotsUnique(appts: seq<Appointment>, users: seq<User>, patientId: nat, doctorId: nat, appointmentId: nat,
                              treq: TreatmentRequest, hreq: HistoryRequest, now: Instant)
    requires SlotUnique(appts)
    ensures var r := PatientCancel(appts, patientId, appointmentId); r.Ok? ==> SlotUnique(r.value)
    ensures var r := Complete(appts, doctorId, appointmentId); r.Ok? ==> SlotUnique(r.value)
    ensures var r := DoctorCancel(appts, doctorId, appointmentId); r.Ok? ==> SlotUnique(r.value)
    ensures var r := AddTreatment(appts, doctorId, appointmentId, treq); r.Ok? ==> SlotUnique(r.value)
    ensures var r := AddPatientHistory(appts, users, doctorId, patientId, hreq, now); r.Ok? ==> SlotUnique(r.value)
  {
    PatientCancelKeepsSlotsUnique(appts, patientId, appointmentId);
    CompleteKeepsSlotsUnique(appts, doctorId, appointmentId);
    DoctorCancelKeepsSlotsUnique(appts, doctorId, appointmentId);
    TreatmentKeepsSlotsUnique(appts, doctorId, appointmentId, treq);
  }

  lemma PatientCancelKeepsSlotsUnique(appts: seq<Appointment>, patientId: nat, appointmentId: nat)
    requires SlotUnique(appts)
    ensures var r := PatientCancel(appts, patientId, appointmentId); r.Ok? ==> SlotUnique(r.value)
  {
    var r := PatientCancel(appts, patientId, appointmentId);
    if r.Ok? {
      var k := FindAppointment(appts, appointmentId, AsPatient(patientId)).value;
      assert r.value == appts[k := appts[k].(status := Cancelled)];
      UnbookKeepsSlotsUnique(appts, k, appts[k].(status := Cancelled));
    }
  }

  lemma CompleteKeepsSlotsUnique(appts: seq<Appointment>, doctorId: nat, appointmentId: nat)
    requires SlotUnique(appts)
    ensures var r := Complete(appts, doctorId, appointmentId); r.Ok? ==> SlotUnique(r.value)
  {
    var r := Complete(appts, doctorId, appointmentId);
    if r.Ok? {
      var k := FindAppointment(appts, appointmentId, AsDoctor(doctorId)).value;
      assert r.value == appts[k := appts[k].(status := Completed)];
      UnbookKeepsSlotsUnique(appts, k, appts[k].(status := Completed));
    }
  }

  lemma DoctorCancelKeepsSlotsUnique(appts: seq<Appointment>, doctorId: nat, appointmentId: nat)
    requires SlotUnique(appts)
    ensures var r := DoctorCancel(appts, doctorId, appointmentId); r.Ok? ==> SlotUnique(r.value)
  {
    var r := DoctorCancel(appts, doctorId, appointmentId);
    if r.Ok? {
      var k := FindAppointment(appts, appointmentId, AsDoctor(doctorId)).value;
      assert r.value == appts[k := appts[k].(status := Cancelled)];
      UnbookKeepsSlotsUnique(appts, k, appts[k].(status := Cancelled));
    }
  }

  lemma TreatmentKeepsSlotsUnique(appts: seq<Appointment>, doctorId: nat, appointmentId: nat, treq: TreatmentRequest)
    requires SlotUnique(appts)
    ensures var r := AddTreatment(appts, doctorId, appointmentId, treq); r.Ok? ==> SlotUnique(r.value)
  {
    var r := AddTreatment(appts, doctorId, appointmentId, treq);
    if r.Ok? {
      var k := FindAppointment(appts, appointmentId, AsDoctor(doctorId)).value;
      assert r.value == appts[k := r.value[k]];
      UnbookKeepsSlotsUnique(appts, k, r.value[k]);
    }
  }

  /** Both sweeps only take rows out of the booked state. */
  lemma SweepsKeepSlotsUnique(appts: seq<Appointment>, y: Day, today: Day, appointmentId: int, reason: Option<string>)
    requires SlotUnique(appts)
    ensures var r := CancelSpecific(appts, appointmentId, reason, today); r.Ok? ==> SlotUnique(r.value)
    ensures forall after: seq<Appointment> ::
      (|after| == |appts|
       && (forall i :: 0 <= i < |appts| && Missed(appts[i], y) ==> after[i] == CancelWithRefund(appts[i], NoShowReason, today))
       && (forall i :: 0 <= i < |appts| && !Missed(appts[i], y) ==> after[i] == appts[i]))
      ==> SlotUnique(after)
  {
    var r := CancelSpecific(appts, appointmentId, reason, today);
    if r.Ok? {
      var k := FindAppointment(appts, appointmentId, AsAnyone).value;
      assert r.value == appts[k := r.value[k]];
      UnbookKeepsSlotsUnique(appts, k, r.value[k]);
    }
  }

  /**
   * The admin's edit checks nothing about slots: setting a cancelled appointment back to
   * "booked" where a booked one already holds its slot breaks the invariant.
   */
  lemma AdminEditCanBreakSlotsUnique(appts: seq<Appointment>, i: nat, j: nat)
    requires DistinctIds(appts, AppointmentId) && SlotUnique(appts)
    requires i < |appts| && j < |appts| && i != j
    requires appts[i].status == Booked && appts[j].status == Cancelled && SlotOf(appts[i]) == SlotOf(appts[j])
    ensures var r := AdminEditAppointment(appts, appts[j].id, AppointmentEdit(None, None, Some("booked"), None));
      r.Ok? && !SlotUnique(r.value)
  {
    var r := AdminEditAppointment(appts, appts[j].id, AppointmentEdit(None, None, Some("booked"), None));
    FindsById(appts, j);
    assert r.value[j].status == Booked;
    assert r.value[i] == appts[i];
  }

  /** With distinct ids, an appointment is found by its own id. */
  lemma FindsById(appts: seq<Appointment>, j: nat)
    requires DistinctIds(appts, AppointmentId) && j < |appts|
    ensures FindAppointment(appts, appts[j].id, AsAnyone) == Some(j)
  {
    assert AppointmentId(appts[j]) == appts[j].id;
  }

  /**
   * On an already cancelled appointment the patient is refused while the doctor's cancel
   * succeeds and leaves the table as it was.
   */
  lemma CancelTwiceDiffers(appts: seq<Appointment>, k: nat)
    requires k < |appts| && appts[k].status == Cancelled
    requires FindAppointment(appts, appts[k].id, AsPatient(appts[k].patientId)) == Some(k)
    requires FindAppointment(appts, appts[k].id, AsDoctor(appts[k].doctorId)) == Some(k)
    ensures PatientCancel(appts, appts[k].patientId, appts[k].id) == Err(BadRequest("Appointment is already cancelled"))
    ensures DoctorCancel(appts, appts[k].doctorId, appts[k].id) == Ok(appts)
  {
    assert appts[k := appts[k].(status := Cancelled)] == appts;
  }

  /**
   * A cancelled appointment cannot be completed, but recording a treatment for it
   * completes it anyway.
   */
  lemma TreatmentCompletesCancelled(appts: seq<Appointment>, k: nat, diagnosis: string)
    requires k < |appts| && appts[k].status == Cancelled && diagnosis != ""
    requires FindAppointment(appts, appts[k].id, AsDoctor(appts[k].doctorId)) == Some(k)
    ensures Complete(appts, appts[k].doctorId, appts[k].id) == Err(BadRequest("Cannot complete a cancelled appointment"))
    ensures var r := AddTreatment(appts, appts[k].doctorId, appts[k].id, TreatmentRequest(Some(diagnosis), None, None, None));
      r.Ok? && r.value[k].status == Completed
  {
  }

  /** Patients and doctors cannot cancel a completed appointment; the task-level cancel does. */
  lemma CompletedCancelledOnlyByTask(appts: seq<Appointment>, k: nat, today: Day)
    requires k < |appts| && appts[k].status == Completed
    requires FindAppointment(appts, appts[k].id, AsPatient(appts[k].patientId)) == Some(k)
    requires FindAppointment(appts, appts[k].id, AsDoctor(appts[k].doctorId)) == Some(k)
    requires FindAppointment(appts, appts[k].id, AsAnyone) == Some(k)
    ensures PatientCancel(appts, appts[k].patientId, appts[k].id).Err?
    ensures DoctorCancel(appts, appts[k].doctorId, appts[k].id).Err?
    ensures var r := CancelSpecific(appts, appts[k].id, None, today);
      r.Ok? && r.value[k].status == Cancelled && r.value[k].reason == Some(DefaultCancelReason)
  {
  }
}
