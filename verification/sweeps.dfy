/**
 * The periodic tasks that rewrite tables (backend/app/tasks/auto_cancel.py and
 * cleanup.py). `date.today()` is the parameter `today`; an exception inside the task
 * rolls the session back and is reported as `Err`.
 */
module Sweeps {
  import opened Wrappers
  import opened Calendar
  import opened Models

  const NoShowReason := "Auto-cancelled: Patient didn't show up"
  const DefaultCancelReason := "Auto-cancelled"

  /** A booked appointment dated `yesterday`: what the missed-appointment sweep selects. */
  predicate Missed(a: Appointment, yesterday: Day) {
    a.date == yesterday && a.status == Booked
  }

  /** Cancelled with the given reason; a paid appointment also gets its refund approved today. */
  function CancelWithRefund(a: Appointment, reason: string, today: Day): (b: Appointment)
    ensures b.status == Cancelled && b.reason == Some(reason)
    ensures a.paymentStatus == Some("paid") ==> b.refundStatus == Some("approved") && b.refundDate == Some(today)
    ensures a.paymentStatus != Some("paid") ==> b.refundStatus == a.refundStatus && b.refundDate == a.refundDate
    ensures b.(status := a.status, reason := a.reason, refundStatus := a.refundStatus, refundDate := a.refundDate) == a
  {
    var b := a.(status := Cancelled, reason := Some(reason));
    if a.paymentStatus == Some("paid") then b.(refundStatus := Some("approved"), refundDate := Some(today)) else b
  }

  /** The number of missed appointments in `s`. */
  function MissedCount(s: seq<Appointment>, yesterday: Day): (n: nat)
    ensures n <= |s|
  {
    if |s| == 0 then 0
    else MissedCount(s[..|s| - 1], yesterday) + (if Missed(s[|s| - 1], yesterday) then 1 else 0)
  }

  /** The fee a cancellation report lists: the fee, or 0 when it is missing or zero. */
  function ListedFee(a: Appointment): (f: int)
    ensures a.fee.Some? ==> f == a.fee.value
    ensures a.fee.None? ==> f == 0
  {
    if a.fee.Some? then a.fee.value else 0
  }

  /** The sum of the listed fees of the missed appointments in `s`. */
  function MissedFees(s: seq<Appointment>, yesterday: Day): int
  {
    if |s| == 0 then 0
    else MissedFees(s[..|s| - 1], yesterday) + (if Missed(s[|s| - 1], yesterday) then ListedFee(s[|s| - 1]) else 0)
  }

  /** What the missed-appointment sweep reports: the number cancelled and the `total_refund_amount`, in cents. */
  datatype SweepReport = SweepReport(cancelledCount: nat, totalRefund: int)

  /**
   * `cancel_missed_appointments`: every booked appointment dated yesterday is cancelled
   * with the no-show reason (refund approved when paid); every other row is unchanged.
   * The reported total sums the fees of all cancelled rows, paid or not.
   */
  method CancelMissed(appts: seq<Appointment>, today: Day) returns (r: Result<(seq<Appointment>, SweepReport), string>)
    ensures r.Err? <==> PrevDate(today).None?
    ensures r.Ok? ==> var y := PrevDate(today).value; var after := r.value.0;
      && |after| == |appts|
      && (forall i :: 0 <= i < |appts| && Missed(appts[i], y) ==> after[i] == CancelWithRefund(appts[i], NoShowReason, today))
      && (forall i :: 0 <= i < |appts| && !Missed(appts[i], y) ==> after[i] == appts[i])
      && r.value.1.cancelledCount == MissedCount(appts, y)
      && r.value.1.totalRefund == MissedFees(appts, y)
    ensures r.Ok? && r.value.1.cancelledCount == 0 ==> r.value.0 == appts
  {
    var yesterday := PrevDate(today);
    if yesterday.None? {
      return Err("date value out of range");
    }
    var y := yesterday.value;
    var out, count, total := CancelEach(appts, y, today);
    if count == 0 {
      NoneMissed(appts, y);
      assert out == appts;
    }
    return Ok((out, SweepReport(count, total)));
  }

  /** The loop of the sweep: each appointment missed on `y` is cancelled with a refund, the rest are kept. */
  method CancelEach(appts: seq<Appointment>, y: Day, today: Day) returns (out: seq<Appointment>, count: nat, total: int)
    ensures |out| == |appts|
    ensures forall i :: 0 <= i < |appts| && Missed(appts[i], y) ==> out[i] == CancelWithRefund(appts[i], NoShowReason, today)
    ensures forall i :: 0 <= i < |appts| && !Missed(appts[i], y) ==> out[i] == appts[i]
    ensures count == MissedCount(appts, y) && total == MissedFees(appts, y)
  {
    out := appts;
    count := 0;
    total := 0;
    var i := 0;
    while i < |appts|
      invariant 0 <= i <= |appts| && |out| == |appts|
      invariant forall j :: 0 <= j < i && Missed(appts[j], y) ==> out[j] == CancelWithRefund(appts[j], NoShowReason, today)
      invariant forall j :: 0 <= j < |appts| && !(j < i && Missed(appts[j], y)) ==> out[j] == appts[j]
      invariant count == MissedCount(appts[..i], y)
      invariant total == MissedFees(appts[..i], y)
    {
      assert appts[..i + 1][..i] == appts[..i];
      if Missed(appts[i], y) {
        out := out[i := CancelWithRefund(appts[i], NoShowReason, today)];
        count := count + 1;
        total := total + ListedFee(appts[i]);
      }
      i := i + 1;
    }
    assert appts[..|appts|] == appts;
  }

  /** A zero count means no appointment was missed. */
  lemma {:induction false} NoneMissed(s: seq<Appointment>, yesterday: Day)
    requires MissedCount(s, yesterday) == 0
    ensures forall i :: 0 <= i < |s| ==> !Missed(s[i], yesterday)
  {
    if |s| > 0 {
      NoneMissed(s[..|s| - 1], yesterday);
      assert forall i :: 0 <= i < |s| - 1 ==> s[..|s| - 1][i] == s[i];
    }
  }

  /**
   * `cancel_specific_appointment`: any appointment not already cancelled is cancelled,
   * a completed one included; the reason defaults to "Auto-cancelled".
   */
  function CancelSpecific(appts: seq<Appointment>, appointmentId: int, reason: Option<string>, today: Day): (r: Result<seq<Appointment>, string>)
    ensures FindAppointment(appts, appointmentId, AsAnyone).None? ==> r == Err("Appointment not found")
    ensures r.Ok? <==> (var k := FindAppointment(appts, appointmentId, AsAnyone); k.Some? && appts[k.value].status != Cancelled)
    ensures r.Ok? ==> var k := FindAppointment(appts, appointmentId, AsAnyone).value;
      && |r.value| == |appts|
      && (forall i :: 0 <= i < |appts| && i != k ==> r.value[i] == appts[i])
      && r.value[k] == CancelWithRefund(appts[k], reason.GetOr(DefaultCancelReason), today)
  {
    match FindAppointment(appts, appointmentId, AsAnyone)
    case None => Err("Appointment not found")
    case Some(k) =>
      if appts[k].status == Cancelled then Err("Appointment already cancelled")
      else Ok(appts[k := CancelWithRefund(appts[k], reason.GetOr(DefaultCancelReason), today)])
  }

  // ------------------------------------------------------------- cleanup_old_availability

  const RetentionDays := 30

  /** What the cleanup reports: the rows left and `deleted_count`. */
  datatype Cleaned = Cleaned(windows: seq<Window>, deletedCount: nat)

  /** The number of rows dated before the cutoff. */
  function ExpiredCount(ws: seq<Window>, cutoff: Day): (n: nat)
    ensures n <= |ws|
  {
    if |ws| == 0 then 0
    else (if Before(ws[0].date, cutoff) then 1 else 0) + ExpiredCount(ws[1..], cutoff)
  }

  /** The rows dated on or after the cutoff, in order. */
  function Retained(ws: seq<Window>, cutoff: Day): (r: seq<Window>)
    ensures |r| == |ws| - ExpiredCount(ws, cutoff)
    ensures forall i :: 0 <= i < |r| ==> OnOrBefore(cutoff, r[i].date) && r[i] in ws
    ensures forall i :: 0 <= i < |ws| && OnOrBefore(cutoff, ws[i].date) ==> ws[i] in r
  {
    if |ws| == 0 then []
    else
      var rest := Retained(ws[1..], cutoff);
      assert forall i :: 1 <= i < |ws| ==> ws[i] == ws[1..][i - 1];
      if Before(ws[0].date, cutoff) then rest else [ws[0]] + rest
  }

  /** Each window dated on or after the cutoff is kept as often as it occurs, and no expired one is. */
  lemma {:induction false} RetainedMultiplicity(ws: seq<Window>, cutoff: Day)
    ensures forall w :: multiset(Retained(ws, cutoff))[w] == if Before(w.date, cutoff) then 0 else multiset(ws)[w]
  {
    if |ws| > 0 {
      RetainedMultiplicity(ws[1..], cutoff);
      assert ws == [ws[0]] + ws[1..];
      assert multiset(ws) == multiset{ws[0]} + multiset(ws[1..]);
      var rest := Retained(ws[1..], cutoff);
      if !Before(ws[0].date, cutoff) {
        assert multiset([ws[0]] + rest) == multiset{ws[0]} + multiset(rest);
      }
    }
  }

  /**
   * `cleanup_old_availability`: deletes exactly the rows dated before today minus 30 days;
   * a row dated on the cutoff survives. Where the cutoff is not a representable date the
   * task fails and nothing is deleted.
   */
  function Cleanup(ws: seq<Window>, today: Day): (r: Result<Cleaned, string>)
    ensures r.Err? <==> Ordinal(today) - RetentionDays < Ordinal(FirstDay)
    ensures r.Err? ==> r.error == "date value out of range"
    ensures r.Ok? ==> var cutoff := AddDays(today, -RetentionDays).value;
      && Ordinal(cutoff) + RetentionDays == Ordinal(today)
      && r.value.windows == Retained(ws, cutoff)
      && (forall w :: multiset(r.value.windows)[w] == if Before(w.date, cutoff) then 0 else multiset(ws)[w])
      && r.value.deletedCount == ExpiredCount(ws, cutoff)
      && r.value.deletedCount + |r.value.windows| == |ws|
  {
    match AddDays(today, -RetentionDays)
    case None => Err("date value out of range")
    case Some(cutoff) =>
      var kept := Retained(ws, cutoff);
      RetainedMultiplicity(ws, cutoff);
      Ok(Cleaned(kept, |ws| - |kept|))
  }
}
