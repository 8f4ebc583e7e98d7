/**
 * The monthly doctor report (backend/app/tasks/reports.py): the reporting period, the
 * statistics over the doctor's appointments in it, and the performance highlight.
 */
module Reports {
  import opened Wrappers
  import opened Calendar
  import opened Models

  // ------------------------------------------------------------- period

  datatype Period = Period(first: Day, last: Day)

  /**
   * Last month: the day before the first of this month, and the first of that day's
   * month. In January of year 1 the subtraction overflows.
   */
  function PreviousMonth(today: Day): (r: Option<Period>)
    ensures r.None? <==> PrevDate(Date(today.year, today.month, 1)).None?
    ensures r.Some? ==> PrevDate(Date(today.year, today.month, 1)) == Some(r.value.last)
    ensures r.Some? ==> r.value.first == Date(r.value.last.year, r.value.last.month, 1)
  {
    var firstThis: Day := Date(today.year, today.month, 1);
    match PrevDate(firstThis)
    case None => None
    case Some(last) => Some(Period(Date(last.year, last.month, 1), last))
  }

  /** The period is one whole calendar month, the one just before today's. */
  lemma PreviousMonthIsWholeMonth(today: Day)
    requires PreviousMonth(today).Some?
    ensures var p := PreviousMonth(today).value;
      && p.first.day == 1 && p.last.day == DaysInMonth(p.last.year, p.last.month)
      && (today.month > 1 ==> p.last.year == today.year && p.last.month == today.month - 1)
      && (today.month == 1 ==> p.last.year == today.year - 1 && p.last.month == 12)
  {
  }

  /** The doctor's appointments dated inside the period, both ends included. */
  predicate InPeriod(a: Appointment, doctorId: nat, p: Period) {
    a.doctorId == doctorId && OnOrBefore(p.first, a.date) && OnOrBefore(a.date, p.last)
  }

  /** The appointments the report covers, in table order. */
  function Covered(appts: seq<Appointment>, doctorId: nat, p: Period): (r: seq<Appointment>)
    ensures forall a :: multiset(r)[a] == if InPeriod(a, doctorId, p) then multiset(appts)[a] else 0
    ensures forall i :: 0 <= i < |r| ==> InPeriod(r[i], doctorId, p) && r[i] in appts
    ensures forall i :: 0 <= i < |appts| && InPeriod(appts[i], doctorId, p) ==> appts[i] in r
  {
    Without(appts, a => !InPeriod(a, doctorId, p))
  }

  // ------------------------------------------------------------- counting by a key

  /** The number of rows of `s` whose key is `v`. */
  function CountBy<K(==)>(s: seq<Appointment>, key: Appointment -> K, v: K): (n: nat)
    ensures n <= |s|
  {
    if |s| == 0 then 0
    else CountBy(s[..|s| - 1], key, v) + (if key(s[|s| - 1]) == v then 1 else 0)
  }

  /** The counts for each of `vs`, added up. */
  function SumCounts<K(==)>(s: seq<Appointment>, key: Appointment -> K, vs: seq<K>): nat
  {
    if |vs| == 0 then 0 else CountBy(s, key, vs[0]) + SumCounts(s, key, vs[1..])
  }

  predicate Distinct<K(==)>(vs: seq<K>) {
    forall i, j :: 0 <= i < j < |vs| ==> vs[i] != vs[j]
  }

  /** One more row adds one to the total exactly when its key is among `vs`. */
  lemma {:induction false} SumCountsSnoc<K>(s: seq<Appointment>, a: Appointment, key: Appointment -> K, vs: seq<K>)
    requires Distinct(vs)
    ensures SumCounts(s + [a], key, vs) == SumCounts(s, key, vs) + (if key(a) in vs then 1 else 0)
  {
    assert (s + [a])[..|s|] == s;
    if |vs| > 0 {
      assert Distinct(vs[1..]) by {
        forall i, j | 0 <= i < j < |vs[1..]| ensures vs[1..][i] != vs[1..][j] {
          assert vs[1..][i] == vs[i + 1] && vs[1..][j] == vs[j + 1];
        }
      }
      SumCountsSnoc(s, a, key, vs[1..]);
      assert key(a) in vs <==> key(a) == vs[0] || key(a) in vs[1..];
      if key(a) == vs[0] {
        assert key(a) !in vs[1..] by {
          forall i | 0 <= i < |vs[1..]| ensures vs[1..][i] != key(a) {
            assert vs[1..][i] == vs[i + 1];
          }
        }
      }
    }
  }

  /** When every row's key is one of the distinct values `vs`, their counts add up to the number of rows. */
  lemma {:induction false} CountsPartition<K>(s: seq<Appointment>, key: Appointment -> K, vs: seq<K>)
    requires Distinct(vs)
    requires forall i :: 0 <= i < |s| ==> key(s[i]) in vs
    ensures SumCounts(s, key, vs) == |s|
  {
    if |s| == 0 {
      ZeroCounts(key, vs);
    } else {
      var init := s[..|s| - 1];
      assert init + [s[|s| - 1]] == s;
      CountsPartition(init, key, vs);
      SumCountsSnoc(init, s[|s| - 1], key, vs);
    }
  }

  lemma {:induction false} ZeroCounts<K>(key: Appointment -> K, vs: seq<K>)
    ensures SumCounts([], key, vs) == 0
  {
    if |vs| > 0 {
      ZeroCounts(key, vs[1..]);
    }
  }

  // ------------------------------------------------------------- the three distributions

  function StatusOf(a: Appointment): Status { a.status }

  const AllStatuses: seq<Status> := [Completed, Cancelled, Booked]

  function Rank3(st: Status): (i: nat)
    ensures i < 3 && AllStatuses[i] == st
  {
    match st
    case Completed => 0
    case Cancelled => 1
    case Booked => 2
  }

  /** Every appointment is completed, cancelled or booked, so the three counts add up to the total. */
  lemma StatusCountsAddUp(s: seq<Appointment>)
    ensures CountBy(s, StatusOf, Completed) + CountBy(s, StatusOf, Cancelled) + CountBy(s, StatusOf, Booked) == |s|
  {
    forall i | 0 <= i < |s| ensures StatusOf(s[i]) in AllStatuses {
      assert StatusOf(s[i]) == AllStatuses[Rank3(s[i].status)];
    }
    CountsPartition(s, StatusOf, AllStatuses);
    assert SumCounts(s, StatusOf, AllStatuses[2..]) == CountBy(s, StatusOf, Booked) + SumCounts(s, StatusOf, []);
  }

  datatype DayPart = Morning | Afternoon | Evening

  /** Morning before 12:00, afternoon from 12:00 to before 17:00, evening from 17:00. */
  function PartOf(a: Appointment): (p: DayPart)
    ensures p == Morning <==> Hour(a.time) < 12
    ensures p == Afternoon <==> 12 <= Hour(a.time) < 17
    ensures p == Evening <==> Hour(a.time) >= 17
  {
    var h := Hour(a.time);
    if h < 12 then Morning else if h < 17 then Afternoon else Evening
  }

  const AllParts: seq<DayPart> := [Morning, Afternoon, Evening]

  /** The three parts of the day cover every time, so their counts add up to the total. */
  lemma DayPartsAddUp(s: seq<Appointment>)
    ensures CountBy(s, PartOf, Morning) + CountBy(s, PartOf, Afternoon) + CountBy(s, PartOf, Evening) == |s|
  {
    forall i | 0 <= i < |s| ensures PartOf(s[i]) in AllParts {
    }
    CountsPartition(s, PartOf, AllParts);
    assert SumCounts(s, PartOf, AllParts[2..]) == CountBy(s, PartOf, Evening) + SumCounts(s, PartOf, []);
  }

  function WeekdayOf(a: Appointment): int { Weekday(a.date) }

  /** `strftime('%A')` for `weekday()` 0 to 6. */
  const WeekdayNames: seq<string> := ["Monday", "Tuesday", "Wednesday", "Thursday", "Friday", "Saturday", "Sunday"]

  /** The per-weekday counts, Monday first. */
  function ByDay(s: seq<Appointment>): (r: seq<nat>)
    ensures |r| == 7 && |r| == |WeekdayNames|
    ensures forall w :: 0 <= w < 7 ==> r[w] == CountBy(s, WeekdayOf, w)
    ensures r[0] + r[1] + r[2] + r[3] + r[4] + r[5] + r[6] == |s|
  {
    WeekdaysAddUp(s);
    seq(7, w => CountBy(s, WeekdayOf, w))
  }

  const AllWeekdays: seq<int> := [0, 1, 2, 3, 4, 5, 6]

  /** Every date falls on one of the seven weekdays, so the seven counts add up to the total. */
  lemma WeekdaysAddUp(s: seq<Appointment>)
    ensures CountBy(s, WeekdayOf, 0) + CountBy(s, WeekdayOf, 1) + CountBy(s, WeekdayOf, 2) + CountBy(s, WeekdayOf, 3)
      + CountBy(s, WeekdayOf, 4) + CountBy(s, WeekdayOf, 5) + CountBy(s, WeekdayOf, 6) == |s|
  {
    forall i | 0 <= i < |s| ensures WeekdayOf(s[i]) in AllWeekdays {
      var w := WeekdayOf(s[i]);
      assert AllWeekdays[w] == w;
    }
    WeekdaysDistinct();
    CountsPartition(s, WeekdayOf, AllWeekdays);
    SevenCounts(s);
  }

  lemma WeekdaysDistinct()
    ensures Distinct(AllWeekdays)
  {
    forall i, j | 0 <= i < j < |AllWeekdays| ensures AllWeekdays[i] != AllWeekdays[j] {
      assert AllWeekdays[i] == i && AllWeekdays[j] == j;
    }
  }

  /** The weekday total, unrolled over the seven weekdays. */
  lemma SevenCounts(s: seq<Appointment>)
    ensures SumCounts(s, WeekdayOf, AllWeekdays) == CountBy(s, WeekdayOf, 0) + CountBy(s, WeekdayOf, 1)
      + CountBy(s, WeekdayOf, 2) + CountBy(s, WeekdayOf, 3) + CountBy(s, WeekdayOf, 4)
      + CountBy(s, WeekdayOf, 5) + CountBy(s, WeekdayOf, 6)
  {
    assert SumCounts(s, WeekdayOf, AllWeekdays[6..]) == CountBy(s, WeekdayOf, 6) + SumCounts(s, WeekdayOf, []);
    assert SumCounts(s, WeekdayOf, AllWeekdays[4..]) == CountBy(s, WeekdayOf, 4) + CountBy(s, WeekdayOf, 5)
      + SumCounts(s, WeekdayOf, AllWeekdays[6..]);
    assert SumCounts(s, WeekdayOf, AllWeekdays[2..]) == CountBy(s, WeekdayOf, 2) + CountBy(s, WeekdayOf, 3)
      + SumCounts(s, WeekdayOf, AllWeekdays[4..]);
  }

  // ------------------------------------------------------------- unique patients

  /** The set of patients seen in `s`. */
  function PatientsOf(s: seq<Appointment>): (r: set<nat>)
    ensures |r| <= |s|
    ensures forall i :: 0 <= i < |s| ==> s[i].patientId in r
    ensures forall p :: p in r ==> exists i :: 0 <= i < |s| && s[i].patientId == p
  {
    if |s| == 0 then {}
    else
      var init := PatientsOf(s[..|s| - 1]);
      assert forall i :: 0 <= i < |s| - 1 ==> s[..|s| - 1][i] == s[i];
      init + {s[|s| - 1].patientId}
  }

  // ------------------------------------------------------------- revenue

  /** The fees of the paid appointments, in cents: a missing or zero fee adds nothing. */
  function Revenue(s: seq<Appointment>): (r: int)
    ensures (forall i :: 0 <= i < |s| ==> s[i].paymentStatus != Some("paid")) ==> r == 0
    ensures (forall i :: 0 <= i < |s| ==> s[i].fee.Some? ==> s[i].fee.value >= 0) ==> r >= 0
  {
    if |s| == 0 then 0
    else
      var a := s[|s| - 1];
      assert forall i :: 0 <= i < |s| - 1 ==> s[..|s| - 1][i] == s[i];
      Revenue(s[..|s| - 1]) + (if a.fee.Some? && a.fee.value != 0 && a.paymentStatus == Some("paid") then a.fee.value else 0)
  }

  // ------------------------------------------------------------- diagnoses

  /** The diagnosis recorded for an appointment, if it has a treatment. */
  function DiagnosisOf(a: Appointment): Option<string> {
    if a.treatment.Some? then Some(a.treatment.value.diagnosis) else None
  }

  /**
   * The diagnoses of the treatments recorded for `s`, empty ones included: one entry per
   * treated appointment, so each diagnosis occurs as often as appointments carry it.
   */
  function Diagnoses(s: seq<Appointment>): (r: seq<string>)
    ensures |r| + CountBy(s, DiagnosisOf, None) == |s|
    ensures forall i :: 0 <= i < |r| ==> exists j :: 0 <= j < |s| && s[j].treatment.Some? && s[j].treatment.value.diagnosis == r[i]
    ensures forall j :: 0 <= j < |s| && s[j].treatment.Some? ==> s[j].treatment.value.diagnosis in r
  {
    if |s| == 0 then []
    else
      var init := Diagnoses(s[..|s| - 1]);
      var a := s[|s| - 1];
      assert forall i :: 0 <= i < |s| - 1 ==> s[..|s| - 1][i] == s[i];
      if a.treatment.Some? then init + [a.treatment.value.diagnosis] else init
  }

  /** Each diagnosis occurs in the list as often as covered appointments carry it. */
  lemma {:induction false} DiagnosesCount(s: seq<Appointment>, x: string)
    ensures Occurrences(Diagnoses(s), x) == CountBy(s, DiagnosisOf, Some(x))
  {
    if |s| > 0 {
      var init := s[..|s| - 1];
      DiagnosesCount(init, x);
      var a := s[|s| - 1];
      if a.treatment.Some? {
        var d := Diagnoses(init) + [a.treatment.value.diagnosis];
        assert d[..|d| - 1] == Diagnoses(init);
      }
    }
  }

  /** The number of times `x` occurs in `ds`. */
  function Occurrences(ds: seq<string>, x: string): nat
  {
    if |ds| == 0 then 0
    else Occurrences(ds[..|ds| - 1], x) + (if ds[|ds| - 1] == x then 1 else 0)
  }

  datatype Tallied = Tallied(diagnosis: string, count: nat)

  predicate NamesDistinct(t: seq<Tallied>) {
    forall i, j :: 0 <= i < j < |t| ==> t[i].diagnosis != t[j].diagnosis
  }

  /** The position of `x` in a tally, if it is there. */
  function Lookup(t: seq<Tallied>, x: string): (r: Option<nat>)
    ensures r.Some? ==> r.value < |t| && t[r.value].diagnosis == x
    ensures r.None? ==> forall i :: 0 <= i < |t| ==> t[i].diagnosis != x
  {
    if |t| == 0 then None
    else if t[|t| - 1].diagnosis == x then Some(|t| - 1)
    else Lookup(t[..|t| - 1], x)
  }

  /** A faithful tally of the non-empty entries of `ds`. */
  ghost predicate TallyOf(t: seq<Tallied>, ds: seq<string>) {
    && NamesDistinct(t)
    && (forall i :: 0 <= i < |t| ==> t[i].diagnosis != "" && t[i].count == Occurrences(ds, t[i].diagnosis) && t[i].count > 0)
    && (forall i :: 0 <= i < |ds| && ds[i] != "" ==> exists j :: 0 <= j < |t| && t[j].diagnosis == ds[i])
  }

  /** The `diagnosis_counts` dictionary: each non-empty diagnosis once, in order of first appearance, with its count. */
  function Tally(ds: seq<string>): (t: seq<Tallied>)
    ensures TallyOf(t, ds)
  {
    if |ds| == 0 then []
    else
      var init := ds[..|ds| - 1];
      var x := ds[|ds| - 1];
      var t := Tally(init);
      assert init + [x] == ds;
      TallyStep(init, x, t)
  }

  /** Counting one more entry keeps the tally faithful. */
  function TallyStep(init: seq<string>, x: string, t: seq<Tallied>): (u: seq<Tallied>)
    requires TallyOf(t, init)
    ensures TallyOf(u, init + [x])
  {
    if x == "" then
      BlankKeepsTally(init, t);
      t
    else match Lookup(t, x)
      case Some(j) =>
        BumpKeepsTally(init, x, t, j);
        t[j := Tallied(x, t[j].count + 1)]
      case None =>
        AppendKeepsTally(init, x, t);
        t + [Tallied(x, 1)]
  }

  lemma OccurrencesSnoc(init: seq<string>, x: string)
    ensures forall y :: Occurrences(init + [x], y) == Occurrences(init, y) + (if x == y then 1 else 0)
  {
    var ds := init + [x];
    assert ds[..|ds| - 1] == init;
  }

  /** An empty diagnosis is not counted. */
  lemma BlankKeepsTally(init: seq<string>, t: seq<Tallied>)
    requires TallyOf(t, init)
    ensures TallyOf(t, init + [""])
  {
    var ds := init + [""];
    OccurrencesSnoc(init, "");
    forall i | 0 <= i < |ds| && ds[i] != "" ensures exists m :: 0 <= m < |t| && t[m].diagnosis == ds[i] {
      assert i < |init| && ds[i] == init[i];
    }
  }

  /** A diagnosis already in the tally has its count raised by one. */
  lemma BumpKeepsTally(init: seq<string>, x: string, t: seq<Tallied>, j: nat)
    requires TallyOf(t, init) && x != "" && j < |t| && t[j].diagnosis == x
    ensures TallyOf(t[j := Tallied(x, t[j].count + 1)], init + [x])
  {
    var ds, u := init + [x], t[j := Tallied(x, t[j].count + 1)];
    OccurrencesSnoc(init, x);
    forall i | 0 <= i < |ds| && ds[i] != "" ensures exists m :: 0 <= m < |u| && u[m].diagnosis == ds[i] {
      if i < |init| {
        assert ds[i] == init[i];
        var m :| 0 <= m < |t| && t[m].diagnosis == init[i];
        assert u[m].diagnosis == ds[i];
      } else {
        assert u[j].diagnosis == ds[i];
      }
    }
  }

  /** A new diagnosis is appended with count one. */
  lemma AppendKeepsTally(init: seq<string>, x: string, t: seq<Tallied>)
    requires TallyOf(t, init) && x != "" && forall i :: 0 <= i < |t| ==> t[i].diagnosis != x
    ensures TallyOf(t + [Tallied(x, 1)], init + [x])
  {
    var ds, u := init + [x], t + [Tallied(x, 1)];
    OccurrencesSnoc(init, x);
    NotTallied(init, x, t);
    forall i | 0 <= i < |ds| && ds[i] != "" ensures exists m :: 0 <= m < |u| && u[m].diagnosis == ds[i] {
      if i < |init| {
        assert ds[i] == init[i];
        var m :| 0 <= m < |t| && t[m].diagnosis == init[i];
        assert u[m].diagnosis == ds[i];
      } else {
        assert u[|t|].diagnosis == ds[i];
      }
    }
  }

  /** A non-empty diagnosis missing from a faithful tally does not occur. */
  lemma NotTallied(ds: seq<string>, x: string, t: seq<Tallied>)
    requires x != "" && TallyOf(t, ds) && forall i :: 0 <= i < |t| ==> t[i].diagnosis != x
    ensures Occurrences(ds, x) == 0
  {
    forall i | 0 <= i < |ds| && ds[i] != "" ensures ds[i] != x {
      var m :| 0 <= m < |t| && t[m].diagnosis == ds[i];
    }
    Absent(ds, x);
  }

  lemma {:induction false} Absent(ds: seq<string>, x: string)
    requires forall i :: 0 <= i < |ds| ==> ds[i] != x
    ensures Occurrences(ds, x) == 0
  {
    if |ds| > 0 {
      assert forall i :: 0 <= i < |ds| - 1 ==> ds[..|ds| - 1][i] == ds[i];
      Absent(ds[..|ds| - 1], x);
    }
  }

  // ------------------------------------------------------------- ranking

  predicate SortedByCount(t: seq<Tallied>) {
    forall i, j :: 0 <= i < j < |t| ==> t[i].count >= t[j].count
  }

  /** Places `x` after every entry whose count is at least its own, as a stable sort does. */
  function Insert(t: seq<Tallied>, x: Tallied): (r: seq<Tallied>)
    requires SortedByCount(t)
    ensures SortedByCount(r)
    ensures multiset(r) == multiset(t) + multiset{x}
    ensures |r| == |t| + 1
    ensures forall i :: 0 <= i < |r| ==> r[i] == x || r[i] in t
  {
    if |t| == 0 || t[|t| - 1].count >= x.count then t + [x]
    else
      var last := t[|t| - 1];
      var init := t[..|t| - 1];
      assert t == init + [last];
      var r0 := Insert(init, x);
      InsertBeforeLast(t, x, r0);
      r0 + [last]
  }

  /** Appending the last entry of `t` after `x` inserted into the rest keeps the order and the contents. */
  lemma InsertBeforeLast(t: seq<Tallied>, x: Tallied, r0: seq<Tallied>)
    requires SortedByCount(t) && |t| > 0 && t[|t| - 1].count < x.count
    requires SortedByCount(r0) && multiset(r0) == multiset(t[..|t| - 1]) + multiset{x}
    requires forall i :: 0 <= i < |r0| ==> r0[i] == x || r0[i] in t[..|t| - 1]
    ensures SortedByCount(r0 + [t[|t| - 1]])
    ensures multiset(r0 + [t[|t| - 1]]) == multiset(t) + multiset{x}
    ensures forall i :: 0 <= i < |r0| ==> r0[i] == x || r0[i] in t
  {
    var last, init := t[|t| - 1], t[..|t| - 1];
    assert t == init + [last];
    forall i | 0 <= i < |r0| ensures r0[i].count >= last.count && (r0[i] == x || r0[i] in t) {
      if r0[i] != x {
        var j :| 0 <= j < |init| && init[j] == r0[i];
        assert t[j] == init[j];
      }
    }
    var r := r0 + [last];
    forall i, j | 0 <= i < j < |r| ensures r[i].count >= r[j].count {
      if j < |r0| {
        assert r[i] == r0[i] && r[j] == r0[j];
      }
    }
  }

  /** `sorted(..., key=count, reverse=True)`: by count, largest first, ties in their original order. */
  function SortByCount(t: seq<Tallied>): (r: seq<Tallied>)
    ensures SortedByCount(r)
    ensures multiset(r) == multiset(t)
    ensures |r| == |t|
  {
    if |t| == 0 then []
    else
      assert t == t[..|t| - 1] + [t[|t| - 1]];
      Insert(SortByCount(t[..|t| - 1]), t[|t| - 1])
  }

  const TopCount := 5

  /**
   * `top_diagnoses`: at most five non-empty diagnoses with their counts, largest first;
   * a diagnosis left out occurs no more often than any listed one.
   */
  function TopDiagnoses(ds: seq<string>): (r: seq<Tallied>)
    ensures |r| <= TopCount && SortedByCount(r)
    ensures forall i :: 0 <= i < |r| ==> r[i].diagnosis != "" && r[i].count == Occurrences(ds, r[i].diagnosis) && r[i].count > 0
    ensures NamesDistinct(r)
    ensures forall i, k :: (0 <= i < |ds| && 0 <= k < |r| && ds[i] != "" && (forall m :: 0 <= m < |r| ==> r[m].diagnosis != ds[i]))
                           ==> Occurrences(ds, ds[i]) <= r[k].count
    ensures |r| == if |Tally(ds)| < TopCount then |Tally(ds)| else TopCount
    ensures |r| < TopCount ==> forall i :: 0 <= i < |ds| && ds[i] != "" ==> exists m :: 0 <= m < |r| && r[m].diagnosis == ds[i]
  {
    var t := Tally(ds);
    var s := SortByCount(t);
    var r := if |s| <= TopCount then s else s[..TopCount];
    TopFacts(ds, t, s, r);
    TopLength(ds, t, s, r);
    r
  }

  /** Only a full list of five leaves a diagnosis out. */
  lemma TopLength(ds: seq<string>, t: seq<Tallied>, s: seq<Tallied>, r: seq<Tallied>)
    requires TallyOf(t, ds) && multiset(s) == multiset(t)
    requires r == if |s| <= TopCount then s else s[..TopCount]
    ensures |r| == if |t| < TopCount then |t| else TopCount
    ensures |r| < TopCount ==> forall i :: 0 <= i < |ds| && ds[i] != "" ==> exists m :: 0 <= m < |r| && r[m].diagnosis == ds[i]
  {
    assert |s| == |multiset(s)| == |multiset(t)| == |t|;
    if |r| < TopCount {
      forall i | 0 <= i < |ds| && ds[i] != "" ensures exists m :: 0 <= m < |r| && r[m].diagnosis == ds[i] {
        var j :| 0 <= j < |t| && t[j].diagnosis == ds[i];
        assert t[j] in multiset(s);
        var m :| 0 <= m < |s| && s[m] == t[j];
        assert r[m].diagnosis == ds[i];
      }
    }
  }

  lemma TopFacts(ds: seq<string>, t: seq<Tallied>, s: seq<Tallied>, r: seq<Tallied>)
    requires TallyOf(t, ds) && SortedByCount(s) && multiset(s) == multiset(t)
    requires r == if |s| <= TopCount then s else s[..TopCount]
    ensures |r| <= TopCount && SortedByCount(r)
    ensures forall i :: 0 <= i < |r| ==> r[i].diagnosis != "" && r[i].count == Occurrences(ds, r[i].diagnosis) && r[i].count > 0
    ensures NamesDistinct(r)
    ensures forall i, k :: (0 <= i < |ds| && 0 <= k < |r| && ds[i] != "" && (forall m :: 0 <= m < |r| ==> r[m].diagnosis != ds[i]))
                           ==> Occurrences(ds, ds[i]) <= r[k].count
  {
    SortedEntriesTallied(ds, t, s);
    forall i | 0 <= i < |r| ensures r[i] == s[i] {
    }
    forall i, k | 0 <= i < |ds| && 0 <= k < |r| && ds[i] != "" && (forall m :: 0 <= m < |r| ==> r[m].diagnosis != ds[i])
      ensures Occurrences(ds, ds[i]) <= r[k].count
    {
      LeftOutIsSmaller(ds, t, s, r, i, k);
    }
  }

  /** The sorted tally holds the tally's entries, so each has a distinct name and its exact count. */
  lemma SortedEntriesTallied(ds: seq<string>, t: seq<Tallied>, s: seq<Tallied>)
    requires TallyOf(t, ds) && multiset(s) == multiset(t)
    ensures forall i :: 0 <= i < |s| ==> s[i] in t
    ensures NamesDistinct(s)
  {
    forall i | 0 <= i < |s| ensures s[i] in t {
      assert s[i] in multiset(s);
    }
    forall i, j | 0 <= i < j < |s| ensures s[i].diagnosis != s[j].diagnosis {
      if s[i].diagnosis == s[j].diagnosis {
        SameNameSameEntry(ds, t, s[i], s[j]);
        DuplicateInMultiset(s, i, j);
        assert multiset(t)[s[i]] >= 2;
        DistinctNamesOnce(t, s[i]);
      }
    }
  }

  /** A diagnosis missing from the kept prefix sits further down the sorted tally. */
  lemma LeftOutIsSmaller(ds: seq<string>, t: seq<Tallied>, s: seq<Tallied>, r: seq<Tallied>, i: nat, k: nat)
    requires TallyOf(t, ds) && SortedByCount(s) && multiset(s) == multiset(t)
    requires r == if |s| <= TopCount then s else s[..TopCount]
    requires i < |ds| && k < |r| && ds[i] != "" && forall m :: 0 <= m < |r| ==> r[m].diagnosis != ds[i]
    ensures Occurrences(ds, ds[i]) <= r[k].count
  {
    var m :| 0 <= m < |t| && t[m].diagnosis == ds[i];
    assert t[m] in multiset(s);
    var p :| 0 <= p < |s| && s[p] == t[m];
    assert forall q :: 0 <= q < |r| ==> r[q] == s[q];
    assert p >= |r|;
  }

  lemma SameNameSameEntry(ds: seq<string>, t: seq<Tallied>, a: Tallied, b: Tallied)
    requires TallyOf(t, ds) && a in t && b in t && a.diagnosis == b.diagnosis
    ensures a == b
  {
  }

  lemma DuplicateInMultiset(s: seq<Tallied>, i: nat, j: nat)
    requires i < j < |s| && s[i] == s[j]
    ensures multiset(s)[s[i]] >= 2
  {
    assert s == s[..j] + [s[j]] + s[j + 1..];
    assert s[i] in s[..j];
  }

  lemma {:induction false} DistinctNamesOnce(t: seq<Tallied>, x: Tallied)
    requires NamesDistinct(t)
    ensures multiset(t)[x] <= 1
  {
    if |t| > 0 {
      var init := t[..|t| - 1];
      assert t == init + [t[|t| - 1]];
      DistinctNamesOnce(init, x);
      if t[|t| - 1] == x {
        assert x !in init by {
          forall i | 0 <= i < |init| ensures init[i] != x {
            assert init[i] == t[i];
          }
        }
      }
    }
  }

  // ------------------------------------------------------------- completion rate

  /**
   * `round(completed / total * 100, 1)` in tenths of a percent: the nearest whole number
   * of tenths, a tie going to the even one, and 0 for a doctor with no appointments.
   */
  function CompletionTenths(completed: nat, total: nat): (r: nat)
    requires completed <= total
    ensures total == 0 ==> r == 0
    ensures total > 0 ==> 2 * completed * 1000 - total <= 2 * (r * total) <= 2 * completed * 1000 + total
    ensures total > 0 && (2 * (r * total) == 2 * completed * 1000 - total || 2 * (r * total) == 2 * completed * 1000 + total)
      ==> r % 2 == 0
    ensures r <= 1000
  {
    if total == 0 then 0
    else
      var r := RoundHalfEven(completed * 1000, total);
      MulLe(completed, total, 1000);
      BoundFromProduct(r, total, 1000);
      r
  }

  /** `n / t` rounded to the nearest whole number, a tie going to the even neighbour. */
  function RoundHalfEven(n: nat, t: nat): (r: nat)
    requires t > 0
    ensures 2 * n - t <= 2 * (r * t) <= 2 * n + t
    ensures (2 * (r * t) == 2 * n - t || 2 * (r * t) == 2 * n + t) ==> r % 2 == 0
  {
    var q: nat := n / t;
    var rem := n % t;
    RoundingFacts(n, t, q, rem);
    if 2 * rem > t || (2 * rem == t && q % 2 == 1) then q + 1 else q
  }

  /** Rounding the quotient `q` of `n` by `t` up or down by the remainder `rem`. */
  lemma RoundingFacts(n: int, t: int, q: int, rem: int)
    requires t > 0 && q == n / t && rem == n % t
    ensures 0 <= rem < t
    ensures 2 * rem > t || (2 * rem == t && q % 2 == 1) ==>
      2 * n - t <= 2 * ((q + 1) * t) <= 2 * n + t
      && (2 * ((q + 1) * t) == 2 * n - t || 2 * ((q + 1) * t) == 2 * n + t ==> (q + 1) % 2 == 0)
    ensures !(2 * rem > t || (2 * rem == t && q % 2 == 1)) ==>
      2 * n - t <= 2 * (q * t) <= 2 * n + t
      && (2 * (q * t) == 2 * n - t || 2 * (q * t) == 2 * n + t ==> q % 2 == 0)
  {
    var qt := q * t;
    assert n == qt + rem && 0 <= rem < t;
    assert (q + 1) * t == qt + t;
  }

  lemma MulLe(a: int, b: int, t: int)
    requires a <= b && t >= 0
    ensures a * t <= b * t
  {
    assert b * t - a * t == (b - a) * t;
  }

  /** From `2rt <= (2b + 1)t` with `t` positive, `r <= b`. */
  lemma BoundFromProduct(r: int, t: int, b: int)
    requires t > 0 && 2 * (r * t) <= (2 * b + 1) * t
    ensures r <= b
  {
    assert (2 * b + 2) * t == (2 * b + 1) * t + t;
    assert (2 * r) * t == 2 * (r * t);
    if r > b {
      MulLe(2 * b + 2, 2 * r, t);
    }
  }

  /** From `rt < bt` with `t` positive, `r < b`. */
  lemma LessFromProduct(r: int, t: int, b: int)
    requires t > 0 && r * t < b * t
    ensures r < b
  {
    if r >= b {
      MulLe(b, r, t);
    }
  }

  datatype Highlight = Excellent | GoodPerformance | RoomForImprovement

  /** At least 80% is excellent, at least 60% good, anything lower leaves room for improvement. */
  function HighlightOf(tenths: int): (h: Highlight)
    ensures h == Excellent <==> tenths >= 800
    ensures h == GoodPerformance <==> 600 <= tenths < 800
    ensures h == RoomForImprovement <==> tenths < 600
  {
    if tenths >= 800 then Excellent else if tenths >= 600 then GoodPerformance else RoomForImprovement
  }

  function Rank(h: Highlight): int {
    match h
    case RoomForImprovement => 0
    case GoodPerformance => 1
    case Excellent => 2
  }

  /** A higher completion rate never earns a lower highlight. */
  lemma HighlightMonotone(a: int, b: int)
    requires a <= b
    ensures Rank(HighlightOf(a)) <= Rank(HighlightOf(b))
  {
  }

  /**
   * The rounding shows in the highlight: a doctor is rated excellent exactly when at
   * least 79.95% of the appointments were completed.
   */
  lemma ExcellentThreshold(completed: nat, total: nat)
    requires completed <= total && total > 0
    ensures HighlightOf(CompletionTenths(completed, total)) == Excellent <==> 2000 * completed >= 1599 * total
  {
    var r := CompletionTenths(completed, total);
    if 2000 * completed == 1599 * total {
      ExactTieRoundsUp(completed, total);
    } else if 2000 * completed > 1599 * total {
      LessFromProduct(799, total, r);
    } else {
      LessFromProduct(r, total, 800);
    }
  }

  /** Exactly 79.95% lies halfway between 79.9 and 80.0, and rounds to the even 80.0. */
  lemma ExactTieRoundsUp(completed: nat, total: nat)
    requires completed <= total && total > 0 && 2000 * completed == 1599 * total
    ensures CompletionTenths(completed, total) == 800
  {
    var n := completed * 1000;
    var h := total / 2;
    TieShape(completed, total, h);
    DivisionOf(n, total, 799, h);
    TieRoundsToEven(n, total);
    assert CompletionTenths(completed, total) == RoundHalfEven(n, total);
  }

  /** An exact 79.95% rate needs an even total, and then leaves half the total over after 799 whole tenths. */
  lemma TieShape(completed: nat, total: nat, h: nat)
    requires total > 0 && 2000 * completed == 1599 * total && h == total / 2
    ensures total == 2 * h && completed * 1000 == 799 * total + h
  {
    var odd := total - 2 * h;
    assert odd == 0 || odd == 1;
    assert 1599 * odd == 2 * (1000 * completed - 1599 * h);
    assert odd == 0;
  }

  lemma TieRoundsToEven(n: nat, t: nat)
    requires t > 0 && 2 * (n % t) == t && (n / t) % 2 == 1
    ensures RoundHalfEven(n, t) == n / t + 1
  {
  }

  lemma DivisionOf(n: int, t: int, q: int, rem: int)
    requires t > 0 && n == q * t + rem && 0 <= rem < t
    ensures n / t == q && n % t == rem
  {
    var q0, r0 := n / t, n % t;
    assert n == q0 * t + r0 && 0 <= r0 < t;
    assert (q0 + 1) * t == q0 * t + t;
    assert (q + 1) * t == q * t + t;
    if q0 < q {
      MulLe(q0 + 1, q, t);
    } else if q0 > q {
      MulLe(q + 1, q0, t);
    }
  }

  // ------------------------------------------------------------- the report

  datatype Report = Report(
    total: nat,
    completed: nat,
    cancelled: nat,
    booked: nat,
    completionTenths: nat,
    revenue: int,
    uniquePatients: nat,
    byDay: seq<nat>,
    morning: nat,
    afternoon: nat,
    evening: nat,
    treatments: nat,
    topDiagnoses: seq<Tallied>)

  /** `generate_doctor_report_data` for one doctor and period, without the HTML rendering and the date labels. */
  function DoctorReport(appts: seq<Appointment>, doctorId: nat, p: Period): (r: Report)
    ensures var s := Covered(appts, doctorId, p);
      && r.total == |s|
      && r.completed == CountBy(s, StatusOf, Completed)
      && r.cancelled == CountBy(s, StatusOf, Cancelled)
      && r.booked == CountBy(s, StatusOf, Booked)
      && r.completionTenths == CompletionTenths(r.completed, r.total)
      && r.revenue == Revenue(s)
      && r.uniquePatients == |PatientsOf(s)|
      && r.byDay == ByDay(s)
      && r.morning == CountBy(s, PartOf, Morning)
      && r.afternoon == CountBy(s, PartOf, Afternoon)
      && r.evening == CountBy(s, PartOf, Evening)
      && r.treatments + CountBy(s, DiagnosisOf, None) == r.total
      && r.topDiagnoses == TopDiagnoses(Diagnoses(s))
    ensures r.completed + r.cancelled + r.booked == r.total && r.morning + r.afternoon + r.evening == r.total
  {
    Summarize(Covered(appts, doctorId, p))
  }

  /** The report's figures over the covered appointments `s`, each tied to its definition. */
  function Summarize(s: seq<Appointment>): (r: Report)
    ensures && r.total == |s|
      && r.completed == CountBy(s, StatusOf, Completed)
      && r.cancelled == CountBy(s, StatusOf, Cancelled)
      && r.booked == CountBy(s, StatusOf, Booked)
      && r.completed + r.cancelled + r.booked == r.total
      && r.completionTenths == CompletionTenths(r.completed, r.total)
      && r.revenue == Revenue(s)
      && r.uniquePatients == |PatientsOf(s)|
      && r.byDay == ByDay(s)
      && r.morning == CountBy(s, PartOf, Morning)
      && r.afternoon == CountBy(s, PartOf, Afternoon)
      && r.evening == CountBy(s, PartOf, Evening)
      && r.morning + r.afternoon + r.evening == r.total
      && r.treatments + CountBy(s, DiagnosisOf, None) == r.total
      && r.topDiagnoses == TopDiagnoses(Diagnoses(s))
    ensures && |r.byDay| == 7 && r.byDay[0] + r.byDay[1] + r.byDay[2] + r.byDay[3] + r.byDay[4] + r.byDay[5] + r.byDay[6] == r.total
      && r.uniquePatients <= r.total
      && r.completionTenths <= 1000
      && (r.total == 0 ==> r.completionTenths == 0 && r.treatments == 0 && r.topDiagnoses == [])
      && |r.topDiagnoses| <= TopCount && SortedByCount(r.topDiagnoses)
  {
    StatusCountsAddUp(s);
    DayPartsAddUp(s);
    var completed := CountBy(s, StatusOf, Completed);
    var ds := Diagnoses(s);
    Report(
      |s|, completed, CountBy(s, StatusOf, Cancelled), CountBy(s, StatusOf, Booked),
      CompletionTenths(completed, |s|), Revenue(s), |PatientsOf(s)|, ByDay(s),
      CountBy(s, PartOf, Morning), CountBy(s, PartOf, Afternoon), CountBy(s, PartOf, Evening),
      |ds|, TopDiagnoses(ds))
  }

  /** The monthly task's figures for one doctor: last month's report, or None when the period overflows. */
  function MonthlyReport(appts: seq<Appointment>, doctorId: nat, today: Day): (r: Option<Report>)
    ensures r.Some? <==> PreviousMonth(today).Some?
    ensures r.Some? ==> r.value == DoctorReport(appts, doctorId, PreviousMonth(today).value)
  {
    match PreviousMonth(today)
    case None => None
    case Some(p) => Some(DoctorReport(appts, doctorId, p))
  }
}
