/** The feature-engineering pipeline of the training module: labels, the static
    table, the dynamic table, and the left merge with its zero backfill. One
    definition serves training (with labels) and inference (without). */
module Preprocessing {
  import opened Records
  import opened Sequences
  import opened Statistics

  // =====================================================================
  // label_dropout
  // =====================================================================

  const Withdrawn: string := "Withdrawn"

  /** The `final_result` cells of one student's rows, in log order. */
  function ResultsOf(rows: seq<LogRow>, sid: int): seq<Option<string>> {
    if rows == [] then []
    else
      var n := |rows| - 1;
      ResultsOf(rows[..n], sid) + (if rows[n].idStudent == sid then [rows[n].finalResult] else [])
  }

  /** The first non-missing value, as `groupby(...).first()` picks it. */
  function FirstPresent(xs: seq<Option<string>>): Option<string> {
    if xs == [] then None
    else if xs[0].Some? then xs[0]
    else FirstPresent(xs[1..])
  }

  lemma {:induction false} FirstPresentAppend(xs: seq<Option<string>>, x: Option<string>)
    ensures FirstPresent(xs + [x]) == if FirstPresent(xs).Some? then FirstPresent(xs) else x
  {
    if xs != [] {
      assert (xs + [x])[1..] == xs[1..] + [x];
      FirstPresentAppend(xs[1..], x);
    }
  }

  /** One pass over the log keeping, per student, the first non-missing result. */
  function GroupFirst(rows: seq<LogRow>): map<int, Option<string>> {
    if rows == [] then map[]
    else
      var n := |rows| - 1;
      var m := GroupFirst(rows[..n]);
      var r := rows[n];
      if r.idStudent !in m || m[r.idStudent].None? then m[r.idStudent := r.finalResult] else m
  }

  lemma {:induction false} GroupFirstIsFirstPresent(rows: seq<LogRow>)
    ensures GroupFirst(rows).Keys == Ids(rows)
    ensures forall sid :: sid in GroupFirst(rows) ==> GroupFirst(rows)[sid] == FirstPresent(ResultsOf(rows, sid))
  {
    if rows != [] {
      var n := |rows| - 1;
      var p := rows[..n];
      var r := rows[n];
      GroupFirstIsFirstPresent(p);
      IdsSnoc(p, r);
      assert rows == p + [r];
      var m := GroupFirst(rows);
      forall sid | sid in m ensures m[sid] == FirstPresent(ResultsOf(rows, sid)) {
        if sid == r.idStudent {
          assert ResultsOf(rows, sid) == ResultsOf(p, sid) + [r.finalResult];
          FirstPresentAppend(ResultsOf(p, sid), r.finalResult);
          if sid !in Ids(p) {
            EmptyResultsOf(p, sid);
          }
        } else {
          assert ResultsOf(rows, sid) == ResultsOf(p, sid);
        }
      }
    }
  }

  lemma IdsSnoc(p: seq<LogRow>, r: LogRow)
    ensures Ids(p + [r]) == Ids(p) + {r.idStudent}
  {
    forall x | x in Ids(p + [r]) ensures x in Ids(p) + {r.idStudent} {
      var q :| q in p + [r] && q.idStudent == x;
      if q != r {
        assert q in p;
      }
    }
    forall x | x in Ids(p) ensures x in Ids(p + [r]) {
      var q :| q in p && q.idStudent == x;
      assert q in p + [r];
    }
    assert r in p + [r];
  }

  lemma {:induction false} EmptyResultsOf(rows: seq<LogRow>, sid: int)
    requires sid !in Ids(rows)
    ensures ResultsOf(rows, sid) == []
  {
    if rows != [] {
      var n := |rows| - 1;
      assert rows[n] in rows;
      assert Ids(rows[..n]) <= Ids(rows);
      EmptyResultsOf(rows[..n], sid);
    }
  }

  /** `label_dropout`: 1 for a student whose first recorded result is a withdrawal. */
  function LabelDropout(rows: seq<LogRow>): map<int, int> {
    var first := GroupFirst(rows);
    map sid | sid in first :: if first[sid] == Some(Withdrawn) then 1 else 0
  }

  /** One label per distinct student; the label is 1 exactly when the student's
      first non-missing `final_result` is "Withdrawn", and 0 otherwise. */
  lemma LabelDropoutSpec(rows: seq<LogRow>)
    ensures LabelDropout(rows).Keys == Ids(rows)
    ensures forall sid :: sid in Ids(rows) ==>
      (LabelDropout(rows)[sid] == 1 <==> FirstPresent(ResultsOf(rows, sid)) == Some(Withdrawn))
    ensures forall sid :: sid in Ids(rows) ==> LabelDropout(rows)[sid] in {0, 1}
  {
    GroupFirstIsFirstPresent(rows);
  }

  // =====================================================================
  // get_static_features: drop_duplicates(subset=["id_student"]), keep="first"
  // =====================================================================

  /** Row `k` is the first row of its student. */
  predicate IsFirst(rows: seq<LogRow>, k: int) {
    0 <= k < |rows| && forall j :: 0 <= j < k ==> rows[j].idStudent != rows[k].idStudent
  }

  /** The index of a student's first row. */
  function FirstIndexOf(rows: seq<LogRow>, sid: int): (k: nat)
    requires sid in Ids(rows)
    ensures IsFirst(rows, k) && rows[k].idStudent == sid
  {
    if rows[0].idStudent == sid then 0
    else
      assert sid in Ids(rows[1..]) by {
        var r :| r in rows && r.idStudent == sid;
        var i :| 0 <= i < |rows| && rows[i] == r;
        assert rows[1..][i - 1] == r;
      }
      1 + FirstIndexOf(rows[1..], sid)
  }

  /** The positions of first occurrences, in log order. */
  function FirstOccurrences(rows: seq<LogRow>): (ks: seq<int>)
    ensures StrictlyIncreasing(ks)
    ensures forall i :: 0 <= i < |ks| ==> IsFirst(rows, ks[i])
    ensures forall k :: IsFirst(rows, k) ==> k in ks
  {
    if rows == [] then []
    else
      var n := |rows| - 1;
      var ks := FirstOccurrences(rows[..n]);
      forall i | 0 <= i < |ks| ensures IsFirst(rows, ks[i]) {
        FirstInPrefix(rows, ks[i]);
      }
      forall k | IsFirst(rows, k) && k < n ensures k in ks {
        FirstInPrefix(rows, k);
      }
      LastIsFirst(rows);
      if IsFirst(rows, n) then
        assert forall i :: 0 <= i < |ks| ==> ks[i] < n;
        ks + [n]
      else
        ks
  }

  /** Below the last row, being a first occurrence does not depend on the last row. */
  lemma FirstInPrefix(rows: seq<LogRow>, k: int)
    requires 0 <= k < |rows| - 1
    ensures IsFirst(rows[..|rows| - 1], k) <==> IsFirst(rows, k)
  {
    var p := rows[..|rows| - 1];
    assert forall j :: 0 <= j <= k ==> p[j] == rows[j];
  }

  lemma LastIsFirst(rows: seq<LogRow>)
    requires rows != []
    ensures IsFirst(rows, |rows| - 1) <==> rows[|rows| - 1].idStudent !in Ids(rows[..|rows| - 1])
  {
    var n := |rows| - 1;
    var p := rows[..n];
    if rows[n].idStudent in Ids(p) {
      var r :| r in p && r.idStudent == rows[n].idStudent;
      var j :| 0 <= j < n && p[j] == r;
      assert rows[j] == r;
    } else {
      forall j | 0 <= j < n ensures rows[j].idStudent != rows[n].idStudent {
        assert rows[j] == p[j] && p[j] in p;
      }
    }
  }

  /** Selecting the static columns of one row; the categorical retagging is the identity on values. */
  function StaticOf(r: LogRow): StaticRow {
    StaticRow(r.idStudent, r.attrs)
  }

  /** `get_static_features`. */
  function StaticFeatures(rows: seq<LogRow>): (st: seq<StaticRow>)
    ensures |st| == |FirstOccurrences(rows)|
  {
    var ks := FirstOccurrences(rows);
    seq(|ks|, i requires 0 <= i < |ks| => StaticOf(rows[ks[i]]))
  }

  /** One row per distinct student, in order of first appearance, each holding
      the static values of that student's first row (later rows are ignored,
      even when they disagree). */
  lemma StaticFeaturesSpec(rows: seq<LogRow>)
    ensures forall i, j :: 0 <= i < j < |StaticFeatures(rows)| ==>
      StaticFeatures(rows)[i].idStudent != StaticFeatures(rows)[j].idStudent
    ensures forall sid :: sid in Ids(rows) <==>
      exists i :: 0 <= i < |StaticFeatures(rows)| && StaticFeatures(rows)[i].idStudent == sid
    ensures |StaticFeatures(rows)| == |Ids(rows)|
    ensures forall i :: 0 <= i < |StaticFeatures(rows)| ==>
      var s := StaticFeatures(rows)[i];
      s.idStudent in Ids(rows) && s.attrs == rows[FirstIndexOf(rows, s.idStudent)].attrs
    ensures forall i, j :: 0 <= i < j < |StaticFeatures(rows)| ==>
      FirstIndexOf(rows, StaticFeatures(rows)[i].idStudent) < FirstIndexOf(rows, StaticFeatures(rows)[j].idStudent)
  {
    var ks := FirstOccurrences(rows);
    var st := StaticFeatures(rows);
    var ids := seq(|st|, i requires 0 <= i < |st| => st[i].idStudent);
    forall i | 0 <= i < |st| ensures st[i].idStudent in Ids(rows) && FirstIndexOf(rows, st[i].idStudent) == ks[i] {
      assert rows[ks[i]] in rows;
      FirstIsUnique(rows, ks[i], FirstIndexOf(rows, st[i].idStudent));
    }
    forall i, j | 0 <= i < |ids| && 0 <= j < |ids| && i != j ensures ids[i] != ids[j] {
      if ids[i] == ids[j] {
        FirstIsUnique(rows, ks[i], ks[j]);
      }
    }
    forall sid | sid in Ids(rows) ensures sid in ids {
      var k := FirstIndexOf(rows, sid);
      var i :| 0 <= i < |ks| && ks[i] == k;
      assert ids[i] == sid;
    }
    DistinctLength(ids, Ids(rows));
  }

  lemma StaticIdsInLog(rows: seq<LogRow>)
    ensures forall i :: 0 <= i < |StaticFeatures(rows)| ==> StaticFeatures(rows)[i].idStudent in Ids(rows)
  {
    var ks := FirstOccurrences(rows);
    forall i | 0 <= i < |ks| ensures StaticFeatures(rows)[i].idStudent in Ids(rows) {
      assert rows[ks[i]] in rows;
    }
  }

  lemma FirstIsUnique(rows: seq<LogRow>, k1: int, k2: int)
    requires IsFirst(rows, k1) && IsFirst(rows, k2)
    requires rows[k1].idStudent == rows[k2].idStudent
    ensures k1 == k2
  {
  }

  // =====================================================================
  // advanced_agg
  // =====================================================================

  /** The cutoff filter: `date <= cutoff`, or every row without a cutoff. */
  predicate Keep(r: LogRow, cutoff: Option<int>) {
    cutoff.None? || r.date <= cutoff.value
  }

  function Surviving(rows: seq<LogRow>, cutoff: Option<int>): seq<LogRow> {
    if rows == [] then []
    else (if Keep(rows[0], cutoff) then [rows[0]] else []) + Surviving(rows[1..], cutoff)
  }

  /** One student's rows, in log order. */
  function RowsOf(rows: seq<LogRow>, sid: int): seq<LogRow> {
    if rows == [] then []
    else (if rows[0].idStudent == sid then [rows[0]] else []) + RowsOf(rows[1..], sid)
  }

  lemma {:induction false} SurvivingMembers(rows: seq<LogRow>, cutoff: Option<int>)
    ensures forall r :: r in Surviving(rows, cutoff) <==> r in rows && Keep(r, cutoff)
  {
    if rows != [] {
      SurvivingMembers(rows[1..], cutoff);
      assert rows == [rows[0]] + rows[1..];
    }
  }

  lemma {:induction false} RowsOfMembers(rows: seq<LogRow>, sid: int)
    ensures forall r :: r in RowsOf(rows, sid) <==> r in rows && r.idStudent == sid
  {
    if rows != [] {
      RowsOfMembers(rows[1..], sid);
      assert rows == [rows[0]] + rows[1..];
    }
  }

  function DaysOf(rs: seq<LogRow>): (ds: seq<int>)
    ensures |ds| == |rs|
    ensures forall d :: d in ds <==> exists r :: r in rs && r.date == d
  {
    if rs == [] then [] else [rs[0].date] + DaysOf(rs[1..])
  }

  /** The clicks of one `(id_student, date)` group. */
  function DaySum(rs: seq<LogRow>, d: int): int {
    if rs == [] then 0 else (if rs[0].date == d then rs[0].sumClick else 0) + DaySum(rs[1..], d)
  }

  /** The total of the `sum_click` column. */
  function ClickTotal(rs: seq<LogRow>): int {
    if rs == [] then 0 else rs[0].sumClick + ClickTotal(rs[1..])
  }

  /** The active days of a student, ascending: the `date` keys of the daily table. */
  function ActiveDays(rs: seq<LogRow>): (days: seq<int>)
    ensures StrictlyIncreasing(days)
    ensures forall d :: d in days <==> exists r :: r in rs && r.date == d
    ensures rs != [] ==> days != []
  {
    var days := DistinctSorted(DaysOf(rs));
    assert rs != [] ==> rs[0].date in days;
    days
  }

  /** The daily click totals, in day order: the list handed to `slope`. */
  function DailyClicks(rs: seq<LogRow>, days: seq<int>): (clicks: seq<int>)
    ensures |clicks| == |days|
  {
    seq(|days|, i requires 0 <= i < |days| => DaySum(rs, days[i]))
  }

  /** The seven statistics of one student's surviving rows. */
  function StudentStats(rs: seq<LogRow>): Dynamic
    requires rs != []
  {
    var days := ActiveDays(rs);
    var clicks := DailyClicks(rs, days);
    Dynamic(
      Sum(clicks),
      Mean(clicks),
      SampleVariance(clicks),
      |days|,
      days[|days| - 1],
      Slope(clicks),
      AvgGap(days))
  }

  /** `advanced_agg`: one row per student with at least one surviving row. */
  function AdvancedAgg(rows: seq<LogRow>, cutoff: Option<int>): map<int, Dynamic> {
    var s := Surviving(rows, cutoff);
    map sid | sid in Ids(s) :: RowsOfPresent(s, sid); StudentStats(RowsOf(s, sid))
  }

  lemma RowsOfPresent(rows: seq<LogRow>, sid: int)
    requires sid in Ids(rows)
    ensures RowsOf(rows, sid) != []
  {
    RowsOfMembers(rows, sid);
    var r :| r in rows && r.idStudent == sid;
    assert r in RowsOf(rows, sid);
  }

  // ----- the daily table regroups clicks without losing any -----

  function SumOverDays(days: seq<int>, rs: seq<LogRow>): int {
    if days == [] then 0 else DaySum(rs, days[0]) + SumOverDays(days[1..], rs)
  }

  lemma {:induction false} SumDailyClicks(rs: seq<LogRow>, days: seq<int>)
    ensures Sum(DailyClicks(rs, days)) == SumOverDays(days, rs)
  {
    if days != [] {
      assert DailyClicks(rs, days)[1..] == DailyClicks(rs, days[1..]);
      SumDailyClicks(rs, days[1..]);
    }
  }

  lemma {:induction false} SumOverDaysCons(days: seq<int>, r: LogRow, rs: seq<LogRow>)
    requires Distinct(days)
    ensures SumOverDays(days, [r] + rs) == SumOverDays(days, rs) + (if r.date in days then r.sumClick else 0)
  {
    if days != [] {
      assert ([r] + rs)[1..] == rs;
      assert Distinct(days[1..]);
      if r.date == days[0] {
        assert r.date !in days[1..];
      }
      SumOverDaysCons(days[1..], r, rs);
    }
  }

  /** Summing the daily totals over every active day gives the student's total. */
  lemma {:induction false} SumOverDaysIsTotal(days: seq<int>, rs: seq<LogRow>)
    requires Distinct(days)
    requires forall r :: r in rs ==> r.date in days
    ensures SumOverDays(days, rs) == ClickTotal(rs)
  {
    if rs != [] {
      assert rs == [rs[0]] + rs[1..];
      SumOverDaysCons(days, rs[0], rs[1..]);
      SumOverDaysIsTotal(days, rs[1..]);
    } else {
      SumOverDaysEmpty(days);
    }
  }

  lemma {:induction false} SumOverDaysEmpty(days: seq<int>)
    ensures SumOverDays(days, []) == 0
  {
    if days != [] {
      SumOverDaysEmpty(days[1..]);
    }
  }

  /** The set of distinct surviving days of a student. */
  function SurvivingDays(rows: seq<LogRow>, sid: int, cutoff: Option<int>): set<int> {
    set r | r in rows && r.idStudent == sid && Keep(r, cutoff) :: r.date
  }

  /** Per student: the dynamic row exists exactly when the student has a row
      that survives the cutoff; `total_clicks` is the sum of `sum_click` over those
      rows; `active_days_count` counts their distinct dates and `last_active_day`
      is the latest; `avg_daily_clicks` is the total over the count. */
  lemma AdvancedAggSpec(rows: seq<LogRow>, cutoff: Option<int>, sid: int)
    ensures sid in AdvancedAgg(rows, cutoff) <==> exists r :: r in rows && r.idStudent == sid && Keep(r, cutoff)
    ensures sid in AdvancedAgg(rows, cutoff) ==>
      var d := AdvancedAgg(rows, cutoff)[sid];
      var days := SurvivingDays(rows, sid, cutoff);
      && d.totalClicks == ClickTotal(RowsOf(Surviving(rows, cutoff), sid))
      && d.activeDaysCount == |days| > 0
      && d.lastActiveDay in days
      && (forall day :: day in days ==> day <= d.lastActiveDay)
      && d.avgDailyClicks == d.totalClicks as real / d.activeDaysCount as real
  {
    AdvancedAggKeys(rows, cutoff, sid);
    if sid in AdvancedAgg(rows, cutoff) {
      var rs := RowsOf(Surviving(rows, cutoff), sid);
      AdvancedAggAt(rows, cutoff, sid);
      ActiveDaysAreSurvivingDays(rows, cutoff, sid);
      StudentStatsTotals(rs);
      var days := ActiveDays(rs);
      IncreasingIsDistinct(days);
      var set_ := SurvivingDays(rows, sid, cutoff);
      DistinctLength(days, set_);
    }
  }

  lemma AdvancedAggAt(rows: seq<LogRow>, cutoff: Option<int>, sid: int)
    requires sid in AdvancedAgg(rows, cutoff)
    ensures RowsOf(Surviving(rows, cutoff), sid) != []
    ensures AdvancedAgg(rows, cutoff)[sid] == StudentStats(RowsOf(Surviving(rows, cutoff), sid))
  {
    RowsOfPresent(Surviving(rows, cutoff), sid);
  }

  /** A student has a dynamic row exactly when one of their rows survives the cutoff. */
  lemma AdvancedAggKeys(rows: seq<LogRow>, cutoff: Option<int>, sid: int)
    ensures sid in AdvancedAgg(rows, cutoff) <==> exists r :: r in rows && r.idStudent == sid && Keep(r, cutoff)
  {
    var s := Surviving(rows, cutoff);
    SurvivingMembers(rows, cutoff);
    if exists r :: r in rows && r.idStudent == sid && Keep(r, cutoff) {
      var r :| r in rows && r.idStudent == sid && Keep(r, cutoff);
      assert r in s;
      assert sid in Ids(s);
    }
  }

  lemma ActiveDaysAreSurvivingDays(rows: seq<LogRow>, cutoff: Option<int>, sid: int)
    ensures forall x :: x in ActiveDays(RowsOf(Surviving(rows, cutoff), sid)) <==> x in SurvivingDays(rows, sid, cutoff)
  {
    var s := Surviving(rows, cutoff);
    var rs := RowsOf(s, sid);
    SurvivingMembers(rows, cutoff);
    RowsOfMembers(s, sid);
    forall x | x in SurvivingDays(rows, sid, cutoff) ensures x in ActiveDays(rs) {
      var r :| r in rows && r.idStudent == sid && Keep(r, cutoff) && r.date == x;
      assert r in rs;
    }
  }

  /** The total is the sum of the daily totals, the mean is the total over the
      number of days, and the last day is the latest day. */
  lemma StudentStatsTotals(rs: seq<LogRow>)
    requires rs != []
    ensures var d := StudentStats(rs);
      && d.totalClicks == ClickTotal(rs)
      && d.activeDaysCount == |ActiveDays(rs)|
      && d.lastActiveDay in ActiveDays(rs)
      && (forall day :: day in ActiveDays(rs) ==> day <= d.lastActiveDay)
      && d.avgDailyClicks == d.totalClicks as real / d.activeDaysCount as real
  {
    StudentTotal(rs);
    LastIsLatest(ActiveDays(rs));
  }

  lemma StudentTotal(rs: seq<LogRow>)
    requires rs != []
    ensures StudentStats(rs).totalClicks == ClickTotal(rs)
  {
    var days := ActiveDays(rs);
    IncreasingIsDistinct(days);
    forall r | r in rs ensures r.date in days {
    }
    SumDailyClicks(rs, days);
    SumOverDaysIsTotal(days, rs);
  }

  lemma LastIsLatest(days: seq<int>)
    requires StrictlyIncreasing(days) && days != []
    ensures forall day :: day in days ==> day <= days[|days| - 1]
  {
    forall day | day in days ensures day <= days[|days| - 1] {
      var k :| 0 <= k < |days| && days[k] == day;
    }
  }

  lemma StudentStatsDefaults(rs: seq<LogRow>)
    requires rs != []
    ensures var d := StudentStats(rs);
      && d.activeDaysCount >= 1
      && (d.activeDaysCount < 3 ==> d.clickTrend == 0.0)
      && (d.activeDaysCount < 2 ==> d.avgStudyGap == 0.0)
      && (d.varClicks.None? <==> d.activeDaysCount == 1)
      && d.avgStudyGap >= 0.0
  {
    var days := ActiveDays(rs);
    var clicks := DailyClicks(rs, days);
    assert IsMin(days[0], days) && IsMax(days[|days| - 1], days) by {
      forall x | x in days ensures days[0] <= x <= days[|days| - 1] {
        var k :| 0 <= k < |days| && days[k] == x;
      }
    }
    AvgGapSpan(days, days[0], days[|days| - 1]);
  }

  /** `click_trend` is 0 below three active days and `avg_study_gap` below two;
      the variance is missing (NaN) exactly for a single active day, and the gap
      is never negative. */
  lemma AdvancedAggDefaults(rows: seq<LogRow>, cutoff: Option<int>, sid: int)
    requires sid in AdvancedAgg(rows, cutoff)
    ensures var d := AdvancedAgg(rows, cutoff)[sid];
      && (d.activeDaysCount < 3 ==> d.clickTrend == 0.0)
      && (d.activeDaysCount < 2 ==> d.avgStudyGap == 0.0)
      && (d.varClicks.None? <==> d.activeDaysCount == 1)
      && d.avgStudyGap >= 0.0
  {
    var s := Surviving(rows, cutoff);
    RowsOfPresent(s, sid);
    StudentStatsDefaults(RowsOf(s, sid));
  }

  // ----- the cutoff -----

  /** Without a cutoff every row survives. */
  lemma {:induction false} NoCutoffKeepsAll(rows: seq<LogRow>)
    ensures Surviving(rows, None) == rows
  {
    if rows != [] {
      NoCutoffKeepsAll(rows[1..]);
      assert rows == [rows[0]] + rows[1..];
    }
  }

  /** Filtering at a later cutoff and then at an earlier one is filtering at the
      earlier one: the rows used at `c1` are a subset of those used at `c2`. */
  lemma {:induction false} CutoffNested(rows: seq<LogRow>, c1: int, c2: int)
    requires c1 <= c2
    ensures Surviving(Surviving(rows, Some(c2)), Some(c1)) == Surviving(rows, Some(c1))
  {
    if rows != [] {
      CutoffNested(rows[1..], c1, c2);
      var r := rows[0];
      var t := Surviving(rows[1..], Some(c2));
      if Keep(r, Some(c2)) {
        assert Surviving(rows, Some(c2)) == [r] + t;
        assert ([r] + t)[0] == r && ([r] + t)[1..] == t;
      } else {
        assert Surviving(rows, Some(c2)) == t;
        assert !Keep(r, Some(c1));
      }
    }
  }

  lemma StudentTotalCons(r: LogRow, t: seq<LogRow>, sid: int)
    ensures ClickTotal(RowsOf([r] + t, sid)) == (if r.idStudent == sid then r.sumClick else 0) + ClickTotal(RowsOf(t, sid))
  {
    assert ([r] + t)[0] == r && ([r] + t)[1..] == t;
    var rest := RowsOf(t, sid);
    if r.idStudent == sid {
      assert RowsOf([r] + t, sid) == [r] + rest;
      assert ([r] + rest)[0] == r && ([r] + rest)[1..] == rest;
    } else {
      assert RowsOf([r] + t, sid) == rest;
    }
  }

  lemma {:induction false} ClickTotalMonotone(rows: seq<LogRow>, sid: int, c1: Option<int>, c2: Option<int>)
    requires forall r :: r in rows ==> r.sumClick >= 0
    requires forall r :: r in rows && Keep(r, c1) ==> Keep(r, c2)
    ensures ClickTotal(RowsOf(Surviving(rows, c1), sid)) <= ClickTotal(RowsOf(Surviving(rows, c2), sid))
  {
    if rows != [] {
      var r := rows[0];
      assert forall q :: q in rows[1..] ==> q in rows;
      ClickTotalMonotone(rows[1..], sid, c1, c2);
      var t1 := Surviving(rows[1..], c1);
      var t2 := Surviving(rows[1..], c2);
      if Keep(r, c1) {
        assert Surviving(rows, c1) == [r] + t1;
        StudentTotalCons(r, t1, sid);
      } else {
        assert Surviving(rows, c1) == t1;
      }
      if Keep(r, c2) {
        assert Surviving(rows, c2) == [r] + t2;
        StudentTotalCons(r, t2, sid);
      } else {
        assert Surviving(rows, c2) == t2;
      }
      assert r in rows;
    }
  }

  /** With non-negative clicks, moving the cutoff later never removes a student
      from the dynamic table and never lowers `total_clicks`; having no cutoff
      is at least as much as any cutoff. */
  lemma CutoffMonotone(rows: seq<LogRow>, c1: Option<int>, c2: Option<int>, sid: int)
    requires forall r :: r in rows ==> r.sumClick >= 0
    requires c2.None? || (c1.Some? && c1.value <= c2.value)
    requires sid in AdvancedAgg(rows, c1)
    ensures sid in AdvancedAgg(rows, c2)
    ensures AdvancedAgg(rows, c1)[sid].totalClicks <= AdvancedAgg(rows, c2)[sid].totalClicks
  {
    AdvancedAggSpec(rows, c1, sid);
    AdvancedAggSpec(rows, c2, sid);
    ClickTotalMonotone(rows, sid, c1, c2);
  }

  // =====================================================================
  // the left merge and fillna(0)
  // =====================================================================

  function FillInt(v: Option<int>): int {
    match v case Some(x) => x case None => 0
  }

  function FillReal(v: Option<real>): real {
    match v case Some(x) => x case None => 0.0
  }

  /** One merged row; a student without a dynamic row gets 0 in every dynamic column. */
  function Backfill(s: StaticRow, dyn: Option<Dynamic>): FeatureRow {
    var a := s.attrs;
    var d := match dyn
      case Some(d) => d
      case None => Dynamic(0, 0.0, None, 0, 0, 0.0, 0.0);
    FeatureRow(s.idStudent, Vector(
      a.gender, a.region, a.highestEducation, a.imdBand, a.ageBand,
      FillInt(a.numPrevAttempts), FillInt(a.studiedCredits),
      a.disability, a.codeModule, a.codePresentation,
      d.totalClicks, d.avgDailyClicks, FillReal(d.varClicks), d.activeDaysCount,
      d.lastActiveDay, d.clickTrend, d.avgStudyGap))
  }

  /** `static.merge(dynamic, on="id_student", how="left")` followed by `fillna(0)`. */
  function MergeLeft(st: seq<StaticRow>, dyn: map<int, Dynamic>): (out: seq<FeatureRow>)
    ensures |out| == |st|
  {
    if st == [] then []
    else
      var id := st[0].idStudent;
      [Backfill(st[0], if id in dyn then Some(dyn[id]) else None)] + MergeLeft(st[1..], dyn)
  }

  /** `prepare_inference_data`, which is also the first half of `prepare_features`. */
  function PrepareInferenceData(rows: seq<LogRow>, cutoff: Option<int>): seq<FeatureRow> {
    MergeLeft(StaticFeatures(rows), AdvancedAgg(rows, cutoff))
  }

  predicate DynamicIsZero(x: Vector) {
    x.totalClicks == 0 && x.avgDailyClicks == 0.0 && x.varClicks == 0.0 && x.activeDaysCount == 0
    && x.lastActiveDay == 0 && x.clickTrend == 0.0 && x.avgStudyGap == 0.0
  }

  /** The ten static columns of a feature vector are the student's attributes,
      with a missing number filled with 0. */
  predicate CarriesAttrs(x: Vector, a: StaticAttrs) {
    && x.gender == a.gender && x.region == a.region && x.highestEducation == a.highestEducation
    && x.imdBand == a.imdBand && x.ageBand == a.ageBand
    && x.numPrevAttempts == FillInt(a.numPrevAttempts) && x.studiedCredits == FillInt(a.studiedCredits)
    && x.disability == a.disability && x.codeModule == a.codeModule && x.codePresentation == a.codePresentation
  }

  /** The seven dynamic columns of a feature vector are those of `d`, with an
      undefined spread filled with 0. */
  predicate CarriesDynamic(x: Vector, d: Dynamic) {
    && x.totalClicks == d.totalClicks && x.avgDailyClicks == d.avgDailyClicks
    && x.varClicks == FillReal(d.varClicks) && x.activeDaysCount == d.activeDaysCount
    && x.lastActiveDay == d.lastActiveDay && x.clickTrend == d.clickTrend && x.avgStudyGap == d.avgStudyGap
  }

  lemma {:induction false} MergeLeftAt(st: seq<StaticRow>, dyn: map<int, Dynamic>, i: int)
    requires 0 <= i < |st|
    ensures MergeLeft(st, dyn)[i] == Backfill(st[i], if st[i].idStudent in dyn then Some(dyn[st[i].idStudent]) else None)
  {
    if i > 0 {
      MergeLeftAt(st[1..], dyn, i - 1);
    }
  }

  /** The left merge keeps every static student once, in static order; a student
      with no surviving activity has 0 in every dynamic column; otherwise the
      dynamic columns are those of the dynamic table with a missing `std_clicks`
      (a single active day) filled with 0; missing static numbers become 0. */
  lemma PrepareInferenceDataSpec(rows: seq<LogRow>, cutoff: Option<int>)
    ensures |PrepareInferenceData(rows, cutoff)| == |Ids(rows)|
    ensures forall i :: 0 <= i < |PrepareInferenceData(rows, cutoff)| ==>
      var f := PrepareInferenceData(rows, cutoff)[i];
      var s := StaticFeatures(rows)[i];
      var agg := AdvancedAgg(rows, cutoff);
      && f.idStudent == s.idStudent
      && CarriesAttrs(f.x, s.attrs)
      && (f.idStudent !in agg ==> DynamicIsZero(f.x))
      && (f.idStudent in agg ==> CarriesDynamic(f.x, agg[f.idStudent]))
  {
    StaticFeaturesSpec(rows);
    forall i | 0 <= i < |PrepareInferenceData(rows, cutoff)| {
      MergeLeftAt(StaticFeatures(rows), AdvancedAgg(rows, cutoff), i);
    }
  }

  /** One feature row per distinct student of the log. */
  lemma FeatureCount(rows: seq<LogRow>, cutoff: Option<int>)
    ensures |PrepareInferenceData(rows, cutoff)| == |Ids(rows)|
  {
    StaticFeaturesSpec(rows);
  }

  /** The feature table is empty exactly when the log has no rows: a cutoff that
      removes all activity still leaves every student's static row. */
  lemma EmptyIffNoRows(rows: seq<LogRow>, cutoff: Option<int>)
    ensures PrepareInferenceData(rows, cutoff) == [] <==> rows == []
  {
    PrepareInferenceDataSpec(rows, cutoff);
    if rows != [] {
      assert rows[0].idStudent in Ids(rows);
    }
  }

  // =====================================================================
  // prepare_features: the inner join with the labels
  // =====================================================================

  /** `features.merge(labels, on="id_student", how="inner")` with unique label keys. */
  function InnerJoin(fs: seq<FeatureRow>, labels: map<int, int>): seq<TrainingRow> {
    if fs == [] then []
    else
      var f := fs[0];
      (if f.idStudent in labels then [TrainingRow(f.idStudent, f.x, labels[f.idStudent])] else [])
        + InnerJoin(fs[1..], labels)
  }

  /** `prepare_features`. */
  function PrepareFeatures(rows: seq<LogRow>, cutoff: Option<int>): seq<TrainingRow> {
    InnerJoin(PrepareInferenceData(rows, cutoff), LabelDropout(rows))
  }

  /** The training matrix without its label column. */
  function DropLabel(ts: seq<TrainingRow>): (fs: seq<FeatureRow>)
    ensures |fs| == |ts|
  {
    seq(|ts|, i requires 0 <= i < |ts| => FeatureRow(ts[i].idStudent, ts[i].x))
  }

  lemma {:induction false} InnerJoinKeepsAll(fs: seq<FeatureRow>, labels: map<int, int>)
    requires forall i :: 0 <= i < |fs| ==> fs[i].idStudent in labels
    ensures DropLabel(InnerJoin(fs, labels)) == fs
    ensures forall i :: 0 <= i < |fs| ==> InnerJoin(fs, labels)[i].dropout == labels[fs[i].idStudent]
  {
    if fs != [] {
      InnerJoinKeepsAll(fs[1..], labels);
      var t := InnerJoin(fs, labels);
      assert t == [TrainingRow(fs[0].idStudent, fs[0].x, labels[fs[0].idStudent])] + InnerJoin(fs[1..], labels);
      assert forall i :: 0 < i < |t| ==> t[i] == InnerJoin(fs[1..], labels)[i - 1];
    }
  }

  /** Training and inference see the same matrix: dropping the `dropout` column
      of `prepare_features` gives `prepare_inference_data` row for row (the inner
      join drops no one), and each row's label is the student's label. */
  lemma TrainingMatchesInference(rows: seq<LogRow>, cutoff: Option<int>)
    ensures DropLabel(PrepareFeatures(rows, cutoff)) == PrepareInferenceData(rows, cutoff)
    ensures forall i :: 0 <= i < |PrepareFeatures(rows, cutoff)| ==>
      var t := PrepareFeatures(rows, cutoff)[i];
      t.idStudent in LabelDropout(rows) && t.dropout == LabelDropout(rows)[t.idStudent]
  {
    var fs := PrepareInferenceData(rows, cutoff);
    var labels := LabelDropout(rows);
    LabelDropoutSpec(rows);
    var st := StaticFeatures(rows);
    StaticIdsInLog(rows);
    forall i | 0 <= i < |fs| ensures fs[i].idStudent in labels {
      MergeLeftAt(st, AdvancedAgg(rows, cutoff), i);
      assert fs[i].idStudent == st[i].idStudent;
    }
    InnerJoinKeepsAll(fs, labels);
    var t := PrepareFeatures(rows, cutoff);
    forall i | 0 <= i < |t| ensures t[i].idStudent in labels && t[i].dropout == labels[t[i].idStudent] {
      assert DropLabel(t)[i] == fs[i];
    }
  }
}
