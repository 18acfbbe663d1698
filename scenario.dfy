/** A two-student log worked through the training pipeline: one student with a
    steadily rising daily activity who passed, one with a single active day who
    withdrew. */
module Scenario {
  import opened Records
  import opened Sequences
  import opened Statistics
  import opened Preprocessing

  const Attrs: StaticAttrs :=
    StaticAttrs("M", "Scotland", "A Level", "20-30%", "0-35", Some(0), Some(60), "N", "AAA", "2013J")

  function Visit(sid: int, day: int, clicks: int, result: string): LogRow {
    Row(sid, day, clicks, Attrs, Some(result))
  }

  /** Student 101: days 1, 2, 3 with 10, 20, 30 clicks, passed.
      Student 202: day 5 with 7 clicks, withdrew. */
  predicate IsScenarioLog(rows: seq<LogRow>) {
    && |rows| == 4
    && rows[0] == Visit(101, 1, 10, "Pass")
    && rows[1] == Visit(101, 2, 20, "Pass")
    && rows[2] == Visit(101, 3, 30, "Pass")
    && rows[3] == Visit(202, 5, 7, Withdrawn)
  }

  lemma ScenarioIds(rows: seq<LogRow>)
    requires IsScenarioLog(rows)
    ensures Ids(rows) == {101, 202}
  {
    assert rows[0] in rows && rows[3] in rows;
    forall r | r in rows ensures r.idStudent in {101, 202} {
      var k :| 0 <= k < 4 && rows[k] == r;
    }
  }

  lemma ScenarioRowsOf(rows: seq<LogRow>)
    requires IsScenarioLog(rows)
    ensures RowsOf(rows, 101) == rows[..3]
    ensures RowsOf(rows, 202) == rows[3..]
  {
    var t1, t2, t3 := rows[1..], rows[2..], rows[3..];
    assert t1[1..] == t2 && t2[1..] == t3 && t3[1..] == [];
    assert RowsOf(t3, 101) == [];
    assert RowsOf(t2, 101) == [rows[2]];
    assert RowsOf(t1, 101) == [rows[1], rows[2]];
    assert RowsOf(t3, 202) == [rows[3]];
    assert RowsOf(t2, 202) == [rows[3]];
    assert RowsOf(t1, 202) == [rows[3]];
  }

  lemma PassedResults(rows: seq<LogRow>)
    requires IsScenarioLog(rows)
    ensures FirstPresent(ResultsOf(rows, 101)) == Some("Pass")
  {
    var p1, p2, p3 := rows[..1], rows[..2], rows[..3];
    assert p3[..2] == p2 && p2[..1] == p1 && p1[..0] == [];
    assert ResultsOf(p1, 101) == [Some("Pass")];
    assert ResultsOf(p2, 101) == [Some("Pass"), Some("Pass")];
    assert ResultsOf(p3, 101) == [Some("Pass"), Some("Pass"), Some("Pass")];
    assert ResultsOf(rows, 101) == [Some("Pass"), Some("Pass"), Some("Pass")];
  }

  lemma WithdrawnResults(rows: seq<LogRow>)
    requires IsScenarioLog(rows)
    ensures FirstPresent(ResultsOf(rows, 202)) == Some(Withdrawn)
  {
    var p1, p2, p3 := rows[..1], rows[..2], rows[..3];
    assert p3[..2] == p2 && p2[..1] == p1 && p1[..0] == [];
    assert ResultsOf(p1, 202) == [];
    assert ResultsOf(p2, 202) == [];
    assert ResultsOf(p3, 202) == [];
    assert ResultsOf(rows, 202) == [Some(Withdrawn)];
  }

  /** The training labels are {101: 0, 202: 1}. */
  lemma ScenarioLabels(rows: seq<LogRow>)
    requires IsScenarioLog(rows)
    ensures LabelDropout(rows) == map[101 := 0, 202 := 1]
  {
    ScenarioIds(rows);
    LabelDropoutSpec(rows);
    PassedResults(rows);
    WithdrawnResults(rows);
    assert "Pass"[0] != Withdrawn[0];
    var labels := LabelDropout(rows);
    assert labels[101] == 0 && labels[202] == 1;
  }

  lemma ScenarioDays(rows: seq<LogRow>)
    requires IsScenarioLog(rows)
    ensures ActiveDays(rows[..3]) == [1, 2, 3]
    ensures ActiveDays(rows[3..]) == [5]
  {
    var rs := rows[..3];
    var t1, t2 := rs[1..], rs[1..][1..];
    assert rs[0] == rows[0] && t1[0] == rows[1] && t2[0] == rows[2] && t2[1..] == [];
    assert DaysOf(t2) == [3];
    assert DaysOf(t1) == [2, 3];
    assert DaysOf(rs) == [1, 2, 3];
    DistinctSortedIncreasing([1, 2, 3]);
    var one := rows[3..];
    assert DaysOf(one) == [5];
    DistinctSortedIncreasing([5]);
  }

  lemma RisingClicks(rows: seq<LogRow>)
    requires IsScenarioLog(rows)
    ensures DailyClicks(rows[..3], [1, 2, 3]) == Linear(10, 10, 3)
  {
    var rs := rows[..3];
    var t1, t2 := rs[1..], rs[1..][1..];
    assert rs[0] == rows[0] && t1[0] == rows[1] && t2[0] == rows[2] && t2[1..] == [];
    assert DaySum(t2, 1) == 0 && DaySum(t2, 2) == 0 && DaySum(t2, 3) == 30;
    assert DaySum(t1, 1) == 0 && DaySum(t1, 2) == 20 && DaySum(t1, 3) == 30;
    assert DaySum(rs, 1) == 10 && DaySum(rs, 2) == 20 && DaySum(rs, 3) == 30;
  }

  /** Days 1, 2, 3 are one day apart on average. */
  lemma GapOfConsecutiveDays(days: seq<int>)
    requires |days| == 3 && days[0] == 1 && days[1] == 2 && days[2] == 3
    ensures AvgGap(days) == 1.0
  {
    assert IsMin(1, days) && IsMax(3, days);
    AvgGapSpan(days, 1, 3);
  }

  lemma RisingTrend(rs: seq<LogRow>)
    requires rs != []
    requires ActiveDays(rs) == [1, 2, 3]
    requires DailyClicks(rs, [1, 2, 3]) == Linear(10, 10, 3)
    ensures StudentStats(rs).clickTrend == 10.0
  {
    SlopeOfLinear(10, 10, 3);
  }

  lemma RisingTotal(rs: seq<LogRow>)
    requires rs != []
    requires ActiveDays(rs) == [1, 2, 3]
    requires DailyClicks(rs, [1, 2, 3]) == Linear(10, 10, 3)
    ensures StudentStats(rs).totalClicks == 60
  {
    LinearSum(10, 10, 3);
    assert SumIdx(3) == 3;
  }

  lemma RisingGap(rs: seq<LogRow>)
    requires rs != []
    requires ActiveDays(rs) == [1, 2, 3]
    ensures StudentStats(rs).avgStudyGap == 1.0
  {
    GapOfConsecutiveDays(ActiveDays(rs));
  }

  /** Student 101: three active days, 60 clicks, a trend of 10 more clicks per
      day, and one day between visits. */
  lemma RisingStudent(rows: seq<LogRow>)
    requires IsScenarioLog(rows)
    ensures var d := StudentStats(rows[..3]);
      && d.activeDaysCount == 3
      && d.totalClicks == 60
      && d.clickTrend == 10.0
      && d.avgStudyGap == 1.0
  {
    var rs := rows[..3];
    ScenarioDays(rows);
    RisingClicks(rows);
    RisingTrend(rs);
    RisingTotal(rs);
    RisingGap(rs);
  }

  /** A student active on a single day with `c` clicks: a total and mean of `c`,
      an undefined spread, and neither a trend nor a gap. */
  lemma SingleDayStats(rs: seq<LogRow>, c: int)
    requires rs != []
    requires |ActiveDays(rs)| == 1
    requires DaySum(rs, ActiveDays(rs)[0]) == c
    ensures var d := StudentStats(rs);
      && d.activeDaysCount == 1
      && d.totalClicks == c
      && d.avgDailyClicks == c as real
      && d.varClicks.None?
      && d.clickTrend == 0.0
      && d.avgStudyGap == 0.0
  {
    var clicks := DailyClicks(rs, ActiveDays(rs));
    assert clicks[1..] == [];
    assert Sum(clicks) == c;
  }

  lemma OneDayStudent(rows: seq<LogRow>)
    requires IsScenarioLog(rows)
    ensures var d := StudentStats(rows[3..]);
      && d.activeDaysCount == 1
      && d.totalClicks == 7
      && d.avgDailyClicks == 7.0
      && d.varClicks.None?
      && d.clickTrend == 0.0
      && d.avgStudyGap == 0.0
  {
    var one := rows[3..];
    ScenarioDays(rows);
    assert DaySum(one, 5) == 7;
    SingleDayStats(one, 7);
  }

  lemma ScenarioAgg(rows: seq<LogRow>)
    requires IsScenarioLog(rows)
    ensures AdvancedAgg(rows, None).Keys == {101, 202}
    ensures AdvancedAgg(rows, None)[101] == StudentStats(rows[..3])
    ensures AdvancedAgg(rows, None)[202] == StudentStats(rows[3..])
  {
    ScenarioIds(rows);
    ScenarioRowsOf(rows);
    NoCutoffKeepsAll(rows);
  }

  /** The labels are {101: 0, 202: 1}; with no cutoff student 101 has three
      active days and a rising click trend of 10 per day, and student 202 has one
      active day, no trend, no gap and an undefined spread. */
  lemma EndToEndScenario(rows: seq<LogRow>)
    requires IsScenarioLog(rows)
    ensures LabelDropout(rows) == map[101 := 0, 202 := 1]
    ensures var agg := AdvancedAgg(rows, None);
      && agg.Keys == {101, 202}
      && agg[101].activeDaysCount == 3
      && agg[101].totalClicks == 60
      && agg[101].clickTrend > 0.0
      && agg[101].avgStudyGap == 1.0
      && agg[202].activeDaysCount == 1
      && agg[202].totalClicks == 7
      && agg[202].avgDailyClicks == 7.0
      && agg[202].varClicks.None?
      && agg[202].clickTrend == 0.0
      && agg[202].avgStudyGap == 0.0
  {
    ScenarioLabels(rows);
    ScenarioAgg(rows);
    RisingStudent(rows);
    OneDayStudent(rows);
  }
}
