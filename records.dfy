/** The tables that flow through the dropout feature pipeline. */
module Records {

  datatype Option<+T> = None | Some(value: T)

  /** A raw `date` cell: a JSON number, a CSV/JSON text value, a missing value,
      or, for a JSON record, no `date` key at all. */
  datatype DateCell = Number(n: int) | Text(s: string) | Null | Absent

  /** Static, per-student attributes as they appear in the raw log, in column order.
      The two numeric columns may be missing (NaN) in the raw file. */
  datatype StaticAttrs = StaticAttrs(
    gender: string,
    region: string,
    highestEducation: string,
    imdBand: string,
    ageBand: string,
    numPrevAttempts: Option<int>,
    studiedCredits: Option<int>,
    disability: string,
    codeModule: string,
    codePresentation: string)

  /** One row of the click log. `D` is the type of the `date` column:
      `DateCell` before loading, `int` (a day offset) after. */
  datatype Row<D> = Row(
    idStudent: int,
    date: D,
    sumClick: int,
    attrs: StaticAttrs,
    finalResult: Option<string>)

  type RawRow = Row<DateCell>
  type LogRow = Row<int>

  /** One row of the static table: `id_student` and the static columns. */
  datatype StaticRow = StaticRow(idStudent: int, attrs: StaticAttrs)

  /** One row of the dynamic table. `varClicks` stands for `std_clicks` (see README);
      it is NaN (`None`) for a student with a single active day. */
  datatype Dynamic = Dynamic(
    totalClicks: int,
    avgDailyClicks: real,
    varClicks: Option<real>,
    activeDaysCount: int,
    lastActiveDay: int,
    clickTrend: real,
    avgStudyGap: real)

  /** The feature vector handed to the model: every column but `id_student`,
      in the order of the merged table, with every numeric gap filled. */
  datatype Vector = Vector(
    gender: string,
    region: string,
    highestEducation: string,
    imdBand: string,
    ageBand: string,
    numPrevAttempts: int,
    studiedCredits: int,
    disability: string,
    codeModule: string,
    codePresentation: string,
    totalClicks: int,
    avgDailyClicks: real,
    varClicks: real,
    activeDaysCount: int,
    lastActiveDay: int,
    clickTrend: real,
    avgStudyGap: real)

  /** A row of the inference matrix. */
  datatype FeatureRow = FeatureRow(idStudent: int, x: Vector)

  /** A row of the training matrix: the inference row plus the `dropout` label. */
  datatype TrainingRow = TrainingRow(idStudent: int, x: Vector, dropout: int)

  /** The set of students that occur in a log. */
  function Ids<D(==)>(rows: seq<Row<D>>): set<int> {
    set r | r in rows :: r.idStudent
  }
}
