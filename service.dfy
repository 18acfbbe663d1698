/** The two prediction endpoints of the web service: `/predict` (a CSV upload)
    and `/predict-batch` (JSON records). Routing, JSON rendering, the temporary
    file and the model's inside are not modelled; the loaded model is a parameter. */
module Service {
  import opened Records
  import opened Loader
  import opened Preprocessing
  import opened Ranking

  /** An uploaded `file` part: its file name, whether the CSV header has a
      `date` column, and its rows as read from the CSV. */
  datatype Upload = Upload(filename: string, hasDateColumn: bool, rows: seq<RawRow>)

  /** The JSON body of `/predict-batch`: missing (null), or an object that may
      carry a `data` list and a `cutoff`. */
  datatype BatchBody = NullBody | Body(hasData: bool, cutoff: Option<int>, records: seq<RawRow>)

  datatype Response =
    | Failure(status: int, message: string)
    | Ranked(cutoffDays: Option<int>, totalStudents: int, predictions: seq<Prediction>)

  const ModelNotLoaded: string := "Model not loaded. Please train the model first."
  const NoCsvFile: string := "No CSV file provided. Please upload a file with key \"file\"."
  const NoFileSelected: string := "No file selected."
  const NotCsv: string := "File must be a CSV file."
  const EmptyCsv: string := "Feature extraction resulted in empty data. Check CSV format."
  const EmptyJson: string := "Feature extraction resulted in empty data. Check JSON format."
  const MissingData: string := "Missing \"data\" field in JSON body."
  /** The message of the `KeyError` raised when the loaded frame has no `date` column. */
  const NoDateColumn: string := "Error processing request: 'date'"

  /** `pd.DataFrame(records)` has a `date` column iff some record has a `date` key. */
  predicate HasDateColumn(records: seq<RawRow>) {
    exists i :: 0 <= i < |records| && !records[i].date.Absent?
  }

  predicate EndsWith(s: string, suffix: string) {
    |suffix| <= |s| && s[|s| - |suffix|..] == suffix
  }

  /** `request.args.get('cutoff', type=int, default=None)`: a value that does not
      parse as an integer falls back to no cutoff. */
  function CutoffArg(arg: Option<string>): (c: Option<int>)
    ensures arg.None? ==> c.None?
    ensures forall n :: arg == Some(ShowInt(n)) ==> c == Some(n)
  {
    match arg
    case None => None
    case Some(s) =>
      assert forall n :: s == ShowInt(n) ==> ParseInt(s) == Some(n) by {
        forall n | s == ShowInt(n) ensures ParseInt(s) == Some(n) {
          ParseShowInt(n);
        }
      }
      ParseInt(s)
  }

  /** Text that is not an optionally signed run of decimal digits (the empty
      text, a lone sign, or any other character anywhere) gives no cutoff. */
  lemma UnreadableCutoffIsNone(s: string)
    requires s == [] || s == "-" || s == "+" ||
      exists i :: 0 <= i < |s| && !IsDigit(s[i]) && !(i == 0 && (s[0] == '-' || s[0] == '+'))
    ensures CutoffArg(Some(s)) == None
  {
    if s != [] && s != "-" && s != "+" {
      var i :| 0 <= i < |s| && !IsDigit(s[i]) && !(i == 0 && (s[0] == '-' || s[0] == '+'));
      if s[0] == '-' || s[0] == '+' {
        assert s[1..][i - 1] == s[i];
      }
    }
  }

  /** The ranked predictions for a non-empty feature table. */
  method Rank(model: Model, fs: seq<FeatureRow>, cutoff: Option<int>) returns (resp: Response)
    ensures resp == Ranked(cutoff, |SortDesc(Paired(StudentIds(fs), model.predict(Matrix(fs))))|,
                           SortDesc(Paired(StudentIds(fs), model.predict(Matrix(fs)))))
  {
    var probs := model.predict(Matrix(fs));
    var results := PairResults(StudentIds(fs), probs);
    results := SortDesc(results);
    resp := Ranked(cutoff, |results|, results);
  }

  /** `/predict`. The checks run in this order, each before any data is read:
      no model (500), no `file` part (400), an empty file name (400), a name not
      ending in `.csv` (400); then a CSV without a `date` column fails the lookup
      in `load_raw` (500), an empty feature table is a 400, and otherwise the
      predictions come back ranked. */
  method PredictCsv(model: Option<Model>, file: Option<Upload>, cutoffArg: Option<string>)
    returns (resp: Response)
    ensures model.None? ==> resp == Failure(500, ModelNotLoaded)
    ensures model.Some? && file.None? ==> resp == Failure(400, NoCsvFile)
    ensures model.Some? && file.Some? && file.value.filename == [] ==> resp == Failure(400, NoFileSelected)
    ensures model.Some? && file.Some? && file.value.filename != [] && !EndsWith(file.value.filename, ".csv") ==>
      resp == Failure(400, NotCsv)
    ensures model.Some? && file.Some? && EndsWith(file.value.filename, ".csv") && !file.value.hasDateColumn ==>
      resp == Failure(500, NoDateColumn)
    ensures model.Some? && file.Some? && EndsWith(file.value.filename, ".csv") && file.value.hasDateColumn ==>
      var fs := PrepareInferenceData(LoadRaw(file.value.rows), CutoffArg(cutoffArg));
      var ranked := SortDesc(Paired(StudentIds(fs), model.value.predict(Matrix(fs))));
      && (fs == [] ==> resp == Failure(400, EmptyCsv))
      && (fs != [] ==> resp == Ranked(CutoffArg(cutoffArg), |ranked|, ranked))
  {
    if model.None? {
      return Failure(500, ModelNotLoaded);
    }
    if file.None? {
      return Failure(400, NoCsvFile);
    }
    var upload := file.value;
    if upload.filename == [] {
      return Failure(400, NoFileSelected);
    }
    if !EndsWith(upload.filename, ".csv") {
      return Failure(400, NotCsv);
    }
    if !upload.hasDateColumn {
      return Failure(500, NoDateColumn);
    }
    var cutoff := CutoffArg(cutoffArg);
    var fs := PrepareInferenceData(LoadRaw(upload.rows), cutoff);
    if fs == [] {
      return Failure(400, EmptyCsv);
    }
    resp := Rank(model.value, fs, cutoff);
  }

  /** `/predict-batch`: no model (500); a null body or one without `data` (400);
      a `data` list in which no record has a `date` key (the empty list among
      them) gives a frame with no `date` column, whose lookup fails (500);
      otherwise the predictions come back ranked. */
  method PredictBatch(model: Option<Model>, body: BatchBody) returns (resp: Response)
    ensures model.None? ==> resp == Failure(500, ModelNotLoaded)
    ensures model.Some? && (body.NullBody? || !body.hasData) ==> resp == Failure(400, MissingData)
    ensures model.Some? && body.Body? && body.hasData && !HasDateColumn(body.records) ==>
      resp == Failure(500, NoDateColumn)
    ensures model.Some? && body.Body? && body.hasData && HasDateColumn(body.records) ==>
      var fs := PrepareInferenceData(LoadRaw(body.records), body.cutoff);
      var ranked := SortDesc(Paired(StudentIds(fs), model.value.predict(Matrix(fs))));
      && (fs == [] ==> resp == Failure(400, EmptyJson))
      && (fs != [] ==> resp == Ranked(body.cutoff, |ranked|, ranked))
  {
    if model.None? {
      return Failure(500, ModelNotLoaded);
    }
    if body.NullBody? || !body.hasData {
      return Failure(400, MissingData);
    }
    if !HasDateColumn(body.records) {
      return Failure(500, NoDateColumn);
    }
    var fs := PrepareInferenceData(LoadRaw(body.records), body.cutoff);
    if fs == [] {
      return Failure(400, EmptyJson);
    }
    resp := Rank(model.value, fs, body.cutoff);
  }

  /** A CSV whose rows are all gone gives the empty-feature 400; any row at all,
      whatever the cutoff, gives a non-empty table. */
  lemma CsvEmptyIffNoRows(rows: seq<RawRow>, cutoff: Option<int>)
    ensures PrepareInferenceData(LoadRaw(rows), cutoff) == [] <==> rows == []
  {
    EmptyIffNoRows(LoadRaw(rows), cutoff);
  }

  /** For a `data` list of records, the empty-feature 400 of `/predict-batch`
      cannot be reached: a list with no `date` key, the empty one included,
      fails earlier, and a list with one yields a non-empty table. */
  lemma BatchEmptyCheckUnreachable(body: BatchBody)
    requires body.Body? && body.hasData && HasDateColumn(body.records)
    ensures PrepareInferenceData(LoadRaw(body.records), body.cutoff) != []
  {
    CsvEmptyIffNoRows(body.records, body.cutoff);
  }

  /** A row whose date is not a number still counts: it lands in its student's
      day-0 bucket whenever the cutoff (if any) is not negative. */
  lemma UnreadableDateIsDayZero(raw: seq<RawRow>, k: int, cutoff: Option<int>)
    requires 0 <= k < |raw|
    requires raw[k].date.Null? || raw[k].date.Absent? ||
      (raw[k].date.Text? && forall i :: 0 <= i < |raw[k].date.s| ==>
         !IsDigit(raw[k].date.s[i]) && !IsLetter(raw[k].date.s[i]))
    requires cutoff.None? || cutoff.value >= 0
    ensures raw[k].idStudent in AdvancedAgg(LoadRaw(raw), cutoff)
    ensures 0 in SurvivingDays(LoadRaw(raw), raw[k].idStudent, cutoff)
  {
    var rows := LoadRaw(raw);
    NonNumericDateIsDayZero(raw[k].date);
    assert rows[k].date == 0 && rows[k].idStudent == raw[k].idStudent;
    assert rows[k] in rows;
    AdvancedAggSpec(rows, cutoff, raw[k].idStudent);
  }
}
