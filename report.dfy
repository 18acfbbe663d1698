/** The command-line risk report: predictions for a test log, ranked, and each
    student put into one of three risk tiers. Console output is modelled as the
    list of report lines it prints. */
module Report {
  import opened Records
  import opened Loader
  import opened Preprocessing
  import opened Ranking

  datatype Tier = Critical | WatchList | Safe

  /** The printed status of each tier. */
  function Status(t: Tier): string {
    match t
    case Critical => "\U{1F534} CRITICAL RISK - INTERVENE NOW"
    case WatchList => "\U{1F7E1} WATCH LIST"
    case Safe => "\U{1F7E2} SAFE"
  }

  /** The tier of a dropout probability. */
  function TierOf(p: real): (t: Tier)
    ensures t == Critical <==> p > 0.75
    ensures t == WatchList <==> 0.45 < p <= 0.75
    ensures t == Safe <==> p <= 0.45
  {
    if p > 0.75 then Critical else if p > 0.45 then WatchList else Safe
  }

  function Severity(t: Tier): nat {
    match t
    case Safe => 0
    case WatchList => 1
    case Critical => 2
  }

  /** A higher probability never lands in a less severe tier. */
  lemma TierMonotone(p: real, q: real)
    requires p <= q
    ensures Severity(TierOf(p)) <= Severity(TierOf(q))
  {
  }

  /** `Student {sid}: {status}`: the student and the printed status of their tier.
      The id is kept as a number; its printed form (`iterrows` hands it over as
      a float, so "101.0") is not modelled. */
  datatype ReportLine = ReportLine(studentId: int, status: string)

  /** The three printed statuses differ, so a report line names its tier. */
  lemma StatusNamesTier(t: Tier, u: Tier)
    ensures Status(t) == Status(u) <==> t == u
  {
    if t != u {
      assert Status(t)[2] != Status(u)[2] by {
        assert Status(Critical)[2] == 'C' && Status(WatchList)[2] == 'W' && Status(Safe)[2] == 'S';
      }
    }
  }

  datatype Outcome =
    | ModelNotFound
    | EmptyFeatures
    | PredictionCountMismatch
    | Printed(results: seq<Prediction>, lines: seq<ReportLine>)

  /** The `iterrows` loop: one status line per ranked row, in ranked order. */
  method Classify(results: seq<Prediction>) returns (lines: seq<ReportLine>)
    ensures |lines| == |results|
    ensures forall i :: 0 <= i < |results| ==>
      lines[i] == ReportLine(results[i].studentId, Status(TierOf(results[i].probability)))
  {
    lines := [];
    var i := 0;
    while i < |results|
      invariant 0 <= i <= |results|
      invariant |lines| == i
      invariant forall k :: 0 <= k < i ==> lines[k] == ReportLine(results[k].studentId, Status(TierOf(results[k].probability)))
    {
      var risk := results[i].probability;
      var status := if risk > 0.75 then Status(Critical) else if risk > 0.45 then Status(WatchList) else Status(Safe);
      lines := lines + [ReportLine(results[i].studentId, status)];
      i := i + 1;
    }
  }

  /** `predict_dropout`: stops when the model cannot be loaded or the feature
      table is empty, before any prediction; the results frame cannot be built
      when the model returns a different number of probabilities than rows;
      otherwise the results are ranked highest first and each is classified. */
  method PredictDropout(model: Option<Model>, raw: seq<RawRow>, cutoff: Option<int>) returns (out: Outcome)
    ensures model.None? ==> out == ModelNotFound
    ensures model.Some? ==>
      var fs := PrepareInferenceData(LoadRaw(raw), cutoff);
      var probs := model.value.predict(Matrix(fs));
      && (fs == [] ==> out == EmptyFeatures)
      && (fs != [] && |probs| != |fs| ==> out == PredictionCountMismatch)
      && (fs != [] && |probs| == |fs| ==>
            && out.Printed?
            && out.results == SortDesc(Paired(StudentIds(fs), probs))
            && |out.results| == |out.lines| == |fs|
            && forall i :: 0 <= i < |fs| ==>
                 out.lines[i] == ReportLine(out.results[i].studentId, Status(TierOf(out.results[i].probability))))
  {
    if model.None? {
      return ModelNotFound;
    }
    var fs := PrepareInferenceData(LoadRaw(raw), cutoff);
    if fs == [] {
      return EmptyFeatures;
    }
    var probs := model.value.predict(Matrix(fs));
    if |probs| != |fs| {
      return PredictionCountMismatch;
    }
    var results := SortDesc(Paired(StudentIds(fs), probs));
    assert |results| == |multiset(results)| == |fs|;
    var lines := Classify(results);
    out := Printed(results, lines);
  }

  /** Every student of the log is reported exactly once: the printed results are
      the students of the feature table, each with its own probability, highest
      first. */
  lemma ReportCoversEveryStudent(model: Model, raw: seq<RawRow>, cutoff: Option<int>, fs: seq<FeatureRow>)
    requires fs == PrepareInferenceData(LoadRaw(raw), cutoff)
    requires |model.predict(Matrix(fs))| == |fs|
    ensures var results := SortDesc(Paired(StudentIds(fs), model.predict(Matrix(fs))));
      && |results| == |Ids(raw)|
      && NonIncreasing(results)
      && forall p :: p in results <==>
           exists i :: 0 <= i < |fs| && p == Prediction(fs[i].idStudent, model.predict(Matrix(fs))[i])
  {
    FeatureCount(LoadRaw(raw), cutoff);
    RankedFeatures(model, fs);
  }
}
