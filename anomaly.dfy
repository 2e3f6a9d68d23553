/** `detect_anomalies` of src/anomaly_detection.py and the name its script
    gives each output file. The isolation forest is a parameter: a
    deterministic scorer (the source fixes its random seed) that either
    labels each row -1 or 1 or raises. */
module AnomalyDetection {
  import opened Text
  import opened Frames
  import opened Transactions
  import opened Cleaning

  const AnomalyScore := "anomaly_score"
  const IsAnomaly := "is_anomaly"
  const OutputPrefix := "anomaly_detected_"

  /** One label per row of the feature matrix, each -1 (anomaly) or 1. */
  predicate IsLabelling(m: seq<seq<Value>>, labels: seq<int>) {
    |labels| == |m| && forall k :: 0 <= k < |labels| ==> labels[k] == -1 || labels[k] == 1
  }

  /** `IsolationForest(contamination=…, random_state=42).fit_predict`: given
      the contamination rate and the feature matrix, the labels, or None when
      scikit-learn raises (a matrix it cannot fit, such as a non-numeric
      one). */
  type Forest = g: (real, seq<seq<Value>>) -> Option<seq<int>>
    | forall c, m :: g(c, m).Some? ==> IsLabelling(m, g(c, m).value)
    witness (c: real, m: seq<seq<Value>>) => Some(seq(|m|, k => 1))

  /** The feature list, `['amount_cad']` when none is given. */
  function RequestedFeatures(features: Option<seq<string>>): (r: seq<string>)
    ensures features.None? ==> r == [AmountCad]
    ensures features.Some? ==> r == features.value
  {
    match features
    case None => [AmountCad]
    case Some(fs) => fs
  }

  /** `[col for col in features if col in df.columns]`. */
  function AvailableFeatures(features: seq<string>, columns: seq<string>): (r: seq<string>)
    ensures IsSubsequence(r, features)
    ensures forall c :: c in r <==> c in features && c in columns
    ensures forall c :: multiset(r)[c] == if c in columns then multiset(features)[c] else 0
    ensures r == [] <==> forall c :: c in features ==> c !in columns
    decreases |features|
  {
    if features == [] then []
    else
      var init := AvailableFeatures(features[..|features| - 1], columns);
      var last := features[|features| - 1];
      assert features == features[..|features| - 1] + [last];
      if last in columns then init + [last] else init
  }

  /** With no feature list the forest sees the `amount_cad` column alone,
      one cell per row, and each row's score is that row's label; without an
      `amount_cad` column no feature is available, so `DetectAnomalies` leaves
      the table as it was. */
  lemma DefaultFeatures(f: Frame, forest: Forest, contamination: real)
    ensures var available := AvailableFeatures(RequestedFeatures(None), f.columns);
      && (AmountCad !in f.columns ==> available == [])
      && (AmountCad in f.columns ==>
            && available == [AmountCad]
            && var m := FeatureMatrix(f, available);
               && |m| == |f.records|
               && (forall i :: 0 <= i < |m| ==> m[i] == [Cell(f.records[i], AmountCad)])
               && (forest(contamination, m).Some? ==>
                     var labels := forest(contamination, m).value;
                     && |labels| == |f.records|
                     && forall i :: 0 <= i < |f.records| ==>
                          Cell(Scored(f, labels).records[i], AnomalyScore) == Num(labels[i] as real)))
  {
    var available := AvailableFeatures(RequestedFeatures(None), f.columns);
    assert [AmountCad][..0] == [];
    if AmountCad in f.columns {
      var m := FeatureMatrix(f, available);
      forall i | 0 <= i < |m| ensures m[i] == [Cell(f.records[i], AmountCad)] {
        assert |m[i]| == 1 && m[i][0] == Cell(f.records[i], AmountCad);
      }
      if forest(contamination, m).Some? {
        var labels := forest(contamination, m).value;
        assert IsLabelling(m, labels);
        ScoredFlags(f, m, labels);
      }
    }
  }

  /** `df[available_features]`, row by row. */
  function FeatureMatrix(f: Frame, features: seq<string>): (m: seq<seq<Value>>)
    ensures |m| == |f.records|
    ensures forall i, k :: 0 <= i < |m| && 0 <= k < |features| ==>
              |m[i]| == |features| && m[i][k] == Cell(f.records[i], features[k])
  {
    seq(|f.records|, i requires 0 <= i < |f.records| =>
      seq(|features|, k requires 0 <= k < |features| => Cell(f.records[i], features[k])))
  }

  /** The labels as the `anomaly_score` column. */
  function Scores(labels: seq<int>): seq<Value> {
    seq(|labels|, i requires 0 <= i < |labels| => Num(labels[i] as real))
  }

  /** `df['anomaly_score'] == -1`, row by row. */
  function Flags(f: Frame): seq<Value> {
    seq(|f.records|, i requires 0 <= i < |f.records| => Bool(Cell(f.records[i], AnomalyScore) == Num(-1.0)))
  }

  /** The table after both assignments of `detect_anomalies`. */
  function Scored(f: Frame, labels: seq<int>): Frame
    requires |labels| == |f.records|
  {
    var g := SetColumn(f, AnomalyScore, Scores(labels));
    SetColumn(g, IsAnomaly, Flags(g))
  }

  /** `detect_anomalies(df, contamination, features)`. The table passed in is
      changed and returned (`r == df`). `raised` says the forest raised; the
      call is outside any `try`, so the exception reaches the caller. */
  method DetectAnomalies(df: DataFrame, forest: Forest, contamination: real, features: Option<seq<string>>)
    returns (r: DataFrame, raised: bool)
    modifies df
    ensures r == df
    ensures var f := old(df.Snapshot());
            var available := AvailableFeatures(RequestedFeatures(features), f.columns);
            var labels := forest(contamination, FeatureMatrix(f, available));
      && raised == (available != [] && labels.None?)
      && df.Snapshot() == if available != [] && labels.Some? then Scored(f, labels.value) else f
  {
    var f := df.Snapshot();
    var available := AvailableFeatures(RequestedFeatures(features), f.columns);
    raised := false;
    if available != [] {
      var labels := forest(contamination, FeatureMatrix(f, available));
      if labels.None? {
        raised := true;
      } else {
        df.Assign(SetColumn(f, AnomalyScore, Scores(labels.value)));
        var g := df.Snapshot();
        df.Assign(SetColumn(g, IsAnomaly, Flags(g)));
      }
    }
    r := df;
  }

  /** Scoring adds `anomaly_score` and `is_anomaly` (or overwrites them) and
      changes nothing else: the old columns keep their order, the rows their
      labels, and every other cell its value. */
  lemma ScoredShape(f: Frame, labels: seq<int>)
    requires |labels| == |f.records|
    ensures var r := Scored(f, labels);
      && r.indexName == f.indexName
      && r.columns[..|f.columns|] == f.columns
      && |r.columns| <= |f.columns| + 2
      && (forall c :: c in r.columns <==> c in f.columns || c == AnomalyScore || c == IsAnomaly)
      && SameRows(f, r)
      && forall i, c :: 0 <= i < |f.records| && c != AnomalyScore && c != IsAnomaly ==>
           Cell(r.records[i], c) == Cell(f.records[i], c)
  {
    var g := SetColumn(f, AnomalyScore, Scores(labels));
    SetColumnCells(f, AnomalyScore, Scores(labels));
    SetColumnCells(g, IsAnomaly, Flags(g));
    assert g.columns[..|f.columns|] == f.columns;
  }

  /** For every row, `anomaly_score` is the forest's label, -1 or 1, and
      `is_anomaly` is true exactly when the score is -1. */
  lemma ScoredFlags(f: Frame, m: seq<seq<Value>>, labels: seq<int>)
    requires IsLabelling(m, labels) && |labels| == |f.records|
    ensures var r := Scored(f, labels);
      forall i :: 0 <= i < |r.records| ==>
        && Cell(r.records[i], AnomalyScore) == Num(labels[i] as real)
        && (Cell(r.records[i], AnomalyScore) == Num(-1.0) || Cell(r.records[i], AnomalyScore) == Num(1.0))
        && Cell(r.records[i], IsAnomaly).Bool?
        && (Cell(r.records[i], IsAnomaly).flag <==> Cell(r.records[i], AnomalyScore) == Num(-1.0))
        && (Cell(r.records[i], IsAnomaly).flag <==> labels[i] == -1)
  {
    var g := SetColumn(f, AnomalyScore, Scores(labels));
    SetColumnCells(f, AnomalyScore, Scores(labels));
    SetColumnCells(g, IsAnomaly, Flags(g));
    var r := Scored(f, labels);
    forall i | 0 <= i < |r.records|
      ensures Cell(r.records[i], AnomalyScore) == Num(labels[i] as real)
    {
      assert Cell(g.records[i], AnomalyScore) == Scores(labels)[i];
    }
  }

  /** After a successful call every row carries a flag, and the flagged rows
      are exactly those the forest labelled -1. */
  lemma DetectedFlags(f: Frame, forest: Forest, contamination: real, features: seq<string>)
    requires features != []
    requires forest(contamination, FeatureMatrix(f, features)).Some?
    ensures var labels := forest(contamination, FeatureMatrix(f, features)).value;
            var r := Scored(f, labels);
      && AnomalyScore in r.columns && IsAnomaly in r.columns
      && |r.records| == |f.records|
      && forall i :: 0 <= i < |r.records| ==> (Cell(r.records[i], IsAnomaly) == Bool(true) <==> labels[i] == -1)
  {
    var m := FeatureMatrix(f, features);
    var labels := forest(contamination, m).value;
    assert IsLabelling(m, labels);
    ScoredShape(f, labels);
    ScoredFlags(f, m, labels);
  }

  /** `"anomaly_detected_" + file_name.split("_")[1]`; None when the name has
      no `_` and the index raises. */
  function OutputName(fileName: string): Option<string> {
    var parts := Split(fileName, '_');
    if |parts| < 2 then None else Some(OutputPrefix + parts[1])
  }

  /** The name is derived exactly when the input has an underscore. */
  lemma OutputNameDefined(fileName: string)
    ensures OutputName(fileName).Some? <==> '_' in fileName
  {
  }

  /** The output name is the prefix plus the second `_`-separated piece, and
      only that piece: whatever follows a second underscore is lost. */
  lemma OutputNameSegment(first: string, second: string, rest: Option<string>)
    requires '_' !in first && '_' !in second
    ensures var name := first + "_" + second + (if rest.Some? then "_" + rest.value else "");
      OutputName(name) == Some(OutputPrefix + second)
  {
    var tail := second + (if rest.Some? then "_" + rest.value else "");
    assert first + "_" + second + (if rest.Some? then "_" + rest.value else "") == first + ['_'] + tail;
    SplitAfterSeparator(first, '_', tail);
    assert Split(tail, '_')[0] == second by {
      if rest.Some? {
        assert tail == second + ['_'] + rest.value;
        SplitAfterSeparator(second, '_', rest.value);
      } else {
        assert tail == second;
      }
    }
  }

  /** `cleaned_<kind>.csv` gives `anomaly_detected_<kind>.csv`, as for the six
      names the script processes (`abm`, `card`, `cheque`, `eft`, `emt`,
      `wire`). */
  lemma CleanedFileOutputName(kind: string)
    requires '_' !in kind
    ensures OutputName("cleaned_" + kind + ".csv") == Some(OutputPrefix + kind + ".csv")
  {
    assert '_' !in kind + ".csv";
    assert "cleaned_" + kind + ".csv" == "cleaned" + "_" + (kind + ".csv") + "";
    OutputNameSegment("cleaned", kind + ".csv", None);
    assert OutputPrefix + (kind + ".csv") == OutputPrefix + kind + ".csv";
  }
}
