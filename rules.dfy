/** The column rules of src/data_preprocessing.py: the per-cell conversions
    (`.str.strip()`, `.str.lower()`, `.str.upper()`, `pd.to_datetime`,
    `pd.to_numeric`, `.astype(bool)`), when pandas refuses a column, and the
    two loop shapes the cleaners run them in. */
module Rules {
  import opened Text
  import opened Frames

  /** The conversion applied to one column. The pandas parsers are parameters:
      `pd.to_datetime(..., errors='coerce')` and `pd.to_numeric(...,
      errors='coerce')` on one cell, `None` where pandas gives up on it. */
  datatype ColumnOp =
    | Strip
    | Lowercase
    | Uppercase
    | StripUppercase
    | ToDatetime(parseDate: Value -> Option<int>)
    | ToNumeric(parseNumber: Value -> Option<real>)
    | ToBool

  /** `pd.to_datetime(errors='coerce')` on one cell: missing stays missing, a
      timestamp stays itself, anything else is parsed or becomes missing. */
  function ParseDate(parse: Value -> Option<int>, v: Value): Value {
    match v
    case Missing => Missing
    case Date(_) => v
    case _ =>
      match parse(v)
      case Some(t) => Date(t)
      case None => Missing
  }

  /** `pd.to_numeric(errors='coerce')` on one cell. */
  function ParseNumber(parse: Value -> Option<real>, v: Value): Value {
    match v
    case Missing => Missing
    case Num(_) => v
    case _ =>
      match parse(v)
      case Some(x) => Num(x)
      case None => Missing
  }

  /** Python truthiness, which `astype(bool)` applies to each cell; NaN is
      true. */
  predicate Truthy(v: Value) {
    match v
    case Missing => true
    case Str(s) => s != []
    case Num(x) => x != 0.0
    case Date(_) => true
    case Bool(b) => b
  }

  /** One cell through the conversion. A `.str` method rewrites strings and
      turns every other cell of the column (missing or not a string) into a
      missing one. */
  function Convert(op: ColumnOp, v: Value): Value {
    match op
    case Strip => if v.Str? then Str(Trim(v.text)) else Missing
    case Lowercase => if v.Str? then Str(Lower(v.text)) else Missing
    case Uppercase => if v.Str? then Str(Upper(v.text)) else Missing
    case StripUppercase => if v.Str? then Str(Upper(Trim(v.text))) else Missing
    case ToDatetime(parse) => ParseDate(parse, v)
    case ToNumeric(parse) => ParseNumber(parse, v)
    case ToBool => Bool(Truthy(v))
  }

  /** Some cell of column `c` is a string: pandas holds the column with the
      object dtype and its `.str` accessor accepts it. */
  predicate HasText(f: Frame, c: string) {
    exists i :: 0 <= i < |f.records| && Cell(f.records[i], c).Str?
  }

  /** Every cell of column `c` is a timestamp or missing: the column is a
      datetime column and its `.dt` accessor accepts it. */
  predicate DatesOnly(f: Frame, c: string) {
    forall i :: 0 <= i < |f.records| ==> Cell(f.records[i], c).Missing? || Cell(f.records[i], c).Date?
  }

  predicate HoldsDate(f: Frame, c: string) {
    exists i :: 0 <= i < |f.records| && Cell(f.records[i], c).Date?
  }

  /** pandas raises instead of converting column `c`: `.str` on a column
      without strings, `astype(bool)` on a datetime column. The coercing
      parsers never raise. */
  predicate Fails(op: ColumnOp, f: Frame, c: string) {
    match op
    case Strip => !HasText(f, c)
    case Lowercase => !HasText(f, c)
    case Uppercase => !HasText(f, c)
    case StripUppercase => !HasText(f, c)
    case ToDatetime(_) => false
    case ToNumeric(_) => false
    case ToBool => DatesOnly(f, c) && HoldsDate(f, c)
  }

  /** `df[c] = <op>(df[c])` when it succeeds. */
  function Apply(op: ColumnOp, f: Frame, c: string): Frame
    requires c in f.columns
  {
    MapColumn(f, c, v => Convert(op, v))
  }

  /** `try: for c in cols: if c in df.columns: df[c] = <op>(df[c])` with the
      `except` outside the loop: the first column pandas refuses ends the loop
      and the columns already rewritten stay rewritten. */
  function ConvertAborting(op: ColumnOp, f: Frame, cols: seq<string>): Frame
    decreases |cols|
  {
    if cols == [] then f
    else if cols[0] !in f.columns then ConvertAborting(op, f, cols[1..])
    else if Fails(op, f, cols[0]) then f
    else ConvertAborting(op, Apply(op, f, cols[0]), cols[1..])
  }

  /** `for c in cols: if c in df.columns: try: df[c] = <op>(df[c])` with the
      `except` inside the loop: a refused column is skipped. */
  function ConvertSkipping(op: ColumnOp, f: Frame, cols: seq<string>): Frame
    decreases |cols|
  {
    if cols == [] then f
    else if cols[0] !in f.columns || Fails(op, f, cols[0]) then ConvertSkipping(op, f, cols[1..])
    else ConvertSkipping(op, Apply(op, f, cols[0]), cols[1..])
  }

  /** The columns an aborting loop over `cols` rewrites: the present columns
      before the first present column that pandas refuses. */
  ghost predicate Converted(op: ColumnOp, f: Frame, cols: seq<string>, c: string)
    decreases |cols|
  {
    if cols == [] then false
    else if cols[0] !in f.columns then Converted(op, f, cols[1..], c)
    else if Fails(op, f, cols[0]) then false
    else cols[0] == c || Converted(op, f, cols[1..], c)
  }

  /** No present column of `cols` is refused. */
  ghost predicate NoFailure(op: ColumnOp, f: Frame, cols: seq<string>) {
    forall d :: d in cols && d in f.columns ==> !Fails(op, f, d)
  }

  /** The columns of `f` that hold text, in column order
      (`df.select_dtypes(include=['object']).columns`). */
  function TextColumns(f: Frame): (r: seq<string>)
    ensures forall c :: c in r <==> c in f.columns && HasText(f, c)
  {
    TextColumnsOf(f, f.columns)
  }

  function TextColumnsOf(f: Frame, cols: seq<string>): (r: seq<string>)
    ensures forall c :: c in r <==> c in cols && HasText(f, c)
  {
    if cols == [] then []
    else (if HasText(f, cols[0]) then [cols[0]] else []) + TextColumnsOf(f, cols[1..])
  }

  /** Every conversion is idempotent on a cell, so rewriting a column twice is
      rewriting it once. */
  lemma ConvertIdempotent(op: ColumnOp, v: Value)
    ensures Convert(op, Convert(op, v)) == Convert(op, v)
  {
    if v.Str? {
      var s := v.text;
      match op
      case Strip => TrimIdempotent(s);
      case Lowercase => LowerProperties(s); LowerProperties(Lower(s));
      case Uppercase => UpperProperties(s); UpperProperties(Upper(s));
      case StripUppercase => StripUpperProperties(s);
      case _ =>
    }
  }

  /** Rewriting a column that pandas accepts does not change which columns it
      refuses: a `.str` rewrite keeps strings strings, a boolean column is no
      datetime column. */
  lemma FailsUnchangedByApply(op: ColumnOp, f: Frame, d: string, c: string)
    requires d in f.columns && !Fails(op, f, d)
    ensures Fails(op, Apply(op, f, d), c) == Fails(op, f, c)
  {
    if op.Strip? || op.Lowercase? || op.Uppercase? || op.StripUppercase? {
      TextUnchangedByApply(op, f, d, c);
    } else if op.ToBool? {
      BoolFailsUnchangedByApply(f, d, c);
    }
  }

  lemma TextUnchangedByApply(op: ColumnOp, f: Frame, d: string, c: string)
    requires op.Strip? || op.Lowercase? || op.Uppercase? || op.StripUppercase?
    requires d in f.columns
    ensures HasText(Apply(op, f, d), c) == HasText(f, c)
  {
    var g := Apply(op, f, d);
    MapColumnCells(f, d, v => Convert(op, v));
    if HasText(f, c) {
      var i :| 0 <= i < |f.records| && Cell(f.records[i], c).Str?;
      assert Cell(g.records[i], c).Str?;
    }
    if HasText(g, c) {
      var i :| 0 <= i < |g.records| && Cell(g.records[i], c).Str?;
      assert Cell(f.records[i], c).Str?;
    }
  }

  lemma BoolFailsUnchangedByApply(f: Frame, d: string, c: string)
    requires d in f.columns && !Fails(ToBool, f, d)
    ensures Fails(ToBool, Apply(ToBool, f, d), c) == Fails(ToBool, f, c)
  {
    var g := Apply(ToBool, f, d);
    MapColumnCells(f, d, v => Convert(ToBool, v));
    if c == d {
      if |f.records| > 0 {
        assert Cell(g.records[0], c).Bool?;
      }
    } else {
      assert forall i :: 0 <= i < |f.records| ==> Cell(g.records[i], c) == Cell(f.records[i], c);
    }
  }

  lemma {:induction false} ConvertedUnchangedByApply(op: ColumnOp, f: Frame, d: string, cols: seq<string>, c: string)
    requires d in f.columns && !Fails(op, f, d)
    ensures Converted(op, Apply(op, f, d), cols, c) == Converted(op, f, cols, c)
    decreases |cols|
  {
    if cols != [] {
      FailsUnchangedByApply(op, f, d, cols[0]);
      ConvertedUnchangedByApply(op, f, d, cols[1..], c);
    }
  }

  /** What an aborting loop does, cell by cell: the converted columns hold
      the conversion of their old cells, every other cell, the column list, the
      index and the row count are as before. */
  lemma {:induction false} ConvertAbortingCells(op: ColumnOp, f: Frame, cols: seq<string>)
    ensures ConvertAborting(op, f, cols).columns == f.columns
    ensures ConvertAborting(op, f, cols).indexName == f.indexName
    ensures |ConvertAborting(op, f, cols).records| == |f.records|
    ensures forall i :: 0 <= i < |f.records| ==> ConvertAborting(op, f, cols).records[i].index == f.records[i].index
    ensures forall i, c :: 0 <= i < |f.records| ==>
              Cell(ConvertAborting(op, f, cols).records[i], c)
              == (if Converted(op, f, cols, c) then Convert(op, Cell(f.records[i], c)) else Cell(f.records[i], c))
    decreases |cols|
  {
    if cols != [] {
      var d := cols[0];
      if d !in f.columns {
        ConvertAbortingCells(op, f, cols[1..]);
        var r := ConvertAborting(op, f, cols);
        assert r == ConvertAborting(op, f, cols[1..]);
        forall i, c | 0 <= i < |f.records|
          ensures r.records[i].index == f.records[i].index
          ensures Cell(r.records[i], c) == (if Converted(op, f, cols, c) then Convert(op, Cell(f.records[i], c))
                                            else Cell(f.records[i], c))
        {
          assert Converted(op, f, cols, c) == Converted(op, f, cols[1..], c);
        }
      } else if Fails(op, f, d) {
        assert forall c :: !Converted(op, f, cols, c);
      } else {
        var g := Apply(op, f, d);
        MapColumnCells(f, d, v => Convert(op, v));
        ConvertAbortingCells(op, g, cols[1..]);
        var r := ConvertAborting(op, f, cols);
        forall i, c | 0 <= i < |f.records|
          ensures Cell(r.records[i], c) == (if Converted(op, f, cols, c) then Convert(op, Cell(f.records[i], c))
                                            else Cell(f.records[i], c))
        {
          ConvertedUnchangedByApply(op, f, d, cols[1..], c);
          ConvertIdempotent(op, Cell(f.records[i], c));
        }
      }
    }
  }

  /** With no refused column, the aborting loop rewrites exactly the present
      columns of `cols`. */
  lemma {:induction false} ConvertedWithoutFailure(op: ColumnOp, f: Frame, cols: seq<string>, c: string)
    requires NoFailure(op, f, cols)
    ensures Converted(op, f, cols, c) <==> c in cols && c in f.columns
    decreases |cols|
  {
    if cols != [] {
      ConvertedWithoutFailure(op, f, cols[1..], c);
    }
  }

  /** A converted column is a present column of `cols` that pandas accepts. */
  lemma {:induction false} ConvertedIsAccepted(op: ColumnOp, f: Frame, cols: seq<string>, c: string)
    requires Converted(op, f, cols, c)
    ensures c in cols && c in f.columns && !Fails(op, f, c)
    decreases |cols|
  {
    if cols[0] != c || cols[0] !in f.columns {
      ConvertedIsAccepted(op, f, cols[1..], c);
    }
  }

  /** A loop over `pre + post` reaches `post` only when nothing in `pre` was
      refused. */
  lemma {:induction false} ConvertedAppend(op: ColumnOp, f: Frame, pre: seq<string>, post: seq<string>, c: string)
    ensures Converted(op, f, pre + post, c)
            == (Converted(op, f, pre, c) || (NoFailure(op, f, pre) && Converted(op, f, post, c)))
    decreases |pre|
  {
    if pre == [] {
      assert pre + post == post;
    } else {
      assert (pre + post)[1..] == pre[1..] + post;
      ConvertedAppend(op, f, pre[1..], post, c);
      if pre[0] in f.columns && Fails(op, f, pre[0]) {
        assert !NoFailure(op, f, pre);
      } else {
        assert NoFailure(op, f, pre) == NoFailure(op, f, pre[1..]);
      }
    }
  }

  /** What a skipping loop does, cell by cell: a listed, present column that
      pandas accepts holds the conversion of its old cells. */
  lemma ConvertSkippingCells(op: ColumnOp, f: Frame, cols: seq<string>)
    ensures var r := ConvertSkipping(op, f, cols);
      && r.columns == f.columns && r.indexName == f.indexName && |r.records| == |f.records|
      && forall i, c :: 0 <= i < |f.records| ==>
           && r.records[i].index == f.records[i].index
           && Cell(r.records[i], c) == (if c in cols && c in f.columns && !Fails(op, f, c)
                                        then Convert(op, Cell(f.records[i], c))
                                        else Cell(f.records[i], c))
  {
    ConvertSkippingShape(op, f, cols);
    forall i, c | 0 <= i < |f.records| {
      ConvertSkippingCell(op, f, cols, i, c);
    }
  }

  lemma {:induction false} ConvertSkippingShape(op: ColumnOp, f: Frame, cols: seq<string>)
    ensures var r := ConvertSkipping(op, f, cols);
      && r.columns == f.columns && r.indexName == f.indexName && |r.records| == |f.records|
      && forall i :: 0 <= i < |f.records| ==> r.records[i].index == f.records[i].index
    decreases |cols|
  {
    if cols != [] {
      if cols[0] !in f.columns || Fails(op, f, cols[0]) {
        ConvertSkippingShape(op, f, cols[1..]);
      } else {
        ConvertSkippingShape(op, Apply(op, f, cols[0]), cols[1..]);
      }
    }
  }

  lemma {:induction false} ConvertSkippingCell(op: ColumnOp, f: Frame, cols: seq<string>, i: int, c: string)
    requires 0 <= i < |f.records|
    ensures |ConvertSkipping(op, f, cols).records| == |f.records|
    ensures Cell(ConvertSkipping(op, f, cols).records[i], c)
            == (if c in cols && c in f.columns && !Fails(op, f, c) then Convert(op, Cell(f.records[i], c))
                else Cell(f.records[i], c))
    decreases |cols|
  {
    ConvertSkippingShape(op, f, cols);
    if cols != [] {
      var d := cols[0];
      var rest := cols[1..];
      assert c in cols <==> c == d || c in rest;
      if d !in f.columns || Fails(op, f, d) {
        ConvertSkippingCell(op, f, rest, i, c);
      } else {
        var g := Apply(op, f, d);
        ConvertSkippingCell(op, g, rest, i, c);
        FailsUnchangedByApply(op, f, d, c);
        var v := Cell(f.records[i], c);
        assert Cell(g.records[i], c) == if c == d then Convert(op, v) else v;
        ConvertIdempotent(op, v);
      }
    }
  }

  /** The `.str` conversions. */
  predicate IsTextOp(op: ColumnOp) {
    op.Strip? || op.Lowercase? || op.Uppercase? || op.StripUppercase?
  }

  /** With no refused column, an aborting loop rewrites exactly the present
      columns of `cols` and leaves every other cell as it was. */
  lemma ConvertAbortingWithoutFailure(op: ColumnOp, f: Frame, cols: seq<string>)
    requires NoFailure(op, f, cols)
    ensures ConvertAborting(op, f, cols).columns == f.columns
    ensures |ConvertAborting(op, f, cols).records| == |f.records|
    ensures forall i :: 0 <= i < |f.records| ==> ConvertAborting(op, f, cols).records[i].index == f.records[i].index
    ensures forall i, c :: 0 <= i < |f.records| ==>
              Cell(ConvertAborting(op, f, cols).records[i], c)
              == (if c in cols && c in f.columns then Convert(op, Cell(f.records[i], c)) else Cell(f.records[i], c))
  {
    ConvertAbortingCells(op, f, cols);
    forall c {
      ConvertedWithoutFailure(op, f, cols, c);
    }
  }

  /** An aborting loop leaves alone every column it does not list, and a
      `.str` loop every column that holds no text. */
  lemma ConvertAbortingLeavesColumn(op: ColumnOp, f: Frame, cols: seq<string>, c: string)
    requires c !in cols || (IsTextOp(op) && !HasText(f, c))
    ensures |ConvertAborting(op, f, cols).records| == |f.records|
    ensures forall i :: 0 <= i < |f.records| ==> Cell(ConvertAborting(op, f, cols).records[i], c) == Cell(f.records[i], c)
  {
    ConvertAbortingCells(op, f, cols);
    if Converted(op, f, cols, c) {
      ConvertedIsAccepted(op, f, cols, c);
    }
  }

  /** A cell with no surrounding whitespace, if it is a string. */
  predicate TextTrimmed(v: Value) {
    v.Str? ==> IsTrimmed(v.text)
  }

  /** Stripping leaves every cell trimmed, and no other conversion brings
      whitespace back. */
  lemma ConvertKeepsTrimmed(op: ColumnOp, v: Value)
    requires TextTrimmed(v) || op.Strip? || op.StripUppercase?
    ensures TextTrimmed(Convert(op, v))
  {
    if v.Str? {
      var s := v.text;
      match op
      case Strip => TrimIsMaximalSlice(s);
      case Lowercase => LowerProperties(s);
      case Uppercase => UpperProperties(s);
      case StripUppercase => StripUpperProperties(s);
      case _ =>
    }
  }

  /** A `.str` conversion never turns a string into something else. */
  lemma {:induction false} TextOpKeepsText(op: ColumnOp, f: Frame, cols: seq<string>, c: string)
    requires IsTextOp(op) && HasText(f, c)
    ensures HasText(ConvertAborting(op, f, cols), c)
  {
    ConvertAbortingCells(op, f, cols);
    var r := ConvertAborting(op, f, cols);
    var i :| 0 <= i < |f.records| && Cell(f.records[i], c).Str?;
    var v := Cell(f.records[i], c);
    assert Cell(r.records[i], c) == (if Converted(op, f, cols, c) then Convert(op, v) else v);
    assert Convert(op, v).Str?;
    assert Cell(r.records[i], c).Str?;
  }

  /** The aborting loop as the source runs it: columns one by one, leaving the
      loop at the first column pandas refuses. */
  method ConvertColumns(op: ColumnOp, f: Frame, cols: seq<string>) returns (r: Frame)
    ensures r == ConvertAborting(op, f, cols)
  {
    r := f;
    var i := 0;
    while i < |cols|
      invariant 0 <= i <= |cols|
      invariant ConvertAborting(op, r, cols[i..]) == ConvertAborting(op, f, cols)
    {
      var c := cols[i];
      assert cols[i..][1..] == cols[i + 1..];
      if c in r.columns {
        if Fails(op, r, c) {
          break;
        }
        r := Apply(op, r, c);
      }
      i := i + 1;
    }
  }
}
