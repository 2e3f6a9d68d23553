/** The single steps the cleaners of src/data_preprocessing.py are made of,
    each as a function from the frame before the step to the frame after it,
    and what each step does to the rows and cells. */
module Cleaning {
  import opened Text
  import opened Frames
  import opened Rules

  const CustomerId := "customer_id"
  const TransactionDate := "transaction_date"
  const TransactionTime := "transaction_time"
  const TransactionDatetime := "transaction_datetime"
  const Midnight := "00:00:00"

  /** The pandas parsers and the formatter the cleaners call, with their
      errors coerced: `pd.to_datetime(.., errors='coerce')` and
      `pd.to_numeric(.., errors='coerce')` on one cell (`None` where pandas gives
      up), and `Timestamp.strftime('%Y-%m-%d')`. */
  datatype Parsers = Parsers(parseDate: Value -> Option<int>, parseNumber: Value -> Option<real>, formatDate: int -> string)

  /** What a column may hold after a cleaning step. */
  datatype Kind =
    | Dates          // timestamps or missing
    | Numbers        // numbers or missing
    | Trimmed        // strings without surrounding whitespace (any other cell)
    | LowerCased     // lower-case strings (any other cell)
    | UpperCased     // upper-case strings (any other cell)
    | TextOrMissing  // strings or missing

  predicate Fits(k: Kind, v: Value) {
    match k
    case Dates => v.Missing? || v.Date?
    case Numbers => v.Missing? || v.Num?
    case Trimmed => TextTrimmed(v)
    case LowerCased => v.Str? ==> IsLowerCase(v.text)
    case UpperCased => v.Str? ==> IsUpperCase(v.text)
    case TextOrMissing => v.Missing? || v.Str?
  }

  /** Every cell of column `c` is of kind `k`. */
  predicate ColumnFits(f: Frame, c: string, k: Kind) {
    forall i :: 0 <= i < |f.records| ==> Fits(k, Cell(f.records[i], c))
  }

  /** No string of the frame has whitespace at either end. */
  ghost predicate AllTrimmed(f: Frame) {
    forall c :: c in f.columns ==> ColumnFits(f, c, Trimmed)
  }

  /** `g` has the rows of `f`, position by position, with the same labels. */
  predicate SameRows(f: Frame, g: Frame) {
    |g.records| == |f.records| && forall i :: 0 <= i < |f.records| ==> g.records[i].index == f.records[i].index
  }

  /** Column `c` is the same in `f` and `g`, row by row. */
  predicate SameColumn(f: Frame, g: Frame, c: string) {
    |g.records| == |f.records| && forall i :: 0 <= i < |f.records| ==> Cell(g.records[i], c) == Cell(f.records[i], c)
  }

  /** Every row of `g` is a row of `f`. */
  predicate RowsFrom(g: Frame, f: Frame) {
    forall x :: x in g.records ==> x in f.records
  }

  lemma SameColumnKeepsFits(f: Frame, g: Frame, c: string, k: Kind)
    requires SameColumn(f, g, c) && ColumnFits(f, c, k)
    ensures ColumnFits(g, c, k)
  {
  }

  lemma SameColumnKeepsText(f: Frame, g: Frame, c: string)
    requires SameColumn(f, g, c)
    ensures HasText(g, c) == HasText(f, c)
  {
    if HasText(f, c) {
      var i :| 0 <= i < |f.records| && Cell(f.records[i], c).Str?;
      assert Cell(g.records[i], c).Str?;
    }
  }

  lemma RowsFromKeepsFits(f: Frame, g: Frame, c: string, k: Kind)
    requires RowsFrom(g, f) && ColumnFits(f, c, k)
    ensures ColumnFits(g, c, k)
  {
    forall i | 0 <= i < |g.records| ensures Fits(k, Cell(g.records[i], c)) {
      assert g.records[i] in f.records;
    }
  }

  /** What every conversion leaves in a cell. */
  lemma ConvertFits(op: ColumnOp, v: Value)
    ensures op.ToDatetime? ==> Fits(Dates, Convert(op, v))
    ensures op.ToNumeric? ==> Fits(Numbers, Convert(op, v))
    ensures op.Lowercase? ==> Fits(LowerCased, Convert(op, v))
    ensures (op.Uppercase? || op.StripUppercase?) ==> Fits(UpperCased, Convert(op, v))
    ensures IsTextOp(op) ==> Fits(TextOrMissing, Convert(op, v))
  {
    if v.Str? {
      var s := v.text;
      match op
      case Lowercase => LowerProperties(s);
      case Uppercase => UpperProperties(s);
      case StripUppercase => UpperProperties(Trim(s));
      case _ =>
    }
  }

  /** An aborting loop keeps the columns, the index and the rows. */
  lemma ConvertAbortingShape(op: ColumnOp, f: Frame, cols: seq<string>)
    ensures ConvertAborting(op, f, cols).columns == f.columns
    ensures ConvertAborting(op, f, cols).indexName == f.indexName
    ensures SameRows(f, ConvertAborting(op, f, cols))
  {
    ConvertAbortingCells(op, f, cols);
  }

  /** An aborting loop keeps every string trimmed. */
  lemma ConvertAbortingKeepsTrimmed(op: ColumnOp, f: Frame, cols: seq<string>)
    requires AllTrimmed(f)
    ensures AllTrimmed(ConvertAborting(op, f, cols))
  {
    var r := ConvertAborting(op, f, cols);
    ConvertAbortingCells(op, f, cols);
    forall c | c in r.columns ensures ColumnFits(r, c, Trimmed) {
      forall i | 0 <= i < |r.records| ensures TextTrimmed(Cell(r.records[i], c)) {
        var v := Cell(f.records[i], c);
        assert TextTrimmed(v);
        ConvertKeepsTrimmed(op, v);
        assert Cell(r.records[i], c) == (if Converted(op, f, cols, c) then Convert(op, v) else v);
      }
    }
  }

  /** A loop whose every present column is accepted makes each of them hold
      what the conversion yields. */
  lemma ConvertAbortingColumnFits(op: ColumnOp, f: Frame, cols: seq<string>, c: string, k: Kind)
    requires NoFailure(op, f, cols) && c in cols && c in f.columns
    requires forall v :: Fits(k, Convert(op, v))
    ensures ColumnFits(ConvertAborting(op, f, cols), c, k)
  {
    ConvertAbortingWithoutFailure(op, f, cols);
  }

  /** Same as ConvertAbortingColumnFits, for the coercing parsers, which pandas
      never refuses. */
  lemma ParsedColumnFits(op: ColumnOp, f: Frame, cols: seq<string>, c: string)
    requires op.ToDatetime? || op.ToNumeric?
    requires c in cols && c in f.columns
    ensures op.ToDatetime? ==> ColumnFits(ConvertAborting(op, f, cols), c, Dates)
    ensures op.ToNumeric? ==> ColumnFits(ConvertAborting(op, f, cols), c, Numbers)
  {
    forall v {
      ConvertFits(op, v);
    }
    if op.ToDatetime? {
      ConvertAbortingColumnFits(op, f, cols, c, Dates);
    } else {
      ConvertAbortingColumnFits(op, f, cols, c, Numbers);
    }
  }

  /** `drop_duplicates()` as a frame step. */
  function Deduplicated(f: Frame): Frame {
    f.(records := DropDuplicates(f.records))
  }

  /** Deduplication keeps the columns, keeps rows only from the input and in
      the input's order, and keeps every value that some row held. */
  lemma DeduplicatedFacts(f: Frame)
    ensures Deduplicated(f).columns == f.columns && Deduplicated(f).indexName == f.indexName
    ensures RowsFrom(Deduplicated(f), f)
    ensures IsSubsequence(Deduplicated(f).records, f.records)
    ensures forall c :: HasText(Deduplicated(f), c) == HasText(f, c)
  {
    DropDuplicatesRows(f.records);
    DropDuplicatesKeepsFirst(f.records);
    forall c ensures HasText(Deduplicated(f), c) == HasText(f, c) {
      DeduplicatedKeepsText(f, c);
    }
  }

  lemma DeduplicatedKeepsText(f: Frame, c: string)
    ensures HasText(Deduplicated(f), c) == HasText(f, c)
  {
    if HasText(f, c) {
      DeduplicatedGainsText(f, c);
    }
    if HasText(Deduplicated(f), c) {
      DeduplicatedLosesNoText(f, c);
    }
  }

  lemma DeduplicatedGainsText(f: Frame, c: string)
    requires HasText(f, c)
    ensures HasText(Deduplicated(f), c)
  {
    var g := Deduplicated(f);
    var i :| 0 <= i < |f.records| && Cell(f.records[i], c).Str?;
    var x := f.records[i];
    DropDuplicatesCovers(f.records);
    assert x in f.records;
    var y :| y in g.records && y.cells == x.cells;
    assert Cell(y, c) == Cell(x, c);
    var j :| 0 <= j < |g.records| && g.records[j] == y;
  }

  lemma DeduplicatedLosesNoText(f: Frame, c: string)
    requires HasText(Deduplicated(f), c)
    ensures HasText(f, c)
  {
    var g := Deduplicated(f);
    var j :| 0 <= j < |g.records| && Cell(g.records[j], c).Str?;
    DropDuplicatesKept(f.records);
    assert g.records[j] in f.records;
    var i :| 0 <= i < |f.records| && f.records[i] == g.records[j];
  }

  /** `for col in df.select_dtypes(include=['object']).columns: df[col] =
      df[col].str.strip()`. */
  function Stripped(f: Frame): Frame {
    ConvertAborting(Strip, f, TextColumns(f))
  }

  /** Every text column is accepted by `.str`, so stripping reaches all of
      them: afterwards no string of the frame has surrounding whitespace, text
      columns hold only strings and missing cells, and every other column is as
      before. */
  lemma StrippedFacts(f: Frame)
    ensures Stripped(f).columns == f.columns && Stripped(f).indexName == f.indexName
    ensures SameRows(f, Stripped(f))
    ensures AllTrimmed(Stripped(f))
    ensures forall c :: HasText(Stripped(f), c) == HasText(f, c)
    ensures forall c :: c in f.columns && HasText(f, c) ==> ColumnFits(Stripped(f), c, TextOrMissing)
    ensures forall c :: !HasText(f, c) ==> SameColumn(f, Stripped(f), c)
  {
    StrippedShape(f);
    forall c ensures HasText(Stripped(f), c) == HasText(f, c) {
      StrippedColumn(f, c);
    }
    forall c | c in f.columns && HasText(f, c) ensures ColumnFits(Stripped(f), c, TextOrMissing) {
      StrippedColumn(f, c);
    }
    forall c | !HasText(f, c) ensures SameColumn(f, Stripped(f), c) {
      StrippedColumn(f, c);
    }
  }

  lemma StrippedShape(f: Frame)
    ensures Stripped(f).columns == f.columns && Stripped(f).indexName == f.indexName
    ensures SameRows(f, Stripped(f))
    ensures AllTrimmed(Stripped(f))
  {
    ConvertAbortingCells(Strip, f, TextColumns(f));
    forall c | c in f.columns ensures ColumnFits(Stripped(f), c, Trimmed) {
      StrippedColumnTrimmed(f, c);
    }
  }

  lemma StrippedColumnTrimmed(f: Frame, c: string)
    requires c in f.columns
    ensures ColumnFits(Stripped(f), c, Trimmed)
  {
    var cols := TextColumns(f);
    var r := Stripped(f);
    if HasText(f, c) {
      assert NoFailure(Strip, f, cols);
      forall v {
        ConvertKeepsTrimmed(Strip, v);
      }
      ConvertAbortingColumnFits(Strip, f, cols, c, Trimmed);
    } else {
      ConvertAbortingCells(Strip, f, cols);
      if Converted(Strip, f, cols, c) {
        ConvertedIsAccepted(Strip, f, cols, c);
        assert false;
      }
      forall i | 0 <= i < |r.records| ensures TextTrimmed(Cell(r.records[i], c)) {
        assert !Cell(f.records[i], c).Str?;
      }
    }
  }

  lemma StrippedColumn(f: Frame, c: string)
    ensures HasText(Stripped(f), c) == HasText(f, c)
    ensures c in f.columns && HasText(f, c) ==> ColumnFits(Stripped(f), c, TextOrMissing)
    ensures !HasText(f, c) ==> SameColumn(f, Stripped(f), c)
  {
    var cols := TextColumns(f);
    var r := Stripped(f);
    if HasText(f, c) {
      TextOpKeepsText(Strip, f, cols, c);
      if c in f.columns {
        assert NoFailure(Strip, f, cols);
        forall v {
          ConvertFits(Strip, v);
        }
        ConvertAbortingColumnFits(Strip, f, cols, c, TextOrMissing);
      }
    } else {
      ConvertAbortingLeavesColumn(Strip, f, cols, c);
      SameColumnKeepsText(f, r, c);
    }
  }

  /** Stripping keeps a column of strings and missing cells one. */
  lemma StrippedKeepsTextOrMissing(f: Frame, c: string)
    requires c in f.columns && ColumnFits(f, c, TextOrMissing)
    ensures ColumnFits(Stripped(f), c, TextOrMissing)
  {
    StrippedColumn(f, c);
    if !HasText(f, c) {
      SameColumnKeepsFits(f, Stripped(f), c, TextOrMissing);
    }
  }

  /** `fillna("00:00:00")` on one cell. */
  function FillMidnight(v: Value): Value {
    if v.Missing? then Str(Midnight) else v
  }

  /** One cell of `pd.to_datetime(date.dt.strftime('%Y-%m-%d') + ' ' + time,
      errors='coerce')`: a missing date gives a missing result, and so does a
      combination the parser rejects. */
  function CombineCell(p: Parsers, date: Value, time: Value): Value {
    if date.Date? && time.Str? then ParseDate(p.parseDate, Str(p.formatDate(date.stamp) + " " + time.text))
    else Missing
  }

  /** pandas raises in the combining expression: `.dt` on a date column that
      holds anything but timestamps, or a date string added to a time that is
      no string. */
  predicate CombineRaises(g: Frame) {
    || !DatesOnly(g, TransactionDate)
    || exists i :: 0 <= i < |g.records| && Cell(g.records[i], TransactionDate).Date?
                                         && !Cell(g.records[i], TransactionTime).Str?
  }

  /** The combining block: with both columns present, missing times are
      filled first (and stay filled when the expression then raises), then the
      combined column is assigned. */
  function CombineDateTime(p: Parsers, f: Frame): Frame {
    if TransactionDate !in f.columns || TransactionTime !in f.columns then f
    else
      var g := MapColumn(f, TransactionTime, FillMidnight);
      if CombineRaises(g) then g
      else SetColumn(g, TransactionDatetime,
                     seq(|g.records|, i requires 0 <= i < |g.records|
                                      => CombineCell(p, Cell(g.records[i], TransactionDate), Cell(g.records[i], TransactionTime))))
  }

  /** Whether the combining block assigns the combined column. */
  predicate CombineAssigns(f: Frame) {
    TransactionDate in f.columns && TransactionTime in f.columns && !CombineRaises(MapColumn(f, TransactionTime, FillMidnight))
  }

  /** The combining block cannot raise on a date column of timestamps and a
      time column of strings and missing cells. */
  lemma CombineAssignsWhen(f: Frame)
    requires TransactionDate in f.columns && TransactionTime in f.columns
    requires ColumnFits(f, TransactionDate, Dates) && ColumnFits(f, TransactionTime, TextOrMissing)
    ensures CombineAssigns(f)
  {
    var m := MapColumn(f, TransactionTime, FillMidnight);
    MapColumnCells(f, TransactionTime, FillMidnight);
    forall i | 0 <= i < |m.records|
      ensures Fits(Dates, Cell(m.records[i], TransactionDate)) && Cell(m.records[i], TransactionTime).Str?
    {
      assert Fits(TextOrMissing, Cell(f.records[i], TransactionTime));
    }
  }

  /** The combining block adds at most the combined column and only when both
      source columns exist; it fills missing times; it computes the combined
      value row by row; all other cells stay as they were. */
  lemma CombineDateTimeFacts(p: Parsers, f: Frame)
    ensures var r := CombineDateTime(p, f);
      && SameRows(f, r) && r.indexName == f.indexName
      && (if CombineAssigns(f) && TransactionDatetime !in f.columns then r.columns == f.columns + [TransactionDatetime]
          else r.columns == f.columns)
    ensures forall c :: c != TransactionTime && c != TransactionDatetime ==> SameColumn(f, CombineDateTime(p, f), c)
    ensures TransactionDate !in f.columns || TransactionTime !in f.columns ==> CombineDateTime(p, f) == f
    ensures TransactionDate in f.columns && TransactionTime in f.columns ==>
              forall i :: 0 <= i < |f.records| ==>
                Cell(CombineDateTime(p, f).records[i], TransactionTime) == FillMidnight(Cell(f.records[i], TransactionTime))
    ensures CombineAssigns(f) ==>
              forall i :: 0 <= i < |f.records| ==>
                Cell(CombineDateTime(p, f).records[i], TransactionDatetime)
                == CombineCell(p, Cell(f.records[i], TransactionDate), Cell(CombineDateTime(p, f).records[i], TransactionTime))
    ensures !CombineAssigns(f) ==> SameColumn(f, CombineDateTime(p, f), TransactionDatetime)
  {
    if TransactionDate in f.columns && TransactionTime in f.columns {
      var g := MapColumn(f, TransactionTime, FillMidnight);
      MapColumnCells(f, TransactionTime, FillMidnight);
      if !CombineRaises(g) {
        var values := seq(|g.records|, i requires 0 <= i < |g.records|
                                       => CombineCell(p, Cell(g.records[i], TransactionDate), Cell(g.records[i], TransactionTime)));
        SetColumnCells(g, TransactionDatetime, values);
        var r := CombineDateTime(p, f);
        assert r == SetColumn(g, TransactionDatetime, values);
      }
    }
  }

  /** `dropna(subset=[key])` on a frame; for an absent key pandas raises
      `KeyError`, which the cleaners catch, so the frame stays as it was. */
  function DropMissing(f: Frame, key: string): Frame {
    if key in f.columns then f.(records := WithoutMissing(f.records, key)) else f
  }

  /** Dropping keeps the columns, keeps rows in order, drops exactly the rows
      whose key is missing, and drops nothing when the key column is absent. */
  lemma DropMissingFacts(f: Frame, key: string)
    ensures DropMissing(f, key).columns == f.columns && DropMissing(f, key).indexName == f.indexName
    ensures RowsFrom(DropMissing(f, key), f)
    ensures IsSubsequence(DropMissing(f, key).records, f.records)
    ensures key in f.columns ==> forall x :: x in DropMissing(f, key).records ==> Cell(x, key) != Missing
    ensures key in f.columns ==> forall x :: x in f.records && Cell(x, key) != Missing ==> x in DropMissing(f, key).records
    ensures key !in f.columns ==> DropMissing(f, key) == f
  {
    if key in f.columns {
      WithoutMissingMembers(f.records, key);
      WithoutMissingIsSubsequence(f.records, key);
    } else {
      SubsequenceReflexive(f.records);
    }
  }

  /** A property of column `c` in every row before the drop holds in every
      row after it. */
  lemma FilterKeepsFits(s: Frame, key: string, c: string, k: Kind)
    requires ColumnFits(s, c, k)
    ensures forall x :: x in DropMissing(s, key).records ==> Fits(k, Cell(x, c))
  {
    DropMissingFacts(s, key);
    forall x | x in DropMissing(s, key).records ensures Fits(k, Cell(x, c)) {
      var i :| 0 <= i < |s.records| && s.records[i] == x;
    }
  }

  /** A column of timestamps or numbers holds no text. */
  lemma DatesHoldNoText(f: Frame, c: string)
    requires ColumnFits(f, c, Dates) || ColumnFits(f, c, Numbers)
    ensures !HasText(f, c)
  {
    forall i | 0 <= i < |f.records| ensures !Cell(f.records[i], c).Str? {
      assert Fits(Dates, Cell(f.records[i], c)) || Fits(Numbers, Cell(f.records[i], c));
    }
  }

  /** An upper-casing loop reaches every present column of the first `k` it
      lists when each of those holds text, whatever the columns after them
      hold; the rows a later drop keeps hold upper-case strings there. */
  lemma UpperCasedAfterDrop(n: Frame, cols: seq<string>, k: nat, key: string)
    requires k <= |cols|
    requires forall c :: c in cols[..k] && c in n.columns ==> HasText(n, c)
    ensures forall c, x :: c in cols[..k] && c in n.columns && x in DropMissing(ConvertAborting(Uppercase, n, cols), key).records
              ==> Fits(UpperCased, Cell(x, c))
  {
    var u := ConvertAborting(Uppercase, n, cols);
    ConvertAbortingCells(Uppercase, n, cols);
    assert NoFailure(Uppercase, n, cols[..k]);
    assert cols == cols[..k] + cols[k..];
    forall c | c in cols[..k] && c in n.columns
      ensures forall x :: x in DropMissing(u, key).records ==> Fits(UpperCased, Cell(x, c))
    {
      ConvertedWithoutFailure(Uppercase, n, cols[..k], c);
      ConvertedAppend(Uppercase, n, cols[..k], cols[k..], c);
      forall i | 0 <= i < |u.records| ensures Fits(UpperCased, Cell(u.records[i], c)) {
        ConvertFits(Uppercase, Cell(n.records[i], c));
      }
      FilterKeepsFits(u, key, c, UpperCased);
    }
  }

  /** Lower-casing one column leaves no string with an upper-case letter in
      it: either `.str` accepts the column, or it holds no string at all. */
  lemma LowerCasedColumn(n: Frame, c: string)
    requires c in n.columns
    ensures ColumnFits(ConvertAborting(Lowercase, n, [c]), c, LowerCased)
  {
    var l := ConvertAborting(Lowercase, n, [c]);
    if HasText(n, c) {
      assert NoFailure(Lowercase, n, [c]);
      forall v {
        ConvertFits(Lowercase, v);
      }
      ConvertAbortingColumnFits(Lowercase, n, [c], c, LowerCased);
    } else {
      ConvertAbortingLeavesColumn(Lowercase, n, [c], c);
      forall i | 0 <= i < |l.records| ensures Fits(LowerCased, Cell(l.records[i], c)) {
        assert !Cell(n.records[i], c).Str?;
      }
    }
  }

  /** The name `reset_index()` gives the column it makes of the index. */
  function IndexColumnName(f: Frame): string {
    match f.indexName
    case Some(n) => n
    case None => if "index" in f.columns then "level_0" else "index"
  }

  /** `reset_index()` raises when that name is already a column. */
  predicate ResetIndexRaises(f: Frame) {
    IndexColumnName(f) in f.columns
  }

  /** `reset_index()`: the labels become the first column, the rows are
      labelled 0, 1, 2, ... and the index loses its name. */
  function ResetIndex(f: Frame): Frame
    requires !ResetIndexRaises(f)
  {
    var n := IndexColumnName(f);
    Frame(None, [n] + f.columns,
          seq(|f.records|, i requires 0 <= i < |f.records|
                           => Record(Num(i as real), f.records[i].cells[n := f.records[i].index])))
  }

  lemma ResetIndexFacts(f: Frame)
    requires !ResetIndexRaises(f)
    ensures var r := ResetIndex(f);
      && r.columns == [IndexColumnName(f)] + f.columns && r.indexName.None?
      && |r.records| == |f.records|
      && forall i :: 0 <= i < |f.records| ==>
           && r.records[i].index == Num(i as real)
           && Cell(r.records[i], IndexColumnName(f)) == f.records[i].index
           && forall c :: c != IndexColumnName(f) ==> Cell(r.records[i], c) == Cell(f.records[i], c)
  {
  }

  /** `rename(columns={from: to})`: nothing happens when `from` is no
      column. */
  function RenameColumn(f: Frame, from: string, to: string): Frame {
    if from !in f.columns || to in f.columns then f
    else
      f.(columns := seq(|f.columns|, k requires 0 <= k < |f.columns| => if f.columns[k] == from then to else f.columns[k]),
         records := seq(|f.records|, i requires 0 <= i < |f.records|
                                     => f.records[i].(cells := (f.records[i].cells - {from})[to := Cell(f.records[i], from)])))
  }

  lemma RenameColumnFacts(f: Frame, from: string, to: string)
    requires from in f.columns && to !in f.columns
    ensures var r := RenameColumn(f, from, to);
      && |r.columns| == |f.columns|
      && (forall k :: 0 <= k < |f.columns| ==> r.columns[k] == if f.columns[k] == from then to else f.columns[k])
      && SameRows(f, r)
      && forall i :: 0 <= i < |f.records| ==>
           && Cell(r.records[i], to) == Cell(f.records[i], from)
           && Cell(r.records[i], from) == Missing
           && forall c :: c != from && c != to ==> Cell(r.records[i], c) == Cell(f.records[i], c)
  {
  }
}
