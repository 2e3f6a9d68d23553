/** `clean_transactions` of src/data_preprocessing.py: its sequence of
    try-blocks as a specification function, the cleaner itself as a method
    that runs the column loops, and what the cleaned table satisfies. */
module Transactions {
  import opened Text
  import opened Frames
  import opened Rules
  import opened Cleaning

  const DebitCredit := "debit_credit"
  const GeoColumns := ["country", "province", "city"]
  const AmountCad := "amount_cad"

  /** The default arguments `date_cols=['transaction_date']` and
      `numeric_cols=['amount_cad']`. */
  const DefaultDateColumns := [TransactionDate]
  const DefaultNumericColumns := [AmountCad]

  /** The blocks from stripping to the numeric conversion. */
  function Parsed(p: Parsers, g: Frame, dateCols: seq<string>, numCols: seq<string>): Frame {
    var dated := ConvertAborting(ToDatetime(p.parseDate), Stripped(g), dateCols);
    ConvertAborting(ToNumeric(p.parseNumber), CombineDateTime(p, dated), numCols)
  }

  /** The two case blocks: `debit_credit` to lower case, then the geographic
      columns to upper case. */
  function CaseFixed(n: Frame): Frame {
    ConvertAborting(Uppercase, ConvertAborting(Lowercase, n, [DebitCredit]), GeoColumns)
  }

  /** The blocks between deduplication and the final row filter; none of them
      adds or removes a row. */
  function TransactionSteps(p: Parsers, g: Frame, dateCols: seq<string>, numCols: seq<string>): Frame {
    CaseFixed(Parsed(p, g, dateCols, numCols))
  }

  /** The table `clean_transactions(df, date_cols, numeric_cols)` returns. */
  function CleanedTransactions(p: Parsers, f: Frame, dateCols: seq<string>, numCols: seq<string>): Frame {
    DropMissing(TransactionSteps(p, Deduplicated(f), dateCols, numCols), CustomerId)
  }

  /** `clean_transactions`: each block in turn on a copy of the input, the
      column loops run column by column. */
  method CleanTransactions(p: Parsers, df: Frame, dateCols: seq<string>, numCols: seq<string>) returns (r: Frame)
    ensures r == CleanedTransactions(p, df, dateCols, numCols)
    ensures |r.records| <= |df.records|
    ensures IsSubsequence(Labels(r.records), Labels(df.records))
    ensures CustomerId in df.columns ==> forall x :: x in r.records ==> Cell(x, CustomerId) != Missing
    ensures forall x, c :: x in r.records && c in r.columns ==> TextTrimmed(Cell(x, c))
  {
    r := Deduplicated(df);
    r := ConvertColumns(Strip, r, TextColumns(r));
    r := ConvertColumns(ToDatetime(p.parseDate), r, dateCols);
    r := CombineDateTime(p, r);
    r := ConvertColumns(ToNumeric(p.parseNumber), r, numCols);
    r := ConvertColumns(Lowercase, r, [DebitCredit]);
    r := ConvertColumns(Uppercase, r, GeoColumns);
    r := DropMissing(r, CustomerId);
    TransactionsKeepOrder(p, df, dateCols, numCols);
    TransactionsCustomerId(p, df, dateCols, numCols);
    TransactionsTrimmed(p, df, dateCols, numCols);
  }

  lemma SameRowsLabels(f: Frame, g: Frame)
    requires SameRows(f, g)
    ensures Labels(g.records) == Labels(f.records)
  {
  }

  /** The column list of the cleaned table: the input's, plus the combined
      column when the combining block assigned it. */
  lemma StepsShape(p: Parsers, g: Frame, dateCols: seq<string>, numCols: seq<string>)
    ensures var r := TransactionSteps(p, g, dateCols, numCols);
      && SameRows(g, r) && r.indexName == g.indexName
      && (|| r.columns == g.columns
          || (&& r.columns == g.columns + [TransactionDatetime]
              && TransactionDate in g.columns && TransactionTime in g.columns && TransactionDatetime !in g.columns))
  {
    var s := Stripped(g);
    StrippedFacts(g);
    var d := ConvertAborting(ToDatetime(p.parseDate), s, dateCols);
    ConvertAbortingCells(ToDatetime(p.parseDate), s, dateCols);
    var t := CombineDateTime(p, d);
    CombineDateTimeFacts(p, d);
    var n := ConvertAborting(ToNumeric(p.parseNumber), t, numCols);
    ConvertAbortingCells(ToNumeric(p.parseNumber), t, numCols);
    var l := ConvertAborting(Lowercase, n, [DebitCredit]);
    ConvertAbortingCells(Lowercase, n, [DebitCredit]);
    ConvertAbortingCells(Uppercase, l, GeoColumns);
  }

  /** The cleaned table never gains a row: its rows are input rows in their
      input order, taken from the first row of each group of equal rows, and no
      row is lost when there is no `customer_id` column. */
  lemma TransactionsKeepOrder(p: Parsers, f: Frame, dateCols: seq<string>, numCols: seq<string>)
    ensures var r := CleanedTransactions(p, f, dateCols, numCols);
      && IsSubsequence(Labels(r.records), Labels(DropDuplicates(f.records)))
      && IsSubsequence(Labels(r.records), Labels(f.records))
      && |r.records| <= |f.records|
      && (CustomerId !in f.columns ==> Labels(r.records) == Labels(DropDuplicates(f.records)))
  {
    var g := Deduplicated(f);
    var s := TransactionSteps(p, g, dateCols, numCols);
    var r := CleanedTransactions(p, f, dateCols, numCols);
    StepsShape(p, g, dateCols, numCols);
    SameRowsLabels(g, s);
    DropMissingFacts(s, CustomerId);
    SubsequenceLabels(r.records, s.records);
    DeduplicatedFacts(f);
    SubsequenceLabels(g.records, f.records);
    SubsequenceTransitive(Labels(r.records), Labels(g.records), Labels(f.records));
    SubsequenceLength(Labels(r.records), Labels(f.records));
  }

  /** A column that neither the combining block nor the case blocks write. */
  predicate PlainColumn(c: string) {
    c != TransactionTime && c != TransactionDatetime && c != DebitCredit && c !in GeoColumns
  }

  /** What the cleaner makes of a cell `v` in such a column of `f`: stripped
      when the column is a text column, then parsed as a timestamp when it is a
      declared date column, then as a number when it is a declared numeric
      column. A column with no text that is declared neither keeps `v`. */
  function PlainValue(p: Parsers, f: Frame, dateCols: seq<string>, numCols: seq<string>, c: string, v: Value): Value {
    var stripped := if c in f.columns && HasText(f, c) then Convert(Strip, v) else v;
    var dated := if c in dateCols && c in f.columns then ParseDate(p.parseDate, stripped) else stripped;
    if c in numCols && c in f.columns then ParseNumber(p.parseNumber, dated) else dated
  }

  /** The blocks between deduplication and the row filter, on one cell of a
      plain column. */
  lemma StepsCell(p: Parsers, g: Frame, dateCols: seq<string>, numCols: seq<string>, c: string, i: int)
    requires PlainColumn(c) && 0 <= i < |g.records|
    ensures |TransactionSteps(p, g, dateCols, numCols).records| == |g.records|
    ensures Cell(TransactionSteps(p, g, dateCols, numCols).records[i], c)
            == PlainValue(p, g, dateCols, numCols, c, Cell(g.records[i], c))
  {
    var s := Stripped(g);
    StrippedCell(g, c, i);
    var d := ConvertAborting(ToDatetime(p.parseDate), s, dateCols);
    ParsedCell(ToDatetime(p.parseDate), s, dateCols, c, i);
    var t := CombineDateTime(p, d);
    CombinePlainCell(p, d, c, i);
    var n := ConvertAborting(ToNumeric(p.parseNumber), t, numCols);
    ParsedCell(ToNumeric(p.parseNumber), t, numCols, c, i);
    CaseFixedLeavesColumn(n, c);
    assert Parsed(p, g, dateCols, numCols) == n;
  }

  /** Stripping on one cell: a text column's cell is stripped, any other
      cell stays. */
  lemma StrippedCell(g: Frame, c: string, i: int)
    requires 0 <= i < |g.records|
    ensures Stripped(g).columns == g.columns && |Stripped(g).records| == |g.records|
    ensures Cell(Stripped(g).records[i], c)
            == if c in g.columns && HasText(g, c) then Convert(Strip, Cell(g.records[i], c)) else Cell(g.records[i], c)
  {
    ConvertAbortingCells(Strip, g, TextColumns(g));
    assert NoFailure(Strip, g, TextColumns(g));
    ConvertedWithoutFailure(Strip, g, TextColumns(g), c);
  }

  /** A coercing parser loop on one cell: a listed present column's cell is
      parsed, any other cell stays. */
  lemma ParsedCell(op: ColumnOp, f: Frame, cols: seq<string>, c: string, i: int)
    requires op.ToDatetime? || op.ToNumeric?
    requires 0 <= i < |f.records|
    ensures ConvertAborting(op, f, cols).columns == f.columns && |ConvertAborting(op, f, cols).records| == |f.records|
    ensures Cell(ConvertAborting(op, f, cols).records[i], c)
            == if c in cols && c in f.columns then Convert(op, Cell(f.records[i], c)) else Cell(f.records[i], c)
  {
    assert NoFailure(op, f, cols);
    ConvertAbortingWithoutFailure(op, f, cols);
  }

  /** The combining block leaves a plain column and its cells alone. */
  lemma CombinePlainCell(p: Parsers, d: Frame, c: string, i: int)
    requires PlainColumn(c) && 0 <= i < |d.records|
    ensures (c in CombineDateTime(p, d).columns <==> c in d.columns) && |CombineDateTime(p, d).records| == |d.records|
    ensures Cell(CombineDateTime(p, d).records[i], c) == Cell(d.records[i], c)
  {
    CombineDateTimeFacts(p, d);
  }

  /** The positions, among the deduplicated rows, of the rows the cleaner
      returns. */
  function Origins(p: Parsers, f: Frame, dateCols: seq<string>, numCols: seq<string>): seq<int> {
    var s := TransactionSteps(p, Deduplicated(f), dateCols, numCols);
    if CustomerId in s.columns then PresentPositions(s.records, CustomerId) else seq(|s.records|, i => i)
  }

  /** Each cleaned row comes from one deduplicated input row: the positions
      increase, the labels are that row's, and in every plain column the cell
      is what the cleaner makes of that row's cell. */
  lemma TransactionsRows(p: Parsers, f: Frame, dateCols: seq<string>, numCols: seq<string>)
    ensures var r := CleanedTransactions(p, f, dateCols, numCols);
            var kept := DropDuplicates(f.records);
            var pos := Origins(p, f, dateCols, numCols);
      && |pos| == |r.records|
      && (forall k :: 0 <= k < |pos| ==> 0 <= pos[k] < |kept|)
      && (forall k, l :: 0 <= k < l < |pos| ==> pos[k] < pos[l])
      && (forall k :: 0 <= k < |pos| ==> r.records[k].index == kept[pos[k]].index)
      && (forall k, c :: 0 <= k < |pos| && PlainColumn(c) ==>
            Cell(r.records[k], c) == PlainValue(p, f, dateCols, numCols, c, Cell(kept[pos[k]], c)))
  {
    var g := Deduplicated(f);
    var s := TransactionSteps(p, g, dateCols, numCols);
    StepsShape(p, g, dateCols, numCols);
    OriginsPick(p, f, dateCols, numCols);
    forall k, c | 0 <= k < |Origins(p, f, dateCols, numCols)| && PlainColumn(c)
      ensures Cell(CleanedTransactions(p, f, dateCols, numCols).records[k], c)
              == PlainValue(p, f, dateCols, numCols, c, Cell(g.records[Origins(p, f, dateCols, numCols)[k]], c))
    {
      TransactionsRowCell(p, f, dateCols, numCols, k, c);
    }
  }

  /** The row filter picks the step rows at the origin positions, in
      increasing order. */
  lemma OriginsPick(p: Parsers, f: Frame, dateCols: seq<string>, numCols: seq<string>)
    ensures var s := TransactionSteps(p, Deduplicated(f), dateCols, numCols);
            var r := CleanedTransactions(p, f, dateCols, numCols);
            var pos := Origins(p, f, dateCols, numCols);
      && |pos| == |r.records|
      && (forall k :: 0 <= k < |pos| ==> 0 <= pos[k] < |s.records| && r.records[k] == s.records[pos[k]])
      && (forall k, l :: 0 <= k < l < |pos| ==> pos[k] < pos[l])
  {
    var s := TransactionSteps(p, Deduplicated(f), dateCols, numCols);
    if CustomerId in s.columns {
      WithoutMissingPositions(s.records, CustomerId);
    }
  }

  /** One cell of one cleaned row in a plain column. */
  lemma TransactionsRowCell(p: Parsers, f: Frame, dateCols: seq<string>, numCols: seq<string>, k: int, c: string)
    requires PlainColumn(c) && 0 <= k < |Origins(p, f, dateCols, numCols)|
    ensures var pos := Origins(p, f, dateCols, numCols);
      && k < |CleanedTransactions(p, f, dateCols, numCols).records|
      && 0 <= pos[k] < |DropDuplicates(f.records)|
      && Cell(CleanedTransactions(p, f, dateCols, numCols).records[k], c)
         == PlainValue(p, f, dateCols, numCols, c, Cell(DropDuplicates(f.records)[pos[k]], c))
  {
    var g := Deduplicated(f);
    DeduplicatedFacts(f);
    var s := TransactionSteps(p, g, dateCols, numCols);
    var j := Origins(p, f, dateCols, numCols)[k];
    OriginsPick(p, f, dateCols, numCols);
    StepsShape(p, g, dateCols, numCols);
    StepsCell(p, g, dateCols, numCols, c, j);
    assert PlainValue(p, g, dateCols, numCols, c, Cell(g.records[j], c))
           == PlainValue(p, f, dateCols, numCols, c, Cell(g.records[j], c));
  }

  /** The amount of a cleaned row whose input amount was the string `s` is
      `s` stripped and parsed as a number. */
  lemma TransactionsAmount(p: Parsers, f: Frame, dateCols: seq<string>, numCols: seq<string>, k: int, s: string)
    requires AmountCad in f.columns && AmountCad in numCols && AmountCad !in dateCols
    requires 0 <= k < |Origins(p, f, dateCols, numCols)|
    requires 0 <= Origins(p, f, dateCols, numCols)[k] < |DropDuplicates(f.records)|
    requires Cell(DropDuplicates(f.records)[Origins(p, f, dateCols, numCols)[k]], AmountCad) == Str(s)
    ensures k < |CleanedTransactions(p, f, dateCols, numCols).records|
    ensures Cell(CleanedTransactions(p, f, dateCols, numCols).records[k], AmountCad)
            == ParseNumber(p.parseNumber, Str(Trim(s)))
  {
    var j := Origins(p, f, dateCols, numCols)[k];
    assert PlainColumn(AmountCad);
    TransactionsRowCell(p, f, dateCols, numCols, k, AmountCad);
    KeptRowText(f, j, AmountCad);
  }

  /** A string in a deduplicated row makes its column a text column. */
  lemma KeptRowText(f: Frame, j: int, c: string)
    requires 0 <= j < |DropDuplicates(f.records)| && Cell(DropDuplicates(f.records)[j], c).Str?
    ensures HasText(f, c)
  {
    var kept := DropDuplicates(f.records);
    DropDuplicatesKept(f.records);
    assert kept[j] in f.records;
    var i :| 0 <= i < |f.records| && f.records[i] == kept[j];
  }


  /** The cleaned table has the input's columns, plus `transaction_datetime`
      only when both `transaction_date` and `transaction_time` are columns; no
      declared date or numeric column that is absent is created. */
  lemma TransactionsColumns(p: Parsers, f: Frame, dateCols: seq<string>, numCols: seq<string>)
    ensures var r := CleanedTransactions(p, f, dateCols, numCols);
      || r.columns == f.columns
      || (&& r.columns == f.columns + [TransactionDatetime]
          && TransactionDate in f.columns && TransactionTime in f.columns && TransactionDatetime !in f.columns)
  {
    var g := Deduplicated(f);
    DeduplicatedFacts(f);
    StepsShape(p, g, dateCols, numCols);
    DropMissingFacts(TransactionSteps(p, g, dateCols, numCols), CustomerId);
  }

  /** `customer_id`, when it is a column, is present in every cleaned row, and
      every row that reached the filter with it present is kept; without the
      column the filter keeps every row. */
  lemma TransactionsCustomerId(p: Parsers, f: Frame, dateCols: seq<string>, numCols: seq<string>)
    ensures var s := TransactionSteps(p, Deduplicated(f), dateCols, numCols);
            var r := CleanedTransactions(p, f, dateCols, numCols);
      && (CustomerId in f.columns ==> forall x :: x in r.records ==> Cell(x, CustomerId) != Missing)
      && (CustomerId in f.columns ==> forall x :: x in s.records && Cell(x, CustomerId) != Missing ==> x in r.records)
      && (CustomerId !in f.columns ==> r == s)
  {
    var g := Deduplicated(f);
    var s := TransactionSteps(p, g, dateCols, numCols);
    DeduplicatedFacts(f);
    StepsShape(p, g, dateCols, numCols);
    DropMissingFacts(s, CustomerId);
  }

  /** The combining block keeps every string trimmed: the filled-in time has
      no surrounding whitespace and the combined column holds no string. */
  lemma CombineKeepsTrimmed(p: Parsers, f: Frame)
    requires AllTrimmed(f)
    ensures AllTrimmed(CombineDateTime(p, f))
  {
    var r := CombineDateTime(p, f);
    CombineDateTimeFacts(p, f);
    assert IsTrimmed(Midnight);
    forall c | c in r.columns ensures ColumnFits(r, c, Trimmed) {
      if c == TransactionTime {
        forall i | 0 <= i < |r.records| ensures TextTrimmed(Cell(r.records[i], c)) {
          if TransactionDate in f.columns && TransactionTime in f.columns {
            assert c in f.columns;
            assert TextTrimmed(Cell(f.records[i], c));
          }
        }
      } else if c == TransactionDatetime && CombineAssigns(f) {
        forall i | 0 <= i < |r.records| ensures TextTrimmed(Cell(r.records[i], c)) {
          var t := Cell(r.records[i], TransactionTime);
          var date := Cell(f.records[i], TransactionDate);
          if date.Date? && t.Str? {
            assert !ParseDate(p.parseDate, Str(p.formatDate(date.stamp) + " " + t.text)).Str?;
          }
        }
      } else {
        assert c in f.columns;
        SameColumnKeepsFits(f, r, c, Trimmed);
      }
    }
  }

  /** No string in the cleaned table has leading or trailing whitespace. */
  lemma TransactionsTrimmed(p: Parsers, f: Frame, dateCols: seq<string>, numCols: seq<string>)
    ensures var r := CleanedTransactions(p, f, dateCols, numCols);
      forall x, c :: x in r.records && c in r.columns ==> TextTrimmed(Cell(x, c))
  {
    var g := Deduplicated(f);
    var s := Stripped(g);
    StrippedFacts(g);
    var d := ConvertAborting(ToDatetime(p.parseDate), s, dateCols);
    ConvertAbortingKeepsTrimmed(ToDatetime(p.parseDate), s, dateCols);
    var t := CombineDateTime(p, d);
    CombineKeepsTrimmed(p, d);
    var n := ConvertAborting(ToNumeric(p.parseNumber), t, numCols);
    ConvertAbortingKeepsTrimmed(ToNumeric(p.parseNumber), t, numCols);
    var l := ConvertAborting(Lowercase, n, [DebitCredit]);
    ConvertAbortingKeepsTrimmed(Lowercase, n, [DebitCredit]);
    var u := ConvertAborting(Uppercase, l, GeoColumns);
    ConvertAbortingKeepsTrimmed(Uppercase, l, GeoColumns);
    var r := CleanedTransactions(p, f, dateCols, numCols);
    DropMissingFacts(u, CustomerId);
    forall x, c | x in r.records && c in r.columns ensures TextTrimmed(Cell(x, c)) {
      var i :| 0 <= i < |u.records| && u.records[i] == x;
      assert ColumnFits(u, c, Trimmed);
    }
  }

  /** The case blocks leave alone a column without text, and every column
      outside the case columns. */
  lemma CaseFixedLeavesColumn(n: Frame, c: string)
    requires !HasText(n, c) || (c != DebitCredit && c !in GeoColumns)
    ensures SameColumn(n, CaseFixed(n), c)
  {
    var l := ConvertAborting(Lowercase, n, [DebitCredit]);
    ConvertAbortingLeavesColumn(Lowercase, n, [DebitCredit], c);
    SameColumnKeepsText(n, l, c);
    ConvertAbortingLeavesColumn(Uppercase, l, GeoColumns, c);
  }

  lemma CaseFixedShape(n: Frame)
    ensures CaseFixed(n).columns == n.columns && SameRows(n, CaseFixed(n))
  {
    var l := ConvertAborting(Lowercase, n, [DebitCredit]);
    ConvertAbortingCells(Lowercase, n, [DebitCredit]);
    ConvertAbortingCells(Uppercase, l, GeoColumns);
  }

  /** Every declared date column that is present holds only timestamps and
      missing cells afterwards, unless a later block rewrites it: the numeric
      block, when it is also declared numeric, or the time fill. */
  lemma TransactionsDates(p: Parsers, f: Frame, dateCols: seq<string>, numCols: seq<string>, c: string)
    requires c in dateCols && c in f.columns && c !in numCols && c != TransactionTime
    ensures forall x :: x in CleanedTransactions(p, f, dateCols, numCols).records ==> Fits(Dates, Cell(x, c))
  {
    var g := Deduplicated(f);
    DeduplicatedFacts(f);
    var s := Stripped(g);
    StrippedFacts(g);
    var d := ConvertAborting(ToDatetime(p.parseDate), s, dateCols);
    ParsedColumnFits(ToDatetime(p.parseDate), s, dateCols, c);
    var t := CombineDateTime(p, d);
    CombineDateTimeFacts(p, d);
    if c == TransactionDatetime && CombineAssigns(d) {
      forall i | 0 <= i < |t.records| ensures Fits(Dates, Cell(t.records[i], c)) {
        var date := Cell(d.records[i], TransactionDate);
        var time := Cell(t.records[i], TransactionTime);
        assert Cell(t.records[i], c) == CombineCell(p, date, time);
      }
    } else {
      SameColumnKeepsFits(d, t, c, Dates);
    }
    var n := ConvertAborting(ToNumeric(p.parseNumber), t, numCols);
    ConvertAbortingLeavesColumn(ToNumeric(p.parseNumber), t, numCols, c);
    SameColumnKeepsFits(t, n, c, Dates);
    DatesHoldNoText(n, c);
    CaseFixedLeavesColumn(n, c);
    SameColumnKeepsFits(n, CaseFixed(n), c, Dates);
    FilterKeepsFits(CaseFixed(n), CustomerId, c, Dates);
  }

  /** Every declared numeric column of the cleaned table holds only numbers
      and missing cells. */
  lemma TransactionsNumbers(p: Parsers, f: Frame, dateCols: seq<string>, numCols: seq<string>, c: string)
    requires c in numCols && c in CleanedTransactions(p, f, dateCols, numCols).columns
    ensures forall x :: x in CleanedTransactions(p, f, dateCols, numCols).records ==> Fits(Numbers, Cell(x, c))
  {
    var g := Deduplicated(f);
    var d := ConvertAborting(ToDatetime(p.parseDate), Stripped(g), dateCols);
    var t := CombineDateTime(p, d);
    var n := Parsed(p, g, dateCols, numCols);
    ConvertAbortingCells(ToNumeric(p.parseNumber), t, numCols);
    CaseFixedShape(n);
    DropMissingFacts(CaseFixed(n), CustomerId);
    ParsedColumnFits(ToNumeric(p.parseNumber), t, numCols, c);
    DatesHoldNoText(n, c);
    CaseFixedLeavesColumn(n, c);
    SameColumnKeepsFits(n, CaseFixed(n), c, Numbers);
    FilterKeepsFits(CaseFixed(n), CustomerId, c, Numbers);
  }

  /** `debit_credit`, when it is a column, holds no string with an upper-case
      letter: either the lower-casing reached it, or it holds no text at all. */
  lemma TransactionsDebitCredit(p: Parsers, f: Frame, dateCols: seq<string>, numCols: seq<string>)
    requires DebitCredit in CleanedTransactions(p, f, dateCols, numCols).columns
    ensures forall x :: x in CleanedTransactions(p, f, dateCols, numCols).records ==> Fits(LowerCased, Cell(x, DebitCredit))
  {
    var n := Parsed(p, Deduplicated(f), dateCols, numCols);
    var u := CaseFixed(n);
    CaseFixedShape(n);
    DropMissingFacts(u, CustomerId);
    var l := ConvertAborting(Lowercase, n, [DebitCredit]);
    LowerCasedColumn(n, DebitCredit);
    ConvertAbortingLeavesColumn(Uppercase, l, GeoColumns, DebitCredit);
    SameColumnKeepsFits(l, u, DebitCredit, LowerCased);
    FilterKeepsFits(u, CustomerId, DebitCredit, LowerCased);
  }

  /** The blocks before the case blocks keep text in a column that is neither
      declared a date or numeric column nor one the combining block writes. */
  lemma ParsedKeepsText(p: Parsers, g: Frame, dateCols: seq<string>, numCols: seq<string>, c: string)
    requires c !in dateCols && c !in numCols && c != TransactionTime && c != TransactionDatetime
    ensures HasText(Parsed(p, g, dateCols, numCols), c) == HasText(g, c)
    ensures c in Parsed(p, g, dateCols, numCols).columns <==> c in g.columns
  {
    var s := Stripped(g);
    StrippedFacts(g);
    var d := ConvertAborting(ToDatetime(p.parseDate), s, dateCols);
    ConvertAbortingLeavesColumn(ToDatetime(p.parseDate), s, dateCols, c);
    ConvertAbortingCells(ToDatetime(p.parseDate), s, dateCols);
    SameColumnKeepsText(s, d, c);
    var t := CombineDateTime(p, d);
    CombineDateTimeFacts(p, d);
    SameColumnKeepsText(d, t, c);
    var n := ConvertAborting(ToNumeric(p.parseNumber), t, numCols);
    ConvertAbortingLeavesColumn(ToNumeric(p.parseNumber), t, numCols, c);
    ConvertAbortingCells(ToNumeric(p.parseNumber), t, numCols);
    SameColumnKeepsText(t, n, c);
  }

  /** The upper-casing loop reaches each geographic column up to the first
      present one without text: for any `k`, when the present columns among
      the first `k` hold text and are declared neither date nor numeric
      columns, those columns hold upper-case strings. With `k` at the first
      present geographic column without text this covers every column the loop
      rewrites. */
  lemma TransactionsGeography(p: Parsers, f: Frame, dateCols: seq<string>, numCols: seq<string>, k: nat)
    requires k <= |GeoColumns|
    requires forall c :: c in GeoColumns[..k] && c in f.columns ==> HasText(f, c) && c !in dateCols && c !in numCols
    ensures var r := CleanedTransactions(p, f, dateCols, numCols);
      forall c, x :: c in GeoColumns[..k] && c in r.columns && x in r.records ==> Fits(UpperCased, Cell(x, c))
  {
    var g := Deduplicated(f);
    DeduplicatedFacts(f);
    var n := Parsed(p, g, dateCols, numCols);
    var l := ConvertAborting(Lowercase, n, [DebitCredit]);
    ConvertAbortingCells(Lowercase, n, [DebitCredit]);
    var u := CaseFixed(n);
    StepsShape(p, g, dateCols, numCols);
    CaseFixedShape(n);
    forall c | c in GeoColumns[..k] && c in l.columns ensures HasText(l, c) {
      assert c in f.columns;
      ParsedKeepsText(p, g, dateCols, numCols, c);
      ConvertAbortingLeavesColumn(Lowercase, n, [DebitCredit], c);
      SameColumnKeepsText(n, l, c);
    }
    UpperCasedAfterDrop(l, GeoColumns, k, CustomerId);
  }

  /** The frame the combining block sees, when `transaction_date` is declared
      a date column and the time column holds strings and missing cells. */
  lemma DatedFacts(p: Parsers, f: Frame, dateCols: seq<string>)
    requires TransactionDate in f.columns && TransactionTime in f.columns
    requires TransactionDate in dateCols && TransactionTime !in dateCols
    requires ColumnFits(f, TransactionTime, TextOrMissing)
    ensures var d := ConvertAborting(ToDatetime(p.parseDate), Stripped(Deduplicated(f)), dateCols);
      && d.columns == f.columns
      && ColumnFits(d, TransactionDate, Dates)
      && ColumnFits(d, TransactionTime, TextOrMissing)
  {
    var g := Deduplicated(f);
    DeduplicatedFacts(f);
    RowsFromKeepsFits(f, g, TransactionTime, TextOrMissing);
    var s := Stripped(g);
    StrippedShape(g);
    StrippedKeepsTextOrMissing(g, TransactionTime);
    var op := ToDatetime(p.parseDate);
    ConvertAbortingShape(op, s, dateCols);
    ParsedColumnFits(op, s, dateCols, TransactionDate);
    ConvertAbortingLeavesColumn(op, s, dateCols, TransactionTime);
    SameColumnKeepsFits(s, ConvertAborting(op, s, dateCols), TransactionTime, TextOrMissing);
  }

  /** With `transaction_date` declared a date column and a time column of
      strings and missing cells, the combining block always assigns: the
      cleaned table gains `transaction_datetime` (unless it already had it),
      no time is missing any more, and each row's combined value is its date
      and time combined (missing when the date is missing or the parser rejects
      the combination). */
  lemma TransactionsCombined(p: Parsers, f: Frame, dateCols: seq<string>, numCols: seq<string>)
    requires TransactionDate in f.columns && TransactionTime in f.columns
    requires TransactionDate in dateCols && TransactionTime !in dateCols
    requires TransactionDate !in numCols && TransactionTime !in numCols && TransactionDatetime !in numCols
    requires ColumnFits(f, TransactionTime, TextOrMissing)
    ensures var r := CleanedTransactions(p, f, dateCols, numCols);
      && r.columns == f.columns + (if TransactionDatetime in f.columns then [] else [TransactionDatetime])
      && forall x :: x in r.records ==>
           && Cell(x, TransactionTime).Str?
           && Cell(x, TransactionDatetime) == CombineCell(p, Cell(x, TransactionDate), Cell(x, TransactionTime))
  {
    var d := ConvertAborting(ToDatetime(p.parseDate), Stripped(Deduplicated(f)), dateCols);
    DatedFacts(p, f, dateCols);
    CombineAssignsWhen(d);
    var t := CombineDateTime(p, d);
    CombineDateTimeFacts(p, d);
    var u := CaseFixed(ConvertAborting(ToNumeric(p.parseNumber), t, numCols));
    LaterStepsKeep(p, t, numCols, TransactionDate);
    LaterStepsKeep(p, t, numCols, TransactionTime);
    LaterStepsKeep(p, t, numCols, TransactionDatetime);
    DropMissingFacts(u, CustomerId);
    CombinedCellsSurvive(p, d, t, u, DropMissing(u, CustomerId).records);
  }

  /** The rows that survive the later blocks keep the filled time and the
      combined value of the combining block. */
  lemma CombinedCellsSurvive(p: Parsers, d: Frame, t: Frame, u: Frame, rs: seq<Record>)
    requires |t.records| == |d.records|
    requires forall i :: 0 <= i < |d.records| ==> Cell(t.records[i], TransactionTime) == FillMidnight(Cell(d.records[i], TransactionTime))
    requires forall i :: 0 <= i < |d.records| ==>
               Cell(t.records[i], TransactionDatetime)
               == CombineCell(p, Cell(d.records[i], TransactionDate), Cell(t.records[i], TransactionTime))
    requires ColumnFits(d, TransactionTime, TextOrMissing) && SameColumn(d, t, TransactionDate)
    requires SameColumn(t, u, TransactionDate) && SameColumn(t, u, TransactionTime) && SameColumn(t, u, TransactionDatetime)
    requires forall x :: x in rs ==> x in u.records
    ensures forall x :: x in rs ==>
              && Cell(x, TransactionTime).Str?
              && Cell(x, TransactionDatetime) == CombineCell(p, Cell(x, TransactionDate), Cell(x, TransactionTime))
  {
    forall x | x in rs
      ensures Cell(x, TransactionTime).Str?
      ensures Cell(x, TransactionDatetime) == CombineCell(p, Cell(x, TransactionDate), Cell(x, TransactionTime))
    {
      var i :| 0 <= i < |u.records| && u.records[i] == x;
      assert Fits(TextOrMissing, Cell(d.records[i], TransactionTime));
    }
  }

  /** The numeric and case blocks keep the columns and leave alone a column
      that is neither numeric nor one of the case columns. */
  lemma LaterStepsKeep(p: Parsers, t: Frame, numCols: seq<string>, c: string)
    requires c !in numCols && c != DebitCredit && c !in GeoColumns
    ensures CaseFixed(ConvertAborting(ToNumeric(p.parseNumber), t, numCols)).columns == t.columns
    ensures SameColumn(t, CaseFixed(ConvertAborting(ToNumeric(p.parseNumber), t, numCols)), c)
  {
    var n := ConvertAborting(ToNumeric(p.parseNumber), t, numCols);
    ConvertAbortingShape(ToNumeric(p.parseNumber), t, numCols);
    ConvertAbortingLeavesColumn(ToNumeric(p.parseNumber), t, numCols, c);
    CaseFixedShape(n);
    CaseFixedLeavesColumn(n, c);
  }

  /** With the default arguments, a table with both date and time columns and
      a time column of strings and missing cells always gains its combined
      column. */
  lemma DefaultCombined(p: Parsers, f: Frame)
    requires TransactionDate in f.columns && TransactionTime in f.columns
    requires ColumnFits(f, TransactionTime, TextOrMissing)
    ensures TransactionDatetime in CleanedTransactions(p, f, DefaultDateColumns, DefaultNumericColumns).columns
  {
    TransactionsCombined(p, f, DefaultDateColumns, DefaultNumericColumns);
  }

  lemma TrimSample()
    ensures Trim(" a") == "a" && Trim("a") == "a"
  {
    assert " a"[1..] == "a";
  }

  /** A loop over columns none of which is present changes nothing. */
  lemma {:induction false} ConvertAbortingAbsent(op: ColumnOp, f: Frame, cols: seq<string>)
    requires forall c :: c in cols ==> c !in f.columns
    ensures ConvertAborting(op, f, cols) == f
    decreases |cols|
  {
    if cols != [] {
      assert cols[0] in cols;
      ConvertAbortingAbsent(op, f, cols[1..]);
    }
  }

  /** A row of a one-column table: label `i`, `name` cell `s`. */
  function NameRow(i: real, s: string): Record {
    Record(Num(i), map["name" := Str(s)])
  }

  /** Without declared columns and on a table whose only column is `name`,
      cleaning is deduplication and stripping. */
  lemma NameTableSteps(p: Parsers, g: Frame)
    requires g.columns == ["name"]
    ensures CleanedTransactions(p, g, [], []) == Stripped(Deduplicated(g))
  {
    var s := Stripped(Deduplicated(g));
    DeduplicatedFacts(g);
    StrippedShape(Deduplicated(g));
    assert Parsed(p, Deduplicated(g), [], []) == s;
    ConvertAbortingAbsent(Lowercase, s, [DebitCredit]);
    ConvertAbortingAbsent(Uppercase, s, GeoColumns);
  }

  lemma StripNameRow(i: real, s: string)
    ensures RewriteCell(NameRow(i, s), "name", v => Convert(Strip, v)) == NameRow(i, Trim(s))
  {
    assert Cell(NameRow(i, s), "name") == Str(s);
    assert map["name" := Str(s)]["name" := Str(Trim(s))] == map["name" := Str(Trim(s))];
  }

  /** Stripping a one-column table of the rows `rs`, whose first row holds
      text. */
  lemma StripNameTable(rs: seq<Record>, names: seq<string>)
    requires |rs| == |names| > 0
    requires forall i :: 0 <= i < |rs| ==> rs[i] == NameRow(i as real, names[i])
    ensures Stripped(Frame(None, ["name"], rs))
            == Frame(None, ["name"], seq(|rs|, i requires 0 <= i < |rs| => NameRow(i as real, Trim(names[i]))))
  {
    var f := Frame(None, ["name"], rs);
    NameTableStripsName(f);
    StripNameRows(rs, names);
  }

  /** On a one-column table whose first cell is a string, stripping is the
      rewrite of that column. */
  lemma NameTableStripsName(f: Frame)
    requires f.columns == ["name"] && |f.records| > 0 && Cell(f.records[0], "name").Str?
    ensures Stripped(f) == Apply(Strip, f, "name")
  {
    assert TextColumnsOf(f, ["name"][1..]) == [];
    assert TextColumns(f) == ["name"];
  }

  lemma StripNameRows(rs: seq<Record>, names: seq<string>)
    requires |rs| == |names| > 0
    requires forall i :: 0 <= i < |rs| ==> rs[i] == NameRow(i as real, names[i])
    ensures Apply(Strip, Frame(None, ["name"], rs), "name").records
            == seq(|rs|, i requires 0 <= i < |rs| => NameRow(i as real, Trim(names[i])))
  {
    var a := Apply(Strip, Frame(None, ["name"], rs), "name");
    var stripped := seq(|rs|, i requires 0 <= i < |rs| => NameRow(i as real, Trim(names[i])));
    forall i | 0 <= i < |rs| ensures a.records[i] == stripped[i] {
      StripNameRow(i as real, names[i]);
    }
    SeqEquals(a.records, stripped);
  }

  lemma SeqEquals<T>(s: seq<T>, t: seq<T>)
    requires |s| == |t| && forall i :: 0 <= i < |s| ==> s[i] == t[i]
    ensures s == t
  {
  }

  /** Two rows with different names both survive deduplication and are then
      stripped. */
  lemma CleaningTwoRows(p: Parsers, a: string, b: string)
    requires a != b
    ensures CleanedTransactions(p, Frame(None, ["name"], [NameRow(0.0, a), NameRow(1.0, b)]), [], [])
            == Frame(None, ["name"], [NameRow(0.0, Trim(a)), NameRow(1.0, Trim(b))])
  {
    var x0 := NameRow(0.0, a);
    var x1 := NameRow(1.0, b);
    var f := Frame(None, ["name"], [x0, x1]);
    assert x0.cells != x1.cells by {
      assert x0.cells["name"] != x1.cells["name"];
    }
    DropDuplicatesDistinctPair(x0, x1);
    assert Deduplicated(f) == f;
    NameTableSteps(p, f);
    StrippedTwoRows(a, b);
  }

  lemma StrippedTwoRows(a: string, b: string)
    ensures Stripped(Frame(None, ["name"], [NameRow(0.0, a), NameRow(1.0, b)]))
            == Frame(None, ["name"], [NameRow(0.0, Trim(a)), NameRow(1.0, Trim(b))])
  {
    var rs := [NameRow(0.0, a), NameRow(1.0, b)];
    var names := [a, b];
    assert forall i :: 0 <= i < |rs| ==> rs[i] == NameRow(i as real, names[i]);
    StripNameTable(rs, names);
    PairOfRows(names, Trim(a), Trim(b));
  }

  lemma PairOfRows(names: seq<string>, ta: string, tb: string)
    requires |names| == 2 && Trim(names[0]) == ta && Trim(names[1]) == tb
    ensures seq(2, i requires 0 <= i < 2 => NameRow(i as real, Trim(names[i]))) == [NameRow(0.0, ta), NameRow(1.0, tb)]
  {
    var s := seq(2, i requires 0 <= i < 2 => NameRow(i as real, Trim(names[i])));
    assert s[0] == NameRow(0.0, ta);
    assert s[1] == NameRow(1.0, tb);
    PairEquals(s, NameRow(0.0, ta), NameRow(1.0, tb));
  }

  lemma PairEquals<T>(s: seq<T>, x: T, y: T)
    requires |s| == 2 && s[0] == x && s[1] == y
    ensures s == [x, y]
  {
  }

  /** The first cleaning: both rows survive deduplication and strip to equal
      rows. */
  lemma CleaningSample(p: Parsers)
    ensures CleanedTransactions(p, Frame(None, ["name"], [NameRow(0.0, " a"), NameRow(1.0, "a")]), [], [])
            == Frame(None, ["name"], [NameRow(0.0, "a"), NameRow(1.0, "a")])
  {
    assert " a"[0] != "a"[0];
    CleaningTwoRows(p, " a", "a");
    TrimSample();
  }

  /** Two equal rows are one row after cleaning. */
  lemma RecleaningTwoRows(p: Parsers, a: string)
    ensures |CleanedTransactions(p, Frame(None, ["name"], [NameRow(0.0, a), NameRow(1.0, a)]), [], []).records| == 1
  {
    var y0 := NameRow(0.0, a);
    var y1 := NameRow(1.0, a);
    var f := Frame(None, ["name"], [y0, y1]);
    DropDuplicatesEqualPair(y0, y1);
    NameTableSteps(p, f);
    StripNameTable([y0], [a]);
  }

  /** Deduplication runs before stripping, so two rows that differ only in
      surrounding whitespace both survive a first cleaning, as two equal rows,
      and a second cleaning drops one of them: cleaning is not idempotent. */
  lemma RecleaningDropsRows(p: Parsers)
    ensures var once := CleanedTransactions(p, Frame(None, ["name"], [NameRow(0.0, " a"), NameRow(1.0, "a")]), [], []);
      && |once.records| == 2
      && |CleanedTransactions(p, once, [], []).records| == 1
  {
    CleaningSample(p);
    RecleaningTwoRows(p, "a");
  }
}
