/** The two steps of src/data_preprocessing.py that rewrite the caller's
    table instead of a copy: `clean_bool_columns` and the absolute value the
    script takes of the card amounts. */
module InPlace {
  import opened Frames
  import opened Rules
  import opened Cleaning
  import opened Transactions

  /** `clean_bool_columns(df, bool_columns)`: each listed column that is
      present is cast with `astype(bool)` in its own `try`, so a column pandas
      refuses is skipped and the loop goes on. The table passed in is changed
      and returned. */
  method CleanBoolColumns(df: DataFrame, boolCols: seq<string>) returns (r: DataFrame)
    modifies df
    ensures r == df
    ensures df.Snapshot() == ConvertSkipping(ToBool, old(df.Snapshot()), boolCols)
  {
    var i := 0;
    while i < |boolCols|
      invariant 0 <= i <= |boolCols|
      invariant ConvertSkipping(ToBool, df.Snapshot(), boolCols[i..]) == ConvertSkipping(ToBool, old(df.Snapshot()), boolCols)
    {
      var col := boolCols[i];
      var f := df.Snapshot();
      if col in f.columns && !Fails(ToBool, f, col) {
        df.Assign(Apply(ToBool, f, col));
      }
      assert boolCols[i..][1..] == boolCols[i + 1..];
      i := i + 1;
    }
    r := df;
  }

  /** After `clean_bool_columns` every listed column that pandas accepts holds
      booleans: the truth value of each old cell, a missing cell counting as
      true. Every other cell, and the row labels and columns, stay. */
  lemma BoolColumnsValues(f: Frame, boolCols: seq<string>)
    ensures var r := ConvertSkipping(ToBool, f, boolCols);
      && r.columns == f.columns && SameRows(f, r)
      && forall i, c :: 0 <= i < |f.records| ==>
           Cell(r.records[i], c)
           == if c in boolCols && c in f.columns && !Fails(ToBool, f, c)
              then Bool(Truthy(Cell(f.records[i], c))) else Cell(f.records[i], c)
  {
    ConvertSkippingCells(ToBool, f, boolCols);
  }

  /** Cleaning the boolean columns a second time changes no cell. */
  lemma BoolColumnsIdempotent(f: Frame, boolCols: seq<string>)
    ensures var r := ConvertSkipping(ToBool, f, boolCols);
            var s := ConvertSkipping(ToBool, r, boolCols);
      |s.records| == |r.records| && forall i, c :: 0 <= i < |r.records| ==> Cell(s.records[i], c) == Cell(r.records[i], c)
  {
    var r := ConvertSkipping(ToBool, f, boolCols);
    var s := ConvertSkipping(ToBool, r, boolCols);
    BoolColumnsValues(f, boolCols);
    BoolColumnsValues(r, boolCols);
    forall i, c | 0 <= i < |r.records| ensures Cell(s.records[i], c) == Cell(r.records[i], c) {
      if c in boolCols && c in r.columns && !Fails(ToBool, r, c) {
        if c in f.columns && !Fails(ToBool, f, c) {
          assert Cell(r.records[i], c).Bool?;
        } else {
          BoolFailsKept(f, r, c);
        }
      }
    }
  }

  /** Whether pandas refuses the cast depends on the column alone. */
  lemma BoolFailsKept(f: Frame, r: Frame, c: string)
    requires SameColumn(f, r, c)
    ensures Fails(ToBool, r, c) == Fails(ToBool, f, c)
  {
    if HoldsDate(f, c) {
      var i :| 0 <= i < |f.records| && Cell(f.records[i], c).Date?;
      assert Cell(r.records[i], c).Date?;
    }
    if HoldsDate(r, c) {
      var i :| 0 <= i < |r.records| && Cell(r.records[i], c).Date?;
      assert Cell(f.records[i], c).Date?;
    }
  }

  /** `abs()` of one amount. */
  function AbsValue(v: Value): Value {
    if v.Num? && v.number < 0.0 then Num(-v.number) else v
  }

  /** `Series.abs()` raises unless the column is numeric. */
  predicate AbsRaises(f: Frame) {
    AmountCad in f.columns && !ColumnFits(f, AmountCad, Numbers)
  }

  function AbsAmount(f: Frame): Frame
    requires AmountCad in f.columns
  {
    MapColumn(f, AmountCad, AbsValue)
  }

  /** `card_data['amount_cad'] = card_data['amount_cad'].abs()` when the
      column is present. The statement is outside any `try`: `raised` says
      the script stops there. */
  method AbsCardAmounts(df: DataFrame) returns (raised: bool)
    modifies df
    ensures raised == AbsRaises(old(df.Snapshot()))
    ensures df.Snapshot() == if AmountCad in old(df.Snapshot()).columns && !raised
                             then AbsAmount(old(df.Snapshot())) else old(df.Snapshot())
  {
    var f := df.Snapshot();
    raised := AbsRaises(f);
    if AmountCad in f.columns && !raised {
      df.Assign(AbsAmount(f));
    }
  }

  /** Every amount becomes its absolute value: a missing amount stays
      missing, a number becomes a non-negative number of the same magnitude,
      and nothing else changes. */
  lemma AbsAmountFacts(f: Frame)
    requires AmountCad in f.columns
    ensures var r := AbsAmount(f);
      && r.columns == f.columns && SameRows(f, r)
      && (forall i, c :: 0 <= i < |f.records| && c != AmountCad ==> Cell(r.records[i], c) == Cell(f.records[i], c))
      && forall i :: 0 <= i < |f.records| ==>
           var v := Cell(f.records[i], AmountCad);
           var w := Cell(r.records[i], AmountCad);
           && (v.Missing? <==> w.Missing?)
           && (v.Num? ==> w.Num? && w.number >= 0.0 && (w.number == v.number || w.number == -v.number))
  {
    MapColumnCells(f, AmountCad, AbsValue);
  }

  /** Taking the absolute value twice is taking it once. */
  lemma AbsAmountIdempotent(f: Frame)
    requires AmountCad in f.columns
    ensures var r := AbsAmount(f);
      AbsAmount(r).records == r.records
  {
    var r := AbsAmount(f);
    MapColumnCells(f, AmountCad, AbsValue);
    forall i | 0 <= i < |r.records| ensures RewriteCell(r.records[i], AmountCad, AbsValue) == r.records[i] {
      assert r.records[i].cells[AmountCad] == AbsValue(Cell(f.records[i], AmountCad));
    }
  }

  /** The card table as the script cleans it never makes the absolute value
      raise: `amount_cad`, when present, was converted to numbers; and
      afterwards no amount is negative. */
  lemma CardAmountsAfterCleaning(p: Parsers, f: Frame)
    ensures var t := CleanedTransactions(p, f, DefaultDateColumns, DefaultNumericColumns);
      && !AbsRaises(t)
      && (AmountCad in t.columns ==>
            var r := AbsAmount(t);
            forall i :: 0 <= i < |r.records| ==>
              Fits(Numbers, Cell(r.records[i], AmountCad))
              && (Cell(r.records[i], AmountCad).Num? ==> Cell(r.records[i], AmountCad).number >= 0.0))
  {
    var t := CleanedTransactions(p, f, DefaultDateColumns, DefaultNumericColumns);
    if AmountCad in t.columns {
      TransactionsNumbers(p, f, DefaultDateColumns, DefaultNumericColumns, AmountCad);
      assert ColumnFits(t, AmountCad, Numbers) by {
        forall i | 0 <= i < |t.records| ensures Fits(Numbers, Cell(t.records[i], AmountCad)) {
          assert t.records[i] in t.records;
        }
      }
      AbsAmountFacts(t);
    }
  }
}
