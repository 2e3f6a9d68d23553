/** `clean_kyc_data` and `clean_kyc_industry_codes` of
    src/data_preprocessing.py. */
module Kyc {
  import opened Text
  import opened Frames
  import opened Rules
  import opened Cleaning

  const IndustryCode := "industry_code"
  const KycDateColumns := ["established_date", "onboard_date"]
  const KycNumericColumns := ["sales", "employee_count"]
  const KycCaseColumns := ["country", "province", "city", "industry_code"]
  const GeoCaseColumns := ["country", "province", "city"]

  /** The first block of `clean_kyc_data`: `reset_index` then
      `drop_duplicates`; when `reset_index` raises, deduplication is skipped
      with it. */
  function Indexed(f: Frame): Frame {
    if ResetIndexRaises(f) then f else Deduplicated(ResetIndex(f))
  }

  /** The blocks from stripping to the numeric conversion. The date block
      converts `established_date` then `onboard_date`, each when present; the
      numeric block does the same for `sales` and `employee_count`. */
  function KycParsed(p: Parsers, f: Frame): Frame {
    var dated := ConvertAborting(ToDatetime(p.parseDate), Stripped(Indexed(f)), KycDateColumns);
    ConvertAborting(ToNumeric(p.parseNumber), dated, KycNumericColumns)
  }

  /** The table `clean_kyc_data(df)` returns. */
  function CleanedKyc(p: Parsers, f: Frame): Frame {
    DropMissing(ConvertAborting(Uppercase, KycParsed(p, f), KycCaseColumns), CustomerId)
  }

  /** `clean_kyc_data`: each block in turn on a copy of the input. */
  method CleanKycData(p: Parsers, df: Frame) returns (r: Frame)
    ensures r == CleanedKyc(p, df)
    ensures |r.records| <= |df.records|
    ensures CustomerId in r.columns ==> forall x :: x in r.records ==> Cell(x, CustomerId) != Missing
  {
    r := df;
    if !ResetIndexRaises(r) {
      r := ResetIndex(r);
      r := Deduplicated(r);
    }
    r := ConvertColumns(Strip, r, TextColumns(r));
    r := ConvertColumns(ToDatetime(p.parseDate), r, KycDateColumns);
    r := ConvertColumns(ToNumeric(p.parseNumber), r, KycNumericColumns);
    r := ConvertColumns(Uppercase, r, KycCaseColumns);
    r := DropMissing(r, CustomerId);
    KycRows(p, df);
    KycCustomerId(p, df);
  }

  lemma IndexedFacts(f: Frame)
    ensures Indexed(f).columns == if ResetIndexRaises(f) then f.columns else [IndexColumnName(f)] + f.columns
    ensures |Indexed(f).records| <= |f.records|
    ensures ResetIndexRaises(f) ==> Indexed(f) == f
  {
    if !ResetIndexRaises(f) {
      ResetIndexFacts(f);
      DeduplicatedFacts(ResetIndex(f));
      SubsequenceLength(Indexed(f).records, ResetIndex(f).records);
    }
  }

  lemma KycStepsShape(p: Parsers, f: Frame)
    ensures var g := Indexed(f);
            var u := ConvertAborting(Uppercase, KycParsed(p, f), KycCaseColumns);
      u.columns == g.columns && SameRows(g, u)
  {
    var g := Indexed(f);
    StrippedShape(g);
    var s := Stripped(g);
    ConvertAbortingShape(ToDatetime(p.parseDate), s, KycDateColumns);
    var d := ConvertAborting(ToDatetime(p.parseDate), s, KycDateColumns);
    ConvertAbortingShape(ToNumeric(p.parseNumber), d, KycNumericColumns);
    ConvertAbortingShape(Uppercase, KycParsed(p, f), KycCaseColumns);
  }

  /** The cleaned KYC table has the restored index as its first column
      (unless `reset_index` raised), never gains a row, and, when
      `reset_index` raises and there is no `customer_id` column, loses none:
      the duplicates that the skipped deduplication would have dropped stay. */
  lemma KycRows(p: Parsers, f: Frame)
    ensures var r := CleanedKyc(p, f);
      && r.columns == (if ResetIndexRaises(f) then f.columns else [IndexColumnName(f)] + f.columns)
      && |r.records| <= |f.records|
      && (ResetIndexRaises(f) && CustomerId !in f.columns ==> |r.records| == |f.records|)
  {
    IndexedFacts(f);
    KycStepsShape(p, f);
    var u := ConvertAborting(Uppercase, KycParsed(p, f), KycCaseColumns);
    DropMissingFacts(u, CustomerId);
    SubsequenceLength(CleanedKyc(p, f).records, u.records);
  }

  /** The drop of rows with a missing `customer_id` is always attempted:
      with the column, no cleaned row misses it and every row that reached the
      drop with it present is kept; without it the drop raises and nothing is
      dropped. A KYC table indexed by `customer_id` gets the column back. */
  lemma KycCustomerId(p: Parsers, f: Frame)
    ensures var u := ConvertAborting(Uppercase, KycParsed(p, f), KycCaseColumns);
            var r := CleanedKyc(p, f);
      && (CustomerId in r.columns ==> forall x :: x in r.records ==> Cell(x, CustomerId) != Missing)
      && (CustomerId in r.columns ==> forall x :: x in u.records && Cell(x, CustomerId) != Missing ==> x in r.records)
      && (CustomerId !in r.columns ==> r == u)
      && (f.indexName == Some(CustomerId) && CustomerId !in f.columns ==> CustomerId in r.columns)
  {
    IndexedFacts(f);
    KycStepsShape(p, f);
    DropMissingFacts(ConvertAborting(Uppercase, KycParsed(p, f), KycCaseColumns), CustomerId);
  }

  /** No string in the cleaned KYC table has surrounding whitespace. */
  lemma KycTrimmed(p: Parsers, f: Frame)
    ensures var r := CleanedKyc(p, f);
      forall x, c :: x in r.records && c in r.columns ==> TextTrimmed(Cell(x, c))
  {
    var s := Stripped(Indexed(f));
    StrippedShape(Indexed(f));
    var d := ConvertAborting(ToDatetime(p.parseDate), s, KycDateColumns);
    ConvertAbortingKeepsTrimmed(ToDatetime(p.parseDate), s, KycDateColumns);
    var n := ConvertAborting(ToNumeric(p.parseNumber), d, KycNumericColumns);
    ConvertAbortingKeepsTrimmed(ToNumeric(p.parseNumber), d, KycNumericColumns);
    var u := ConvertAborting(Uppercase, n, KycCaseColumns);
    ConvertAbortingKeepsTrimmed(Uppercase, n, KycCaseColumns);
    var r := CleanedKyc(p, f);
    DropMissingFacts(u, CustomerId);
    forall x, c | x in r.records && c in r.columns ensures TextTrimmed(Cell(x, c)) {
      var i :| 0 <= i < |u.records| && u.records[i] == x;
      assert ColumnFits(u, c, Trimmed);
    }
  }

  /** `established_date` and `onboard_date`, where present, hold only
      timestamps and missing cells. */
  lemma KycDates(p: Parsers, f: Frame, c: string)
    requires c in KycDateColumns && c in CleanedKyc(p, f).columns
    ensures forall x :: x in CleanedKyc(p, f).records ==> Fits(Dates, Cell(x, c))
  {
    var s := Stripped(Indexed(f));
    KycStepsShape(p, f);
    StrippedShape(Indexed(f));
    DropMissingFacts(ConvertAborting(Uppercase, KycParsed(p, f), KycCaseColumns), CustomerId);
    ParsedColumnFits(ToDatetime(p.parseDate), s, KycDateColumns, c);
    var d := ConvertAborting(ToDatetime(p.parseDate), s, KycDateColumns);
    var n := KycParsed(p, f);
    ConvertAbortingLeavesColumn(ToNumeric(p.parseNumber), d, KycNumericColumns, c);
    SameColumnKeepsFits(d, n, c, Dates);
    DatesHoldNoText(n, c);
    var u := ConvertAborting(Uppercase, n, KycCaseColumns);
    ConvertAbortingLeavesColumn(Uppercase, n, KycCaseColumns, c);
    SameColumnKeepsFits(n, u, c, Dates);
    FilterKeepsFits(u, CustomerId, c, Dates);
  }

  /** `sales` and `employee_count`, where present, hold only numbers and
      missing cells. */
  lemma KycNumbers(p: Parsers, f: Frame, c: string)
    requires c in KycNumericColumns && c in CleanedKyc(p, f).columns
    ensures forall x :: x in CleanedKyc(p, f).records ==> Fits(Numbers, Cell(x, c))
  {
    var s := Stripped(Indexed(f));
    KycStepsShape(p, f);
    StrippedShape(Indexed(f));
    DropMissingFacts(ConvertAborting(Uppercase, KycParsed(p, f), KycCaseColumns), CustomerId);
    var d := ConvertAborting(ToDatetime(p.parseDate), s, KycDateColumns);
    ConvertAbortingShape(ToDatetime(p.parseDate), s, KycDateColumns);
    ParsedColumnFits(ToNumeric(p.parseNumber), d, KycNumericColumns, c);
    var n := KycParsed(p, f);
    DatesHoldNoText(n, c);
    var u := ConvertAborting(Uppercase, n, KycCaseColumns);
    ConvertAbortingLeavesColumn(Uppercase, n, KycCaseColumns, c);
    SameColumnKeepsFits(n, u, c, Numbers);
    FilterKeepsFits(u, CustomerId, c, Numbers);
  }

  /** Resetting the index and deduplicating keep text in every column other
      than the restored one. */
  lemma IndexedKeepsText(f: Frame, c: string)
    requires ResetIndexRaises(f) || c != IndexColumnName(f)
    ensures HasText(Indexed(f), c) == HasText(f, c)
  {
    if !ResetIndexRaises(f) {
      var g := ResetIndex(f);
      ResetIndexFacts(f);
      assert SameColumn(f, g, c);
      SameColumnKeepsText(f, g, c);
      DeduplicatedKeepsText(g, c);
    }
  }

  /** The upper-casing loop reaches each geographic and industry-code column
      up to the first present one without text: for any `k`, when the present
      columns among the first `k` hold text and none of them is the name the
      index is restored under, those columns hold upper-case strings. With `k`
      at the first present column without text (a numeric `industry_code`,
      say) this covers every column the loop rewrites. */
  lemma KycUpperCase(p: Parsers, f: Frame, k: nat)
    requires k <= |KycCaseColumns|
    requires forall c :: c in KycCaseColumns[..k] && c in f.columns ==> HasText(f, c)
    requires IndexColumnName(f) !in KycCaseColumns[..k]
    ensures var r := CleanedKyc(p, f);
      forall c, x :: c in KycCaseColumns[..k] && c in r.columns && x in r.records ==> Fits(UpperCased, Cell(x, c))
  {
    var n := KycParsed(p, f);
    var u := ConvertAborting(Uppercase, n, KycCaseColumns);
    IndexedFacts(f);
    KycStepsShape(p, f);
    ConvertAbortingShape(Uppercase, n, KycCaseColumns);
    DropMissingFacts(u, CustomerId);
    assert CleanedKyc(p, f).columns == n.columns == Indexed(f).columns;
    forall c | c in KycCaseColumns[..k] && c in n.columns ensures HasText(n, c) {
      assert c in f.columns;
      KycCaseColumnsOnly(c);
      KycParsedKeepsText(p, f, c);
    }
    UpperCasedAfterDrop(n, KycCaseColumns, k, CustomerId);
  }

  /** With a numeric `industry_code` that comes last, the three geographic
      columns are still upper-cased when they hold text. */
  lemma KycGeographyBeforeCode(p: Parsers, f: Frame)
    requires forall c :: c in GeoCaseColumns && c in f.columns ==> HasText(f, c)
    requires IndexColumnName(f) !in GeoCaseColumns
    ensures var r := CleanedKyc(p, f);
      forall c, x :: c in GeoCaseColumns && c in r.columns && x in r.records ==> Fits(UpperCased, Cell(x, c))
  {
    assert KycCaseColumns[..3] == GeoCaseColumns;
    KycUpperCase(p, f, 3);
  }

  /** No upper-cased column is a date or numeric column. */
  lemma KycCaseColumnsOnly(c: string)
    requires c in KycCaseColumns
    ensures c !in KycDateColumns && c !in KycNumericColumns
  {
  }

  /** The blocks before the upper-casing keep text in every column that is
      neither the restored index nor a date or numeric column. */
  lemma KycParsedKeepsText(p: Parsers, f: Frame, c: string)
    requires c !in KycDateColumns && c !in KycNumericColumns
    requires ResetIndexRaises(f) || c != IndexColumnName(f)
    ensures HasText(KycParsed(p, f), c) == HasText(f, c)
  {
    var g := Indexed(f);
    var s := Stripped(g);
    var d := ConvertAborting(ToDatetime(p.parseDate), s, KycDateColumns);
    var n := KycParsed(p, f);
    IndexedKeepsText(f, c);
    StrippedColumn(g, c);
    ConvertAbortingLeavesColumn(ToDatetime(p.parseDate), s, KycDateColumns, c);
    SameColumnKeepsText(s, d, c);
    ConvertAbortingLeavesColumn(ToNumeric(p.parseNumber), d, KycNumericColumns, c);
    SameColumnKeepsText(d, n, c);
  }

  /** The table `clean_kyc_industry_codes(df)` returns. Everything runs in one
      block: when `reset_index` raises, the copy stays as deduplication left
      it. */
  function CleanedIndustryCodes(f: Frame): Frame {
    var g := Deduplicated(f);
    if ResetIndexRaises(g) then g
    else
      var h := RenameColumn(ResetIndex(g), "index", IndustryCode);
      ConvertAborting(StripUppercase, h, TextColumns(h))
  }

  /** `clean_kyc_industry_codes`. */
  method CleanKycIndustryCodes(df: Frame) returns (r: Frame)
    ensures r == CleanedIndustryCodes(df)
    ensures |r.records| == |DropDuplicates(df.records)|
  {
    r := Deduplicated(df);
    if !ResetIndexRaises(r) {
      r := ResetIndex(r);
      r := RenameColumn(r, "index", IndustryCode);
      r := ConvertColumns(StripUppercase, r, TextColumns(r));
    }
    IndustryCodesRows(df);
  }

  lemma RenameColumnShape(f: Frame, from: string, to: string)
    ensures SameRows(f, RenameColumn(f, from, to))
  {
    if from in f.columns && to !in f.columns {
      RenameColumnFacts(f, from, to);
    }
  }

  /** Deduplication is the only step that drops rows: a row with a missing
      code is kept. The code is still the index when deduplication runs, so
      rows that differ only in their code count as duplicates. */
  lemma IndustryCodesRows(f: Frame)
    ensures |CleanedIndustryCodes(f).records| == |DropDuplicates(f.records)|
    ensures ResetIndexRaises(f) ==> CleanedIndustryCodes(f) == Deduplicated(f)
  {
    var g := Deduplicated(f);
    if !ResetIndexRaises(g) {
      ResetIndexFacts(g);
      var h := RenameColumn(ResetIndex(g), "index", IndustryCode);
      RenameColumnShape(ResetIndex(g), "index", IndustryCode);
      ConvertAbortingShape(StripUppercase, h, TextColumns(h));
    }
  }

  /** The code is still the index when deduplication runs, so it takes no
      part in the duplicate test: the cleaned code table has one row per
      distinct cell map of the input, and of two rows with the same cells the
      later one is dropped, whatever the codes of the two. */
  lemma IndustryCodesIgnoreCode(f: Frame, i: int, j: int)
    requires 0 <= i < j < |f.records| && f.records[i].cells == f.records[j].cells
    ensures |CleanedIndustryCodes(f).records| == |CellMaps(f.records)|
    ensures j !in KeptPositions(f.records)
  {
    IndustryCodesRows(f);
    DropDuplicatesCount(f.records);
    DropDuplicatesPositions(f.records);
    assert f.records[..j][i] == f.records[i];
  }

  /** Unless `reset_index` raises, every string of the cleaned code table is
      stripped and upper-case. */
  lemma IndustryCodesText(f: Frame)
    requires !ResetIndexRaises(f)
    ensures var r := CleanedIndustryCodes(f);
      forall x, c :: x in r.records && c in r.columns ==> Fits(Trimmed, Cell(x, c)) && Fits(UpperCased, Cell(x, c))
  {
    var g := Deduplicated(f);
    var h := RenameColumn(ResetIndex(g), "index", IndustryCode);
    var cols := TextColumns(h);
    var r := CleanedIndustryCodes(f);
    assert NoFailure(StripUppercase, h, cols);
    ConvertAbortingShape(StripUppercase, h, cols);
    forall c | c in r.columns ensures ColumnFits(r, c, Trimmed) && ColumnFits(r, c, UpperCased) {
      IndustryColumnText(h, c);
    }
    forall x, c | x in r.records && c in r.columns ensures Fits(Trimmed, Cell(x, c)) && Fits(UpperCased, Cell(x, c)) {
      var i :| 0 <= i < |r.records| && r.records[i] == x;
    }
  }

  lemma IndustryColumnText(h: Frame, c: string)
    requires c in h.columns
    ensures var r := ConvertAborting(StripUppercase, h, TextColumns(h));
      ColumnFits(r, c, Trimmed) && ColumnFits(r, c, UpperCased)
  {
    var cols := TextColumns(h);
    var r := ConvertAborting(StripUppercase, h, cols);
    if HasText(h, c) {
      assert NoFailure(StripUppercase, h, cols);
      forall v ensures Fits(Trimmed, Convert(StripUppercase, v)) {
        ConvertKeepsTrimmed(StripUppercase, v);
      }
      forall v ensures Fits(UpperCased, Convert(StripUppercase, v)) {
        ConvertFits(StripUppercase, v);
      }
      ConvertAbortingColumnFits(StripUppercase, h, cols, c, Trimmed);
      ConvertAbortingColumnFits(StripUppercase, h, cols, c, UpperCased);
    } else {
      ConvertAbortingLeavesColumn(StripUppercase, h, cols, c);
      forall i | 0 <= i < |r.records| ensures !Cell(r.records[i], c).Str? {
        assert !Cell(h.records[i], c).Str?;
      }
    }
  }

  /** An unnamed index with no `index` or `industry_code` column becomes the
      first column, `industry_code`, holding for each row its old label
      (stripped and upper-cased when the codes are text). */
  lemma IndustryCodesColumn(f: Frame)
    requires f.indexName.None? && "index" !in f.columns && IndustryCode !in f.columns
    ensures var r := CleanedIndustryCodes(f);
            var g := Deduplicated(f);
      && r.columns == [IndustryCode] + f.columns
      && |r.records| == |g.records|
      && forall i :: 0 <= i < |r.records| ==>
           Cell(r.records[i], IndustryCode)
           == if HasText(RenameColumn(ResetIndex(g), "index", IndustryCode), IndustryCode)
              then Convert(StripUppercase, g.records[i].index) else g.records[i].index
  {
    var g := Deduplicated(f);
    var h := RenameColumn(ResetIndex(g), "index", IndustryCode);
    IndustryCodesRenamed(f);
    var cols := TextColumns(h);
    assert NoFailure(StripUppercase, h, cols);
    ConvertAbortingWithoutFailure(StripUppercase, h, cols);
    var r := CleanedIndustryCodes(f);
    assert r == ConvertAborting(StripUppercase, h, cols);
    forall i | 0 <= i < |r.records|
      ensures Cell(r.records[i], IndustryCode)
              == if HasText(h, IndustryCode) then Convert(StripUppercase, g.records[i].index) else g.records[i].index
    {
      assert Cell(h.records[i], IndustryCode) == g.records[i].index;
      StripUppercaseCell(h, i, IndustryCode);
    }
  }

  lemma StripUppercaseCell(h: Frame, i: int, c: string)
    requires 0 <= i < |h.records| && c in h.columns
    ensures |ConvertAborting(StripUppercase, h, TextColumns(h)).records| == |h.records|
    ensures Cell(ConvertAborting(StripUppercase, h, TextColumns(h)).records[i], c)
            == if HasText(h, c) then Convert(StripUppercase, Cell(h.records[i], c)) else Cell(h.records[i], c)
  {
    assert NoFailure(StripUppercase, h, TextColumns(h));
    ConvertAbortingWithoutFailure(StripUppercase, h, TextColumns(h));
  }

  /** Renaming the restored `index` column names the codes `industry_code`. */
  lemma IndustryCodesRenamed(f: Frame)
    requires f.indexName.None? && "index" !in f.columns && IndustryCode !in f.columns
    ensures var g := Deduplicated(f);
            var h := RenameColumn(ResetIndex(g), "index", IndustryCode);
      && !ResetIndexRaises(g)
      && h.columns == [IndustryCode] + f.columns
      && |h.records| == |g.records|
      && forall i :: 0 <= i < |g.records| ==> Cell(h.records[i], IndustryCode) == g.records[i].index
  {
    var g := Deduplicated(f);
    DeduplicatedFacts(f);
    assert IndexColumnName(g) == "index";
    var e := ResetIndex(g);
    ResetIndexFacts(g);
    var h := RenameColumn(e, "index", IndustryCode);
    RenameColumnFacts(e, "index", IndustryCode);
    assert h.columns == [IndustryCode] + f.columns;
  }
}
