# Table cleaning and anomaly bookkeeping, modelled in Dafny

This project models the deterministic core of a transaction-surveillance
pipeline:

- the cleaners of `src/data_preprocessing.py`:
  - `clean_transactions`
  - `clean_bool_columns`
  - `clean_kyc_data`
  - `clean_kyc_industry_codes`
  - the absolute value the script takes of the card amounts
- the bookkeeping around the isolation forest in `src/anomaly_detection.py`:
  - `detect_anomalies`
  - the name given to each output file

A pandas DataFrame is a value `Frame`: an optional index name, a column list, and records. Each record is an index label plus a map from column names to cells. A cell is `Missing`, a string, a number, a timestamp or a boolean. The cleaners that copy their input are written on these values. The steps that change the caller's table use the class `Frames.DataFrame` and declare `modifies`:

- `clean_bool_columns`
- the card `abs()`
- `detect_anomalies`

Each `try` block of a cleaner is one step. A failing block keeps what it had already done: a loop whose `except` sits outside it stops at the first column pandas refuses, and the columns it already rewrote stay rewritten. A loop with the `try` inside skips that column and goes on.

pandas' behaviour is derived from the cells, with these rules:

- A column is a text column (object dtype, where `.str` is accepted) when some cell is a string.
- `.str` methods turn non-string cells into missing ones.
- `pd.to_datetime` and `pd.to_numeric` with `errors='coerce'` are abstract parsers. They are parameters (`Cleaning.Parsers`), and so is `strftime`.
- `astype(bool)` applies Python truthiness, so a missing cell becomes true. It is refused on a column of timestamps.

Each cleaner has two parts:

- a specification function, for example `Transactions.CleanedTransactions`;
- a method that runs the column loops, for example `Transactions.CleanTransactions`, proved equal to it.

Lemmas state what the cleaned tables satisfy.

Files:

- `text.dfy`: `str.strip`, `upper`, `lower` and `split`.
- `frames.dfy`: the table model, `drop_duplicates` and `dropna`.
- `rules.dfy`: the column conversions and the two loop forms.
- `cleaning.dfy`: the steps the cleaners share.
- `transactions.dfy`, `kyc.dfy`, `inplace.dfy` and `anomaly.dfy`: one per group of source functions.

## Model

| member | source | states |
|---|---|---|
| Text.TrimIsMaximalSlice | src/data_preprocessing.py:43-44 | `strip()` gives a trimmed slice of the input with only whitespace cut from either end |
| Text.TrimIdempotent | src/data_preprocessing.py:43-44 | stripping twice is stripping once |
| Text.LowerProperties | src/data_preprocessing.py:77-78 | `lower()` keeps the length, yields a lower-case string, keeps a trimmed string trimmed, and leaves a lower-case string unchanged |
| Text.UpperProperties | src/data_preprocessing.py:84-86 | the same for `upper()` |
| Text.StripUpperProperties | src/data_preprocessing.py:183-184 | `strip().upper()` yields a trimmed upper-case string which a second pass leaves unchanged |
| Text.SplitJoin | src/anomaly_detection.py:90 | `split('_')` loses nothing: joining the pieces gives the name back |
| Text.SplitAfterSeparator | src/anomaly_detection.py:90 | the pieces of `a_b...` with no `_` in `a` are `a`, then the pieces of the rest |
| Frames.DropDuplicatesRows | src/data_preprocessing.py:37 | `drop_duplicates` keeps only input rows and no two equal rows; every input row has an equal kept row |
| Frames.DropDuplicatesKeepsFirst | src/data_preprocessing.py:37 | deduplication keeps the input order, and keeps exactly the first row of each group of equal rows |
| Frames.DropDuplicatesPositions | src/data_preprocessing.py:37 | the kept rows are the input rows at increasing positions, and a position is kept exactly when no earlier row has the same cells |
| Frames.DropDuplicatesCount | src/data_preprocessing.py:37 | deduplication keeps one row per distinct set of cells, whatever the index labels |
| Frames.DuplicateTestIsCellwise | src/data_preprocessing.py:37 | when every row holds a cell for exactly the frame's columns, two rows are duplicates exactly when they read the same in every column |
| Frames.WithoutMissingMembers | src/data_preprocessing.py:93 | `dropna(subset=[key])` keeps exactly the rows whose key cell is present |
| Frames.WithoutMissingIsSubsequence | src/data_preprocessing.py:93 | the kept rows are in input order |
| Frames.WithoutMissingNoneMissing | src/data_preprocessing.py:93 | with no missing key nothing is dropped |
| Frames.WithoutMissingPositions | src/data_preprocessing.py:93 | the kept rows are the input rows at increasing positions, and a position is kept exactly when its key cell is present |
| Frames.MapColumnCells | src/data_preprocessing.py:44 | `df[c] = g(df[c])` changes column `c` cell by cell and nothing else |
| Frames.SetColumnCells | src/anomaly_detection.py:39-40 | assigning a column overwrites an existing one in place or appends a new one, and changes no other cell |
| Rules.TextColumns | src/data_preprocessing.py:43 | `select_dtypes(include=['object'])` lists exactly the columns that hold text |
| Rules.ConvertIdempotent | src/data_preprocessing.py:44 | every cell conversion applied twice is applied once |
| Rules.FailsUnchangedByApply | src/data_preprocessing.py:43-44 | rewriting an accepted column does not change which columns pandas refuses |
| Rules.ConvertAbortingCells | src/data_preprocessing.py:41-46 | a loop with the `try` outside rewrites exactly the present columns before the first refused one; columns, index, rows and all other cells stay |
| Rules.ConvertedWithoutFailure | src/data_preprocessing.py:50-52 | with no refused column the loop rewrites exactly the listed present columns |
| Rules.ConvertedIsAccepted | src/data_preprocessing.py:84-86 | a rewritten column is listed, present and accepted |
| Rules.ConvertSkippingCells | src/data_preprocessing.py:105-110 | a loop with the `try` inside rewrites exactly the listed present accepted columns |
| Rules.ConvertAbortingLeavesColumn | src/data_preprocessing.py:84-86 | an unlisted column, or a column without text under a `.str` method, keeps its cells |
| Rules.ConvertKeepsTrimmed | src/data_preprocessing.py:77-78 | no conversion puts whitespace around a string |
| Rules.ConvertColumns | src/data_preprocessing.py:50-52 | the column loop, run column by column, yields the aborting-loop table |
| Cleaning.ConvertFits | src/data_preprocessing.py:52 | each conversion yields its kind of cell: timestamps, numbers, lower-case or upper-case strings, or missing |
| Cleaning.ParsedColumnFits | src/data_preprocessing.py:69-71 | the coercing parsers are never refused, so a listed present column holds only parsed values and missing cells |
| Cleaning.DeduplicatedFacts | src/data_preprocessing.py:37 | deduplication keeps the columns and index name, keeps rows in input order, and keeps which columns hold text |
| Cleaning.StrippedFacts | src/data_preprocessing.py:41-46 | after stripping no string has surrounding whitespace; text columns hold strings and missing cells; other columns stay |
| Cleaning.CombineAssignsWhen | src/data_preprocessing.py:58-63 | a date column of timestamps and a time column of strings never make the combining expression raise |
| Cleaning.CombineDateTimeFacts | src/data_preprocessing.py:56-65 | the combined column is added only when both date and time exist; missing times become `00:00:00`; each combined cell is its row's date and time combined; no other cell changes |
| Cleaning.DropMissingFacts | src/data_preprocessing.py:90-95 | the drop keeps columns and order, removes exactly the rows with a missing key, and changes nothing when the key column is absent |
| Cleaning.ResetIndexFacts | src/data_preprocessing.py:128 | `reset_index` puts the labels in a new first column and relabels the rows 0, 1, 2, ...; other cells stay |
| Cleaning.RenameColumnFacts | src/data_preprocessing.py:182 | `rename` changes one column name and moves its cells; nothing else changes |
| Transactions.CleanTransactions | src/data_preprocessing.py:21-99 | the cleaner yields the table of the try-block sequence: no more rows than the input, labels in input order, no missing `customer_id`, no untrimmed string |
| Transactions.TransactionsKeepOrder | src/data_preprocessing.py:33-37 | the labels of the output rows are, in order, labels of the rows deduplication keeps; with no `customer_id` column they are exactly those labels |
| Transactions.TransactionsRows | src/data_preprocessing.py:36-95 | each output row comes from one deduplicated input row, at increasing positions and with that row's label; in every column that neither the time combining nor the case blocks write, its cell is the input cell stripped when the column holds text, then parsed as a date and then as a number where the column is declared so |
| Transactions.TransactionsAmount | src/data_preprocessing.py:41-73 | a declared numeric `amount_cad` that held the string `s` holds `s` stripped and parsed as a number, as for `" 10.5 "` |
| Transactions.TransactionsColumns | src/data_preprocessing.py:58-63 | the output columns are the input's, plus `transaction_datetime` only when both date and time exist |
| Transactions.TransactionsCustomerId | src/data_preprocessing.py:90-95 | with the column, no row misses `customer_id` and every row that has it is kept; without it no row is dropped |
| Transactions.TransactionsTrimmed | src/data_preprocessing.py:41-46 | no string of the cleaned table has surrounding whitespace |
| Transactions.TransactionsDates | src/data_preprocessing.py:48-54 | a declared date column holds only timestamps and missing cells, unless it is also declared numeric or is the time column |
| Transactions.TransactionsNumbers | src/data_preprocessing.py:67-73 | a declared numeric column holds only numbers and missing cells |
| Transactions.TransactionsDebitCredit | src/data_preprocessing.py:75-80 | `debit_credit` holds no string with an upper-case letter |
| Transactions.TransactionsGeography | src/data_preprocessing.py:82-88 | the geographic columns up to the first present one without text hold upper-case strings, when none of them is declared a date or numeric column |
| Transactions.TransactionsCombined | src/data_preprocessing.py:56-65 | with a declared date column and a time column of strings, the table gains `transaction_datetime`, no time is missing, and each row's combined value is its date and time combined |
| Transactions.DefaultCombined | src/data_preprocessing.py:21 | with the default arguments such a table always gains its combined column |
| Transactions.RecleaningDropsRows | src/data_preprocessing.py:37-44 | rows `" a"` and `"a"` both survive a first cleaning as equal rows, and a second cleaning drops one: cleaning is not idempotent |
| Kyc.CleanKycData | src/data_preprocessing.py:113-169 | the cleaner yields the try-block sequence's table: no more rows than the input, no missing `customer_id` |
| Kyc.KycRows | src/data_preprocessing.py:127-131 | the restored index is the first column; when `reset_index` raises, deduplication is skipped too |
| Kyc.KycCustomerId | src/data_preprocessing.py:162-165 | the drop is always attempted; an index named `customer_id` comes back as that column; without the column nothing changes |
| Kyc.KycTrimmed | src/data_preprocessing.py:133-137 | no string of the cleaned KYC table has surrounding whitespace |
| Kyc.KycDates | src/data_preprocessing.py:139-145 | `established_date` and `onboard_date` hold only timestamps and missing cells |
| Kyc.KycNumbers | src/data_preprocessing.py:147-153 | `sales` and `employee_count` hold only numbers and missing cells |
| Kyc.KycUpperCase | src/data_preprocessing.py:155-160 | the geographic and `industry_code` columns up to the first present one without text hold upper-case strings |
| Kyc.KycGeographyBeforeCode | src/data_preprocessing.py:155-160 | a numeric `industry_code`, which comes last, does not stop the upper-casing of the geographic columns |
| Kyc.CleanKycIndustryCodes | src/data_preprocessing.py:171-187 | the cleaner yields the single try block's table, one row per distinct input row |
| Kyc.IndustryCodesRows | src/data_preprocessing.py:178-186 | deduplication is the only row drop, so a row with a missing code is kept; when `reset_index` raises the deduplicated copy is returned |
| Kyc.IndustryCodesIgnoreCode | src/data_preprocessing.py:178-182 | the cleaned code table has one row per distinct set of input cells, and of two rows with equal cells the later is dropped, whatever their codes |
| Kyc.IndustryCodesText | src/data_preprocessing.py:183-184 | every string of the cleaned code table is trimmed and upper-case |
| Kyc.IndustryCodesColumn | src/data_preprocessing.py:181-182 | an unnamed index becomes the first column `industry_code`, holding each row's old label |
| InPlace.CleanBoolColumns | src/data_preprocessing.py:101-111 | the caller's table is changed and returned; it becomes the skipping loop's table |
| InPlace.BoolColumnsValues | src/data_preprocessing.py:105-110 | only listed, present, accepted columns change, each to the truth value of its old cells; rows and other columns stay |
| InPlace.BoolColumnsIdempotent | src/data_preprocessing.py:105-110 | a second bool cleaning changes no cell |
| InPlace.BoolFailsKept | src/data_preprocessing.py:108 | whether `astype(bool)` is refused depends only on the column's cells |
| InPlace.AbsCardAmounts | src/data_preprocessing.py:246-247 | `abs()` on a present `amount_cad` column rewrites it in place, or raises on a non-numeric column |
| InPlace.AbsAmountFacts | src/data_preprocessing.py:246-247 | each amount becomes non-negative with the same magnitude; missing stays missing; other columns stay |
| InPlace.AbsAmountIdempotent | src/data_preprocessing.py:247 | taking the absolute value twice is taking it once |
| InPlace.CardAmountsAfterCleaning | src/data_preprocessing.py:239-247 | on the cleaned card table `abs()` never raises, and afterwards no amount is negative |
| AnomalyDetection.AvailableFeatures | src/anomaly_detection.py:32 | the order-keeping sublist of requested features that are columns, each kept as often as it is requested; empty exactly when none is a column |
| AnomalyDetection.DefaultFeatures | src/anomaly_detection.py:27-40 | with no feature list and an `amount_cad` column the forest sees that column alone, one cell per row, and each row's score is its label; without `amount_cad` no feature is available, so the table is left unchanged |
| AnomalyDetection.DetectAnomalies | src/anomaly_detection.py:13-43 | with no available feature the table is unchanged; a raising forest raises; otherwise the caller's table becomes the scored one |
| AnomalyDetection.ScoredShape | src/anomaly_detection.py:38-40 | scoring adds or overwrites exactly `anomaly_score` and `is_anomaly`; old columns keep their order, and rows and all other cells stay |
| AnomalyDetection.ScoredFlags | src/anomaly_detection.py:39-40 | each score is the row's label, -1 or 1; `is_anomaly` is true exactly when the score is -1 |
| AnomalyDetection.DetectedFlags | src/anomaly_detection.py:37-43 | after a successful forest both columns exist, no row is dropped, and the flagged rows are exactly those labelled -1 |
| AnomalyDetection.OutputNameSegment | src/anomaly_detection.py:90 | the output name is the prefix plus the second `_`-separated piece, and only that piece |
| AnomalyDetection.CleanedFileOutputName | src/anomaly_detection.py:89-90 | `cleaned_<kind>.csv` gives `anomaly_detected_<kind>.csv` |

## Left out

- File and console I/O, logging, `save_cleaned_data`, the `read_csv` loading and `run_anomaly_detection`'s read and write: they are plumbing. A caught exception is modelled only through its effect on the table.
- The isolation forest's algorithm and the role of the contamination rate. The forest is a parameter: a deterministic labelling, one label of -1 or 1 per row, or a raise.
- The date and number grammars of `pd.to_datetime` and `pd.to_numeric`, and `strftime`. They are abstract parameters, and they are assumed never to raise, since `errors='coerce'` is given.
- `src/embeddings.py`, `src/main.py`, `src/utils.py` and `visuals/data_cleaning_visuals.py` are not part of this model. They are foreign libraries, floating point and orchestration.
- pandas dtypes are derived from the cells. A column counts as object dtype exactly when it holds a string, so an object column of only missing cells or booleans is treated as non-text. In pandas, `.str.strip()` raises on an object column that holds booleans and no strings, which ends the stripping loop there and leaves the later object columns unstripped. The model skips such a column, so Transactions.TransactionsTrimmed and Kyc.KycTrimmed hold only under this rule. Numbers are `real`, not 64-bit floats.
- Text.UpperChar: case mapping covers ASCII and those Latin-1 letters whose other case is one Latin-1 character. Letters such as `ß`, `µ` and `ÿ` are left unchanged, whereas Python maps them to `SS`, `Μ` and `Ÿ`.
- Cleaning.RenameColumn: renaming onto an existing column name is modelled as doing nothing. pandas would then hold two columns of that name, which the model does not represent.
- Frames.DropDuplicates: rows are compared on their whole cell maps. Frames.DuplicateTestIsCellwise shows this is pandas' comparison when every row holds a cell for exactly the frame's columns. The model does not prove that the steps keep rows in that shape. A row lacking a column and a row holding a missing cell there count as different, whereas pandas sees equal rows. Duplicate column names are not modelled.
- Rules.ParseNumber: a declared numeric column of booleans is not modelled. `pd.to_numeric` returns such a column unchanged, but the model hands boolean cells to the abstract parser.
- InPlace.AbsRaises: `abs()` is modelled as raising on any column that holds other than numbers and missing cells. Python's `abs` on booleans is not modelled.
- The loop over the six transaction files in the script's `__main__` is not modelled. The output-name rule is proved for every `cleaned_<kind>.csv`.
- Behaviour of the code that a reader might not expect, modelled as written:
  - cleaning is not idempotent: deduplication runs before stripping, so rows that differ only in surrounding whitespace survive a first cleaning and a second drops them (`Transactions.RecleaningDropsRows`);
  - `clean_kyc_industry_codes` drops no row with a missing code, because it drops duplicates only (`Kyc.IndustryCodesRows`);
  - a failing column loop keeps the columns it already rewrote;
  - a geographic column without text stops the upper-casing of the geographic columns after it.
