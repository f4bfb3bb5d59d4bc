# retail-data-etl: cleanData and transformData in Dafny

This project models the two decision-making functions of the retail ETL script `app/etl.py`.

- **`cleanData`** splits a table of retail transactions into a clean table and a removed table. The rules run in a fixed order:
  1. a non-positive `Quantity` is removed with error code 1;
  2. a non-positive `UnitPrice` is removed with error code 1;
  3. a null in any of the five mandatory columns (`InvoiceNo`, `StockCode`, `Quantity`, `UnitPrice`, `CustomerID`), checked in that order, is removed with code 2;
  4. a repeat of an earlier row's five-column key is removed with code 3.

  Each rule sees only the rows that survived the rules before it. A rule does anything at all only when it would remove at least one row. The removed table is the rule groups concatenated in the order the rules ran, with its index reset.
- **`transformData`** walks the column schema in order. It converts every listed column whose dtype differs from its target. The column is converted with `pd.to_datetime` and a fixed format when the target is `"datetime"`, and with `astype` otherwise.

## How it is modelled

- **Rows.** A row (`Records.Row`) holds the eight columns of the data set as `Option` fields. `None` stands for a pandas null (NaN).
- **Tables and filters.** A table is a sequence of `Entry(index, row)`: every row keeps its dataframe index label, as pandas does through boolean filtering. Filtering by a boolean mask is `Tables.Where`. Each rule has two masks: `Cleaning.RejectMask` selects the rows it removes, and `Cleaning.KeepMask` rebuilds the working frame. For the duplicate rule the keep mask is `Not` of the reject mask, since `-mask` on a boolean Series is logical not. For the null checks, `isna() == False` is the row-level test `Rules.Passes`. For the numeric rules the keep mask is `x > 0`, which is not the negation of `x <= 0` on a null cell.
- **The rule chain.** `Rules.Chain` lists the eight rules in the order the source runs them. `Cleaning.Run` folds the chain over the pair (working frame, list of removed frames). The list of removed frames starts with one empty frame, standing for the reindexed `removedDF`.
- **Comparisons with NaN.** `x <= 0` and `x > 0` are both false for a null cell (`Rules.AtMostZero`, `Rules.AboveZero`).
- **The `ErrorCode` column.** `Cleaned.errorCodeColumn` records whether the removed table has this column at all.
- **Duplicates.** `Duplicates.Duplicated` is pandas' `duplicated(keep='first')` on the five-column key. A null equals a null there.
- **Conversions.** The conversions of `transformData` are a parameter `convert`: a partial function on cells. A cell it rejects aborts the whole call, as the exception does in the source. A missing column is the `MissingColumn` error, which stands for pandas' `KeyError`. A name that two columns share is the `AmbiguousColumn` error: `dataframe[column]` then returns a frame, and its `.dtype` access fails.

### Rows that land in neither output

Every input row might be expected to land in exactly one of the two outputs. The code does not do this:
- once some row has `Quantity <= 0`, the clean table is rebuilt from `Quantity > 0`, so a row whose quantity is null lands in neither output;
- the same happens at the unit-price rule.

The model follows the code. `Vanishing.VanishedLabels` is the exact set of dropped rows, and the conservation theorems count it.

## Model

| member | source | states |
|---|---|---|
| `Tables.Where` | app/etl.py:47-50 | boolean indexing: the result holds exactly the rows whose mask is true, and no others |
| `Tables.WhereIncreasing` | app/etl.py:50-74 | boolean indexing keeps the input order, since the index labels stay strictly increasing |
| `Rules.ErrorCode` | app/etl.py:44-72 | codes are 1 for the two numeric rules, 2 for a null-check rule and 3 for duplicates |
| `Rules.FirstNullIndex` | app/etl.py:59-66 | the first mandatory column, in list order, whose cell is null; every earlier column is non-null |
| `Rules.ErrorCodeMeaning` | app/etl.py:44-72 | a row's code is read off the row: 1 iff quantity or unit price is at most zero; 2 iff not that but some mandatory cell is null; 3 iff it passes every row-level rule |
| `Rules.NanComparesFalse` | app/etl.py:45-57 | the comparisons `Rules.AtMostZero` (`x <= 0`) and `Rules.AboveZero` (`x > 0`) are complementary on a non-null cell and both false on a null one |
| `Rules.ErrorCodeMonotone` | app/etl.py:44-73 | a rule later in the chain never gives a smaller code |
| `Rules.ChargeDependsOnKey` | app/etl.py:38-39 | rows with equal keys are caught by the same rule, because every row-level rule reads only key columns; so a row whose earlier twin was rejected is rejected by the same rule, not as a duplicate |
| `Duplicates.Duplicated` | app/etl.py:69-71 | the mask is true at a row iff some earlier row has the same five-column key |
| `Duplicates.FirstOccurrencesDistinct` | app/etl.py:68-74 | dropping the marked rows leaves no key twice |
| `Duplicates.FirstOccurrenceOf` | app/etl.py:69-74 | every row's key has an unmarked first occurrence at or before it |
| `Cleaning.ApplyRule` | app/etl.py:44-74 | one rule of the chain. It has no contract of its own; `Cleaning.ApplyRuleEffect` states what one step does, and `Cleaning.PartitionInv` states what the whole chain does |
| `Cleaning.ApplyRuleEffect` | app/etl.py:45-74 | a rule appends a frame iff some row of the working frame fails its test, and otherwise changes nothing; the appended frame holds exactly the rows the reject mask selects, each tagged with the rule's code, and the new working frame holds exactly the rows the keep mask selects |
| `Cleaning.Concat` | app/etl.py:76 | `pd.concat(removedFrames)`. It has no contract of its own; see `Cleaning.ConcatSplit` and `Cleaning.ConcatMembers` |
| `Cleaning.ConcatSplit` | app/etl.py:76 | each frame appears whole, in list order: the concatenation is the frames before frame i, then frame i itself, then the frames after it |
| `Cleaning.ConcatMembers` | app/etl.py:76 | the concatenation holds every row of every removed frame and nothing else |
| `Cleaning.ResetIndex` | app/etl.py:76 | `reset_index(drop=True)`. It has no contract beyond its own definition; its effect on the removed table is stated by `CleaningTheorems.RemovedCarriesFirstRule`, `CleaningTheorems.RemovedInRuleOrder` and `CleaningTheorems.RowConservation` |
| `Cleaning.CleanData` | app/etl.py:36-78 | cleanData itself. It has no contract of its own; its meaning is given by the `CleaningTheorems` rows below and by `Vanishing.LostIsVanished` |
| `Cleaning.PartitionInv` | app/etl.py:36-76 | after the whole chain, the invariant holds: (1) the clean frame is drawn from the input in order, with distinct keys; (2) every removed row is an input row under its own label, coded by the first rule it breaks, in rule order; (3) clean, removed and dropped labels partition the input labels |
| `Vanishing.LostIsVanished` | app/etl.py:44-57 | the rows the chain drops are exactly these two groups: null-quantity rows once the quantity rule fires, and null-price rows among the survivors once the price rule fires |
| `CleaningTheorems.CleanIsValidSelection` | app/etl.py:44-74 | the clean output is an order-preserving selection of input rows; every row has positive quantity and price and no mandatory null; no key occurs twice |
| `CleaningTheorems.CleanLabels` | app/etl.py:44-74 | an input row is in the clean output iff it passes every rule and no earlier input row has its key |
| `CleaningTheorems.CleanMatchesReference` | app/etl.py:40-78 | the clean output equals one filter over the input (valid rows that are first of their key), independent of the chain |
| `CleaningTheorems.RemovedCarriesFirstRule` | app/etl.py:42-76 | each removed row is an input row; its code is that of the first rule it breaks; a code-3 row has an earlier input row with its key |
| `CleaningTheorems.RemovedInRuleOrder` | app/etl.py:42-76 | the removed rows come grouped by rule in chain order, with input order inside each group; codes never decrease down the removed table |
| `CleaningTheorems.RemovedLabelsDistinct` | app/etl.py:44-76 | no input row is removed twice |
| `CleaningTheorems.ErrorCodeColumnIffRemoved` | app/etl.py:41-76 | the removed table has an `ErrorCode` column iff it has at least one row |
| `CleaningTheorems.EveryRowAccountedOnce` | app/etl.py:40-76 | clean, removed and dropped labels are pairwise disjoint, and together they are all input labels |
| `CleaningTheorems.RowConservation` | app/etl.py:40-78 | clean rows + removed rows + dropped rows = input rows |
| `CleaningTheorems.ConservationWithoutNullNumbers` | app/etl.py:44-57 | with no null quantity or price, or no non-positive quantity or price, nothing is dropped and clean + removed = input |
| `CleaningTheorems.NothingToReject` | app/etl.py:40-78 | nothing is removed or dropped iff every row is valid with a distinct key; then the clean output is the input and the removed table is empty without an `ErrorCode` column |
| `CleaningTheorems.EmptyInput` | app/etl.py:36-78 | an empty input gives two empty outputs |
| `Transform.ParseDType` | app/etl.py:87 | a name parses to the dtype of that name, and to nothing when no dtype has that name |
| `Transform.ConvertCells` | app/etl.py:85-87 | a column converts iff every cell converts; on success each result cell is the conversion of the cell at the same position |
| `Transform.ConvertSeries` | app/etl.py:82-87 | a column already of the target type is returned unchanged; otherwise an unknown type name, a failed cell or a converted column of the produced dtype, with name and length kept |
| `Transform.ColumnIndex` | app/etl.py:82 | `dataframe[column]` as a single column: the one column of that name; a missing-column error iff no column has the name; an ambiguous-column error iff two columns share it |
| `Transform.TransformData` | app/etl.py:80-89 | transformData as a fold over the schema. It has no contract of its own; the `Transform` lemma rows below state its meaning, and `Transform.TransformInPlace` ties it to the loop |
| `Transform.TransformInPlace` | app/etl.py:80-89 | the in-place loop computes the same result as the schema fold |
| `Transform.TransformShape` | app/etl.py:80-89 | on success, no column is added, dropped or reordered, and no column changes its name or row count |
| `Transform.UnlistedUntouched` | app/etl.py:81-89 | a column the schema does not list comes back unchanged |
| `Transform.AlreadyTypedUntouched` | app/etl.py:82 | a listed column whose dtype already has the target's name comes back unchanged |
| `Transform.ListedColumnConverted` | app/etl.py:82-87 | a listed column comes back under its name, with the dtype the target names |
| `Transform.SharedNameFails` | app/etl.py:81-82 | a first schema entry whose name two columns share ends the call with an ambiguous-column error |
| `Transform.ListedNamesUnique` | app/etl.py:81-82 | after a success, every listed name was the name of exactly one column |
| `Transform.MissingColumnFails` | app/etl.py:81-82 | a schema entry naming an absent column makes the call fail, and a missing-column error names a listed column that is absent |
| `Transform.TransformIsColumnwise` | app/etl.py:80-89 | with distinct names, the call succeeds iff every listed column is present and every column converts on its own; each output column is then its own column's conversion |
| `Transform.NoDTypeNamedDatetime` | app/etl.py:82-85 | no dtype is named `"datetime"`, so the dtype test never skips a `"datetime"` column |
| `Transform.SecondPassIdentity` | app/etl.py:80-89 | running the schema again on a successful result changes nothing, when the schema has no `"datetime"` target or the date parse returns each date it produced unchanged |
| `Transform.DataTypesSecondPass` | app/etl.py:7-16 | the same for the program's own schema, which has a `"datetime"` target, given a date parse that returns its own output unchanged |
| `Transform.DataTypesSchema` | app/etl.py:7-16 | the retail schema names each column once, and each target names a known conversion |
| `Transform.DateColumnAlwaysConverted` | app/etl.py:84-85 | `InvoiceDate` has target `"datetime"`; when the date parse accepts each cell of the column, converting it succeeds with a `datetime64[ns]` column whose cells are the parsed cells |
| `Scenarios.SingleRow` | app/etl.py:44-76 | a lone row is either kept under label 0, or removed with the code of the first rule it breaks; it is never dropped |
| `Scenarios.NegativeQuantityRemoved` | app/etl.py:45-49 | a row with quantity -5 is removed with code 1 |
| `Scenarios.MissingCustomerRemoved` | app/etl.py:59-65 | a row with a null customer id is removed with code 2 |
| `Scenarios.QuantityBeatsMissingValue` | app/etl.py:44-66 | a row with quantity 0 and a null customer id is removed with code 1, not 2 |
| `Scenarios.DuplicateRemoved` | app/etl.py:68-74 | of two rows with the same key, the first is kept and the second is removed with code 3 |
| `Scenarios.NullQuantityVanishes` | app/etl.py:45-50 | given a row with quantity -1 followed by a row with a null quantity, the second row is in neither output |

## Left out

- `loadData`, `saveDataToFile` and `main` are left out. They are CSV file I/O with fixed paths and an encoding.
- Logging calls are left out. They are observational and never change control flow.
- The unused `pyspark` import is left out.
- The internals of pandas `astype` and `pd.to_datetime` are the parameter `convert`. Dtype inference is not modelled: a column's dtype is whatever its `Series` carries.
- `Transform.ParseDType`: the dtype universe is closed to five dtypes (`float64`, `int64`, `object`, `string`, `datetime64[ns]`). Any other name `astype` accepts, such as `"int32"` or `"category"`, is modelled as an unknown-type failure; the program's own schema uses only `float64`, `string` and `"datetime"`.
- The dtype test `columnTypes[column] != dataframe[column].dtype` is modelled as a comparison with the dtype's name. pandas' looser equality between dtype objects and strings is not modelled.
- Cell values of the `Series` that `transformData` receives are not tied to the `Row` records of `cleanData`. The step from one representation to the other is not modelled.
- `Transform.TransformData`: on failure the model returns only the error. The columns the source had already rewritten in place before the exception are not modelled.
- `Transform.SecondPassIdentity` assumes, for a schema with a `"datetime"` target, that the date parse returns each date it produced unchanged. That is a property of `pd.to_datetime` on a `datetime64` column, which the model does not define.
- Parsing a date string such as `"01-12-2010 08:26"` with the format `%d-%m-%Y %H:%M` is not modelled: it lives inside `convert`, and only the format constant is.
- IEEE float64 arithmetic is left out. Quantities and prices are `real`, and NaN is `None`. Only "a comparison with NaN is false" is modelled.
- A missing `Quantity`, `UnitPrice` or mandatory column in `cleanData` (pandas `KeyError` or `AttributeError`) cannot arise: a row always has all eight fields.
- pandas' `SettingWithCopy` aliasing on the slices that receive the `ErrorCode` column is not modelled. Each removed group is a fresh value here.
- The index of the clean output is kept, since the source does not reset it. The removed output's index is dropped and rebuilt as 0..n-1, so only row and code are kept.
