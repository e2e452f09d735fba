# Prison COVID-19 distancing policies: wrangling model

This project is a Dafny model of `exploratory_analysis/distance_policy_wrangle.py`.
That module turns a table of state prison COVID-19 social-distancing policies into
indicator (dummy) columns with integer values 0 and 1. The model covers its four
stages:

- **Header clean-up**: the renaming passes and the date/time column test of
  `import_clean_data`. Header names are lower-cased, stripped of `?` at both ends,
  and their spaces are turned into `_`. Columns whose name contains `date` or `time`
  are picked for date coercion.
- **Marker columns** (`transform_easy_cols`): columns that mark "yes" with an X
  become 0/1 columns under new names.
  - Missing cells become `"0"`.
  - Cells mentioning "exploring" are forced to `"0"`.
  - Then cells mentioning an x are set to `"1"`.
  - Finally the column is converted to int.
- **Keyword encoder** (`encode_policies_str`): missing policy summaries are filled
  with `"0"` in the summary column itself. Then each category of `POLICIES_KEYWORDS`
  gets a dummy column. The dummy is 1 where the summary mentions one of the
  category's keywords, ignoring case.
- **Projection** (`select_columns`): a copy of the table, restricted to the
  requested columns in the requested order.

## How the table is modelled

- **Cells**: a cell is `Missing`, text (`Str`) or a number (`Int`) (`Frames.Cell`).
- **Frames**: a table value, `Frames.Frame`, holds three things:
  - the column order;
  - a map from column name to cells;
  - the row count.

  `WellFormed` says the column names are distinct, the map has exactly those
  columns, and every column has one cell per row.
- **The shared table**: the pandas DataFrame that the stages update in place is
  the class `Frames.Table`.
  - `Table.SetColumn` is `df[name] = cells`: an existing column is replaced where
    it stands, a new one is appended.
  - `Table.Copy()` is `df.copy()`.
- **Stages and their mirror functions**: each in-place stage is a method with the
  source's loops.
  - Each method is proved equal to a pure function that follows the same steps:
    `Markers.EasyCols`, `Keywords.Encode`.
  - That function also gives the table as the raising line leaves it when a
    stage fails.
  - Lemmas then state what these functions mean, cell by cell.
- **Errors**: the exceptions that escape are values of `Errors.Error`.
  - `KeyError`: a missing column.
  - `IndexError`: `new_cols[idx]` past the end of the list.
  - `NotString`: `.str.contains` hit a cell that is not text. pandas raises on the
    NaN mask that results, or on the `.str` accessor of a numeric column.
  - `NotInteger`: `astype(int)` could not convert a cell.
- **Text matching**: `.str.contains(p, flags=re.IGNORECASE, regex=True)` is
  modelled as ASCII case-insensitive substring search. Every pattern the module
  uses has no regex metacharacter. The `-` in `co-pay` is literal outside a
  character class.
- **Integer conversion**: `astype(int)` on text is modelled as Python's `int()`
  followed by the `int64` range check.
  - `int()` strips the ASCII whitespace `\t \n \v \f \r` and space at both
    ends, and the non-ASCII characters that `str.isspace` accepts. The ASCII
    separators U+001C to U+001F are not stripped, so `"\x1c1"` does not convert
    (`Integers.ParseRejectsSeparator`).
  - It accepts an optional sign, then ASCII digits.
  - A single `_` may separate two digits.

## Behaviour of the code worth knowing

- **Stripping `?`**: `str.strip("?")` (line 36) removes `?` from both ends of a
  header.
- **Whitespace in headers**: headers are not trimmed of whitespace. Only the
  space character is replaced by `_` (line 37).
- **Order of the renaming passes**: the last two passes commute.
  `Headers.StripReplaceCommute` proves that stripping `?` before or after
  replacing spaces gives the same name.
- **"exploring" cells**: such a cell always ends up as 0. The X test at line 68
  reads the column after line 66 has already overwritten these cells with `"0"`.
  `Markers.ExploringMentionsMark` proves that every "exploring" cell also
  contains an x, yet reads as 0.
- **Values other than 0 and 1**: the docstring of `transform_easy_cols`
  (lines 50-51) says that the new columns hold 1 and 0. A text cell without a
  marker is converted as it stands, though, so a cell `"2"` becomes 2
  (`Markers.NumeralKept`, `Markers.NumeralColumnKept`). A new column is a 0/1
  column exactly when every such cell reads as 0 or 1
  (`Markers.EasyStepBinary`).
- **List lengths**: `features` and `new_cols` are not checked against each other.
  - Extra new names are ignored.
  - A shorter `new_cols` raises `IndexError` at the first pair without a name.
  - The pairs before that have already been written to the table.
- **`new_dummies`**: `encode_policies_str` never reads its `new_dummies`
  argument. See Findings.

## Model

The module's literal values are constants of the model. The lemmas that state
their properties are listed in the table below.

- `Keywords.PoliciesKeywords` is `POLICIES_KEYWORDS` (lines 12-15): the four
  categories with their keywords, in the dictionary's order. Covered by
  `Keywords.PoliciesShape` and `Keywords.MasksNotAPolicy`.
- `Projection.FinalFeatures` is `FINAL_FEATURES` (lines 17-19): the ten default
  column names, in order. Covered by `Projection.FinalFeaturesDistinct`.
- `Markers.Exploring` and `Markers.Mark` are the patterns `'exploring'` and
  `'X'` (lines 66 and 68). Covered by `Markers.FillerIsInert` and
  `Markers.ExploringMentionsMark`.


| member | source | states |
|---|---|---|
| Text.Contains | exploratory_analysis/distance_policy_wrangle.py:40-43 | `p in s` as a scan of the starting positions; no contract of its own, its meaning is `Text.ContainsIffOccurs` |
| Text.ContainsIgnoreCase | exploratory_analysis/distance_policy_wrangle.py:66-69 | `str.contains(p, flags=re.IGNORECASE)` on one cell as substring search of the lower-cased texts; no contract of its own, see `Text.ContainsIgnoreCaseOfLower` |
| Text.Lower | exploratory_analysis/distance_policy_wrangle.py:35 | lower-casing keeps the length and lower-cases each character on its own, ASCII letters only |
| Text.ContainsIffOccurs | exploratory_analysis/distance_policy_wrangle.py:40-42 | the substring scan used for `in` finds a pattern exactly when it occurs at some position |
| Text.ShortNeverContains | exploratory_analysis/distance_policy_wrangle.py:66-69 | a text shorter than a pattern never contains it |
| Text.AbsentCharNeverContains | exploratory_analysis/distance_policy_wrangle.py:66-69 | a pattern that has a character the text lacks never matches |
| Text.ContainsIgnoreCaseOfLower | exploratory_analysis/distance_policy_wrangle.py:66-69 | case-insensitive matching gives the same answer when either side is lower-cased first |
| Text.LowerIdempotent | exploratory_analysis/distance_policy_wrangle.py:35 | lower-casing twice is lower-casing once |
| Trim.StripStart | exploratory_analysis/distance_policy_wrangle.py:36 | the result is a suffix of the input; every character dropped is in the strip set; the result does not start with one |
| Trim.StripEnd | exploratory_analysis/distance_policy_wrangle.py:36 | the result is a prefix of the input; every character dropped is in the strip set; the result does not end with one |
| Trim.Strip | exploratory_analysis/distance_policy_wrangle.py:36 | the result is a contiguous slice of the input; only characters of the strip set are dropped at either end; neither end of the result is one of them |
| Headers.ReplaceChar | exploratory_analysis/distance_policy_wrangle.py:37 | the length is kept; a space becomes `_` and every other character is unchanged |
| Headers.NormalizeHeader | exploratory_analysis/distance_policy_wrangle.py:35-37 | a renamed header has no capital letter and no space, and begins and ends with no `?`; it is never longer than the raw header |
| Headers.NormalizeClean | exploratory_analysis/distance_policy_wrangle.py:35-37 | a header that is already lower-case, has no space and no `?` at either end is left as it is |
| Headers.NormalizeIdempotent | exploratory_analysis/distance_policy_wrangle.py:35-37 | renaming a renamed header changes nothing |
| Headers.StripReplaceCommute | exploratory_analysis/distance_policy_wrangle.py:36-37 | stripping `?` and replacing spaces commute |
| Headers.IsTemporal | exploratory_analysis/distance_policy_wrangle.py:40-43 | the loop test: the name contains `date` or `time`; no contract of its own |
| Headers.Coercions | exploratory_analysis/distance_policy_wrangle.py:39-43 | the names passed to `pd.to_datetime`, in call order, a name with both words twice; no contract of its own, see `Headers.CoercionsAreTemporal` |
| Headers.CoercionsAreTemporal | exploratory_analysis/distance_policy_wrangle.py:39-43 | a column is passed to the date conversion exactly when its name contains `date` or `time` |
| Headers.CoercedColumns | exploratory_analysis/distance_policy_wrangle.py:39-43 | the loop collects the columns in call order, a name holding both words twice |
| Headers.ImportCleanData | exploratory_analysis/distance_policy_wrangle.py:35-43 | after the three passes each header is the renamed raw header; the coerced columns are exactly the temporal ones, in loop order |
| Integers.ParseInt | exploratory_analysis/distance_policy_wrangle.py:70 | a successful conversion gives a value in the `int64` range |
| Integers.ShowNat | exploratory_analysis/distance_policy_wrangle.py:70 | the decimal form of a natural number is a numeral of plain digits whose value is that number |
| Integers.ParseShow | exploratory_analysis/distance_policy_wrangle.py:70 | converting the decimal form of any `int64` value gives back that value |
| Integers.ParseFlags | exploratory_analysis/distance_policy_wrangle.py:70 | the strings `"0"` and `"1"` convert to 0 and 1 |
| Integers.ParseRejectsStrayChar | exploratory_analysis/distance_policy_wrangle.py:70 | a character other than whitespace, a sign, a digit or `_` makes the conversion fail |
| Integers.ParseRejectsSeparator | exploratory_analysis/distance_policy_wrangle.py:70 | `"\x1c1"` does not convert: the separator U+001C is not whitespace to `int()` |
| Frames.Frame.With | exploratory_analysis/distance_policy_wrangle.py:64 | an assignment replaces the named column's cells; an existing column keeps its place; a new one is appended; the row count is kept, and so is well-formedness when the new column has one cell per row |
| Frames.WithTwice | exploratory_analysis/distance_policy_wrangle.py:64-70 | assigning a column twice keeps only the second value |
| Frames.WithSame | exploratory_analysis/distance_policy_wrangle.py:64-70 | writing a column's own cells back leaves the table unchanged |
| Frames.FillMissing | exploratory_analysis/distance_policy_wrangle.py:65 | `fillna`: the column keeps its length, no cell is missing afterwards, and every cell that was present is unchanged |
| Frames.Matches | exploratory_analysis/distance_policy_wrangle.py:66-68 | `.str.contains` as a row mask: a mask exists exactly when every cell is text, and then has one entry per row |
| Frames.Overwrite | exploratory_analysis/distance_policy_wrangle.py:66-69 | `df.loc[mask, column] = value`: the column keeps its length and each cell is either the value or what it was |
| Frames.Constant | exploratory_analysis/distance_policy_wrangle.py:94 | `df[column] = "0"`: the same value in every row; no contract of its own |
| Frames.CellInt | exploratory_analysis/distance_policy_wrangle.py:70 | one cell of `astype(int)`: a missing cell does not convert, and a converted value is in the `int64` range |
| Frames.ParseColumn | exploratory_analysis/distance_policy_wrangle.py:70 | `astype(int)`: converts exactly when every cell converts, and then gives one `int64` cell per row |
| Frames.Table.Copy | exploratory_analysis/distance_policy_wrangle.py:117 | `df.copy()`: the table's contents as a value that later updates do not reach; no contract of its own |
| Frames.Table.SetColumn | exploratory_analysis/distance_policy_wrangle.py:64 | the shared table stays well formed and becomes the old contents with the column assigned |
| Markers.EasyColumn | exploratory_analysis/distance_policy_wrangle.py:65-70 | the steps on one new column keep one cell per row whichever way they end, and can fail only with a failed text match or a failed conversion, both naming the new column |
| Markers.EasyStep | exploratory_analysis/distance_policy_wrangle.py:63-70 | one pair keeps the row count and the existing columns in place, adds at most the new name, and leaves every other column unchanged, also when it fails |
| Markers.EasyCols | exploratory_analysis/distance_policy_wrangle.py:62-72 | the loop over the pairs, stopping at the first failure and keeping the table the failing line left; no contract of its own, see `Markers.EasyColsMeaning` |
| Markers.MarkerValue | exploratory_analysis/distance_policy_wrangle.py:65-70 | the reading of one cell; a value it gives is in the `int64` range; its meaning is `Markers.StagedCell` |
| Markers.TransformEasyCols | exploratory_analysis/distance_policy_wrangle.py:48-72 | the loop leaves the table and the outcome that `EasyCols` describes, failed pairs included |
| Markers.TransformPair | exploratory_analysis/distance_policy_wrangle.py:63-70 | one pass of the loop leaves the table and the outcome that `EasyStep` describes |
| Markers.FillerIsInert | exploratory_analysis/distance_policy_wrangle.py:65-68 | the filler `"0"` matches neither pattern, `Markers.Exploring` nor `Markers.Mark` |
| Markers.StagedCell | exploratory_analysis/distance_policy_wrangle.py:65-70 | following one text or missing cell through fill, exploring overwrite, X overwrite and conversion gives `MarkerValue`: missing → 0, exploring → 0, other x → 1, else its integer value |
| Markers.MarkerFlags | exploratory_analysis/distance_policy_wrangle.py:65-70 | the cells `"0"` and `"1"` read as 0 and 1 |
| Markers.FlagsReadBack | exploratory_analysis/distance_policy_wrangle.py:65-70 | a column holding only `"0"` and `"1"` goes through the steps and comes out as the same flags as integers, so re-running on 0/1 input changes nothing |
| Markers.NumeralKept | exploratory_analysis/distance_policy_wrangle.py:65-70 | a cell `"2"` reads as 2, against the 1-and-0 promise of lines 50-51 |
| Markers.NumeralColumnKept | exploratory_analysis/distance_policy_wrangle.py:65-70 | the column `["2"]` becomes `[2]` and the steps succeed |
| Markers.MarkerIntsBinary | exploratory_analysis/distance_policy_wrangle.py:65-70 | the reading of a column is all 0 and 1 exactly when every text cell without a marker reads as 0 or 1 |
| Markers.EasyStepBinary | exploratory_analysis/distance_policy_wrangle.py:63-70 | a successful pair writes a 0/1 column exactly when every source cell without a marker is missing or reads as 0 or 1 |
| Markers.FlaggedCells | exploratory_analysis/distance_policy_wrangle.py:65-70 | on a column without numeric cells, the text left before the conversion converts cell by cell as `MarkerValue` says |
| Markers.EasyColumnMeaning | exploratory_analysis/distance_policy_wrangle.py:65-70 | the column steps succeed exactly when every cell reads as a marker, and the column then holds those readings |
| Markers.EasyStepMeaning | exploratory_analysis/distance_policy_wrangle.py:63-70 | a pair succeeds exactly when its source column exists and all its cells read as markers; the only change is then the new column, which holds those readings |
| Markers.EasyColsStep | exploratory_analysis/distance_policy_wrangle.py:62-70 | the loop tries pair `i`; it stops at its failure or goes on from the changed table |
| Markers.PairsReadyAfterStep | exploratory_analysis/distance_policy_wrangle.py:62-64 | adding one pair's new column leaves the later source columns, and so their readiness, unchanged when names do not overlap |
| Markers.EasyColsAdvance | exploratory_analysis/distance_policy_wrangle.py:62-70 | a ready pair adds its column of readings and the loop continues |
| Markers.EasyColsStops | exploratory_analysis/distance_policy_wrangle.py:62-70 | a pair that is not ready, or that has no new name, ends the loop with a failure |
| Markers.EasyColsSucceeds | exploratory_analysis/distance_policy_wrangle.py:62-72 | when no new name is written twice or read as a source, the loop succeeds exactly when every pair has a new name, an existing source column and cells that all read as markers |
| Markers.EasyColsResult | exploratory_analysis/distance_policy_wrangle.py:62-72 | after a successful loop each new column holds the readings of its own source column; rows are unchanged; the columns are the old ones followed by the new names not already present, in pair order; the table has no other column; every old column that is not a new name is unchanged |
| Markers.EasyColsDoneStep | exploratory_analysis/distance_policy_wrangle.py:62-72 | the description of a finished loop from pair `i + 1` extends to pair `i` |
| Markers.EasyColsMeaning | exploratory_analysis/distance_policy_wrangle.py:62-72 | the whole loop: success exactly when every pair is ready, and then the table described above |
| Markers.ExploringMentionsMark | exploratory_analysis/distance_policy_wrangle.py:66-69 | every cell mentioning "exploring" also mentions an x, and still reads as 0 |
| Markers.LeftoverTextFails | exploratory_analysis/distance_policy_wrangle.py:70 | a text cell with neither marker and no integer value makes the pair fail |
| Markers.TextColumnFailsAtConversion | exploratory_analysis/distance_policy_wrangle.py:66-70 | with no numeric cell in the source, the pair either succeeds or fails only at `astype(int)` |
| Markers.NumericCellFails | exploratory_analysis/distance_policy_wrangle.py:66-67 | a numeric cell in the source makes the pair fail at the first text match |
| Markers.EasyStepKeepsShape | exploratory_analysis/distance_policy_wrangle.py:63-70 | each pair keeps the table well formed with the same row count and existing columns in place, also when it fails |
| Markers.EasyColsKeepsShape | exploratory_analysis/distance_policy_wrangle.py:62-72 | so does the whole loop |
| Markers.EasyColsShortNames | exploratory_analysis/distance_policy_wrangle.py:62-63 | when `new_cols` is shorter than `features` and the named pairs are ready, the loop fails with `IndexError` at the first pair without a name |
| Keywords.AnyKeyword | exploratory_analysis/distance_policy_wrangle.py:95-97 | a summary mentions one of the keywords, ignoring case; no contract of its own, see `Keywords.AnyKeywordIff` |
| Keywords.Flagged | exploratory_analysis/distance_policy_wrangle.py:95-97 | the dummy after the keyword overwrites keeps its length; its meaning is `Keywords.KeywordsFromDone` |
| Keywords.Dummy | exploratory_analysis/distance_policy_wrangle.py:94-98 | the finished dummy has one cell per summary row and every cell is 0 or 1 |
| Keywords.Categories | exploratory_analysis/distance_policy_wrangle.py:93-98 | the loop over the categories, stopping at the first failure; no contract of its own, see `Keywords.CategoriesSucceed` and `Keywords.CategoriesResult` |
| Keywords.Encode | exploratory_analysis/distance_policy_wrangle.py:91-98 | the fill and the loop over a list of categories; no contract of its own, see `Keywords.EncodeMeaning` |
| Keywords.KeywordsFrom | exploratory_analysis/distance_policy_wrangle.py:95-97 | the keyword loop keeps the table's columns and row count |
| Keywords.CategoryStep | exploratory_analysis/distance_policy_wrangle.py:94-98 | a category keeps the row count and the summary column, and adds only its own dummy column |
| Keywords.EncodePoliciesStr | exploratory_analysis/distance_policy_wrangle.py:75-100 | the table and outcome are those of `Encode` over `POLICIES_KEYWORDS`, whatever `new_dummies` holds |
| Keywords.EncodeWith | exploratory_analysis/distance_policy_wrangle.py:91-100 | the fill and the outer loop leave the table and outcome that `Encode` describes |
| Keywords.EncodeCategory | exploratory_analysis/distance_policy_wrangle.py:94-98 | one pass of the outer loop leaves what `CategoryStep` describes |
| Keywords.FlagKeywords | exploratory_analysis/distance_policy_wrangle.py:95-97 | the inner loop leaves what `KeywordsFrom` describes |
| Keywords.AnyKeywordIff | exploratory_analysis/distance_policy_wrangle.py:95-97 | a row is flagged exactly when some keyword of the category matches; several matches give the same flag as one |
| Keywords.FlaggedStep | exploratory_analysis/distance_policy_wrangle.py:95-97 | one keyword's overwrite followed by the later keywords' overwrites is the overwrite for all of them |
| Keywords.FlaggedNone | exploratory_analysis/distance_policy_wrangle.py:95-97 | with no keywords the dummy is unchanged |
| Keywords.KeywordsFromDone | exploratory_analysis/distance_policy_wrangle.py:95-97 | on an all-text summary column the keyword loop succeeds and sets `"1"` exactly in the rows mentioning a keyword, leaving the other rows as they were |
| Keywords.FlagCell | exploratory_analysis/distance_policy_wrangle.py:98 | a flag cell `"1"` or `"0"` converts to 1 or 0 |
| Keywords.ParseDummy | exploratory_analysis/distance_policy_wrangle.py:94-98 | the `"0"`-initialised, flagged column converts to the 0/1 dummy |
| Keywords.CategoryStepMeaning | exploratory_analysis/distance_policy_wrangle.py:94-98 | a category succeeds exactly when the summary is all text or it has no keywords, and then adds its dummy; otherwise the text match on the summary fails |
| Keywords.CategoriesAdvance | exploratory_analysis/distance_policy_wrangle.py:93-98 | a searchable category adds its dummy and the loop continues |
| Keywords.CategoriesStops | exploratory_analysis/distance_policy_wrangle.py:93-98 | a category that cannot be searched ends the loop with a failed text match |
| Keywords.CategoriesSucceed | exploratory_analysis/distance_policy_wrangle.py:93-98 | with distinct dummy names apart from the summary, the loop succeeds exactly when every category is searchable, and otherwise fails on the summary column |
| Keywords.CategoriesResult | exploratory_analysis/distance_policy_wrangle.py:93-98 | after a successful loop each dummy is computed from the summary alone; rows and existing columns are kept; every other column is unchanged |
| Keywords.CategoriesDoneStep | exploratory_analysis/distance_policy_wrangle.py:93-98 | the description of a finished loop from category `i + 1` extends to category `i` |
| Keywords.CategoriesColumns | exploratory_analysis/distance_policy_wrangle.py:93-98 | the loop adds no column but the categories' dummies |
| Keywords.FilledIsText | exploratory_analysis/distance_policy_wrangle.py:91 | after filling missing summaries with `"0"`, the column is all text exactly when no cell was numeric |
| Keywords.EncodeMeaning | exploratory_analysis/distance_policy_wrangle.py:91-98 | a missing summary column is a key error; otherwise success exactly when each category is searchable on the filled summaries, with every dummy then computed from them |
| Keywords.FillerMatchesNothing | exploratory_analysis/distance_policy_wrangle.py:91-97 | the filler `"0"` matches no keyword of two or more characters |
| Keywords.DummyOfFilled | exploratory_analysis/distance_policy_wrangle.py:91-98 | when the filler matches no keyword, a dummy over the filled summaries equals the dummy over the original cells, missing ones counting as 0 |
| Keywords.PoliciesShape | exploratory_analysis/distance_policy_wrangle.py:12-15 | `Keywords.PoliciesKeywords` has four categories with distinct names, at least one keyword each, and every keyword at least two characters long |
| Keywords.PoliciesSearchable | exploratory_analysis/distance_policy_wrangle.py:12-15 | every category of the table can be computed exactly when the summary is all text |
| Keywords.PoliciesDummiesOfFilled | exploratory_analysis/distance_policy_wrangle.py:91-98 | a missing summary gives 0 in every policy dummy |
| Keywords.EncodePoliciesSucceeds | exploratory_analysis/distance_policy_wrangle.py:75-100 | when the summary column is not a dummy name, the encoder succeeds exactly when the summary column exists and holds no numeric cell; it can fail only with a key error or a failed text match on the summary |
| Keywords.EncodeResult | exploratory_analysis/distance_policy_wrangle.py:91-98 | for any categories the filler cannot match, a successful run leaves the filled summary, each dummy computed from the original summaries, and every other column unchanged |
| Keywords.EncodePoliciesResult | exploratory_analysis/distance_policy_wrangle.py:75-100 | after success the summary column holds the filled text, each dummy is 1 exactly where the original summary mentions one of its keywords (0 for missing), and every other column is unchanged |
| Keywords.MasksNotAPolicy | exploratory_analysis/distance_policy_wrangle.py:12-15 | `masks` is not one of the policy categories |
| Keywords.IgnoresNewDummies | exploratory_analysis/distance_policy_wrangle.py:75-100 | the encoder as written creates no column for a category outside `POLICIES_KEYWORDS` |
| Keywords.UsesGivenDummies | exploratory_analysis/distance_policy_wrangle.py:93-98 | the encoder driven by the list it is given creates that category's column |
| Projection.SelectColumns | exploratory_analysis/distance_policy_wrangle.py:117-121 | `df.copy()[features]`; no contract of its own, its meaning is `Projection.SelectColumnsMeaning` |
| Projection.Absent | exploratory_analysis/distance_policy_wrangle.py:119 | lists exactly the requested columns that the table lacks |
| Projection.SelectColumnsOf | exploratory_analysis/distance_policy_wrangle.py:117-121 | the projection reads the table without changing it and returns `SelectColumns` of its contents |
| Projection.SelectColumnsMeaning | exploratory_analysis/distance_policy_wrangle.py:117-121 | failure exactly when a requested column is absent, as a key error naming one; otherwise the columns are exactly those requested, in order, each with its cells and the same row count, well formed when none is requested twice |
| Projection.SelectTwice | exploratory_analysis/distance_policy_wrangle.py:119 | projecting a projection onto some of its columns is one projection |
| Projection.FinalFeaturesDistinct | exploratory_analysis/distance_policy_wrangle.py:17-19 | `Projection.FinalFeatures` names ten distinct columns |
| Projection.FinalFeaturesProjection | exploratory_analysis/distance_policy_wrangle.py:103-121 | a well-formed table holding every default column projects to a well-formed table of exactly those columns in that order |

## Left out

- `pd.read_csv` (line 34) is file I/O. `ImportCleanData` takes the raw header row as input and models the renaming and the column test only.
- `pd.to_datetime` (lines 41 and 43) is date parsing in a foreign library. The model returns the list of columns it would be called on, in call order.
- Regular expressions are not modelled in general, and nor is Unicode case folding. Matching is ASCII case-insensitive substring search, which is all that the module's literal patterns need.
- Integers.ParseInt: does not accept the non-ASCII Unicode digits that Python's `int()` also reads. The int64 bound stands in for numpy's overflow error.
- pandas dtype inference is not modelled. A numeric column is a column of `Int` cells, and an empty CSV field is `Missing`.
- The view-versus-copy behaviour of chained `inplace=True` calls is not modelled. `fillna` on `df[feature]` (lines 65 and 91) is taken to update the table, as it does in the pandas versions the code was written for.
- Projection.SelectColumns: names only the first absent column in its `KeyError`. pandas lists every missing label in the message, and the error text is not modelled.
- Duplicate column names cannot be represented in a `Frame`. A projection that requests a column twice gives a frame that lists it twice over one entry of the map, and that frame is not well formed.
- Markers.EasyColsMeaning: assumes no new name is also a source column or another pair's new name. `Markers.EasyColsSucceeds`, `Markers.EasyColsResult` and `Markers.EasyColsShortNames` make the same assumption. The function `EasyCols` handles those cases, but the lemmas do not describe them.
- Keywords.EncodePoliciesResult: assumes the summary column is not itself one of the dummy names, and so does `Keywords.EncodePoliciesSucceeds`. Two more assumptions sit in other lemmas. `Keywords.KeywordsFromDone` and `Keywords.CategoryStepMeaning` assume that a category's dummy is not the summary column. `Keywords.CategoriesSucceed`, `Keywords.CategoriesResult`, `Keywords.EncodeMeaning` and `Keywords.EncodeResult` assume that the dummy names are distinct from each other and from the summary column. The function `Encode` handles those cases, but the lemmas do not describe them.

## Findings

| source | as written | input that shows it | evidently intended | confidence | as-written member | corrected member |
|---|---|---|---|---|---|---|
| exploratory_analysis/distance_policy_wrangle.py:93 | the loop iterates the module constant `POLICIES_KEYWORDS`, so the `new_dummies` argument of `encode_policies_str` (line 75) is never read | `new_dummies` with one category `masks` keyed by `mask` on a table without a `masks` column: no `masks` column is created | iterate `new_dummies`, whose default is the constant | medium, not executed | Keywords.IgnoresNewDummies | Keywords.UsesGivenDummies |

`Keywords.EncodePoliciesStr` keeps the behaviour as written. `Keywords.EncodeWith` is the encoder driven by the list it is given. Its meaning is proved by `Keywords.EncodeMeaning`.
