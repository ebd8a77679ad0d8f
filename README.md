# World happiness dashboard: dataset discovery and schema normalisation

The dashboard (`app.py`) is a Streamlit script. It lists the yearly CSV files
of its data folder. It loads the year the user selects and renames that
table's columns to one canonical schema using a static per-year table. It
refuses to chart a table that lacks any of the eight canonical columns. This
project models those steps and proves their properties:

- `ordering.dfy` (module `Ordering`): Python's string order and a sort
  standing in for `sorted`. It proves that a sorted permutation of a list of
  strings is unique, so the result does not depend on the algorithm.
- `registry.dfy` (module `Registry`): year discovery. The listing of the
  data folder is an input sequence of file names. The module keeps the names
  ending in `.csv`, cuts each at its first `.` and sorts the results. It also
  models the file name opened for a selected year.
- `config.dfy` (module `Config`): the column mapping of the three configured
  years and the required column list.
- `normalizer.dfy` (module `Normalizer`): the rename and the required-column
  check. `Normalize` states them as values. The class `DataFrame` with its
  in-place `Rename` mirrors the script's `inplace=True` update, and
  `PrepareFrame` ties the two together.

Three behaviours of the code that the model keeps as written:

- The year list is not deduplicated. `2017.csv` and `2017.old.csv` both give
  `2017` (`DuplicateStemsKept`).
- A failed check only shows a fixed error message. It does not name the
  missing columns. `MissingColumns` is a derived value, defined as the
  required columns absent from the header. `MissingColumnsExact` proves that
  it is empty exactly when the check passes. The outcome itself carries no
  set.
- The rename treats every column on its own. If two raw names map to the same
  target, both columns carry that name afterwards. Nothing is overwritten
  (`RenameMayRepeatNames`).

## Model

| member | source | states |
|---|---|---|
| `Ordering.LessEq` | app.py:51 | Python's string comparison: a string is at most every string it is a prefix of; with `LessEqReflexive`, `LessEqAntisymmetric`, `LessEqTransitive` and `LessEqTotal` it is a total order |
| `Ordering.LessEqTotal` | app.py:51 | any two strings are comparable, so `sorted` never meets an unordered pair |
| `Ordering.LessEqTransitive` | app.py:51 | the string order is transitive |
| `Ordering.LessEqAntisymmetric` | app.py:51 | two strings each at most the other are equal |
| `Ordering.Sort` | app.py:51 | `sorted` returns a permutation of its input in ascending string order |
| `Ordering.SortedUnique` | app.py:51 | two sorted lists with the same elements are equal, so any correct sort gives the same year list |
| `Ordering.SortPermutationInvariant` | app.py:51 | sorting two lists with the same elements gives the same result |
| `Ordering.SortedHeadsEqual` | app.py:51 | two non-empty sorted lists with the same elements start with the same element |
| `Ordering.SortOfSorted` | app.py:51 | sorting an already sorted list returns it unchanged |
| `Registry.IsCsv` | app.py:51 | `endswith('.csv')`; a name that passes keeps a stem no longer than the name without its extension |
| `Registry.Stem` | app.py:51 | `split('.')[0]` is the longest prefix without a `.`, and it is followed by a `.` unless it is the whole name |
| `Registry.StemBeforeFirstDot` | app.py:51 | the stem is exactly the text before the first `.` |
| `Registry.CsvFiles` | app.py:51 | the filter keeps exactly the listed names that end in `.csv`, each as often as it is listed, in listing order (a subsequence of the listing) |
| `Registry.CsvStems` | app.py:51 | the comprehension yields at most one identifier per listed name, and no identifier contains a `.` |
| `Registry.AvailableYears` | app.py:51 | `available_years` is sorted ascending, is a permutation of the comprehension, and has one entry per `.csv` file |
| `Registry.YearFile` | app.py:58 | the file opened for a year is the year followed by `.csv` |
| `Registry.CsvStemsShape` | app.py:51 | the comprehension yields one identifier per `.csv` name, in listing order, each the stem of that name |
| `Registry.CsvStemsShapeStep` | app.py:51 | putting a `.csv` name in front of the listing puts its stem in front of the identifiers and keeps the rest aligned |
| `Registry.CsvStemsAppend` | app.py:51 | the comprehension over two concatenated listings is the concatenation of the two results |
| `Registry.CsvStemsPermutation` | app.py:51 | reordering the listing only reorders the comprehension's identifiers |
| `Registry.AvailableYearsOfOrderedListing` | app.py:51 | when the comprehension already yields its identifiers in ascending order, the year list is exactly that sequence |
| `Registry.AvailableYearsOrigin` | app.py:51 | an identifier is listed iff it is the stem of some listed `.csv` file, and no identifier contains a `.` |
| `Registry.ListedYearHasFile` | app.py:51 | every listed identifier is the stem of some listed `.csv` file |
| `Registry.ListedFileHasYear` | app.py:51 | the stem of every listed `.csv` file is a listed identifier |
| `Registry.NonCsvIgnored` | app.py:51 | dropping every non-`.csv` name from the listing leaves the year list unchanged |
| `Registry.CsvStemsUnfiltered` | app.py:51 | applying the comprehension to the filtered listing gives the same identifiers |
| `Registry.ExtraNonCsvFile` | app.py:51 | adding a name that does not end in `.csv` changes nothing |
| `Registry.ListingOrderIrrelevant` | app.py:51 | the year list does not depend on the order the directory listing returns |
| `Registry.TwoYearsAndANote` | app.py:51 | `2017.csv`, `2019.csv`, `notes.txt` list `["2017", "2019"]` |
| `Registry.TwoYearsAndANoteStems` | app.py:51 | the comprehension over `2017.csv`, `2019.csv`, `notes.txt` yields `2017` then `2019` |
| `Registry.CsvStemsOfThree` | app.py:51 | of three names, only the two ending in `.csv` contribute their stems, in order |
| `Registry.CsvStemsSingle` | app.py:51 | one name contributes its stem if it ends in `.csv`, and nothing otherwise |
| `Registry.DuplicateStems` | app.py:51 | the comprehension over `2017.csv`, `2017.old.csv` yields `2017` twice |
| `Registry.DuplicateStemsKept` | app.py:51 | `2017.csv` and `2017.old.csv` list `2017` twice |
| `Registry.ListedYearFileMissing` | app.py:51-58 | a listing holding only `2017.v2.csv` lists `2017`, whose file `2017.csv` is not in the listing |
| `Registry.StripCsv` | app.py:51-58 | removing the `.csv` extension inverts `YearFile` |
| `Registry.StrippedNames` | app.py:51-58 | each stripped name's year file is the name it came from |
| `Registry.LoadableYears` | app.py:51-58 | discovery with only the `.csv` extension removed is sorted and has one year per `.csv` file |
| `Registry.LoadableYearsOpenListedFiles` | app.py:51-58 | every year of the corrected list opens a file in the listing, and every listed `.csv` file's year is offered |
| `Registry.LoadableYearsAgree` | app.py:51-58 | when every `.csv` file is `<year>.csv` with no other `.`, the corrected list equals the source's |
| `Registry.StemOfYearFile` | app.py:51-58 | cutting `<year>.csv` at its first `.` gives the year back when the year has no `.` |
| `Config.ConfiguredTargetsAreRequired` | app.py:17-48 | the targets of each configured year's mapping are exactly the eight required columns |
| `Config.Targets2017` | app.py:18-27 | the 2017 mapping's targets are exactly the eight required columns |
| `Config.Targets2018And2019` | app.py:28-47 | the 2018 and 2019 mappings' targets are exactly the eight required columns |
| `Config.Stable2017` | app.py:18-27 | the 2017 mapping never renames a name twice |
| `Config.Stable2018And2019` | app.py:28-47 | the 2018 and 2019 mappings never rename a name twice |
| `Config.StableWhenTargetsFixed` | app.py:17-48 | a mapping whose targets are required names and which maps any such name it has as a key to itself cannot rename a name twice |
| `Config.ConfiguredMappingsStable` | app.py:17-48 | no configured mapping renames a column onto a name it would rename again |
| `Normalizer.RenameColumns` | app.py:63 | the rename keeps the header's length and order; column `i` becomes its mapped name if it is a key, otherwise it stays |
| `Normalizer.ColumnsFor` | app.py:62-63 | the header for a year keeps its length; for a configured year each column that is a key becomes its mapped name, and every other column stays as it is; a column that changes becomes one of the required columns |
| `Normalizer.MissingColumns` | app.py:66-69 | no required column is missing exactly when every required name is in the header |
| `Normalizer.AllPresent` | app.py:69 | the `all(...)` check holds iff every required name occurs in the header |
| `Normalizer.Normalize` | app.py:62-69 | the table is accepted iff every required column is in the header renamed for the year, and an accepted table is exactly that renamed header with the original rows |
| `Normalizer.RenameIdempotent` | app.py:63 | renaming twice with a stable mapping equals renaming once |
| `Normalizer.ColumnsForIdempotent` | app.py:17-63 | for every year, normalising an already normalised header changes nothing |
| `Normalizer.UnmappedYearIsIdentity` | app.py:62 | for a year without a mapping the header and rows pass unchanged, and acceptance depends on the raw header alone |
| `Normalizer.RenameFixesOwnTargets` | app.py:63 | a header whose mapped names all map to themselves is unchanged |
| `Normalizer.StableFixesTargets` | app.py:63 | a stable mapping leaves unchanged a header that holds only its targets and names it does not map |
| `Normalizer.CanonicalHeaderUnchanged` | app.py:17-63 | for every configured year, a header of canonical names and unmapped extras is unchanged by the rename |
| `Normalizer.MissingColumnsExact` | app.py:66-69 | the check passes iff no required column is missing, and the missing columns are always among the required ones |
| `Normalizer.RawHeaderWithAllKeysAccepted` | app.py:17-69 | for every configured year, a raw header containing all of that year's keys is accepted, whatever extra columns it has |
| `Normalizer.RawHeaderLackingOneKeyRejected` | app.py:17-69 | a configured year's header that holds every key but one, and in which no column (mapped or unmapped) becomes that key's target, is rejected whatever unmapped extra columns it has, and that target is the only missing column |
| `Normalizer.RenameMayRepeatNames` | app.py:28-63 | for 2018, `Score` and `Happiness Score` both become `Happiness Score` |
| `Normalizer.Accepts2019Header` | app.py:38-69 | a header of the 2019 raw names plus `Overall rank` is accepted; its `Score` column becomes `Happiness Score` and the rows are unchanged |
| `Normalizer.HasEveryRename2018And2019Key` | app.py:38-47 | a header of the 2019 raw names plus `Overall rank` holds every key of the 2019 renames |
| `Normalizer.ScoreRenamed2019` | app.py:38-63 | in 2019 a leading `Score` column becomes `Happiness Score` |
| `Normalizer.Rejects2018WithoutGenerosity` | app.py:28-69 | a 2018 header with `Overall rank` but without `Generosity` is rejected, and `Generosity` is the only missing column |
| `Normalizer.NothingRenamedOntoGenerosity` | app.py:28-37 | that header holds every other 2018 key, and none of its columns is renamed to `Generosity` |
| `Normalizer.DataFrame.constructor` | app.py:59 | a freshly loaded dataframe holds the parsed header and rows |
| `Normalizer.DataFrame.Rename` | app.py:63 | the in-place rename replaces the header with its renamed form and leaves the rows as they were |
| `Normalizer.PrepareFrame` | app.py:62-69 | after the in-place steps, the header is the year's renamed header, the rows are unchanged, and the answer is `Normalize`'s verdict on the loaded table |

## Findings

| source | as written | input that shows it | evidently intended | confidence | as-written member | corrected member |
|---|---|---|---|---|---|---|
| app.py:51-58 | the year is the name cut at its first `.`, but the file opened is `<year>.csv` | a data folder holding only `2017.v2.csv`: the year `2017` is offered, and selecting it opens `2017.csv`, which does not exist | every offered year opens a listed file, so only the `.csv` extension is removed | medium; not executed | `Registry.ListedYearFileMissing` | `Registry.LoadableYearsOpenListedFiles` |

On data folders that follow the `<year>.csv` naming convention, the two
discoveries agree (`Registry.LoadableYearsAgree`). So every other property is
stated for the source's discovery as written.

## Left out

- Streamlit page setup, the sidebar widgets and every `st.*` output (app.py lines 8-11, 54-55, 70-180): these are presentation only. The selected year is a parameter of the model.
- `os.listdir` (app.py line 51): the directory listing is an input sequence of names. An unreadable folder, which raises in the source, is not modelled.
- `pd.read_csv` (app.py line 59): the CSV parser is library code and is not part of this model. The parsed header and rows are inputs, and a malformed or missing file, which raises in the source, is not modelled.
- The KPI aggregates (`mean`, `idxmax`, `idxmin`) and the descending sort by score (app.py lines 77-79, 132): these work on floating-point scores.
- The country filter, the factor transpose and every Plotly chart (app.py lines 91-180): these are presentation built on pandas and Plotly calls.
- The unused `lru_cache` import (app.py line 5).
- Ordering.Sort: an insertion sort stands in for Python's `sorted` (Timsort). `Ordering.SortedUnique` shows that both give the same list, but the running time is not modelled.
- Ordering.LessEq: compares code points, as Python does for `str`. No Unicode normalisation or case folding is modelled, and the source does none.
