# CAMELS US loaders, modelled in Dafny

This project models `camelsus.py`, the data-access layer for the CAMELS US
hydrology data set. It has three loaders:

- **Attribute loader** (`load_camels_us_attributes`). It outer-joins every
  `camels_*.txt` attribute file on `gauge_id`. It derives the zero-padded
  region code `huc` from `huc_02` with `str(x).zfill(2)` and drops `huc_02`.
  When given a non-empty basin list, it either fails because a basin has no
  attributes, or returns exactly those basins, in the order given.
- **Forcing loader** (`load_camels_us_forcings`). It picks the first file the
  search finds for the basin. It reads the catchment area from the third
  header line with `int()`, and indexes the table by the date printed from
  Year/Mnth/Day.
- **Discharge loader** (`load_camels_us_discharge`). It picks the first
  streamflow file and indexes it by date. It converts QObs from cubic feet per
  second to mm/day with `28316846.592 * q * 86400 / (area * 10**6)` and
  replaces every negative result with NaN.

Modules:

- `Wrappers`: `Option` and `Result`.
- `Errors`: one constructor for each exception the loaders raise.
- `PyText`: the Python builtins the code depends on — `str()` of an int,
  `str.zfill`, `int()` of a string.
- `Dates`: the date-index construction with format `%Y/%m/%d`.
- `Attributes`, `FileMatch`, `Forcings`, `Discharge`: the loaders.

Inputs the code gets from the filesystem are parameters:

- whether a directory exists (a boolean);
- what a file search returned (a sequence of paths);
- the lines of an open file (a `LineReader` object read with `ReadLine`);
- the rows a CSV reader produces (already-parsed records).

In the attribute tables a NaN cell is a column that is absent from the row's
map; `Cell` returns `None` for it. The discharge values use a small `Float`
type: a real number, an infinity or NaN. With it the model can state what a
zero area does (division by zero) instead of excluding that case.

Two consequences of the code are worth stating:

- The conversion formula turns 300 cfs over a catchment of 831000000 m² into
  0.88324… mm/day (`ConvertExample`).
- `str(x).zfill(2)` pads to two characters but leaves longer strings as they
  are, and a basin with no `huc_02` value (NaN) gets `"nan"`
  (`HucCodeOfRegion`, `ZFill`).

## Model

| member | source | states |
|---|---|---|
| `PyText.ZFill` | camelsus.py:48 | `s.zfill(w)` has length max(w, \|s\|) and is unchanged when s is already w long; an unsigned s ends the result and only '0' precedes it; a signed s keeps its sign first, followed by the zeros |
| `PyText.NatStrLength` | camelsus.py:48 | `str(n)` has at most k digits exactly when n < 10^k |
| `PyText.NatStrValue` | camelsus.py:95 | the digits `str(n)` prints read back as n |
| `PyText.IntStr` | camelsus.py:98 | `str(n)` starts with a minus sign exactly when n is negative; the rest is the decimal digits of \|n\| without a leading zero, and they read as \|n\| |
| `PyText.ParseInt` | camelsus.py:95 | `int()` raises ValueError for a string of whitespace only, and for any string holding a character that is not whitespace, a digit, `_` or a sign; as in CPython 3.11 and later, every value it returns has at most 4300 digits |
| `PyText.IntStrRoundTrip` | camelsus.py:95 | `int()` of `str(n)` surrounded by any ASCII whitespace (space, `\t` to `\r`, such as the newline `readline` keeps) is n when n has at most 4300 digits, and raises ValueError when it has more |
| `PyText.ParseIntRejectsSeparators` | camelsus.py:95 | a printed integer preceded by one of the separators `\x1c` to `\x1f` makes `int()` raise ValueError, since `int()` does not strip them |
| `Attributes.KeyUnionMembers` | camelsus.py:46 | a gauge id belongs to the union of the files' keys exactly when some file has a row for it |
| `Attributes.ColumnUnionMembers` | camelsus.py:46 | a column belongs to the joined columns exactly when some file lists it |
| `Attributes.LookupFromLastFile` | camelsus.py:40-46 | a joined cell is the cell of the last file that lists the column, and NaN for a basin that file has no row for |
| `Attributes.LookupUnlisted` | camelsus.py:46 | a column no file lists is NaN for every basin |
| `Attributes.JoinStepKeeps` | camelsus.py:39-46 | joining one more indexed file into the join of the earlier files gives the join of all of them |
| `Attributes.Concat` | camelsus.py:39-46 | joining no files raises; otherwise the row keys are exactly the union of all files' gauge ids, each appearing once, the columns are the union of the files' columns, and every cell is the joined value |
| `Attributes.Str` | camelsus.py:48 | `str()` of an int cell of at most 4300 digits is text that `int()` reads back as that int |
| `Attributes.SetColumn` | camelsus.py:48 | assigning a column gives every row its new cell, appends the column name unless already present, and keeps every other cell |
| `Attributes.AssignHuc` | camelsus.py:48 | a table without `huc_02` raises KeyError; otherwise every row gets `huc` = `str(huc_02).zfill(2)` as text and all other cells, the index and the row keys are unchanged |
| `Attributes.HucCodeOfRegion` | camelsus.py:48 | a region number 0..99 becomes exactly two digits that read back as the number, and a NaN `huc_02` becomes "nan" |
| `Attributes.DropColumn` | camelsus.py:49 | dropping an absent column raises KeyError; otherwise the column is gone from the columns and from every row, and every other cell is kept |
| `Attributes.DropColumnKeepsOrder` | camelsus.py:49 | dropping the column at position k leaves the columns before and after it, in their order |
| `Attributes.ReplaceHuc` | camelsus.py:48-49 | a table without `huc_02` raises KeyError; otherwise the column set loses `huc_02` and gains `huc`, each row's `huc` is `str(huc_02).zfill(2)` of its own `huc_02`, no row keeps a `huc_02` cell, and every other cell is kept |
| `Attributes.SelectBasins` | camelsus.py:51-54 | an empty filter returns the table unchanged; a non-empty filter with a basin that has no row raises MissingStaticAttributes; otherwise the index is exactly the filter in its order, the columns are unchanged and every requested basin's cells are its cells in the table |
| `Attributes.LoadAttributes` | camelsus.py:31-56 | a missing folder, no files, no `huc_02` column and a requested basin without attributes each raise their error, and no other case fails; on success the columns are the union of the files' columns without `huc_02` and with `huc`, every row has `huc` = `str(huc_02).zfill(2)` of its joined `huc_02` and no `huc_02`, every other cell is the joined value, the unfiltered rows are exactly the union of the files' gauge ids, and the filtered index is exactly the filter |
| `FileMatch.SelectFile` | camelsus.py:85-89 | the selected file is the first match, and FileNotFoundError is raised exactly when there is no match |
| `Forcings.LineReader.constructor` | camelsus.py:91 | opening a file starts reading at its first line |
| `Forcings.LineReader.ReadLine` | camelsus.py:93-95 | each call returns the next line and advances by one; at the end of the file it returns "" and does not move |
| `Forcings.LoadForcings` | camelsus.py:81-102 | a missing product folder raises OSError; no match raises FileNotFoundError; a third line that `int()` rejects raises ValueError; otherwise a row whose date does not convert raises ValueError, naming the date text of the first such row, and no other case fails; otherwise the area is `int()` of the third line (the first two lines are ignored), the rows are kept, and date i is (Year, Mnth, Day) of row i |
| `Forcings.AreaFromHeader` | camelsus.py:93-95 | whatever the first two lines are, a third line holding a printed integer and any ASCII whitespace yields that integer as the area when it has at most 4300 digits, and raises ValueError when it has more |
| `Dates.DateTextFields` | camelsus.py:98 | the text `str(Year)/str(Mnth)/str(Day)` splits at '/' into the three printed numbers |
| `Dates.ParseDate` | camelsus.py:98-99 | every date that `to_datetime` with `%Y/%m/%d` returns has a month 1..12 and a day 1..31, and lies in the datetime64[ns] range 1677-09-22 to 2262-04-11 |
| `Dates.DateTextRoundTrip` | camelsus.py:98-99 | converting the printed date with `%Y/%m/%d` gives back (Year, Mnth, Day), and fails exactly when the month is outside 1..12, the day is outside 1..31 or the date is outside 1677-09-22 to 2262-04-11 |
| `Dates.RowDate` | camelsus.py:98-99 | a row's date converts exactly when its month and day are in range and the date is within 1677-09-22 to 2262-04-11; it is then the row's (Year, Mnth, Day), and otherwise the error names the printed text |
| `Dates.DateIndex` | camelsus.py:98-100 | the index has one date per row, in row order, each equal to that row's (Year, Mnth, Day); it fails exactly when some row's triple is not valid, and then reports the first such row |
| `Discharge.Convert` | camelsus.py:138 | the conversion keeps NaN; with a positive area nothing becomes NaN, the sign of the flow is kept and an infinity is unchanged |
| `Discharge.ConvertPositiveArea` | camelsus.py:138 | with a positive area the converted value is q times the positive factor 28316846.592·86400/(area·10^6), so it is negative exactly when q is and zero exactly when q is |
| `Discharge.ConvertZeroArea` | camelsus.py:138 | with a zero area a positive flow becomes +inf, a negative flow -inf, and zero becomes NaN |
| `Discharge.ConvertExample` | camelsus.py:138 | 300 cfs over 831000000 m² converts to a value between 0.88324 and 0.88325 mm/day |
| `Discharge.Mask` | camelsus.py:140 | the masked value is NaN exactly when the value was negative or NaN; a value that is not negative is untouched; nothing negative remains |
| `Discharge.Normalize` | camelsus.py:138 | every array entry is replaced by its converted value, in place |
| `Discharge.MaskNegative` | camelsus.py:140 | every array entry is replaced by its masked value, in place; the length is unchanged |
| `Discharge.LoadDischarge` | camelsus.py:125-142 | no match raises FileNotFoundError; a row whose date does not convert raises ValueError, naming the date text of the first such row, and nothing else fails; otherwise there is one date and one value per row, date i is row i's (Year, Mnth, Day), value i is the masked conversion of QObs i, and with a positive area value i is NaN exactly when QObs i is negative |

## Left out

- Filesystem access is not modelled: directory checks, `glob`, `open`. A directory check is a boolean parameter, a search result is a sequence of paths, and file contents are given lines plus the rows parsed from them. The order in which `glob` lists files is not modelled; the model takes the first path it is given, as the code does when several files match.
- Text parsing by `read_csv` is not modelled (semicolon- and whitespace-separated readers, header handling). Attribute files arrive already indexed by `gauge_id`. Forcing and streamflow files arrive as parsed rows.
- pandas dtype coercion is not modelled. In particular, when the outer join introduces NaN into an integer `huc_02` column, pandas turns it into a float column, and `str()` then prints values like `1.0`. The model keeps each cell's own type. A float cell carries the text `str()` prints for it, because float formatting is not modelled.
- LoadAttributes: requires every attribute file to have unique gauge ids. The data layout guarantees this; pandas' behaviour on duplicate keys during the join is not modelled.
- Concat: when two files list the same column, the model keeps the last file's column; pandas would keep both duplicate columns. Concat also does not state the order of the unfiltered row index: the model uses first-appearance order and proves only that each gauge id appears exactly once.
- ParseDate: calendar legality is not modelled. `%Y/%m/%d` also rejects dates that do not exist (30 February); the model checks only the field widths, the month and day ranges, and the datetime64[ns] bounds (1677-09-22 to 2262-04-11) that pandas 2 enforces with OutOfBoundsDatetime. Of the forms the format accepts, only digit fields are modelled (never a space-padded day, which `str()` cannot produce).
- IntStr: CPython 3.11 and later raise ValueError from `str()` of an int with more than 4300 digits; the model prints every int. For Year, Mnth and Day this changes nothing: such a year is outside the date range, so the conversion raises ValueError anyway. For an int `huc_02` of that size, `Str` and `AssignHuc` return a code where Python raises.
- ParseInt: only ASCII digits and the ASCII whitespace `int()` strips (space, `\t` to `\r`) are modelled. Python's `int()` also accepts other Unicode digits and strips non-ASCII whitespace such as `\x85` and `\xa0`; the model rejects those strings.
- Floating-point rounding and overflow are not modelled. The conversion is exact real arithmetic over a NaN/infinity-aware `Float`, and the input QObs values are finite reals.
- The model follows pandas 2 semantics for the chained masked assignment `df.QObs[df.QObs<0] = np.nan`, which updates the frame. Under copy-on-write semantics it would update a temporary copy instead.
- Error message texts are not modelled, only which error is raised.
- The discharge loader's returned series carries the QObs values and their dates. The other columns (basin, flag) are parsed but not returned by the code, and are not modelled beyond the rows.
