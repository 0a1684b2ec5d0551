# Weather history: data pipeline model

A Dafny model of the data side of a page that charts monthly temperature and
precipitation averages for the years 1881 to 2006 (`assets/js/main.js`). The page
loads daily records `{ t: "YYYY-MM-DD", v }` for one data type, sums them into a
year-offset by month matrix (126 rows of 12 cells), divides temperature sums by a day
count, keeps the matrix in an IndexedDB object store and in an in-memory promise cache,
and charts the per-month mean over a chosen inclusive range of years.

Modules, one per part of the pipeline:

- `Domain`: the year range, the two data keys, rows and matrices, load errors.
- `Calendar`: `getDayCount` exactly as written, and the calendar rule it was meant to compute.
- `DateText`: `t.split('-')` and the numeric reading of the year and month fields.
- `Normalizer`: the two `.then` stages of `loadFromServer`. The first is a loop filling an
  `array` of rows, where a missing row is a hole. The second converts rows in place.
- `RangeAverage`: `computeAverage` as a slice and reduce, and the year shift of `getGraphicData`.
- `YearSelection`: the dropdown visibility rule that keeps `from <= to`.
- `DataCache`: `dataMainCache` and `getCachedData`, as a class holding a
  `map<DataKey, Handle>` and a count of loader invocations.
- `RecordStore`: the two object stores as sequences, with the cursor loop and the
  `putNext` loop as methods.
- `CacheAside`: `loadFromServer` and the store-or-server decision of `loadDataFromStore`.

The model follows the code wherever the code and its design intent differ:

- **Day count.** `getDayCount` returns 29 for every month index except February, and 28
  for February of every non-zero year. `!year % 4` is `(!year) % 4`, which is 0 for any
  non-zero year, so the leap-year branch never fires. `Calendar.DaysInMonth` states the
  intended Gregorian rule. `Calendar.DayCountDisagreesWithCalendar` proves that the two
  agree only on February of common years. The normaliser uses the literal count, so two
  January 1881 temperature records of 10 and 20 give 30/29, not 30/31.
- **Missing years.** The result array starts as holes and a row is created only when a
  record names its year. A year without records leaves a hole, and `.map` on it throws.
  The model returns `Err(UndefinedRow)` and does not pre-fill the rows with zeros.
- **No range filtering.** Records outside 1881..2006 are not dropped by the code. The
  model requires every record to be in range (see "Left out").
- **Read errors.** A cursor error on the DB read is not caught. The whole load rejects;
  it does not fall back to the server.
- **No eviction.** A rejected promise stays in `dataMainCache` for good.

## Model

| member | source | states |
|---|---|---|
| `Calendar.MonthDays` | assets/js/main.js:91 | the `monthDays` entry is 0 exactly for February and for indexes outside 0..11 (where it reads `undefined`); otherwise 30 or 31 |
| `Calendar.DayCount` | assets/js/main.js:93-95 | the expression always yields 28 or 29 |
| `Calendar.DayCountAsWritten` | assets/js/main.js:93-94 | for every month index and year: 28 when the table entry is falsy and the year is non-zero, otherwise 29; so 28 for February and 29 for the other eleven months of any non-zero year |
| `Calendar.DayCountsOfYear` | assets/js/main.js:93-94 | for one year, every month index gets the count of `DayCountAsWritten` |
| `Calendar.DaysInMonth` | assets/js/main.js:91 | the intended count: the table's 30 or 31, and for February 29 exactly in a Gregorian leap year |
| `Calendar.DayCountDisagreesWithCalendar` | assets/js/main.js:91-94 | for a non-zero year, the literal and the intended count agree if and only if the month is February of a common year |
| `Calendar.DayCountCounterexamples` | assets/js/main.js:93-94 | January 1881 gives 29 instead of 31; February 2000 and 2004 give 28 instead of 29; February 1900 gives 28 under both |
| `DateText.Split` | assets/js/main.js:173 | `split('-')` yields at least one field, and no field contains the separator |
| `DateText.JoinSplit` | assets/js/main.js:173 | joining the fields of a split with the separator restores the string |
| `DateText.SplitJoin` | assets/js/main.js:173 | splitting a join of separator-free fields restores the fields |
| `DateText.ParseYearMonth` | assets/js/main.js:173-175 | the first two fields of `t`, when they are digit strings, give a non-negative year and month |
| `DateText.ParseFormatDate` | assets/js/main.js:173-175 | a zero-padded `YYYY-MM-DD` string is read back as its own year and month |
| `DateText.ValueOfPadded` | assets/js/main.js:174-175 | `Value`, the `Number()` of a digit field, is not changed by leading zeros as in `"01"`: a padded numeral of `n` converts to `n` |
| `Normalizer.Cell` | assets/js/main.js:173-175 | a record's cell is `(year - 1881, month - 1)` for the year and month of its `t`, inside the 126 by 12 matrix |
| `Normalizer.Sums` | assets/js/main.js:169-182 | the array the first stage returns has 126 slots; slot `y` holds a row exactly when some record is dated in year `y`, and that row's cell `m` is the sum `SumAt` of the records of cell `(y, m)` |
| `Normalizer.Bumped` | assets/js/main.js:176-179 | one `+=` on a row that is created as zeros when it is a hole: cell `m` grows by `v`, every other cell keeps its value, or 0 for a new row |
| `Normalizer.ConvertRow` | assets/js/main.js:187 | the `.map` callback keeps the length; for precipitation it returns the row unchanged; for temperature each cell is divided by 28 where the table entry is falsy (February) and by 29 elsewhere |
| `Normalizer.SumAtWithoutRecords` | assets/js/main.js:176-179 | a cell no record falls in stays 0 |
| `Normalizer.TouchedIff` | assets/js/main.js:176-178 | a row is created if and only if some record is dated in its year |
| `Normalizer.TouchedIffAll` | assets/js/main.js:176-178 | `TouchedIff` for every year offset at once |
| `Normalizer.UntouchedRowIsZero` | assets/js/main.js:176-179 | every cell of a year without records sums to 0 |
| `Normalizer.SumsStep` | assets/js/main.js:171-180 | one more record adds its `v` to exactly its own cell, first creating the row as twelve zeros if it is a hole; every other row and cell is unchanged |
| `Normalizer.NormalizedShape` | assets/js/main.js:169-187 | the load succeeds if and only if every year 1881..2006 has at least one record, and then the matrix has 126 rows of 12 |
| `Normalizer.NormalizedCell` | assets/js/main.js:184-189 | a temperature cell is its sum divided by `getDayCount(month, 1881 + i)`, so by 28 in February and 29 otherwise; a precipitation cell is the raw sum |
| `Normalizer.TwoRecordsOfOneCell` | assets/js/main.js:171-180 | two records of the same January cell are summed there, and every other cell of the row is 0 |
| `Normalizer.JanuaryRecordsCells` | assets/js/main.js:173-175 | the dates `1881-01-15` and `1881-01-20` both fall in cell `(0, 0)` |
| `Normalizer.TwoJanuaryRecords` | assets/js/main.js:171-189 | records of 10 and 20 in January 1881 give row 0 = `[30, 0, ..., 0]`, whose temperature January cell is 30/29; the load fails because 1882 has no row |
| `Normalizer.AccumulateSums` | assets/js/main.js:169-182 | the array the first stage builds holds, at each offset, the row of sums of that year's records if it has any, and a hole otherwise |
| `Normalizer.ConvertRows` | assets/js/main.js:184-189 | with no holes, every row is replaced in place by its converted row; at the first hole the loop stops, with the earlier rows converted and the later ones unchanged |
| `Normalizer.Normalize` | assets/js/main.js:168-190 | both stages together produce exactly `Normalized`: the converted matrix, or `UndefinedRow` when a year has no records |
| `RangeAverage.Reduce` | assets/js/main.js:150-157 | the reduce over rows of twelve, starting from a twelve-entry accumulator, yields twelve entries; each per-row step is `AddRow`, the `forEach` of lines 152-154 |
| `RangeAverage.ReduceIsColumnSum` | assets/js/main.js:150-157 | the reduce adds to each accumulator entry exactly the sum of that month's column |
| `RangeAverage.ComputeAverage` | assets/js/main.js:147-159 | for `0 <= from <= to < |data|` and rows of 12, the result has 12 entries |
| `RangeAverage.AverageIsColumnMean` | assets/js/main.js:147-159 | entry `i` is the sum of `data[y][i]` over `y = from..to`, divided by `to - from + 1` |
| `RangeAverage.AverageOfOneYear` | assets/js/main.js:147-159 | when `from == to` the result is `data[from]` |
| `RangeAverage.AverageOfAllYears` | assets/js/main.js:147-159 | over the whole matrix, each entry is the mean of that month across all rows |
| `RangeAverage.AverageWithinBounds` | assets/js/main.js:147-159 | each entry lies between the smallest and the largest value of its month in the range |
| `RangeAverage.GraphicData` | assets/js/main.js:161-163 | the years `fromYear..toYear` are averaged as offsets `fromYear - 1881 .. toYear - 1881`, giving 12 column means; a single year gives back its row |
| `YearSelection.ClickKeepsRange` | assets/js/main.js:226-248 | a click that `Clickable` allows (a year item shown by lines 230 and 233, or a data-type button), applied by `Apply` as lines 221 and 245-247 set the state, keeps `1881 <= from <= to <= 2006` |
| `YearSelection.ReachableRangesValid` | assets/js/main.js:226-248 | any run of clicks on visible items, from a valid state, ends in a valid state |
| `YearSelection.FromInitialRangesValid` | assets/js/main.js:5-9 | every state reachable from the initial `1881..2006` selection meets the range precondition of `GraphicData` |
| `YearSelection.SelectionFitsMatrix` | assets/js/main.js:161-163 | a valid selection, with a matrix of 126 rows of twelve, meets the whole precondition of `GraphicData` |
| `YearSelection.NormalizedMatrixFits` | assets/js/main.js:169-189 | a matrix the normaliser completed has 126 rows of twelve |
| `DataCache.Memo.constructor` | assets/js/main.js:90 | the cache starts empty, with no loader call made |
| `DataCache.Memo.Get` | assets/js/main.js:139-145 | a missing key invokes the loader once and stores its new handle; a present key returns the stored handle without invoking it; other entries never change and none is removed |
| `DataCache.IndexedByStep` | assets/js/main.js:139-145 | after one more call, the entries still hold exactly the requested keys, and every call got its key's entry |
| `DataCache.HandlesIdentifyKeys` | assets/js/main.js:139-145 | in a consistent cache, two requests share a handle exactly when their keys are equal, and the loader count equals the number of distinct keys |
| `DataCache.GetAll` | assets/js/main.js:139-145 | on a fresh cache, any run of calls returns one shared handle per key, distinct handles for distinct keys, and invokes the loader once per distinct key |
| `RecordStore.PutCount` | assets/js/main.js:75-84 | with a failing put at index `k < n`, exactly `k` puts succeed; otherwise all `n` succeed |
| `RecordStore.Database.constructor` | assets/js/main.js:34-39 | a newly provisioned database has both object stores, empty |
| `RecordStore.Database.ReadAll` | assets/js/main.js:43-67 | the cursor loop resolves with every stored value in key order, or rejects when one of its requests errs |
| `RecordStore.Database.PutAll` | assets/js/main.js:69-88 | `data[0..n)` is appended in index order and other stores are untouched; it resolves only if every put succeeded, and after a failed put only the earlier rows are stored |
| `RecordStore.WriteThenRead` | assets/js/main.js:43-88 | writing rows to a fresh database and reading them back gives exactly those rows, in order |
| `CacheAside.LoadFromServer` | assets/js/main.js:165-191 | a failed fetch rejects; otherwise the result is the normalised matrix or its `UndefinedRow` failure |
| `CacheAside.LoadFromStore` | assets/js/main.js:193-202 | a cursor error rejects the load; a non-empty read is returned unchanged and the server is not queried; an empty read returns the server's result and, when that succeeded, hands that same matrix once to the put loop; a write failure does not change the result |
| `CacheAside.ColdThenWarm` | assets/js/main.js:193-202 | on a fresh database the first load asks the server and stores the complete matrix; a second load is served from the store without the server and returns the same matrix |

## Left out

- Opening the database, its version upgrade and its transactions (`connectDB`,
  lines 21-42) are left out. `RecordStore.Database.constructor` stands for a database
  whose upgrade handler has just created both stores.
- `RecordStore.Database.PutAll`: does not model the rollback of the transaction. The
  code handles a failed put with `onerror = reject`, but that handler never calls
  `preventDefault()`, so IndexedDB aborts the transaction and undoes the earlier puts.
  The model keeps the earlier rows, as the code's own steps do. So in the model, unlike
  in IndexedDB, a later load can read this partial store: it is non-empty and is
  returned as the matrix, with fewer than 126 rows.
- Auto-increment keys are implicit. A value's key is its position in the sequence plus 1.
- `window.fetch` and `response.json()` (lines 166-167) are network I/O. Their outcome is
  a parameter: the parsed record list, or `None` when either rejects.
- Promise scheduling is left out. The memo is sequential, and a handle is opaque: it is
  known only by which loader call created it. The memo is not linked to the load that
  resolves the handle.
- The fire-and-forget `.then` of line 199 has no error handler. `LoadFromStore` runs the
  put loop in sequence and ignores its outcome. Its timing relative to the returned
  promise is not modelled.
- `Normalizer.Normalize`: requires every record's date to have digit-string year and month
  fields, a year in 1881..2006 and a month in 1..12. This is weaker than the code, which
  accepts any input. On other input the JavaScript array can grow past 126 rows (year
  2007 and later), take the offset as a non-index property (years before 1881), get a
  thirteenth cell holding NaN, or read NaN indexes. `Number()` also accepts forms other
  than digits, such as whitespace, signs and decimals. None of this is modelled.
- `RangeAverage.ComputeAverage`: requires `0 <= from <= to < |data|` and rows of 12.
  The clamping of `slice` outside those bounds, and the NaN of an empty slice, are not
  modelled.
- `RangeAverage.GraphicData`: requires `1881 <= fromYear <= toYear`, a `toYear` row in
  the matrix and rows of twelve. `YearSelection.FromInitialRangesValid` shows that the
  page's own selections meet the year-order part. `YearSelection.SelectionFitsMatrix`
  shows the rest holds for a matrix of 126 rows of twelve, and
  `YearSelection.NormalizedMatrixFits` shows a completed normalisation gives one. A
  matrix read from a store holding a partial write (see `PutAll` above) need not meet it.
- Values are `real`. IEEE-754 rounding, NaN and `undefined + v` are not modelled.
- `renderYearData` (lines 97-138) is canvas drawing and is left out. So are the DOM
  wiring of buttons and dropdowns, `setTimeout` and `window.onclick` (lines 205-283),
  and the chart scale bounds in `dataConfigs`. Only the visibility rule is modelled, in
  `YearSelection`.
