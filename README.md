# Movie_DB loader and genre report, modelled in Dafny

Movie_DB is a small Go program (`main.go`). It builds a SQLite database from
two CSV files and then answers one question: which genres get the highest
average rank. It runs these steps in order:

1. It drops and recreates the `movies` and `movies_genres` tables, then
   deletes everything in them.
2. It loads the movies file. Every row the CSV reader returns is turned into
   a movie `(id, name, year, rank)` and inserted with `INSERT OR IGNORE`.
3. It loads the genres file. Every row becomes `(movie_id, genre)` and is
   inserted with a plain `INSERT`.
4. It joins the two tables, keeps the movies that have a rank, groups the
   pairs by genre, averages the rank, and prints the genres highest first.

Neither loader aborts on a bad row. When the reader reports a parse error,
the row goes through `fixBrokenCSVLine`:

- Every field with an odd number of `"` characters loses all of them.
- A row left with fewer than four fields is skipped.

The model has one module per concern:

- `Wrappers`: `Option`, used for SQL NULL and rejected rows.
- `Numbers`: `strconv.Atoi` and the decimal subset of `strconv.ParseFloat`
  that the loader relies on. Atoi is modelled exactly: a syntax error gives
  0, and an out-of-range value saturates at the int64 bounds.
- `Repair`: `fixBrokenCSVLine`, as an in-place method on an array of
  fields, with the function that specifies it.
- `Records`: the rows the reader delivers, which rows are accepted, and
  how a row maps to a movie or a genre association.
- `Store`: the two tables as a class.
  - `movies` is a map keyed by id; inserting into it is insert-if-absent.
  - `movieGenres` is a sequence that only grows.
  - The two populate loops work row by row, and the report query is run
    against the current tables.
- `Report`: the join, filter, group, mean and order of the report query,
  as functions over the tables.
- `Pipeline`: `main`'s sequence, and a worked example: a duplicate id plus a
  NULL rank.

The repair threshold is four fields on both loading paths. The genre loader
calls the same `fixBrokenCSVLine`, with its fixed `len(record) < 4` test,
though it only indexes two fields, so a broken genre row with two or three
fields is skipped (`Records.BrokenShortGenreRowSkipped`).

## Model

| member | source | states |
|---|---|---|
| `Numbers.Clamp64` | main.go:83 | the result is in int64 range, equals the input when that is in range, and saturates at the nearer bound otherwise (Atoi's range error) |
| `Numbers.Atoi` | main.go:83 | every value Atoi yields, error ignored, fits in an int64 |
| `Numbers.ScanUintDigits` | main.go:83 | on a digit string, the scan yields the digits' value when it is at most 2^64-1, and a range error otherwise |
| `Numbers.ScanUintRejects` | main.go:83 | a non-digit reached before the value overflows gives a syntax error |
| `Numbers.AtoiOfDigits` | main.go:83 | an optionally signed digit string converts to its signed value, clamped to int64 |
| `Numbers.AtoiRejects` | main.go:83-87 | a field with no digits after the sign, or with a non-digit before any overflow, converts to 0 |
| `Numbers.AtoiFormatInt` | main.go:148 | formatting any int64 in decimal and converting it back gives the same integer |
| `Numbers.ParseDecimal` | main.go:91 | a parsed decimal literal has only digits in its integer and fraction parts |
| `Numbers.ParseDecimalSigned` | main.go:91 | a literal with a sign, digits on either side of the dot and an `e` or `E` exponent with its own sign is read with exactly that sign, those digits and that signed exponent |
| `Numbers.ParseDecimalSignedPlain` | main.go:91 | a signed literal `w.f` without an exponent is read with its sign, its digits and exponent 0 |
| `Numbers.ParseDecimalFormat` | main.go:91 | writing any decimal as `[-]w.f e [-]n` and parsing it gives the same decimal back, so ParseFloat yields its value |
| `Numbers.ParseFloatDecimal` | main.go:91 | the literal `w.f` has the value w + f / 10^len(f) |
| `Numbers.ParseFloatInteger` | main.go:91 | a digit string parses to its integer value |
| `Repair.StripQuotesRemovesExactlyQuotes` | main.go:110 | after stripping, no `"` is left, and the length shrinks by exactly the number of quotes |
| `Repair.StripQuotesKeepsOthers` | main.go:110 | every character other than `"` occurs as often after stripping as before |
| `Repair.StripQuotesAppend` | main.go:110 | stripping works piece by piece, so the remaining characters keep their order |
| `Repair.RepairRowFields` | main.go:108-112 | a repaired row has the same length; fields with balanced quotes are unchanged; the others are stripped and have no quote left |
| `Repair.FixedRow` | main.go:107-119 | the result is nil exactly when the row has fewer than 4 fields; otherwise it is the row with the per-field repair applied |
| `Repair.FixBrokenCsvLine` | main.go:107-119 | the array is rewritten in place to the repaired row, even when it is then rejected; the result says whether `FixedRow` keeps it, and the kept row is the array's new contents |
| `Repair.RepairRowIdempotent` | main.go:108-112 | repairing a repaired row changes nothing, and the same holds for `FixedRow` |
| `Repair.BalancedRowUnchanged` | main.go:107-119 | a row whose every field has balanced quotes comes back unchanged when it has at least 4 fields, and is rejected when shorter |
| `Repair.SingleQuoteStripped` | main.go:109-110 | a field with one stray quote inside quote-free text comes back without it |
| `Records.Accepted` | main.go:74-80 | a row is skipped exactly when the reader reported an error and it has fewer than 4 fields; an accepted row keeps its length; a row read cleanly is used as read, and an accepted broken row is its per-field repair |
| `Records.AcceptedIndexable` | main.go:74-83 | an accepted row always has the fields the loader indexes: a repaired row has at least 4 |
| `Records.MovieFromRecord` | main.go:83-93 | the id is `Atoi` of field 0; the year is `Atoi` of field 2, or 0 when that field is `NULL`; rank is NULL exactly when field 3 is `NULL`, and otherwise is `ParseFloat` of it; the name is field 1 verbatim; id and year are int64 |
| `Records.MovieFromRecordDefaults` | main.go:83-93 | an id or year field with nothing after its sign, or whose first non-digit comes before any overflow, gives 0; a rank field that is not a number still gives a rank, of value 0 |
| `Records.GenreFromRecord` | main.go:148-149 | the movie id is `Atoi` of field 0, an int64; the genre is field 1 verbatim |
| `Records.MovieRecordsAppend` | main.go:68-103 | the movies from a concatenation of rows are the movies of each part, concatenated |
| `Records.GenreRecordsAppend` | main.go:133-158 | the associations from a concatenation of rows are those of each part, concatenated |
| `Records.MovieRecordsStep` | main.go:68-103 | one more row adds its movie if the row is accepted, and nothing otherwise |
| `Records.GenreRecordsStep` | main.go:133-158 | one more row adds its association if the row is accepted, and nothing otherwise |
| `Records.MovieRecordsLength` | main.go:68-98 | every accepted movie row yields exactly one movie to insert |
| `Records.MovieRecordsPosition` | main.go:68-98 | the k-th accepted movie row gives the movie at its place in the insert sequence, built from its own fields |
| `Records.MovieRecordsFrom` | main.go:68-98 | every movie the loader inserts comes from some accepted row |
| `Records.GenreRecordsLength` | main.go:151-154 | every accepted genre row yields exactly one association |
| `Records.GenreRecordsPosition` | main.go:148-154 | the k-th accepted genre row gives the association at its place in the sequence, built from its own fields; an association is inserted even when it duplicates another or names no existing movie |
| `Records.IrreparableRowAlone` | main.go:76-79 | a broken row with fewer than 4 fields yields no movie and no association |
| `Records.IrreparableRowSkipped` | main.go:74-80 | inserting an irreparable row anywhere among the input rows changes neither table's records, and the rows after it are still processed |
| `Records.BrokenShortGenreRowSkipped` | main.go:139-146 | a broken genre row with 2 or 3 fields is skipped, though the same row read cleanly gives an association |
| `Records.ScenarioRowsMapped` | main.go:83-93 | the rows `1,Alpha,2000,8.5` and `2,Beta,1999,NULL` map to the expected movies, the first with rank 8.5 and the second with a NULL rank |
| `Records.ScenarioDuplicateRowMapped` | main.go:83-93 | the row `1,Gamma,2001,9.0` maps to a movie with id 1, year 2001 and rank 9.0 |
| `Store.InsertAllKeys` | main.go:95-98 | after the inserts, the table holds exactly the old ids plus every inserted id |
| `Store.InsertAllKeepsExisting` | main.go:95-98 | a row already in the table is never overwritten |
| `Store.InsertAllFirstWins` | main.go:95-98 | a new id is stored with the first movie that carries it; later duplicates change nothing |
| `Store.InsertAllKeysMatch` | main.go:27-28 | every movie stays stored under its own id, so the table has one entry per distinct id |
| `Store.AcceptRow` | main.go:74-80 | the per-row step of both loaders copies a broken row into an array, repairs it in place, and keeps it exactly as `Records.Accepted` says |
| `Store.Database.CreateTables` | main.go:17-42 | both tables exist and are empty |
| `Store.Database.ClearTables` | main.go:44-53 | both tables are empty, whatever they held before |
| `Store.Database.InsertMovie` | main.go:95-101 | `INSERT OR IGNORE`: the movie is added if its id is absent, and the table is unchanged otherwise; the associations are untouched |
| `Store.Database.InsertGenre` | main.go:151-157 | the association is appended, with no conflict check and no foreign key check; movies are untouched |
| `Store.Database.LoadMovieRow` | main.go:68-103 | one pass of the movie loop inserts the row's movie if the row is accepted and leaves the table as it was otherwise; the associations are untouched |
| `Store.Database.LoadGenreRow` | main.go:133-158 | one pass of the genre loop appends the row's association if the row is accepted and nothing otherwise; the movies are untouched |
| `Store.Database.PopulateMoviesTable` | main.go:56-105 | the movies table becomes the old table with every accepted row's movie inserted in row order, first id wins; the associations are untouched |
| `Store.Database.PopulateMoviesGenresTable` | main.go:121-160 | the associations become the old ones followed by one per accepted genre row, in row order; the movies are untouched |
| `Store.Database.QueryHighestRatedGenres` | main.go:162-187 | the rows returned are the report for the current tables: each genre once, in non-increasing order of mean, exactly the genres with a ranked joined pair |
| `Report.RankCountPositive` | main.go:165-167 | a genre has a positive count of joined, ranked pairs exactly when some association of it names an existing movie with a rank |
| `Report.GroupGenres` | main.go:168 | the groups are distinct, and a genre is a group exactly when its count of joined, ranked pairs is positive |
| `Report.Averages` | main.go:164-168 | one row per group, carrying the group's sum of ranks divided by its number of pairs |
| `Report.Insert` | main.go:169 | inserting into rows sorted by descending mean keeps them sorted, and adds exactly that row |
| `Report.SortDesc` | main.go:169 | the ordering keeps exactly the same rows (a permutation) and sorts them by descending mean |
| `Report.HighestRatedGenresCorrect` | main.go:163-170 | the report lists each genre once; a genre appears exactly when some movie carrying it has a rank; its value is the mean rank over all its joined pairs; rows are in non-increasing order of that value |
| `Report.UnjoinedAssocIgnored` | main.go:165-167 | an association whose movie is missing or has no rank changes no genre's count or sum |
| `Report.DuplicateAssocCountedTwice` | main.go:164-166 | a duplicated association row counts twice in the mean, because the mean is over joined pairs, not distinct movies |
| `Report.MeanBounds` | main.go:164 | if every joined rank of a genre lies in [lo, hi], so does its mean |
| `Pipeline.LoadedMovies` | main.go:200 | the loaded movies table has every movie under its own id, and exactly the ids of the accepted rows |
| `Pipeline.LoadedMoviesFirstRowWins` | main.go:68-98 | an accepted movie row's movie is the one stored under its id unless an earlier accepted row maps to the same id: the first input row wins |
| `Pipeline.PipelineReport` | main.go:207 | the printed report has distinct genres in descending order of mean, exactly the genres with a ranked joined pair |
| `Pipeline.RunPipeline` | main.go:189-208 | whatever the database held before, the tables end up holding exactly what the two loaders build from the rows, and the report depends on the rows alone |
| `Pipeline.DuplicateAndNullScenario` | main.go:162-170 | in a run with a duplicate id and a NULL rank, Gamma repeats id 1 and is ignored, and Beta has no rank, so the report is just `Action` with mean 8.5 |
| `Pipeline.DuplicateAndNullRun` | main.go:189-208 | from the CSV rows Alpha, Beta with a NULL rank, Gamma repeating id 1, and two Action associations, the printed report is just `Action` with mean 8.5 |

## Left out

- File and database I/O are left out: `os.Open`, `sql.Open`, `defer Close`, and the SQL text itself. The database is the `Store.Database` object, and each file is the sequence of rows its reader returns.
- `encoding/csv` tokenisation is left out, including the `LazyQuotes` and `FieldsPerRecord = -1` settings. Each `reader.Read()` result is an input pair: the fields, and whether Read reported an error.
- An input is a finite sequence of rows, and its end is the `io.EOF` that ends each loop. A reader that returned a non-EOF error forever would make the Go loop run forever; that case is not modelled.
- Logging and `fmt` output are left out. This covers the report's header lines and the `%.2f` rounding of each mean.
- `log.Fatalf` and `log.Fatal` exits are left out: a failed `DROP` or `CREATE`, a failed `DELETE` in clearTables, a failed query, a failed scan, a file that cannot be opened, and a failed `sql.Open` in main. In the model these steps succeed.
- Insert errors are left out. With `INSERT OR IGNORE` and Go strings, which are never NULL, the schema's constraints cannot refuse a row. The foreign key from `movies_genres` to `movies` is not enforced, as in SQLite's default.
- Records.MovieFromRecord: a cleanly read movie row with fewer than 4 fields makes the Go program panic when it indexes the row. The loaders require rows read without error to have at least 4 (movies) or 2 (genres) fields.
- Records.MovieFromRecord: a rank is the exact decimal value of the field, as a real. The model does not round it to float64.
- Numbers.ParseFloat handles only decimal literals: an optional sign, digits with at most one `.`, and an optional `e`/`E` exponent. Hex floats, `inf`/`nan`, underscores and range errors are not modelled. Any other text gives 0, which is also what Go returns for a syntax error.
- Numbers.Atoi: Go's `int` is taken to be 64 bits wide.
- Report.Mean: SQLite's floating-point `AVG` is modelled as an exact quotient of reals. No rounding claims are made.
- Report.SortDesc: the query has no tie-break, so the order among genres with equal means is unspecified. The model fixes one particular order and claims only non-increasing order, which holds for every order SQLite may return.
- Report.HighestRatedGenres is a pure function. Its properties are stated by `Report.HighestRatedGenresCorrect`.
