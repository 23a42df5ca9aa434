/**
 * The program's main sequence, with the database handle and the two CSV
 * files given as inputs: create the tables, clear them, load the movies,
 * load the genre associations, and run the report query.
 */
module Pipeline {
  import opened Wrappers
  import opened Records
  import opened Store
  import opened Report

  /** The movies table the loader builds from the movie rows on an empty store. */
  function LoadedMovies(movieRows: seq<CsvRow>): (r: map<int, Movie>)
    requires Indexable(movieRows, MovieFieldCount)
    ensures KeysMatch(r)
    ensures r.Keys == Ids(MovieRecords(movieRows))
  {
    InsertAllKeysMatch(map[], MovieRecords(movieRows));
    InsertAllKeys(map[], MovieRecords(movieRows));
    InsertAll(map[], MovieRecords(movieRows))
  }

  /**
   * First row wins: the movie of an accepted row is the one stored under its
   * id unless an earlier accepted row maps to a movie with the same id.
   */
  lemma LoadedMoviesFirstRowWins(movieRows: seq<CsvRow>, k: nat, m: Movie)
    requires Indexable(movieRows, MovieFieldCount) && RowMovie(movieRows, k, m)
    requires forall j, other :: 0 <= j < k && RowMovie(movieRows, j, other) ==> other.id != m.id
    ensures m.id in LoadedMovies(movieRows) && LoadedMovies(movieRows)[m.id] == m
  {
    var ms := MovieRecords(movieRows);
    var before := movieRows[..k];
    var p := AcceptedCount(before);
    MovieRecordsPosition(movieRows, k);
    assert movieRows == before + movieRows[k..];
    IndexableParts(before, movieRows[k..], MovieFieldCount);
    MovieRecordsAppend(before, movieRows[k..]);
    MovieRecordsLength(before);
    forall q | 0 <= q < p
      ensures ms[q].id != ms[p].id
    {
      assert ms[q] == MovieRecords(before)[q];
      MovieRecordsFrom(before, q);
      var j :| RowMovie(before, j, ms[q]);
      assert before[j] == movieRows[j];
      assert RowMovie(movieRows, j, ms[q]);
    }
    InsertAllFirstWins(map[], ms, p);
  }

  /** The report the program prints for the given input rows. */
  function PipelineReport(movieRows: seq<CsvRow>, genreRows: seq<CsvRow>): (r: seq<GenreAvg>)
    requires Indexable(movieRows, MovieFieldCount) && Indexable(genreRows, GenreFieldCount)
    ensures DistinctGenres(r) && SortedDesc(r)
    ensures forall g :: HasRankedPair(LoadedMovies(movieRows), GenreRecords(genreRows), g) <==>
      exists e :: e in r && e.genre == g
  {
    HighestRatedGenresCorrect(LoadedMovies(movieRows), GenreRecords(genreRows));
    HighestRatedGenres(LoadedMovies(movieRows), GenreRecords(genreRows))
  }

  /**
   * main: whatever the database held before, the tables end up holding
   * exactly what the two loaders build from the rows, and the report
   * depends on the rows alone.
   */
  method RunPipeline(db: Database, movieRows: seq<CsvRow>, genreRows: seq<CsvRow>) returns (report: seq<GenreAvg>)
    requires Indexable(movieRows, MovieFieldCount) && Indexable(genreRows, GenreFieldCount)
    modifies db
    ensures db.Valid()
    ensures db.movies == LoadedMovies(movieRows)
    ensures db.movieGenres == GenreRecords(genreRows)
    ensures report == PipelineReport(movieRows, genreRows)
  {
    db.CreateTables();
    db.ClearTables();
    db.PopulateMoviesTable(movieRows);
    db.PopulateMoviesGenresTable(genreRows);
    assert [] + GenreRecords(genreRows) == GenreRecords(genreRows);
    report := db.QueryHighestRatedGenres();
  }

  /**
   * A duplicate id plus a NULL rank, from the mapped rows on: Gamma repeats id 1
   * and is ignored, Beta has no rank, so Action's mean is Alpha's 8.5.
   */
  lemma DuplicateAndNullScenario()
    ensures var alpha := Movie(1, "Alpha", 2000, Some(8.5));
      var movies := InsertAll(map[], [alpha, Movie(2, "Beta", 1999, None), Movie(1, "Gamma", 2001, Some(9.0))]);
      movies == map[1 := alpha, 2 := Movie(2, "Beta", 1999, None)] &&
      HighestRatedGenres(movies, [GenreAssoc(1, "Action"), GenreAssoc(2, "Action")]) == [GenreAvg("Action", 8.5)]
  {
    var alpha := Movie(1, "Alpha", 2000, Some(8.5));
    var beta := Movie(2, "Beta", 1999, None);
    var ms := [alpha, beta, Movie(1, "Gamma", 2001, Some(9.0))];
    assert ms[..2] == [alpha, beta] && [alpha, beta][..1] == [alpha] && [alpha][..0] == [];
    assert InsertAll(map[], [alpha]) == map[1 := alpha];
    assert InsertAll(map[], [alpha, beta]) == map[1 := alpha, 2 := beta];
    var movies := InsertAll(map[], ms);
    assert movies == map[1 := alpha, 2 := beta];
    var a1, a2 := GenreAssoc(1, "Action"), GenreAssoc(2, "Action");
    var assoc := [a1, a2];
    assert assoc[..1] == [a1] && [a1][..0] == [];
    assert Joins(movies, a1) && !Joins(movies, a2);
    assert GroupGenres(movies, [a1]) == ["Action"];
    assert GroupGenres(movies, assoc) == ["Action"];
    assert RankCount(movies, [a1], "Action") == 1;
    assert RankCount(movies, assoc, "Action") == 1;
    assert RankSum(movies, [a1], "Action") == 8.5;
    assert RankSum(movies, assoc, "Action") == 8.5;
    assert Averages(movies, assoc) == [GenreAvg("Action", 8.5)];
  }

  /**
   * The same run from the CSV rows on: the movie rows Alpha, Beta (NULL
   * rank) and Gamma (id 1 again), and two Action associations, print only
   * Action with mean 8.5.
   */
  lemma DuplicateAndNullRun()
    ensures var movieRows := [CsvRow(["1", "Alpha", "2000", "8.5"], false), CsvRow(["2", "Beta", "1999", "NULL"], false),
                              CsvRow(["1", "Gamma", "2001", "9.0"], false)];
      var genreRows := [CsvRow(["1", "Action"], false), CsvRow(["2", "Action"], false)];
      Indexable(movieRows, MovieFieldCount) && Indexable(genreRows, GenreFieldCount) &&
      PipelineReport(movieRows, genreRows) == [GenreAvg("Action", 8.5)]
  {
    var f0, f1, f2 := ["1", "Alpha", "2000", "8.5"], ["2", "Beta", "1999", "NULL"], ["1", "Gamma", "2001", "9.0"];
    var movieRows := [CsvRow(f0, false), CsvRow(f1, false), CsvRow(f2, false)];
    var genreRows := [CsvRow(["1", "Action"], false), CsvRow(["2", "Action"], false)];
    ScenarioRowsMapped();
    ScenarioDuplicateRowMapped();
    ScenarioIds();
    var alpha, beta, gamma := Movie(1, "Alpha", 2000, Some(8.5)), Movie(2, "Beta", 1999, None), Movie(1, "Gamma", 2001, Some(9.0));
    MovieRowsOfRun(movieRows, f0, f1, f2, alpha, beta, gamma);
    GenreRowsOfRun(genreRows);
    DuplicateAndNullScenario();
  }

  /** Three clean movie rows give their three movies, in order. */
  lemma MovieRowsOfRun(rows: seq<CsvRow>, f0: seq<string>, f1: seq<string>, f2: seq<string>, a: Movie, b: Movie, c: Movie)
    requires rows == [CsvRow(f0, false), CsvRow(f1, false), CsvRow(f2, false)]
    requires |f0| >= MovieFieldCount && |f1| >= MovieFieldCount && |f2| >= MovieFieldCount
    requires MovieFromRecord(f0) == a && MovieFromRecord(f1) == b && MovieFromRecord(f2) == c
    ensures Indexable(rows, MovieFieldCount) && MovieRecords(rows) == [a, b, c]
  {
    MovieRecordsStep(rows, 0);
    MovieRecordsStep(rows, 1);
    MovieRecordsStep(rows, 2);
    assert rows[..0] == [] && rows[..3] == rows;
  }

  /** Two clean genre rows give their two associations, in order. */
  lemma GenreRowsOfRun(rows: seq<CsvRow>)
    requires rows == [CsvRow(["1", "Action"], false), CsvRow(["2", "Action"], false)]
    ensures Indexable(rows, GenreFieldCount) && GenreRecords(rows) == [GenreAssoc(1, "Action"), GenreAssoc(2, "Action")]
  {
    ScenarioIds();
    GenreRecordsStep(rows, 0);
    GenreRecordsStep(rows, 1);
    assert rows[..0] == [] && rows[..2] == rows;
  }
}
