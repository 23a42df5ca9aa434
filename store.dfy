/**
 * The SQLite store as the loader uses it: the movies table keyed by its
 * INTEGER PRIMARY KEY id and filled with INSERT OR IGNORE, and the
 * movies_genres table, which only ever grows by plain INSERTs (its foreign
 * key to movies is declared but not enforced).
 */
module Store {
  import opened Wrappers
  import opened Repair
  import opened Records
  import opened Report

  /** INSERT OR IGNORE keyed on id: a row whose id is already present is discarded. */
  function InsertOrIgnore(movies: map<int, Movie>, m: Movie): map<int, Movie>
  {
    if m.id in movies then movies else movies[m.id := m]
  }

  /** The movies table after inserting ms, in order, into movies. */
  function InsertAll(movies: map<int, Movie>, ms: seq<Movie>): map<int, Movie>
  {
    if ms == [] then movies else InsertOrIgnore(InsertAll(movies, ms[..|ms| - 1]), ms[|ms| - 1])
  }

  /** Each movie is stored under its own id. */
  predicate KeysMatch(movies: map<int, Movie>)
  {
    forall id :: id in movies ==> movies[id].id == id
  }

  /** The ids of a sequence of movies. */
  function Ids(ms: seq<Movie>): set<int>
  {
    set k | 0 <= k < |ms| :: ms[k].id
  }

  /** After the inserts the table holds the old ids and every inserted id, and no others. */
  lemma {:induction false} InsertAllKeys(movies: map<int, Movie>, ms: seq<Movie>)
    ensures InsertAll(movies, ms).Keys == movies.Keys + Ids(ms)
  {
    if ms != [] {
      var init := ms[..|ms| - 1];
      InsertAllKeys(movies, init);
      assert Ids(ms) == Ids(init) + {ms[|ms| - 1].id} by {
        forall id | id in Ids(ms) ensures id in Ids(init) + {ms[|ms| - 1].id} {
          var k :| 0 <= k < |ms| && ms[k].id == id;
          if k < |ms| - 1 {
            assert init[k] == ms[k];
          }
        }
        forall id | id in Ids(init) ensures id in Ids(ms) {
          var k :| 0 <= k < |init| && init[k].id == id;
          assert ms[k] == init[k];
        }
      }
    }
  }

  /** Rows already in the table are never overwritten. */
  lemma {:induction false} InsertAllKeepsExisting(movies: map<int, Movie>, ms: seq<Movie>, id: int)
    requires id in movies
    ensures id in InsertAll(movies, ms) && InsertAll(movies, ms)[id] == movies[id]
  {
    if ms != [] {
      InsertAllKeepsExisting(movies, ms[..|ms| - 1], id);
    }
  }

  /**
   * First write wins: a new id is stored with the data of the first movie
   * that carries it; later movies with the same id change nothing.
   */
  lemma {:induction false} InsertAllFirstWins(movies: map<int, Movie>, ms: seq<Movie>, k: nat)
    requires k < |ms| && ms[k].id !in movies
    requires forall j :: 0 <= j < k ==> ms[j].id != ms[k].id
    ensures ms[k].id in InsertAll(movies, ms) && InsertAll(movies, ms)[ms[k].id] == ms[k]
  {
    var init := ms[..|ms| - 1];
    if k == |ms| - 1 {
      InsertAllKeys(movies, init);
      assert ms[k].id !in Ids(init);
    } else {
      InsertAllFirstWins(movies, init, k);
    }
  }

  /** The inserts keep every movie under its own id, so the table has one entry per distinct id. */
  lemma {:induction false} InsertAllKeysMatch(movies: map<int, Movie>, ms: seq<Movie>)
    requires KeysMatch(movies)
    ensures KeysMatch(InsertAll(movies, ms))
  {
    if ms != [] {
      InsertAllKeysMatch(movies, ms[..|ms| - 1]);
    }
  }

  /** Appending one movie to the inserts is one more INSERT OR IGNORE. */
  lemma InsertAllSnoc(current: map<int, Movie>, movies: map<int, Movie>, ms: seq<Movie>, m: Movie)
    requires current == InsertAll(movies, ms)
    ensures InsertOrIgnore(current, m) == InsertAll(movies, ms + [m])
  {
    assert (ms + [m])[..|ms + [m]| - 1] == ms;
  }

  /**
   * The per-row step both loaders share: a cleanly read row is used as is;
   * a broken one is copied into a buffer, repaired in place and kept only
   * if fixBrokenCSVLine does not return nil.
   */
  method AcceptRow(row: CsvRow) returns (record: seq<string>, kept: bool)
    ensures Accepted(row) == if kept then Some(record) else None
  {
    record := row.fields;
    kept := true;
    if row.hadParseError {
      var fields := new string[|record|](j requires 0 <= j < |record| => record[j]);
      assert fields[..] == record;
      kept := FixBrokenCsvLine(fields);
      record := fields[..];
    }
  }

  class Database {
    /** The movies table, by id. */
    var movies: map<int, Movie>
    /** The movies_genres table, in insertion order. */
    var movieGenres: seq<GenreAssoc>

    predicate Valid()
      reads this
    {
      KeysMatch(movies)
    }

    /** createTables: both tables are dropped and created empty. */
    method CreateTables()
      modifies this
      ensures Valid() && movies == map[] && movieGenres == []
    {
      movies := map[];
      movieGenres := [];
    }

    /** clearTables: DELETE FROM both tables. */
    method ClearTables()
      modifies this
      ensures Valid() && movies == map[] && movieGenres == []
    {
      movies := map[];
      movieGenres := [];
    }

    /** INSERT OR IGNORE INTO movies. */
    method InsertMovie(m: Movie)
      requires Valid()
      modifies this
      ensures Valid()
      ensures movies == InsertOrIgnore(old(movies), m)
      ensures old(m.id in movies) ==> movies == old(movies)
      ensures movieGenres == old(movieGenres)
    {
      if m.id !in movies {
        movies := movies[m.id := m];
      }
    }

    /** INSERT INTO movies_genres: no conflict handling and no check that the movie exists. */
    method InsertGenre(g: GenreAssoc)
      modifies this
      ensures movieGenres == old(movieGenres) + [g]
      ensures movies == old(movies)
    {
      movieGenres := movieGenres + [g];
    }

    /** queryHighestRatedGenres: the rows the query returns for the current tables. */
    method QueryHighestRatedGenres() returns (report: seq<GenreAvg>)
      ensures report == HighestRatedGenres(movies, movieGenres)
      ensures DistinctGenres(report) && SortedDesc(report)
      ensures forall g :: HasRankedPair(movies, movieGenres, g) <==> exists e :: e in report && e.genre == g
    {
      report := HighestRatedGenres(movies, movieGenres);
      HighestRatedGenresCorrect(movies, movieGenres);
    }

    /**
     * One pass of populateMoviesTable's loop: row i is repaired if broken,
     * then its movie is inserted, or the row is skipped.
     */
    method LoadMovieRow(ghost base: map<int, Movie>, rows: seq<CsvRow>, i: nat)
      requires Valid() && i < |rows| && Indexable(rows, MovieFieldCount)
      requires movies == InsertAll(base, MovieRecords(rows[..i]))
      modifies this
      ensures Valid()
      ensures movies == InsertAll(base, MovieRecords(rows[..i + 1]))
      ensures movieGenres == old(movieGenres)
    {
      var record, kept := AcceptRow(rows[i]);
      MovieRecordsStep(rows, i);
      if kept {
        var m := MovieFromRecord(record);
        InsertAllSnoc(movies, base, MovieRecords(rows[..i]), m);
        InsertMovie(m);
      } else {
        assert MovieRecords(rows[..i + 1]) == MovieRecords(rows[..i]) + [] == MovieRecords(rows[..i]);
      }
    }

    /**
     * populateMoviesTable over the rows the reader returns until EOF: a
     * broken row is repaired in place and skipped if irreparable, every
     * other row is mapped and inserted, and nothing stops the loop.
     */
    method PopulateMoviesTable(rows: seq<CsvRow>)
      requires Valid() && Indexable(rows, MovieFieldCount)
      modifies this
      ensures Valid()
      ensures movies == InsertAll(old(movies), MovieRecords(rows))
      ensures movieGenres == old(movieGenres)
    {
      var i := 0;
      assert rows[..0] == [];
      while i < |rows|
        invariant 0 <= i <= |rows|
        invariant Valid()
        invariant movies == InsertAll(old(movies), MovieRecords(rows[..i]))
        invariant movieGenres == old(movieGenres)
      {
        LoadMovieRow(old(movies), rows, i);
        i := i + 1;
      }
      assert rows[..i] == rows;
    }

    /**
     * One pass of populateMoviesGenresTable's loop: row i is repaired if
     * broken, then its association is appended, or the row is skipped.
     */
    method LoadGenreRow(ghost base: seq<GenreAssoc>, rows: seq<CsvRow>, i: nat)
      requires i < |rows| && Indexable(rows, GenreFieldCount)
      requires movieGenres == base + GenreRecords(rows[..i])
      modifies this
      ensures movieGenres == base + GenreRecords(rows[..i + 1])
      ensures movies == old(movies)
    {
      var record, kept := AcceptRow(rows[i]);
      GenreRecordsStep(rows, i);
      if kept {
        InsertGenre(GenreFromRecord(record));
      } else {
        assert GenreRecords(rows[..i + 1]) == GenreRecords(rows[..i]) + [] == GenreRecords(rows[..i]);
      }
    }

    /**
     * populateMoviesGenresTable over the rows the reader returns until EOF:
     * the same repair, with the same four-field threshold, then one append
     * per accepted row.
     */
    method PopulateMoviesGenresTable(rows: seq<CsvRow>)
      requires Indexable(rows, GenreFieldCount)
      modifies this
      ensures movieGenres == old(movieGenres) + GenreRecords(rows)
      ensures movies == old(movies)
    {
      var i := 0;
      assert rows[..0] == [];
      while i < |rows|
        invariant 0 <= i <= |rows|
        invariant movieGenres == old(movieGenres) + GenreRecords(rows[..i])
        invariant movies == old(movies)
      {
        LoadGenreRow(old(movieGenres), rows, i);
        i := i + 1;
      }
      assert rows[..i] == rows;
    }
  }
}
