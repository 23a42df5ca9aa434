/**
 * The rows the CSV reader delivers and the typed records the loader builds
 * from them: which rows are accepted (read cleanly, or repaired), and how a
 * movie row and a genre row map positionally to column values.
 */
module Records {
  import opened Wrappers
  import opened Numbers
  import opened Repair

  /** One reader.Read() result: the fields read, and whether Read reported a parse error. */
  datatype CsvRow = CsvRow(fields: seq<string>, hadParseError: bool)

  /** A row of the movies table; rank is SQL NULL when None. */
  datatype Movie = Movie(id: int, name: string, year: int, rank: Option<real>)

  /** A row of the movies_genres table. */
  datatype GenreAssoc = GenreAssoc(movieId: int, genre: string)

  /** The marker the datasets use for a missing year or rank. */
  const NullMarker: string := "NULL"

  /** A movie row is indexed up to field 3 with no length check. */
  const MovieFieldCount: nat := 4
  /** A genre row is indexed up to field 1 with no length check. */
  const GenreFieldCount: nat := 2

  /**
   * The fields the loader goes on with: a clean row as read, a broken one
   * after repair, or None when a broken row has fewer than four fields.
   */
  function Accepted(row: CsvRow): (r: Option<seq<string>>)
    ensures r.None? <==> row.hadParseError && |row.fields| < MinFields
    ensures r.Some? ==> |r.value| == |row.fields|
    ensures !row.hadParseError ==> r == Some(row.fields)
    ensures row.hadParseError && r.Some? ==> r.value == RepairRow(row.fields)
  {
    if row.hadParseError then FixedRow(row.fields) else Some(row.fields)
  }

  /**
   * Rows for which the source's positional indexing cannot go out of range;
   * a cleanly read row that is shorter makes the Go program panic.
   */
  predicate Indexable(rows: seq<CsvRow>, count: nat)
  {
    forall i :: 0 <= i < |rows| && !rows[i].hadParseError ==> |rows[i].fields| >= count
  }

  /** An accepted row is never shorter than what the loader indexes, for either table. */
  lemma AcceptedIndexable(rows: seq<CsvRow>, i: nat, count: nat)
    requires Indexable(rows, count) && i < |rows| && count <= MinFields
    ensures Accepted(rows[i]).Some? ==> |Accepted(rows[i]).value| >= count
  {
  }

  /** The movie a row maps to (fields 0 to 3: id, name, year, rank). */
  function MovieFromRecord(record: seq<string>): (m: Movie)
    requires |record| >= MovieFieldCount
    ensures m.rank.None? <==> record[3] == NullMarker
    ensures m.rank.Some? ==> m.rank.value == ParseFloat(record[3])
    ensures record[2] == NullMarker ==> m.year == 0
    ensures m.name == record[1]
    ensures m.id == Atoi(record[0])
    ensures record[2] != NullMarker ==> m.year == Atoi(record[2])
    ensures MinInt64 <= m.id <= MaxInt64 && MinInt64 <= m.year <= MaxInt64
  {
    var id := Atoi(record[0]);
    var year := if record[2] != NullMarker then Atoi(record[2]) else 0;
    var rank := if record[3] != NullMarker then Some(ParseFloat(record[3])) else None;
    Movie(id, record[1], year, rank)
  }

  /**
   * The best-effort numeric defaults: an id or year field that is not an
   * integer (a non-digit reached before any overflow, or nothing after the
   * sign) gives 0, and a rank field that is not a number is still a rank,
   * of value 0.
   */
  lemma MovieFromRecordDefaults(record: seq<string>, k0: nat, k2: nat)
    requires |record| >= MovieFieldCount
    ensures AtoiRejectsAt(record[0], k0) ==> MovieFromRecord(record).id == 0
    ensures AtoiRejectsAt(record[2], k2) ==> MovieFromRecord(record).year == 0
    ensures record[3] != NullMarker && ParseDecimal(record[3]).None? ==> MovieFromRecord(record).rank == Some(0.0)
  {
    if AtoiRejectsAt(record[0], k0) {
      AtoiRejects(record[0], k0);
    }
    if AtoiRejectsAt(record[2], k2) {
      AtoiRejects(record[2], k2);
    }
  }

  /** The genre association a row maps to (field 0: movie id, field 1: genre). */
  function GenreFromRecord(record: seq<string>): (g: GenreAssoc)
    requires |record| >= GenreFieldCount
    ensures g.genre == record[1]
    ensures g.movieId == Atoi(record[0])
    ensures MinInt64 <= g.movieId <= MaxInt64
  {
    GenreAssoc(Atoi(record[0]), record[1])
  }

  /** The movies the loader tries to insert, in row order: one per accepted row. */
  function MovieRecords(rows: seq<CsvRow>): seq<Movie>
    requires Indexable(rows, MovieFieldCount)
  {
    if rows == [] then []
    else
      var init := rows[..|rows| - 1];
      var last := rows[|rows| - 1];
      assert Indexable(init, MovieFieldCount);
      AcceptedIndexable(rows, |rows| - 1, MovieFieldCount);
      MovieRecords(init) + (match Accepted(last) case None => [] case Some(r) => [MovieFromRecord(r)])
  }

  /** The genre associations the loader inserts, in row order: one per accepted row. */
  function GenreRecords(rows: seq<CsvRow>): seq<GenreAssoc>
    requires Indexable(rows, GenreFieldCount)
  {
    if rows == [] then []
    else
      var init := rows[..|rows| - 1];
      var last := rows[|rows| - 1];
      assert Indexable(init, GenreFieldCount);
      AcceptedIndexable(rows, |rows| - 1, GenreFieldCount);
      GenreRecords(init) + (match Accepted(last) case None => [] case Some(r) => [GenreFromRecord(r)])
  }

  /** How many rows are accepted. */
  function AcceptedCount(rows: seq<CsvRow>): nat
  {
    if rows == [] then 0
    else AcceptedCount(rows[..|rows| - 1]) + (if Accepted(rows[|rows| - 1]).Some? then 1 else 0)
  }

  /** A part of indexable rows is indexable. */
  lemma IndexableParts(a: seq<CsvRow>, b: seq<CsvRow>, count: nat)
    requires Indexable(a + b, count)
    ensures Indexable(a, count) && Indexable(b, count)
  {
    assert forall i :: 0 <= i < |a| ==> (a + b)[i] == a[i];
    assert forall i :: 0 <= i < |b| ==> (a + b)[|a| + i] == b[i];
  }

  /** The last row of a + b, and the rows before it, when b is not empty. */
  lemma SplitLast(a: seq<CsvRow>, b: seq<CsvRow>)
    requires b != []
    ensures (a + b)[..|a + b| - 1] == a + b[..|b| - 1]
    ensures (a + b)[|a + b| - 1] == b[|b| - 1]
  {
  }

  /** Rows are processed one at a time: the movies of a concatenation are the concatenation of the movies. */
  lemma {:induction false} MovieRecordsAppend(a: seq<CsvRow>, b: seq<CsvRow>)
    requires Indexable(a, MovieFieldCount) && Indexable(b, MovieFieldCount) && Indexable(a + b, MovieFieldCount)
    ensures MovieRecords(a + b) == MovieRecords(a) + MovieRecords(b)
    decreases |b|
  {
    if b == [] {
      assert a + b == a;
    } else {
      SplitLast(a, b);
      IndexableParts(b[..|b| - 1], [b[|b| - 1]], MovieFieldCount);
      assert b[..|b| - 1] + [b[|b| - 1]] == b;
      IndexableParts(a + b[..|b| - 1], [b[|b| - 1]], MovieFieldCount);
      assert a + b[..|b| - 1] + [b[|b| - 1]] == a + b;
      MovieRecordsAppend(a, b[..|b| - 1]);
    }
  }

  /** Rows are processed one at a time: the associations of a concatenation are the concatenation of the associations. */
  lemma {:induction false} GenreRecordsAppend(a: seq<CsvRow>, b: seq<CsvRow>)
    requires Indexable(a, GenreFieldCount) && Indexable(b, GenreFieldCount) && Indexable(a + b, GenreFieldCount)
    ensures GenreRecords(a + b) == GenreRecords(a) + GenreRecords(b)
    decreases |b|
  {
    if b == [] {
      assert a + b == a;
    } else {
      SplitLast(a, b);
      IndexableParts(b[..|b| - 1], [b[|b| - 1]], GenreFieldCount);
      assert b[..|b| - 1] + [b[|b| - 1]] == b;
      IndexableParts(a + b[..|b| - 1], [b[|b| - 1]], GenreFieldCount);
      assert a + b[..|b| - 1] + [b[|b| - 1]] == a + b;
      GenreRecordsAppend(a, b[..|b| - 1]);
    }
  }

  lemma {:induction false} AcceptedCountAppend(a: seq<CsvRow>, b: seq<CsvRow>)
    ensures AcceptedCount(a + b) == AcceptedCount(a) + AcceptedCount(b)
    decreases |b|
  {
    if b == [] {
      assert a + b == a;
    } else {
      SplitLast(a, b);
      AcceptedCountAppend(a, b[..|b| - 1]);
    }
  }

  /** Each accepted genre row yields exactly one association: as many associations as accepted rows. */
  lemma {:induction false} GenreRecordsLength(rows: seq<CsvRow>)
    requires Indexable(rows, GenreFieldCount)
    ensures |GenreRecords(rows)| == AcceptedCount(rows)
  {
    if rows != [] {
      assert Indexable(rows[..|rows| - 1], GenreFieldCount);
      GenreRecordsLength(rows[..|rows| - 1]);
    }
  }

  /**
   * The accepted genre row k contributes the association at position
   * AcceptedCount(rows[..k]), built from its own fields: no deduplication,
   * and no filtering on whether the movie exists.
   */
  lemma GenreRecordsPosition(rows: seq<CsvRow>, k: nat)
    requires Indexable(rows, GenreFieldCount) && k < |rows| && Accepted(rows[k]).Some?
    ensures |Accepted(rows[k]).value| >= GenreFieldCount
    ensures AcceptedCount(rows[..k]) < |GenreRecords(rows)|
    ensures GenreRecords(rows)[AcceptedCount(rows[..k])] == GenreFromRecord(Accepted(rows[k]).value)
  {
    AcceptedIndexable(rows, k, GenreFieldCount);
    var before, here, after := rows[..k], [rows[k]], rows[k + 1..];
    assert rows == before + here + after;
    IndexableParts(before + here, after, GenreFieldCount);
    IndexableParts(before, here, GenreFieldCount);
    GenreRecordsAppend(before + here, after);
    GenreRecordsAppend(before, here);
    GenreRecordsLength(before);
    assert here[..0] == [];
  }

  /** Each accepted movie row yields exactly one movie: as many movies as accepted rows. */
  lemma {:induction false} MovieRecordsLength(rows: seq<CsvRow>)
    requires Indexable(rows, MovieFieldCount)
    ensures |MovieRecords(rows)| == AcceptedCount(rows)
  {
    if rows != [] {
      assert Indexable(rows[..|rows| - 1], MovieFieldCount);
      MovieRecordsLength(rows[..|rows| - 1]);
    }
  }

  /**
   * The accepted movie row k contributes the movie at position
   * AcceptedCount(rows[..k]), built from its own fields.
   */
  lemma MovieRecordsPosition(rows: seq<CsvRow>, k: nat)
    requires Indexable(rows, MovieFieldCount) && k < |rows| && Accepted(rows[k]).Some?
    ensures |Accepted(rows[k]).value| >= MovieFieldCount
    ensures AcceptedCount(rows[..k]) < |MovieRecords(rows)|
    ensures MovieRecords(rows)[AcceptedCount(rows[..k])] == MovieFromRecord(Accepted(rows[k]).value)
  {
    AcceptedIndexable(rows, k, MovieFieldCount);
    var before, here, after := rows[..k], [rows[k]], rows[k + 1..];
    assert rows == before + here + after;
    IndexableParts(before + here, after, MovieFieldCount);
    IndexableParts(before, here, MovieFieldCount);
    MovieRecordsAppend(before + here, after);
    MovieRecordsAppend(before, here);
    MovieRecordsLength(before);
    assert here[..0] == [];
  }

  /** Row j of rows is accepted and maps to the movie m. */
  predicate RowMovie(rows: seq<CsvRow>, j: int, m: Movie)
  {
    0 <= j < |rows| && Accepted(rows[j]).Some? && |Accepted(rows[j]).value| >= MovieFieldCount &&
    MovieFromRecord(Accepted(rows[j]).value) == m
  }

  /** Every movie the loader tries to insert comes from an accepted row. */
  lemma {:induction false} MovieRecordsFrom(rows: seq<CsvRow>, p: nat)
    requires Indexable(rows, MovieFieldCount) && p < |MovieRecords(rows)|
    ensures exists j :: RowMovie(rows, j, MovieRecords(rows)[p])
  {
    var i := |rows| - 1;
    MovieRecordsStep(rows, i);
    assert rows[..i + 1] == rows;
    var init := MovieRecords(rows[..i]);
    if p < |init| {
      MovieRecordsFrom(rows[..i], p);
      var j :| RowMovie(rows[..i], j, init[p]);
      assert rows[..i][j] == rows[j];
      assert RowMovie(rows, j, MovieRecords(rows)[p]);
    } else {
      AcceptedIndexable(rows, i, MovieFieldCount);
      assert RowMovie(rows, i, MovieRecords(rows)[p]);
    }
  }

  /** One more row: the movies of rows[..i + 1] extend those of rows[..i] by the movie of row i, if it is accepted. */
  lemma MovieRecordsStep(rows: seq<CsvRow>, i: nat)
    requires Indexable(rows, MovieFieldCount) && i < |rows|
    ensures Indexable(rows[..i], MovieFieldCount) && Indexable(rows[..i + 1], MovieFieldCount)
    ensures Accepted(rows[i]).Some? ==> |Accepted(rows[i]).value| >= MovieFieldCount
    ensures MovieRecords(rows[..i + 1]) ==
      MovieRecords(rows[..i]) + (if Accepted(rows[i]).Some? then [MovieFromRecord(Accepted(rows[i]).value)] else [])
  {
    var prefix := rows[..i + 1];
    assert prefix[..i] == rows[..i] && prefix[i] == rows[i];
    AcceptedIndexable(rows, i, MovieFieldCount);
  }

  /** One more row: the associations of rows[..i + 1] extend those of rows[..i] by the one of row i, if it is accepted. */
  lemma GenreRecordsStep(rows: seq<CsvRow>, i: nat)
    requires Indexable(rows, GenreFieldCount) && i < |rows|
    ensures Indexable(rows[..i], GenreFieldCount) && Indexable(rows[..i + 1], GenreFieldCount)
    ensures Accepted(rows[i]).Some? ==> |Accepted(rows[i]).value| >= GenreFieldCount
    ensures GenreRecords(rows[..i + 1]) ==
      GenreRecords(rows[..i]) + (if Accepted(rows[i]).Some? then [GenreFromRecord(Accepted(rows[i]).value)] else [])
  {
    var prefix := rows[..i + 1];
    assert prefix[..i] == rows[..i] && prefix[i] == rows[i];
    AcceptedIndexable(rows, i, GenreFieldCount);
  }

  /** Inserting a broken row keeps the rows indexable. */
  lemma IndexableInsert(before: seq<CsvRow>, row: CsvRow, after: seq<CsvRow>, count: nat)
    requires row.hadParseError && Indexable(before + after, count)
    ensures Indexable(before + [row] + after, count)
  {
    var all := before + [row] + after;
    forall i | 0 <= i < |all| && !all[i].hadParseError
      ensures |all[i].fields| >= count
    {
      if i < |before| {
        assert all[i] == (before + after)[i];
      } else {
        assert all[i] == (before + after)[i - 1];
      }
    }
  }

  /** An irreparable row on its own yields no record. */
  lemma IrreparableRowAlone(row: CsvRow)
    requires row.hadParseError && |row.fields| < MinFields
    ensures Indexable([row], MovieFieldCount) && MovieRecords([row]) == []
    ensures Indexable([row], GenreFieldCount) && GenreRecords([row]) == []
    ensures AcceptedCount([row]) == 0
  {
    assert [row][..0] == [];
  }

  /** An irreparable row (a broken row with fewer than four fields) is skipped and the next row is processed. */
  lemma IrreparableRowSkipped(before: seq<CsvRow>, row: CsvRow, after: seq<CsvRow>, count: nat)
    requires row.hadParseError && |row.fields| < MinFields
    requires count == MovieFieldCount || count == GenreFieldCount
    requires Indexable(before + after, count)
    ensures Indexable(before + [row] + after, count)
    ensures count == GenreFieldCount ==> GenreRecords(before + [row] + after) == GenreRecords(before + after)
    ensures count == MovieFieldCount ==> MovieRecords(before + [row] + after) == MovieRecords(before + after)
  {
    if count == GenreFieldCount {
      IrreparableGenreRowSkipped(before, row, after);
    } else {
      IrreparableMovieRowSkipped(before, row, after);
    }
  }

  lemma IrreparableMovieRowSkipped(before: seq<CsvRow>, row: CsvRow, after: seq<CsvRow>)
    requires row.hadParseError && |row.fields| < MinFields
    requires Indexable(before + after, MovieFieldCount)
    ensures Indexable(before + [row] + after, MovieFieldCount)
    ensures MovieRecords(before + [row] + after) == MovieRecords(before + after)
  {
    IndexableInsert(before, row, after, MovieFieldCount);
    IrreparableRowAlone(row);
    IndexableParts(before + [row], after, MovieFieldCount);
    IndexableParts(before, after, MovieFieldCount);
    MovieRecordsAppend(before + [row], after);
    MovieRecordsAppend(before, [row]);
    MovieRecordsAppend(before, after);
    assert MovieRecords(before + [row]) == MovieRecords(before) + [] == MovieRecords(before);
  }

  lemma IrreparableGenreRowSkipped(before: seq<CsvRow>, row: CsvRow, after: seq<CsvRow>)
    requires row.hadParseError && |row.fields| < MinFields
    requires Indexable(before + after, GenreFieldCount)
    ensures Indexable(before + [row] + after, GenreFieldCount)
    ensures GenreRecords(before + [row] + after) == GenreRecords(before + after)
  {
    IndexableInsert(before, row, after, GenreFieldCount);
    IrreparableRowAlone(row);
    IndexableParts(before + [row], after, GenreFieldCount);
    IndexableParts(before, after, GenreFieldCount);
    GenreRecordsAppend(before + [row], after);
    GenreRecordsAppend(before, [row]);
    GenreRecordsAppend(before, after);
    assert GenreRecords(before + [row]) == GenreRecords(before) + [] == GenreRecords(before);
  }

  /**
   * The repair threshold is four fields on the genre path too: a broken
   * genre row with two or three fields is skipped although the loader only
   * needs two.
   */
  lemma BrokenShortGenreRowSkipped(fields: seq<string>)
    requires GenreFieldCount <= |fields| < MinFields
    ensures GenreRecords([CsvRow(fields, true)]) == []
    ensures GenreRecords([CsvRow(fields, false)]) == [GenreFromRecord(fields)]
  {
    assert [CsvRow(fields, true)][..0] == [];
    assert [CsvRow(fields, false)][..0] == [];
  }

  /** The numeric fields of the example rows and their values. */
  lemma ScenarioIds()
    ensures Atoi("1") == 1 && Atoi("2") == 2
  {
    AtoiOfDigits("1");
    AtoiOfDigits("2");
  }

  lemma ScenarioYear2000()
    ensures Atoi("2000") == 2000
  {
    assert DigitsValue("2") == 2 by {
      assert "2"[..0] == "";
    }
    assert DigitsValue("20") == 20 by {
      assert "20"[..1] == "2";
    }
    assert DigitsValue("200") == 200 by {
      assert "200"[..2] == "20";
    }
    assert DigitsValue("2000") == 2000 by {
      assert "2000"[..3] == "200";
    }
    AtoiOfDigits("2000");
  }

  lemma ScenarioYear1999()
    ensures Atoi("1999") == 1999
  {
    assert DigitsValue("1") == 1 by {
      assert "1"[..0] == "";
    }
    assert DigitsValue("19") == 19 by {
      assert "19"[..1] == "1";
    }
    assert DigitsValue("199") == 199 by {
      assert "199"[..2] == "19";
    }
    assert DigitsValue("1999") == 1999 by {
      assert "1999"[..3] == "199";
    }
    AtoiOfDigits("1999");
  }

  lemma ScenarioRank()
    ensures ParseFloat("8.5") == 8.5
  {
    assert "8.5" == "8" + "." + "5";
    ParseFloatDecimal("8", "5");
  }

  /** Two example rows map to the expected movies: a decimal rank, and a NULL rank kept as NULL. */
  lemma ScenarioRowsMapped()
    ensures MovieFromRecord(["1", "Alpha", "2000", "8.5"]) == Movie(1, "Alpha", 2000, Some(8.5))
    ensures MovieFromRecord(["2", "Beta", "1999", "NULL"]) == Movie(2, "Beta", 1999, None)
  {
    ScenarioIds();
    ScenarioYear2000();
    ScenarioYear1999();
    ScenarioRank();
  }

  lemma ScenarioYear2001()
    ensures Atoi("2001") == 2001
  {
    assert DigitsValue("200") == 200 by {
      assert "200"[..2] == "20" && "20"[..1] == "2" && "2"[..0] == "";
    }
    assert DigitsValue("2001") == 2001 by {
      assert "2001"[..3] == "200";
    }
    AtoiOfDigits("2001");
  }

  lemma ScenarioRank9()
    ensures ParseFloat("9.0") == 9.0
  {
    assert "9.0" == "9" + "." + "0";
    ParseFloatDecimal("9", "0");
    assert DigitsValue("0") == 0 by {
      assert "0"[..0] == "";
    }
    assert DigitsValue("9") == 9 by {
      assert "9"[..0] == "";
    }
  }

  /** The row that repeats id 1 maps to a movie with that id and its own data. */
  lemma ScenarioDuplicateRowMapped()
    ensures MovieFromRecord(["1", "Gamma", "2001", "9.0"]) == Movie(1, "Gamma", 2001, Some(9.0))
  {
    ScenarioIds();
    ScenarioYear2001();
    ScenarioRank9();
  }
}
