/**
 * queryHighestRatedGenres as a function of the two tables: the movies with
 * a rank are joined to their genre associations, grouped by genre, and
 * each genre is reported once with the mean rank over its joined pairs,
 * highest mean first.
 */
module Report {
  import opened Wrappers
  import opened Records

  /** One result row: a genre and AVG(rank) over its joined pairs. */
  datatype GenreAvg = GenreAvg(genre: string, avgRank: real)

  /** An association survives the join and the WHERE clause: its movie exists and has a rank. */
  predicate Joins(movies: map<int, Movie>, a: GenreAssoc)
  {
    a.movieId in movies && movies[a.movieId].rank.Some?
  }

  /** The rank a surviving association contributes. */
  function RankOf(movies: map<int, Movie>, a: GenreAssoc): real
    requires Joins(movies, a)
  {
    movies[a.movieId].rank.value
  }

  /** Some association of genre g joins a movie with a rank. */
  predicate HasRankedPair(movies: map<int, Movie>, assoc: seq<GenreAssoc>, g: string)
  {
    exists k :: 0 <= k < |assoc| && assoc[k].genre == g && Joins(movies, assoc[k])
  }

  /** COUNT(rank) over the joined pairs of genre g: every association row counts, duplicates included. */
  function RankCount(movies: map<int, Movie>, assoc: seq<GenreAssoc>, g: string): nat
  {
    if assoc == [] then 0
    else
      var a := assoc[|assoc| - 1];
      RankCount(movies, assoc[..|assoc| - 1], g) + (if a.genre == g && Joins(movies, a) then 1 else 0)
  }

  /** SUM(rank) over the joined pairs of genre g. */
  function RankSum(movies: map<int, Movie>, assoc: seq<GenreAssoc>, g: string): real
  {
    if assoc == [] then 0.0
    else
      var a := assoc[|assoc| - 1];
      RankSum(movies, assoc[..|assoc| - 1], g) + (if a.genre == g && Joins(movies, a) then RankOf(movies, a) else 0.0)
  }

  /** AVG(rank) for a genre that has at least one joined pair. */
  function Mean(movies: map<int, Movie>, assoc: seq<GenreAssoc>, g: string): real
    requires RankCount(movies, assoc, g) > 0
  {
    RankSum(movies, assoc, g) / (RankCount(movies, assoc, g) as real)
  }

  /** A genre has a joined pair exactly when its count is positive. */
  lemma {:induction false} RankCountPositive(movies: map<int, Movie>, assoc: seq<GenreAssoc>, g: string)
    ensures RankCount(movies, assoc, g) > 0 <==> HasRankedPair(movies, assoc, g)
  {
    if assoc != [] {
      var init := assoc[..|assoc| - 1];
      RankCountPositive(movies, init, g);
      if HasRankedPair(movies, init, g) {
        var k :| 0 <= k < |init| && init[k].genre == g && Joins(movies, init[k]);
        assert assoc[k] == init[k];
      }
      if HasRankedPair(movies, assoc, g) {
        var k :| 0 <= k < |assoc| && assoc[k].genre == g && Joins(movies, assoc[k]);
        if k < |init| {
          assert init[k] == assoc[k];
        }
      }
    }
  }

  /** The groups, one per genre with a joined pair, in order of first appearance. */
  function GroupGenres(movies: map<int, Movie>, assoc: seq<GenreAssoc>): (r: seq<string>)
    ensures forall i, j :: 0 <= i < j < |r| ==> r[i] != r[j]
    ensures forall g :: g in r <==> RankCount(movies, assoc, g) > 0
  {
    if assoc == [] then []
    else
      var a := assoc[|assoc| - 1];
      var init := GroupGenres(movies, assoc[..|assoc| - 1]);
      if Joins(movies, a) && a.genre !in init then init + [a.genre] else init
  }

  /** The result rows before ordering: each group with its mean. */
  function Averages(movies: map<int, Movie>, assoc: seq<GenreAssoc>): (r: seq<GenreAvg>)
    ensures |r| == |GroupGenres(movies, assoc)|
    ensures forall i :: 0 <= i < |r| ==>
      (r[i].genre == GroupGenres(movies, assoc)[i] && RankCount(movies, assoc, r[i].genre) > 0 &&
       r[i].avgRank == Mean(movies, assoc, r[i].genre))
  {
    var gs := GroupGenres(movies, assoc);
    seq(|gs|, i requires 0 <= i < |gs| => GenreAvg(gs[i], Mean(movies, assoc, gs[i])))
  }

  /** ORDER BY avg_rank DESC. */
  predicate SortedDesc(s: seq<GenreAvg>)
  {
    forall i, j :: 0 <= i < j < |s| ==> s[i].avgRank >= s[j].avgRank
  }

  /** No genre occurs twice. */
  predicate DistinctGenres(s: seq<GenreAvg>)
  {
    forall i, j :: 0 <= i < j < |s| ==> s[i].genre != s[j].genre
  }

  /** Places x in front of the first row whose mean is not above x's. */
  function Insert(x: GenreAvg, s: seq<GenreAvg>): (r: seq<GenreAvg>)
    requires SortedDesc(s)
    ensures multiset(r) == multiset(s) + multiset{x}
    ensures SortedDesc(r)
  {
    if s == [] then [x]
    else if x.avgRank >= s[0].avgRank then [x] + s
    else
      var rest := Insert(x, s[1..]);
      assert s == [s[0]] + s[1..];
      InsertBehindHead(s[0], x, s[1..], rest);
      [s[0]] + rest
  }

  /** A row above x stays sorted in front of its tail with x inserted. */
  lemma InsertBehindHead(h: GenreAvg, x: GenreAvg, t: seq<GenreAvg>, rest: seq<GenreAvg>)
    requires SortedDesc([h] + t) && x.avgRank < h.avgRank
    requires SortedDesc(rest) && multiset(rest) == multiset(t) + multiset{x}
    ensures SortedDesc([h] + rest)
  {
    forall k | 0 <= k < |rest|
      ensures rest[k].avgRank <= h.avgRank
    {
      assert rest[k] in multiset(rest);
      if rest[k] != x {
        assert rest[k] in multiset(t);
        var p :| 0 <= p < |t| && t[p] == rest[k];
        assert ([h] + t)[0] == h && ([h] + t)[p + 1] == t[p];
      }
    }
    forall i, j | 0 <= i < j < |[h] + rest|
      ensures ([h] + rest)[i].avgRank >= ([h] + rest)[j].avgRank
    {
      if i > 0 {
        assert ([h] + rest)[i] == rest[i - 1];
      }
      assert ([h] + rest)[j] == rest[j - 1];
    }
  }

  /** An ordering of the rows by descending mean, keeping every row. */
  function SortDesc(s: seq<GenreAvg>): (r: seq<GenreAvg>)
    ensures multiset(r) == multiset(s)
    ensures SortedDesc(r)
  {
    if s == [] then []
    else
      assert s == [s[0]] + s[1..];
      Insert(s[0], SortDesc(s[1..]))
  }

  /** The report: one row per genre, its mean rank, highest first. */
  function HighestRatedGenres(movies: map<int, Movie>, assoc: seq<GenreAssoc>): seq<GenreAvg>
  {
    SortDesc(Averages(movies, assoc))
  }

  /** Rows that are a permutation of rows with distinct genres have distinct genres. */
  lemma PermutationKeepsDistinct(s: seq<GenreAvg>, r: seq<GenreAvg>)
    requires multiset(r) == multiset(s) && DistinctGenres(s)
    ensures DistinctGenres(r)
  {
    forall i, j | 0 <= i < j < |r|
      ensures r[i].genre != r[j].genre
    {
      if r[i].genre == r[j].genre {
        assert r[i] in multiset(s) && r[j] in multiset(s);
        var p :| 0 <= p < |s| && s[p] == r[i];
        var q :| 0 <= q < |s| && s[q] == r[j];
        assert p == q;
        assert r[i] == r[j];
        MultisetCountTwo(r, i, j);
        MultisetCountOne(s, p);
        assert false;
      }
    }
  }

  /** An element at two positions occurs at least twice. */
  lemma MultisetCountTwo(r: seq<GenreAvg>, i: nat, j: nat)
    requires i < j < |r| && r[i] == r[j]
    ensures multiset(r)[r[i]] >= 2
  {
    assert r == r[..j] + [r[j]] + r[j + 1..];
    assert r[i] in r[..j];
    assert multiset(r) == multiset(r[..j]) + multiset{r[j]} + multiset(r[j + 1..]);
  }

  /** In rows with distinct genres, each row occurs once. */
  lemma MultisetCountOne(s: seq<GenreAvg>, p: nat)
    requires p < |s| && DistinctGenres(s)
    ensures multiset(s)[s[p]] == 1
  {
    var before, after := s[..p], s[p + 1..];
    assert s == before + [s[p]] + after;
    assert s[p] !in before by {
      forall k | 0 <= k < |before| ensures before[k] != s[p] {
        assert before[k] == s[k];
      }
    }
    assert s[p] !in after by {
      forall k | 0 <= k < |after| ensures after[k] != s[p] {
        assert after[k] == s[p + 1 + k];
      }
    }
    assert multiset(s) == multiset(before) + multiset{s[p]} + multiset(after);
  }

  /**
   * The report's promise: each genre appears once; it appears exactly when
   * some movie carrying it has a rank; its value is the mean rank over all
   * of its joined pairs; and the rows are in non-increasing order of that
   * value.
   */
  lemma HighestRatedGenresCorrect(movies: map<int, Movie>, assoc: seq<GenreAssoc>)
    ensures DistinctGenres(HighestRatedGenres(movies, assoc))
    ensures SortedDesc(HighestRatedGenres(movies, assoc))
    ensures forall e :: e in HighestRatedGenres(movies, assoc) ==>
      RankCount(movies, assoc, e.genre) > 0 && e.avgRank == Mean(movies, assoc, e.genre)
    ensures forall g :: HasRankedPair(movies, assoc, g) <==>
      exists e :: e in HighestRatedGenres(movies, assoc) && e.genre == g
  {
    var avgs := Averages(movies, assoc);
    var r := HighestRatedGenres(movies, assoc);
    var gs := GroupGenres(movies, assoc);
    PermutationKeepsDistinct(avgs, r);
    forall e | e in r
      ensures e in avgs
    {
      assert e in multiset(r);
    }
    forall g
      ensures HasRankedPair(movies, assoc, g) <==> exists e :: e in r && e.genre == g
    {
      RankCountPositive(movies, assoc, g);
      if HasRankedPair(movies, assoc, g) {
        var i :| 0 <= i < |gs| && gs[i] == g;
        assert avgs[i] in multiset(r);
        assert avgs[i] in r && avgs[i].genre == g;
      }
    }
  }

  /** An association whose movie is absent or unranked changes no genre's count or sum. */
  lemma UnjoinedAssocIgnored(movies: map<int, Movie>, assoc: seq<GenreAssoc>, a: GenreAssoc, g: string)
    requires !Joins(movies, a)
    ensures RankCount(movies, assoc + [a], g) == RankCount(movies, assoc, g)
    ensures RankSum(movies, assoc + [a], g) == RankSum(movies, assoc, g)
  {
    assert (assoc + [a])[..|assoc|] == assoc;
  }

  /** A duplicated association row is counted twice: the mean is over pairs, not over distinct movies. */
  lemma DuplicateAssocCountedTwice(movies: map<int, Movie>, assoc: seq<GenreAssoc>, a: GenreAssoc)
    requires Joins(movies, a)
    ensures RankCount(movies, assoc + [a, a], a.genre) == RankCount(movies, assoc, a.genre) + 2
    ensures RankSum(movies, assoc + [a, a], a.genre) == RankSum(movies, assoc, a.genre) + 2.0 * RankOf(movies, a)
  {
    assert (assoc + [a, a])[..|assoc| + 1] == assoc + [a];
    assert (assoc + [a])[..|assoc|] == assoc;
  }

  /** If every joined rank of genre g lies in [lo, hi], so does its mean. */
  lemma MeanBounds(movies: map<int, Movie>, assoc: seq<GenreAssoc>, g: string, lo: real, hi: real)
    requires RankCount(movies, assoc, g) > 0
    requires forall k :: 0 <= k < |assoc| && assoc[k].genre == g && Joins(movies, assoc[k]) ==>
      lo <= RankOf(movies, assoc[k]) <= hi
    ensures lo <= Mean(movies, assoc, g) <= hi
  {
    SumBounds(movies, assoc, g, lo, hi);
    QuotientBounds(RankSum(movies, assoc, g), RankCount(movies, assoc, g), lo, hi);
  }

  /** A sum between lo and hi added n > 0 times, divided by n, lies between lo and hi. */
  lemma QuotientBounds(sum: real, n: nat, lo: real, hi: real)
    requires n > 0 && Times(lo, n) <= sum <= Times(hi, n)
    ensures lo <= sum / (n as real) <= hi
  {
    var m := n as real;
    TimesIsProduct(lo, n);
    TimesIsProduct(hi, n);
    assert lo * m <= sum <= hi * m;
    QuotientAtLeast(sum, m, lo);
    QuotientAtMost(sum, m, hi);
  }

  /** Dividing by m > 0 keeps a lower bound lo * m <= sum as lo <= sum / m. */
  lemma QuotientAtLeast(sum: real, m: real, lo: real)
    requires m > 0.0 && lo * m <= sum
    ensures lo <= sum / m
  {
    assert sum / m - lo == (sum - lo * m) / m;
  }

  /** Dividing by m > 0 keeps an upper bound sum <= hi * m as sum / m <= hi. */
  lemma QuotientAtMost(sum: real, m: real, hi: real)
    requires m > 0.0 && sum <= hi * m
    ensures sum / m <= hi
  {
    assert hi - sum / m == (hi * m - sum) / m;
  }

  /** x added to itself n times. */
  function Times(x: real, n: nat): real
  {
    if n == 0 then 0.0 else Times(x, n - 1) + x
  }

  lemma {:induction false} TimesIsProduct(x: real, n: nat)
    ensures Times(x, n) == x * (n as real)
  {
    if n > 0 {
      TimesIsProduct(x, n - 1);
      assert x * (n as real) == x * ((n - 1) as real) + x;
    }
  }

  /** The sum of n joined ranks within [lo, hi] lies between lo and hi added n times. */
  lemma {:induction false} SumBounds(movies: map<int, Movie>, assoc: seq<GenreAssoc>, g: string, lo: real, hi: real)
    requires forall k :: 0 <= k < |assoc| && assoc[k].genre == g && Joins(movies, assoc[k]) ==>
      lo <= RankOf(movies, assoc[k]) <= hi
    ensures Times(lo, RankCount(movies, assoc, g)) <= RankSum(movies, assoc, g) <= Times(hi, RankCount(movies, assoc, g))
  {
    if assoc != [] {
      var init := assoc[..|assoc| - 1];
      forall k | 0 <= k < |init| && init[k].genre == g && Joins(movies, init[k])
        ensures lo <= RankOf(movies, init[k]) <= hi
      {
        assert init[k] == assoc[k];
      }
      SumBounds(movies, init, g, lo, hi);
      var a := assoc[|assoc| - 1];
      if a.genre == g && Joins(movies, a) {
        assert lo <= RankOf(movies, a) <= hi;
      }
    }
  }
}
