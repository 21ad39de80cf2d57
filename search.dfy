/** `search_movies(query, year_range, genres)`: the catalog filter shared,
    word for word, by both scripts. The catalog is a parameter here; the
    scripts always pass their global MOVIES. */
module Search {
  import opened Text
  import opened Decimal
  import opened Movies
  import opened Seqs

  /** The lower-cased query occurs in the lower-cased title, or the query
      as typed occurs in the decimal form of the year. */
  predicate TextClause(m: Movie, query: string) {
    IsSubstring(LowerStr(query), LowerStr(m.title)) || IsSubstring(query, IntToStr(m.year))
  }

  /** `start_year <= year <= end_year`. */
  predicate RangeClause(m: Movie, yearRange: (int, int)) {
    yearRange.0 <= m.year <= yearRange.1
  }

  /** `not genres or genre in genres`: an empty genre list restricts nothing. */
  predicate GenreClause(m: Movie, genres: seq<string>) {
    |genres| == 0 || m.genre in genres
  }

  predicate Matches(m: Movie, query: string, yearRange: (int, int), genres: seq<string>) {
    TextClause(m, query) && RangeClause(m, yearRange) && GenreClause(m, genres)
  }

  /** The records of `catalog` passing all three clauses, in catalog order. */
  function SearchMovies(catalog: seq<Movie>, query: string, yearRange: (int, int), genres: seq<string>): (r: seq<Movie>)
    ensures forall m :: m in r ==> Matches(m, query, yearRange, genres)
    ensures IsSubsequence(r, catalog)
    decreases |catalog|
  {
    if catalog == [] then []
    else
      var rest := SearchMovies(catalog[1..], query, yearRange, genres);
      if Matches(catalog[0], query, yearRange, genres) then [catalog[0]] + rest else rest
  }

  /** Completeness: every matching record of the catalog is in the result. */
  lemma {:induction false} SearchComplete(catalog: seq<Movie>, query: string, yearRange: (int, int), genres: seq<string>, m: Movie)
    requires m in catalog && Matches(m, query, yearRange, genres)
    ensures m in SearchMovies(catalog, query, yearRange, genres)
    decreases |catalog|
  {
    if m != catalog[0] {
      SearchComplete(catalog[1..], query, yearRange, genres, m);
    }
  }

  /** A record is in the result exactly when it is a catalog record passing
      all three clauses. */
  lemma SearchMembers(catalog: seq<Movie>, query: string, yearRange: (int, int), genres: seq<string>, m: Movie)
    ensures m in SearchMovies(catalog, query, yearRange, genres) <==> m in catalog && Matches(m, query, yearRange, genres)
  {
    SubsequenceMembers(SearchMovies(catalog, query, yearRange, genres), catalog);
    if m in catalog && Matches(m, query, yearRange, genres) {
      SearchComplete(catalog, query, yearRange, genres, m);
    }
  }

  /** Searching a concatenation searches each part and keeps them in order. */
  lemma {:induction false} SearchAppend(a: seq<Movie>, b: seq<Movie>, query: string, yearRange: (int, int), genres: seq<string>)
    ensures SearchMovies(a + b, query, yearRange, genres)
         == SearchMovies(a, query, yearRange, genres) + SearchMovies(b, query, yearRange, genres)
    decreases |a|
  {
    if a == [] {
      assert a + b == b;
    } else {
      assert (a + b)[0] == a[0];
      assert (a + b)[1..] == a[1..] + b;
      SearchAppend(a[1..], b, query, yearRange, genres);
    }
  }

  /** When the record at `i` is the only one that matches, it is the whole result. */
  lemma SearchSingle(catalog: seq<Movie>, i: int, query: string, yearRange: (int, int), genres: seq<string>)
    requires 0 <= i < |catalog| && Matches(catalog[i], query, yearRange, genres)
    requires SearchMovies(catalog[..i], query, yearRange, genres) == []
    requires SearchMovies(catalog[i + 1..], query, yearRange, genres) == []
    ensures SearchMovies(catalog, query, yearRange, genres) == [catalog[i]]
  {
    assert catalog == catalog[..i] + catalog[i..];
    assert catalog[i..][1..] == catalog[i + 1..];
    SearchAppend(catalog[..i], catalog[i..], query, yearRange, genres);
  }

  /** When every record matches, the whole catalog comes back, in order. */
  lemma {:induction false} SearchAllMatch(catalog: seq<Movie>, query: string, yearRange: (int, int), genres: seq<string>)
    requires forall m :: m in catalog ==> Matches(m, query, yearRange, genres)
    ensures SearchMovies(catalog, query, yearRange, genres) == catalog
    decreases |catalog|
  {
    if catalog != [] {
      SearchAllMatch(catalog[1..], query, yearRange, genres);
    }
  }

  /** When no record matches, nothing comes back. */
  lemma {:induction false} NoMatchesEmpty(catalog: seq<Movie>, query: string, yearRange: (int, int), genres: seq<string>)
    requires forall m :: m in catalog ==> !Matches(m, query, yearRange, genres)
    ensures SearchMovies(catalog, query, yearRange, genres) == []
    decreases |catalog|
  {
    if catalog != [] {
      NoMatchesEmpty(catalog[1..], query, yearRange, genres);
    }
  }

  /** A query fails the text clause when its lower-cased form holds a
      character the lower-cased title lacks and the query holds a character
      the year's numeral lacks. */
  lemma TextClauseRejects(m: Movie, query: string, inTitle: char, inYear: char)
    requires inTitle in LowerStr(query) && inTitle !in LowerStr(m.title)
    requires inYear in query && inYear !in IntToStr(m.year)
    ensures !TextClause(m, query)
  {
    MissingCharNotSubstring(LowerStr(query), LowerStr(m.title), inTitle);
    MissingCharNotSubstring(query, IntToStr(m.year), inYear);
  }

  /** A title holding no digit. */
  predicate DigitFree(title: string) {
    forall k :: 0 <= k < |title| ==> !IsDigit(title[k])
  }

  /** Typing a four-digit year as the query selects, by the text clause,
      exactly the records of that year, when titles hold no digits. */
  lemma YearQueryText(m: Movie, y: int)
    requires DigitFree(m.title) && 1000 <= m.year <= 9999 && 1000 <= y <= 9999
    ensures TextClause(m, IntToStr(y)) <==> m.year == y
  {
    var q := IntToStr(y);
    FourDigits(y);
    FourDigits(m.year);
    LowerWithoutUpper(q);
    assert q[0] in q;
    LowerAddsNoOther(m.title, q[0]);
    MissingCharNotSubstring(q, LowerStr(m.title), q[0]);
    SameLengthSubstring(q, IntToStr(m.year));
    if q == IntToStr(m.year) {
      IntToStrInjective(y, m.year);
    }
  }

  /** The empty query passes the text clause for every record. */
  lemma EmptyQueryMatchesText(m: Movie)
    ensures TextClause(m, "")
  {
    EmptyIsSubstring(LowerStr(m.title));
  }

  /** An inverted range (`start > end`) selects nothing. */
  lemma InvertedRangeEmpty(catalog: seq<Movie>, query: string, yearRange: (int, int), genres: seq<string>)
    requires yearRange.0 > yearRange.1
    ensures SearchMovies(catalog, query, yearRange, genres) == []
  {
  }

  /** An empty genre list is no restriction: it selects what a list naming
      every genre of the catalog selects. */
  lemma {:induction false} EmptyGenresUnrestricted(catalog: seq<Movie>, query: string, yearRange: (int, int), all: seq<string>)
    requires forall m :: m in catalog ==> m.genre in all
    ensures SearchMovies(catalog, query, yearRange, []) == SearchMovies(catalog, query, yearRange, all)
    decreases |catalog|
  {
    if catalog != [] {
      EmptyGenresUnrestricted(catalog[1..], query, yearRange, all);
    }
  }

  /** The year half of the text clause is blind to case: typing the query
      lower-cased or not makes no difference, since numerals hold no letters. */
  lemma YearClauseIgnoresCase(query: string, year: int)
    ensures IsSubstring(query, IntToStr(year)) <==> IsSubstring(LowerStr(query), IntToStr(year))
  {
    var s := IntToStr(year);
    LowerWithoutUpper(s);
    if IsSubstring(query, s) {
      LowerKeepsSubstring(query, s);
    }
    if IsSubstring(LowerStr(query), s) {
      var i :| 0 <= i <= |s| - |query| && OccursAt(LowerStr(query), s, i);
      forall k | 0 <= k < |query| ensures !IsUpper(query[k]) {
        assert LowerStr(query)[k] == s[i + k];
      }
      LowerWithoutUpper(query);
    }
  }
}
