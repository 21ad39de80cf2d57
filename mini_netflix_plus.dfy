/** The page of mini_netflix_plus.py: a fixed year slider, the same filter
    sorted by year descending, and an assistant panel whose reply is mapped
    back onto catalog titles. The assistant's reply is an arbitrary string
    here, and the suggestions kept in the session are a parameter. */
module MiniNetflixPlus {
  import opened Text
  import opened Decimal
  import opened Movies
  import opened Seqs
  import opened Search
  import opened Bounds
  import opened Genres
  import opened YearSort
  import MiniNetflix

  /** `min_year, max_year = 1990, 2025`: a constant, not `year_bounds()`. */
  const SliderRange: (int, int) := (1990, 2025)

  /** The fixed slider lets every catalog record through, yet differs from the
      catalog's own year bounds (1995, 2025). */
  lemma SliderCoversCatalog()
    ensures forall m :: m in MOVIES ==> RangeClause(m, SliderRange)
    ensures YearBounds(MOVIES).Ok? && YearBounds(MOVIES).value != SliderRange
  {
    MiniNetflix.MoviesYearBounds();
  }

  /** `[m for m in catalog if m["title"].lower() in ai_reply.lower()]`. */
  function Suggestions(catalog: seq<Movie>, reply: string): (r: seq<Movie>)
    ensures forall m :: m in r ==> IsSubstring(LowerStr(m.title), LowerStr(reply))
    ensures IsSubsequence(r, catalog)
    decreases |catalog|
  {
    if catalog == [] then []
    else
      var rest := Suggestions(catalog[1..], reply);
      if IsSubstring(LowerStr(catalog[0].title), LowerStr(reply)) then [catalog[0]] + rest else rest
  }

  /** Every catalog record whose title the reply mentions is suggested. */
  lemma {:induction false} SuggestionsComplete(catalog: seq<Movie>, reply: string, m: Movie)
    requires m in catalog && IsSubstring(LowerStr(m.title), LowerStr(reply))
    ensures m in Suggestions(catalog, reply)
    decreases |catalog|
  {
    if m != catalog[0] {
      SuggestionsComplete(catalog[1..], reply, m);
    }
  }

  /** A record is suggested exactly when it is a catalog record whose title,
      lower-cased, occurs in the lower-cased reply. */
  lemma SuggestionsMembers(catalog: seq<Movie>, reply: string, m: Movie)
    ensures m in Suggestions(catalog, reply) <==> m in catalog && IsSubstring(LowerStr(m.title), LowerStr(reply))
  {
    SubsequenceMembers(Suggestions(catalog, reply), catalog);
    if m in catalog && IsSubstring(LowerStr(m.title), LowerStr(reply)) {
      SuggestionsComplete(catalog, reply, m);
    }
  }

  /** The reply is lower-cased before matching, so its case never changes the
      suggestions. */
  lemma {:induction false} SuggestionsIgnoreReplyCase(catalog: seq<Movie>, reply: string)
    ensures Suggestions(catalog, LowerStr(reply)) == Suggestions(catalog, reply)
    decreases |catalog|
  {
    LowerIdempotent(reply);
    if catalog != [] {
      SuggestionsIgnoreReplyCase(catalog[1..], reply);
    }
  }

  /** The records shown: the stored suggestions when there are any, otherwise
      the filter result in year-descending order, equal years in catalog order. */
  function MoviesToShow(catalog: seq<Movie>, suggestions: seq<Movie>, query: string, yearRange: (int, int), genres: seq<string>): (r: seq<Movie>)
    ensures |suggestions| > 0 ==> r == suggestions
    ensures |suggestions| == 0 ==>
      var found := SearchMovies(catalog, query, yearRange, genres);
      && Descending(r)
      && multiset(r) == multiset(found)
      && forall y :: WithYear(r, y) == WithYear(found, y)
  {
    if |suggestions| > 0 then suggestions
    else
      var found := SearchMovies(catalog, query, yearRange, genres);
      assert forall y :: WithYear(SortByYearDesc(found), y) == WithYear(found, y) by {
        forall y ensures WithYear(SortByYearDesc(found), y) == WithYear(found, y) {
          SortStable(found, y);
        }
      }
      SortByYearDesc(found)
  }

  /** Without suggestions, what is shown is the filter result put through
      the stable year-descending sort, the arrangement `SortCharacterized`
      shows to be the only one meeting MoviesToShow's contract. */
  lemma ShownIsFiltered(catalog: seq<Movie>, query: string, yearRange: (int, int), genres: seq<string>)
    ensures MoviesToShow(catalog, [], query, yearRange, genres)
         == SortByYearDesc(SearchMovies(catalog, query, yearRange, genres))
  {
  }

  /** Query "2025" with the slider at its defaults and every genre selected
      shows The Demon Hunter before Smurf: equal years keep catalog order. */
  // The query literal is a parameter so that it is not unfolded together with the catalog constants.
  lemma Shown2025(query: string)
    requires query == "2025"
    ensures MoviesToShow(MOVIES, [], query, SliderRange, ActiveGenres(AvailableGenres(MOVIES), AvailableGenres(MOVIES)))
         == [DemonHunter, Smurf]
  {
    var g := AvailableGenres(MOVIES);
    assert DemonHunter.genre in g;
    MiniNetflix.Query2025(query, SliderRange);
    ShownIsFiltered(MOVIES, query, SliderRange, g);
    SortedPair();
  }

  /** The Demon Hunter and Smurf share 2025, so sorting keeps their order. */
  lemma SortedPair()
    ensures SortByYearDesc([DemonHunter, Smurf]) == [DemonHunter, Smurf]
  {
    assert [DemonHunter, Smurf][1..] == [Smurf] && [Smurf][1..] == [];
  }

  /** The title half of the text clause folds case: the query "TOY" passes
      it for Toy Story (its lower-cased title starts with "toy"), so Toy Story
      is among the records found. */
  // The query literal is a parameter so that it is not unfolded together with the catalog constants.
  lemma QueryToyUpper(query: string)
    requires query == "TOY"
    ensures TextClause(ToyStory, query)
    ensures ToyStory in SearchMovies(MOVIES, query, SliderRange, [])
  {
    assert LowerStr(query) == LowerStr("Toy");
    assert OccursAt("Toy", ToyStory.title, 0);
    LowerKeepsSubstring("Toy", ToyStory.title);
    SearchComplete(MOVIES, query, SliderRange, [], ToyStory);
  }

  /** A query holding 'T' whose lower-cased form holds 'y' finds nothing in a
      catalog whose titles hold no 'y' in either case: no numeral holds 'T'. */
  lemma MissesWithoutY(catalog: seq<Movie>, query: string, yearRange: (int, int), genres: seq<string>)
    requires 'y' in LowerStr(query) && 'T' in query
    requires forall m :: m in catalog ==> 'y' !in m.title && 'Y' !in m.title
    ensures SearchMovies(catalog, query, yearRange, genres) == []
  {
    forall m | m in catalog ensures !Matches(m, query, yearRange, genres) {
      LowerMissingLetter(m.title, 'y');
      NumeralHasNoLetter(m.year, 'T');
      TextClauseRejects(m, query, 'y', 'T');
    }
    NoMatchesEmpty(catalog, query, yearRange, genres);
  }

  /** The catalog around Toy Story: two records before it, three after. */
  lemma AroundToyStory()
    ensures MOVIES[2] == ToyStory
    ensures MOVIES[..2] == [DemonHunter, Smurf]
    ensures MOVIES[3..] == [Frozen, Moana, FindingNemo]
  {
  }

  /** Neither title before Toy Story holds a 'y' in either case. */
  lemma NoYBefore()
    ensures forall m :: m in [DemonHunter, Smurf] ==> 'y' !in m.title && 'Y' !in m.title
  {
  }

  /** No title after Toy Story holds a 'y' in either case. */
  lemma NoYAfter()
    ensures forall m :: m in [Frozen, Moana, FindingNemo] ==> 'y' !in m.title && 'Y' !in m.title
  {
  }

  /** Such a query that passes the text clause for Toy Story finds Toy Story
      alone. */
  lemma OnlyToyStory(query: string)
    ensures 'y' in LowerStr(query) && 'T' in query && TextClause(ToyStory, query) ==>
            SearchMovies(MOVIES, query, SliderRange, []) == [ToyStory]
  {
    if 'y' in LowerStr(query) && 'T' in query && TextClause(ToyStory, query) {
      AroundToyStory();
      NoYBefore();
      NoYAfter();
      MissesWithoutY(MOVIES[..2], query, SliderRange, []);
      MissesWithoutY(MOVIES[3..], query, SliderRange, []);
      SearchSingle(MOVIES, 2, query, SliderRange, []);
    }
  }

  /** "TOY" finds Toy Story and no other record of the catalog. */
  // The query literal is a parameter so that it is not unfolded together with the catalog constants.
  lemma QueryToyOnly(query: string)
    requires query == "TOY"
    ensures SearchMovies(MOVIES, query, SliderRange, []) == [ToyStory]
  {
    QueryToyUpper(query);
    assert LowerStr(query)[2] == Lower(query[2]) == 'y';
    assert query[0] == 'T';
    OnlyToyStory(query);
  }
}
