/** The browsing page of mini_netflix.py: the year slider spans
    `year_bounds()`, the genre multiselect offers `available_genres`, and the
    page lists `search_movies(query, year_filter, active_genres)`. */
module MiniNetflix {
  import opened Text
  import opened Decimal
  import opened Movies
  import opened Search
  import opened Bounds
  import opened Genres
  import opened YearSort

  /** With the widgets at their defaults (empty query, the slider at the
      catalog's year bounds, a genre selection covering every genre or none at
      all) the page lists the whole catalog in catalog order. */
  lemma DefaultViewShowsAll(catalog: seq<Movie>, selected: seq<string>)
    requires catalog != []
    requires |selected| == 0 || forall m :: m in catalog ==> m.genre in selected
    ensures SearchMovies(catalog, "", YearBounds(catalog).value, ActiveGenres(selected, AvailableGenres(catalog))) == catalog
  {
    var yearRange := YearBounds(catalog).value;
    var genres := ActiveGenres(selected, AvailableGenres(catalog));
    forall m | m in catalog ensures Matches(m, "", yearRange, genres) {
      EmptyQueryMatchesText(m);
    }
    SearchAllMatch(catalog, "", yearRange, genres);
  }

  lemma MoviesYearBounds()
    ensures YearBounds(MOVIES) == Ok((1995, 2025))
  {
  }

  /** The genre multiselect offers Adventure, Animation, Horror, in that order. */
  lemma MoviesGenres()
    ensures AvailableGenres(MOVIES) == ["Adventure", "Animation", "Horror"]
  {
    var expected := ["Adventure", "Animation", "Horror"];
    assert StrLt("Adventure", "Animation") && StrLt("Animation", "Horror");
    StrLtTransitive("Adventure", "Animation", "Horror");
    assert Ascending(expected);
    forall g ensures g in AvailableGenres(MOVIES) <==> g in expected {
      if exists m :: m in MOVIES && m.genre == g {
        var m :| m in MOVIES && m.genre == g;
        assert m in {DemonHunter, Smurf, ToyStory, Frozen, Moana, FindingNemo};
      }
      if g in expected {
        assert g == "Adventure" ==> Moana in MOVIES;
        assert g == "Animation" ==> Smurf in MOVIES;
        assert g == "Horror" ==> DemonHunter in MOVIES;
      }
    }
    AscendingUnique(AvailableGenres(MOVIES), expected);
  }

  /** Typing a four-digit year, with the range and the genres letting every
      record through, lists exactly that year's records in catalog order. */
  lemma {:induction false} YearQuery(catalog: seq<Movie>, y: int, yearRange: (int, int), genres: seq<string>)
    requires 1000 <= y <= 9999
    requires forall m :: m in catalog ==> DigitFree(m.title) && 1000 <= m.year <= 9999
    requires forall m :: m in catalog ==> RangeClause(m, yearRange) && GenreClause(m, genres)
    ensures SearchMovies(catalog, IntToStr(y), yearRange, genres) == WithYear(catalog, y)
    decreases |catalog|
  {
    if catalog != [] {
      YearQueryText(catalog[0], y);
      YearQuery(catalog[1..], y, yearRange, genres);
    }
  }

  /** The catalog's titles hold no digits and its years have four digits. */
  lemma CatalogShape()
    ensures forall m :: m in MOVIES ==> DigitFree(m.title) && 1000 <= m.year <= 9999
  {
    assert DigitFree(DemonHunter.title) && DigitFree(Smurf.title);
    assert DigitFree(ToyStory.title) && DigitFree(Frozen.title);
    assert DigitFree(Moana.title) && DigitFree(FindingNemo.title);
  }

  /** The catalog's 2025 records are The Demon Hunter and Smurf, in that order. */
  lemma Catalog2025()
    ensures WithYear(MOVIES, 2025) == [DemonHunter, Smurf]
  {
    var s := MOVIES;
    assert forall k :: 2 <= k < 6 ==> s[k].year != 2025;
    assert WithYear(s[5..], 2025) == [];
    assert s[4..][1..] == s[5..];
    assert WithYear(s[4..], 2025) == [];
    assert s[3..][1..] == s[4..];
    assert WithYear(s[3..], 2025) == [];
    assert s[2..][1..] == s[3..];
    assert WithYear(s[2..], 2025) == [];
    assert s[1..][1..] == s[2..];
    assert WithYear(s[1..], 2025) == [Smurf];
  }

  /** Typing "2025", with a year range covering the catalog and either every
      genre or no genre selected, finds the two 2025 records in catalog order. */
  // The query literal is a parameter so that it is not unfolded together with the catalog constants.
  lemma Query2025(query: string, yearRange: (int, int))
    requires query == "2025"
    requires yearRange.0 <= 1995 && 2025 <= yearRange.1
    ensures SearchMovies(MOVIES, query, yearRange, AvailableGenres(MOVIES)) == [DemonHunter, Smurf]
    ensures SearchMovies(MOVIES, query, yearRange, []) == [DemonHunter, Smurf]
  {
    CatalogShape();
    Catalog2025();
    assert IntToStr(2025) == query;
    YearQuery(MOVIES, 2025, yearRange, AvailableGenres(MOVIES));
    YearQuery(MOVIES, 2025, yearRange, []);
  }

  /** With the empty query, Animation between 2000 and 2020 is Frozen alone. */
  // The query literal is a parameter so that it is not unfolded together with the catalog constants.
  lemma AnimationFrom2000To2020(query: string)
    requires query == ""
    ensures SearchMovies(MOVIES, query, (2000, 2020), ["Animation"]) == [Frozen]
  {
    var yr, g := (2000, 2020), ["Animation"];
    var before, after := MOVIES[..3], MOVIES[4..];
    assert MOVIES[3] == Frozen;
    assert Matches(Frozen, query, yr, g) by {
      EmptyQueryMatchesText(Frozen);
    }
    assert forall m :: m in before ==> !RangeClause(m, yr);
    assert forall m :: m in after ==> !GenreClause(m, g);
    NoMatchesEmpty(before, query, yr, g);
    NoMatchesEmpty(after, query, yr, g);
    SearchSingle(MOVIES, 3, query, yr, g);
  }
}
