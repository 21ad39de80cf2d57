# mini-netflix: the catalog query engine

This project models the query engine behind the two Streamlit pages of
mini-netflix, `mini_netflix.py` and `mini_netflix_plus.py`:

- the fixed six-record catalog `MOVIES`;
- `search_movies(query, year_range, genres)`. It keeps the records that pass three clauses, in catalog order:
  - the text clause: a case-folded title substring, or a substring of the year's decimal form;
  - the inclusive year range;
  - the genre list, where an empty list allows every genre;
- `year_bounds()`, here with the `ValueError` of `min`/`max` on an empty catalog as an explicit error;
- `available_genres`, the distinct genres in ascending string order, and the fallback `active_genres = selected_genres or available_genres`;
- the extras of the second page:
  - the fixed year slider `(1990, 2025)`;
  - the stable year-descending sort of the result;
  - the extraction of suggestions from an assistant reply;
  - the choice between stored suggestions and the sorted filter result for display.

Both scripts are pure comprehensions and `sorted` calls, so the model is
made of datatypes, recursive functions with named results, and lemmas.
`search_movies` is the same text in both scripts and its catalog is always
`MOVIES`. It is therefore modelled once, as `Search.SearchMovies`, with the
catalog as a parameter. Python's `str.lower` is modelled on ASCII. `str(int)`
is modelled as a decimal numeral with a `-` sign, and `ParseInt` is proved to
invert it. Python's `<` on strings is modelled by `Genres.StrLt`.

Two details of the code matter for the model:
- The genre filter is a list, not a set. Membership is all that `in` uses, so this makes no difference.
- The second page's slider is the constant `(1990, 2025)`, not the catalog bounds `(1995, 2025)`. `MiniNetflixPlus.SliderCoversCatalog` shows that it still lets every record through.

Modules:
- `Text`: lower-casing and substring tests.
- `Decimal`: `str(int)`.
- `Seqs`: subsequences.
- `Movies`: the record and the catalog.
- `Search`: `search_movies`.
- `Bounds`: `year_bounds`.
- `Genres`: `available_genres` and `active_genres`.
- `YearSort`: the stable descending sort.
- `MiniNetflix`: the first page's scenarios.
- `MiniNetflixPlus`: the second page's scenarios.

## Model

| member | source | states |
|---|---|---|
| Search.TextClause | mini_netflix.py:62 | the text clause: the lower-cased query occurs in the lower-cased title, or the query as typed occurs in the year's numeral |
| Search.RangeClause | mini_netflix.py:63 | the range clause: start year <= record year <= end year, both ends inclusive |
| Search.GenreClause | mini_netflix.py:64 | the genre clause: the genre list is empty, or the record's genre is one of its entries |
| Search.Matches | mini_netflix.py:62-64 | a record is kept when all three clauses hold |
| Search.SearchMovies | mini_netflix.py:56-65 | every returned record passes the text, range and genre clauses, and the result is a subsequence of the catalog (catalog order, nothing invented) |
| Search.SearchComplete | mini_netflix.py:59-65 | every catalog record passing all three clauses is in the result |
| Search.SearchMembers | mini_netflix.py:59-65 | a record is in the result exactly when it is a catalog record passing all three clauses |
| Search.SearchSingle | mini_netflix.py:59-65 | when the record at one position matches and nothing before or after it does, the result is that record alone |
| Search.SearchAppend | mini_netflix.py:59-65 | filtering a concatenation is the concatenation of the filtered parts, so order is preserved |
| Search.SearchAllMatch | mini_netflix.py:59-65 | if every record matches, the whole catalog is returned in its order |
| Search.NoMatchesEmpty | mini_netflix.py:59-65 | if no record matches, the result is empty |
| Search.TextClauseRejects | mini_netflix.py:62 | a query misses a record when its lower-cased form has a character the lower-cased title lacks and the query has a character the year numeral lacks |
| Search.YearQueryText | mini_netflix.py:62 | a four-digit year typed as the query passes the text clause exactly for records of that year (titles without digits) |
| Search.EmptyQueryMatchesText | mini_netflix.py:62 | the empty query passes the text clause for every record |
| Search.InvertedRangeEmpty | mini_netflix.py:63 | a range with start > end selects nothing |
| Search.EmptyGenresUnrestricted | mini_netflix.py:64 | an empty genre list selects what a list of every catalog genre selects |
| Search.YearClauseIgnoresCase | mini_netflix.py:62 | matching the query as typed or lower-cased against the year numeral gives the same answer |
| Text.LowerStr | mini_netflix.py:57 | `lower()` keeps the length and lower-cases each character on its own |
| Text.IsSubstring | mini_netflix.py:62 | Python's `p in s` on strings: `p` occurs in `s` at some offset, so `""` occurs in every string |
| Text.EmptyIsSubstring | mini_netflix.py:62 | `"" in s` holds for every `s` |
| Text.LowerKeepsSubstring | mini_netflix.py:62 | a substring stays a substring, at the same offset, when both sides are lower-cased |
| Text.LowerWithoutUpper | mini_netflix.py:57 | `lower()` leaves a string without upper-case letters unchanged |
| Text.LowerIdempotent | mini_netflix.py:57 | lower-casing twice is lower-casing once |
| Text.MissingCharNotSubstring | mini_netflix.py:62 | `p in s` fails when `p` has a character `s` lacks |
| Text.LowerAddsNoOther | mini_netflix.py:62 | lower-casing adds no character other than a lower-case letter |
| Text.SameLengthSubstring | mini_netflix.py:62 | between strings of one length, `p in s` holds exactly when `p == s` |
| Text.LowerMissingLetter | mini_netflix.py:62 | a letter missing from `s` in both cases is missing from `s.lower()` |
| Decimal.NatToStr | mini_netflix.py:62 | `str(n)` for `n >= 0` is a non-empty digit string without a leading zero unless `n == 0` |
| Decimal.IntToStr | mini_netflix.py:62 | `str(n)` is a numeral that starts with `-` exactly when `n < 0` |
| Decimal.ParseNatToStr | mini_netflix.py:62 | reading back the digits of `str(n)` gives `n` |
| Decimal.ParseIntToStr | mini_netflix.py:62 | `int(str(n)) == n` for every integer |
| Decimal.IntToStrInjective | mini_netflix.py:62 | distinct years have distinct numerals |
| Decimal.FourDigits | mini_netflix.py:62 | years 1000 to 9999 have four-character numerals |
| Decimal.NumeralHasNoLetter | mini_netflix.py:62 | no letter occurs in `str(n)` |
| Seqs.SubsequenceMembers | mini_netflix.py:59-65 | every element of a subsequence is an element of the sequence |
| Bounds.Years | mini_netflix.py:69 | the year list has one entry per record, in order |
| Bounds.Min | mini_netflix.py:70 | `min` of a non-empty list is an element no larger than any element |
| Bounds.Max | mini_netflix.py:70 | `max` of a non-empty list is an element no smaller than any element |
| Bounds.YearBounds | mini_netflix.py:68-70 | an error exactly for the empty catalog; otherwise every year lies in `[lo, hi]` and both bounds are years of records |
| Genres.StrLt | mini_netflix.py:83 | Python's `<` on strings, which `sorted` uses: the first differing code point decides, and a proper prefix comes first |
| Genres.StrLtIrreflexive | mini_netflix.py:83 | no string is below itself under Python's string order |
| Genres.StrLtTransitive | mini_netflix.py:83 | Python's string order is transitive |
| Genres.StrLtTotal | mini_netflix.py:83 | of two distinct strings, one is below the other |
| Genres.InsertUnique | mini_netflix.py:83 | adding a genre to an ascending distinct list keeps it ascending, with exactly the old elements plus the genre |
| Genres.AvailableGenres | mini_netflix.py:83 | ascending and duplicate-free, and holds exactly the genres of catalog records |
| Genres.AscendingUnique | mini_netflix.py:83 | two ascending lists with the same elements are equal, so the sorted genre list is determined |
| Genres.ActiveGenres | mini_netflix.py:85 | `selected_genres or available_genres`: the selection when it is non-empty, otherwise every genre |
| Genres.ActiveGenresSameSearch | mini_netflix.py:85-88 | falling back to every genre on an empty selection returns the same records as the empty selection |
| YearSort.WithYearMembers | mini_netflix_plus.py:85 | the year-`y` records of a list are its records of year `y` |
| YearSort.DescendingCons | mini_netflix_plus.py:85 | a record whose year is at least every year of a descending list can go in front of it |
| YearSort.Insert | mini_netflix_plus.py:85 | inserting into a descending list keeps it descending and adds exactly that record |
| YearSort.SortByYearDesc | mini_netflix_plus.py:85 | the sort is descending by year and a permutation of its input |
| YearSort.WithYearCons | mini_netflix_plus.py:85 | the year-`y` records of `[x] + s` are `x` (if of year `y`) followed by those of `s` |
| YearSort.InsertStable | mini_netflix_plus.py:85 | insertion puts a record ahead of the records of its year already present, since it came before them in the input |
| YearSort.SortStable | mini_netflix_plus.py:85 | stability: for every year, the records of that year keep their input order |
| YearSort.SameHead | mini_netflix_plus.py:85 | two descending lists with the same per-year subsequences have the same first record |
| YearSort.SameTails | mini_netflix_plus.py:85 | two such lists, with their first record removed, still have the same per-year subsequences |
| YearSort.DescendingUnique | mini_netflix_plus.py:85 | two descending lists with the same per-year subsequences are equal |
| YearSort.SortCharacterized | mini_netflix_plus.py:135 | any descending arrangement with the input's per-year order is the sort's output |
| MiniNetflix.DefaultViewShowsAll | mini_netflix.py:74-88 | with an empty query, the slider at the catalog bounds and all or no genres selected, the whole catalog is listed in order |
| MiniNetflix.MoviesYearBounds | mini_netflix.py:74 | the catalog's year bounds are (1995, 2025) |
| MiniNetflix.MoviesGenres | mini_netflix.py:83 | the catalog's genres are Adventure, Animation, Horror, in that order |
| MiniNetflix.YearQuery | mini_netflix.py:56-65 | typing a four-digit year, with range and genres letting all through, lists exactly that year's records in catalog order |
| MiniNetflix.CatalogShape | mini_netflix.py:4-53 | the catalog's titles hold no digits and its years have four digits |
| MiniNetflix.Catalog2025 | mini_netflix.py:4-53 | the catalog's 2025 records are The Demon Hunter and Smurf, in that order |
| MiniNetflix.Query2025 | mini_netflix.py:56-65 | query "2025" with a range covering the catalog and all or no genres finds The Demon Hunter, Smurf |
| MiniNetflix.AnimationFrom2000To2020 | mini_netflix.py:56-65 | the empty query, range (2000, 2020) and genre Animation find Frozen alone |
| MiniNetflixPlus.SliderRange | mini_netflix_plus.py:74 | the slider's range is the constant (1990, 2025) |
| MiniNetflixPlus.SliderCoversCatalog | mini_netflix_plus.py:74-77 | the fixed slider admits every catalog record but is not the catalog's year bounds |
| MiniNetflixPlus.Suggestions | mini_netflix_plus.py:122 | each suggestion's lower-cased title occurs in the lower-cased reply, and suggestions keep catalog order |
| MiniNetflixPlus.SuggestionsComplete | mini_netflix_plus.py:122 | every record whose title the reply mentions, in any case, is suggested |
| MiniNetflixPlus.SuggestionsMembers | mini_netflix_plus.py:122 | a record is suggested exactly when it is a catalog record whose lower-cased title occurs in the lower-cased reply |
| MiniNetflixPlus.SuggestionsIgnoreReplyCase | mini_netflix_plus.py:122 | lower-casing the reply beforehand leaves the suggestions unchanged |
| MiniNetflixPlus.MoviesToShow | mini_netflix_plus.py:130-135 | stored suggestions are shown as they are; otherwise the filter result is shown descending by year, as a permutation, with equal years in catalog order |
| MiniNetflixPlus.ShownIsFiltered | mini_netflix_plus.py:134-135 | without suggestions, what is shown is exactly the sorted filter result |
| MiniNetflixPlus.Shown2025 | mini_netflix_plus.py:130-135 | query "2025" at the default slider and genres shows The Demon Hunter before Smurf |
| MiniNetflixPlus.SortedPair | mini_netflix_plus.py:135 | sorting The Demon Hunter and Smurf, both of 2025, keeps their order |
| MiniNetflixPlus.QueryToyUpper | mini_netflix_plus.py:59-64 | the upper-case query "TOY" passes the text clause for Toy Story and finds it |
| MiniNetflixPlus.MissesWithoutY | mini_netflix_plus.py:58-67 | a query holding 'T' whose lower-cased form holds 'y' finds nothing among records whose titles hold no 'y' in either case |
| MiniNetflixPlus.AroundToyStory | mini_netflix_plus.py:6-55 | in the catalog, Toy Story is third, with two records before it and three after |
| MiniNetflixPlus.NoYBefore | mini_netflix_plus.py:6-55 | neither The Demon Hunter nor Smurf has a 'y' in either case |
| MiniNetflixPlus.NoYAfter | mini_netflix_plus.py:6-55 | none of Frozen, Moana and Finding Nemo has a 'y' in either case |
| MiniNetflixPlus.OnlyToyStory | mini_netflix_plus.py:58-67 | such a query that passes the text clause for Toy Story finds Toy Story and nothing else |
| MiniNetflixPlus.QueryToyOnly | mini_netflix_plus.py:58-67 | query "TOY", with the default slider and no genre restriction, finds exactly [Toy Story] |

## Left out

- The Streamlit page itself is not modelled. This covers page setup, the sidebar widgets, image, caption and button rendering, and video playback. Widget values are parameters of the lemmas.
- The assistant call to OpenAI is not modelled: the model, the tone selector, the prompt and the network. The reply is an arbitrary string parameter of `Suggestions`.
- `st.session_state.ai_suggestions` is not modelled. The stored suggestions are a parameter of `MoviesToShow`, and an empty one stands for the state never having been set. The model does not capture how the suggestions persist across interactions.
- `str.lower` is modelled for ASCII only. Other Unicode case mappings are not modelled.
- The `poster`, `synopsis` and `url` fields of each record are not modelled. Only display and the assistant prompt at `mini_netflix_plus.py:105` (left out) read them; no query or filter does.
- Both scripts read the global `MOVIES`. In the model, the catalog is a parameter of each operation.
- The first `filtered = sorted(...)` at `mini_netflix_plus.py:84-85` is not modelled separately. Its value is never displayed, and lines 134-135 compute the same list again; `MoviesToShow` models those.
- The `print(movies_to_show)` on the second page and the result counter are output only, and are not modelled.
