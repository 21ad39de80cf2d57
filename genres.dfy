/** `available_genres = sorted({movie['genre'] for movie in MOVIES})` and
    `active_genres = selected_genres or available_genres`. */
module Genres {
  import opened Movies
  import opened Search

  /** Python's `<` on strings: lexicographic by code point, a proper prefix first. */
  predicate StrLt(a: string, b: string)
    decreases |a|
  {
    if b == [] then false
    else if a == [] then true
    else if a[0] != b[0] then a[0] < b[0]
    else StrLt(a[1..], b[1..])
  }

  lemma {:induction false} StrLtIrreflexive(a: string)
    ensures !StrLt(a, a)
    decreases |a|
  {
    if a != [] {
      StrLtIrreflexive(a[1..]);
    }
  }

  lemma {:induction false} StrLtTransitive(a: string, b: string, c: string)
    requires StrLt(a, b) && StrLt(b, c)
    ensures StrLt(a, c)
    decreases |a|
  {
    if a != [] && a[0] == b[0] && b[0] == c[0] {
      StrLtTransitive(a[1..], b[1..], c[1..]);
    }
  }

  lemma {:induction false} StrLtTotal(a: string, b: string)
    requires a != b
    ensures StrLt(a, b) || StrLt(b, a)
    decreases |a|
  {
    if a != [] && b != [] && a[0] == b[0] {
      assert a == [a[0]] + a[1..] && b == [b[0]] + b[1..];
      StrLtTotal(a[1..], b[1..]);
    }
  }

  /** Strictly ascending under StrLt, hence also free of duplicates. */
  predicate Ascending(s: seq<string>) {
    forall i, j :: 0 <= i < j < |s| ==> StrLt(s[i], s[j])
  }

  /** Adds `g` to an ascending list of distinct strings, where it belongs. */
  function InsertUnique(g: string, t: seq<string>): (r: seq<string>)
    requires Ascending(t)
    ensures Ascending(r)
    ensures forall x :: x in r <==> x == g || x in t
  {
    if t == [] then [g]
    else if g == t[0] then t
    else if StrLt(g, t[0]) then
      assert forall j :: 0 < j < |t| ==> StrLt(g, t[j]) by {
        forall j | 0 < j < |t| ensures StrLt(g, t[j]) {
          StrLtTransitive(g, t[0], t[j]);
        }
      }
      [g] + t
    else
      StrLtTotal(g, t[0]);
      var rest := InsertUnique(g, t[1..]);
      assert forall x :: x in rest ==> StrLt(t[0], x) by {
        forall x | x in rest ensures StrLt(t[0], x) {
          if x != g {
            var j :| 0 <= j < |t[1..]| && t[1..][j] == x;
            assert t[j + 1] == x;
          }
        }
      }
      assert forall x :: x in t <==> x == t[0] || x in t[1..];
      [t[0]] + rest
  }

  /** The distinct genres of the catalog, ascending. */
  function AvailableGenres(catalog: seq<Movie>): (r: seq<string>)
    ensures Ascending(r)
    ensures forall g :: g in r <==> exists m :: m in catalog && m.genre == g
    decreases |catalog|
  {
    if catalog == [] then []
    else
      var rest := AvailableGenres(catalog[1..]);
      assert forall m :: m in catalog <==> m == catalog[0] || m in catalog[1..];
      InsertUnique(catalog[0].genre, rest)
  }

  /** An ascending list is determined by its elements: `sorted` of a set has
      exactly one possible result. */
  lemma {:induction false} AscendingUnique(a: seq<string>, b: seq<string>)
    requires Ascending(a) && Ascending(b)
    requires forall x :: x in a <==> x in b
    ensures a == b
    decreases |a|
  {
    assert a != [] ==> a[0] in b;
    assert b != [] ==> b[0] in a;
    if a != [] && b != [] {
      if a[0] != b[0] {
        assert a[0] in a && b[0] in b;
        var i :| 0 <= i < |b| && b[i] == a[0];
        var j :| 0 <= j < |a| && a[j] == b[0];
        assert StrLt(b[0], a[0]);
        assert StrLt(a[0], b[0]);
        StrLtTransitive(a[0], b[0], a[0]);
        StrLtIrreflexive(a[0]);
      } else {
        forall x ensures x in a[1..] <==> x in b[1..] {
          if x in a[1..] {
            var k :| 0 <= k < |a[1..]| && a[1..][k] == x;
            assert StrLt(a[0], a[k + 1]);
            StrLtIrreflexive(x);
            assert x in b;
          }
          if x in b[1..] {
            var k :| 0 <= k < |b[1..]| && b[1..][k] == x;
            assert StrLt(b[0], b[k + 1]);
            StrLtIrreflexive(x);
            assert x in a;
          }
        }
        AscendingUnique(a[1..], b[1..]);
        assert a == [a[0]] + a[1..] && b == [b[0]] + b[1..];
      }
    }
  }

  /** `selected_genres or available_genres`. */
  function ActiveGenres(selected: seq<string>, available: seq<string>): seq<string> {
    if |selected| > 0 then selected else available
  }

  /** The fallback to every genre changes nothing the search returns: an
      empty selection already restricts nothing. */
  lemma ActiveGenresSameSearch(catalog: seq<Movie>, selected: seq<string>, query: string, yearRange: (int, int))
    ensures SearchMovies(catalog, query, yearRange, ActiveGenres(selected, AvailableGenres(catalog)))
         == SearchMovies(catalog, query, yearRange, selected)
  {
    if |selected| == 0 {
      EmptyGenresUnrestricted(catalog, query, yearRange, AvailableGenres(catalog));
    }
  }
}
