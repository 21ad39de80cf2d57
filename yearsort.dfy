/** `sorted(records, key=itemgetter("year"), reverse=True)`: Python's sort is
    stable, also with `reverse=True`, so records of equal year keep their
    input order. Modelled as a stable insertion sort. */
module YearSort {
  import opened Movies

  /** Non-increasing by year. */
  predicate Descending(s: seq<Movie>) {
    forall i, j :: 0 <= i < j < |s| ==> s[i].year >= s[j].year
  }

  /** The records of year `y`, in the order they appear in `s`. */
  function WithYear(s: seq<Movie>, y: int): seq<Movie>
  {
    if s == [] then [] else (if s[0].year == y then [s[0]] else []) + WithYear(s[1..], y)
  }

  lemma {:induction false} WithYearMembers(s: seq<Movie>, y: int)
    ensures forall x :: x in WithYear(s, y) <==> x in s && x.year == y
    decreases |s|
  {
    if s != [] {
      WithYearMembers(s[1..], y);
      assert forall x :: x in s <==> x == s[0] || x in s[1..];
    }
  }

  lemma DescendingCons(x: Movie, s: seq<Movie>)
    requires Descending(s)
    requires forall e :: e in s ==> e.year <= x.year
    ensures Descending([x] + s)
  {
    forall i, j | 0 <= i < j < |[x] + s| ensures ([x] + s)[i].year >= ([x] + s)[j].year {
      assert ([x] + s)[j] == s[j - 1];
      if i > 0 {
        assert ([x] + s)[i] == s[i - 1];
      }
    }
  }

  /** Puts `m` in front of the first record whose year is not above its own. */
  function Insert(m: Movie, t: seq<Movie>): (r: seq<Movie>)
    requires Descending(t)
    ensures Descending(r)
    ensures multiset(r) == multiset(t) + multiset{m}
  {
    if t == [] || m.year >= t[0].year then
      DescendingCons(m, t);
      [m] + t
    else
      var rest := Insert(m, t[1..]);
      assert t == [t[0]] + t[1..];
      assert forall x :: x in rest ==> x.year <= t[0].year by {
        forall x | x in rest ensures x.year <= t[0].year {
          assert x in multiset(rest);
          if x != m {
            assert x in t[1..];
          }
        }
      }
      DescendingCons(t[0], rest);
      [t[0]] + rest
  }

  /** The year-descending sort of the records. */
  function SortByYearDesc(s: seq<Movie>): (r: seq<Movie>)
    ensures Descending(r)
    ensures multiset(r) == multiset(s)
  {
    if s == [] then []
    else
      assert s == [s[0]] + s[1..];
      Insert(s[0], SortByYearDesc(s[1..]))
  }

  lemma WithYearCons(x: Movie, s: seq<Movie>, y: int)
    ensures WithYear([x] + s, y) == (if x.year == y then [x] else []) + WithYear(s, y)
  {
    assert ([x] + s)[1..] == s;
  }

  /** Inserting `m` places it ahead of the records of its year already in `t`,
      since in the input it came before them. */
  lemma {:induction false} InsertStable(m: Movie, t: seq<Movie>, y: int)
    requires Descending(t)
    ensures WithYear(Insert(m, t), y) == WithYear([m] + t, y)
    decreases |t|
  {
    if !(t == [] || m.year >= t[0].year) {
      var tail := t[1..];
      var rest := Insert(m, tail);
      assert Insert(m, t) == [t[0]] + rest;
      assert t == [t[0]] + tail;
      InsertStable(m, tail, y);
      WithYearCons(t[0], rest, y);
      WithYearCons(t[0], tail, y);
      WithYearCons(m, tail, y);
      WithYearCons(m, t, y);
      if m.year == y {
        assert t[0].year != y;
      }
    }
  }

  /** Stability: for every year, the records of that year come out in input order. */
  lemma {:induction false} SortStable(s: seq<Movie>, y: int)
    ensures WithYear(SortByYearDesc(s), y) == WithYear(s, y)
    decreases |s|
  {
    if s != [] {
      SortStable(s[1..], y);
      InsertStable(s[0], SortByYearDesc(s[1..]), y);
      assert ([s[0]] + SortByYearDesc(s[1..]))[1..] == SortByYearDesc(s[1..]);
    }
  }

  /** Two descending sequences with the same per-year subsequences start alike. */
  lemma SameHead(a: seq<Movie>, b: seq<Movie>)
    requires Descending(a) && Descending(b) && a != [] && b != []
    requires forall y :: WithYear(a, y) == WithYear(b, y)
    ensures a[0] == b[0]
  {
    var ya, yb := a[0].year, b[0].year;
    WithYearMembers(a, ya);
    WithYearMembers(b, ya);
    WithYearMembers(a, yb);
    WithYearMembers(b, yb);
    assert a[0] in WithYear(a, ya);
    assert a[0] in WithYear(b, ya);
    assert b[0] in WithYear(b, yb);
    assert b[0] in WithYear(a, yb);
    var ka :| 0 <= ka < |b| && b[ka] == a[0];
    var kb :| 0 <= kb < |a| && a[kb] == b[0];
    assert ya == yb;
    assert WithYear(a, ya)[0] == a[0];
    assert WithYear(b, ya)[0] == b[0];
  }

  /** Removing a common first record keeps the per-year subsequences equal. */
  lemma SameTails(a: seq<Movie>, b: seq<Movie>, y: int)
    requires a != [] && b != [] && a[0] == b[0]
    requires WithYear(a, y) == WithYear(b, y)
    ensures WithYear(a[1..], y) == WithYear(b[1..], y)
  {
    assert WithYear(a, y) == (if a[0].year == y then [a[0]] else []) + WithYear(a[1..], y);
    assert WithYear(b, y) == (if b[0].year == y then [b[0]] else []) + WithYear(b[1..], y);
    if a[0].year == y {
      assert WithYear(a[1..], y) == WithYear(a, y)[1..];
      assert WithYear(b[1..], y) == WithYear(b, y)[1..];
    } else {
      assert [] + WithYear(a[1..], y) == WithYear(a[1..], y);
      assert [] + WithYear(b[1..], y) == WithYear(b[1..], y);
    }
  }

  /** A descending sequence is determined by its per-year subsequences. */
  lemma {:induction false} DescendingUnique(a: seq<Movie>, b: seq<Movie>)
    requires Descending(a) && Descending(b)
    requires forall y :: WithYear(a, y) == WithYear(b, y)
    ensures a == b
    decreases |a|
  {
    if a == [] || b == [] {
      assert a == [] ==> WithYear(b, if b == [] then 0 else b[0].year) == [];
      assert b == [] ==> WithYear(a, if a == [] then 0 else a[0].year) == [];
    } else {
      SameHead(a, b);
      forall y ensures WithYear(a[1..], y) == WithYear(b[1..], y) {
        SameTails(a, b, y);
      }
      DescendingUnique(a[1..], b[1..]);
      assert a == [a[0]] + a[1..] && b == [b[0]] + b[1..];
    }
  }

  /** The stable descending sort has exactly one result: any descending
      arrangement that keeps each year's records in input order is it. */
  lemma SortCharacterized(s: seq<Movie>, r: seq<Movie>)
    requires Descending(r)
    requires forall y :: WithYear(r, y) == WithYear(s, y)
    ensures r == SortByYearDesc(s)
  {
    forall y ensures WithYear(r, y) == WithYear(SortByYearDesc(s), y) {
      SortStable(s, y);
    }
    DescendingUnique(r, SortByYearDesc(s));
  }
}
