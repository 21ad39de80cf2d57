/** `year_bounds()`: the smallest and largest year of the catalog, computed
    with Python's `min` and `max`, which raise on an empty sequence. */
module Bounds {
  import opened Movies

  /** Python's ValueError from `min()` / `max()` of an empty sequence. */
  datatype BoundsError = EmptySequence

  datatype Result<T> = Ok(value: T) | Err(error: BoundsError)

  /** `[movie['year'] for movie in catalog]`. */
  function Years(catalog: seq<Movie>): (ys: seq<int>)
    ensures |ys| == |catalog|
    ensures forall i :: 0 <= i < |catalog| ==> ys[i] == catalog[i].year
  {
    if catalog == [] then [] else [catalog[0].year] + Years(catalog[1..])
  }

  /** Python's `min` on a non-empty list. */
  function Min(s: seq<int>): (m: int)
    requires |s| > 0
    ensures m in s
    ensures forall x :: x in s ==> m <= x
  {
    if |s| == 1 then s[0]
    else
      var rest := Min(s[1..]);
      assert s == [s[0]] + s[1..];
      if s[0] <= rest then s[0] else rest
  }

  /** Python's `max` on a non-empty list. */
  function Max(s: seq<int>): (m: int)
    requires |s| > 0
    ensures m in s
    ensures forall x :: x in s ==> x <= m
  {
    if |s| == 1 then s[0]
    else
      var rest := Max(s[1..]);
      assert s == [s[0]] + s[1..];
      if s[0] >= rest then s[0] else rest
  }

  /** `min(years), max(years)`; an empty catalog is the error the builtins raise. */
  function YearBounds(catalog: seq<Movie>): (r: Result<(int, int)>)
    ensures r.Err? <==> catalog == []
    ensures r.Ok? ==> forall m :: m in catalog ==> r.value.0 <= m.year <= r.value.1
    ensures r.Ok? ==> exists m :: m in catalog && m.year == r.value.0
    ensures r.Ok? ==> exists m :: m in catalog && m.year == r.value.1
  {
    if catalog == [] then Err(EmptySequence)
    else
      var ys := Years(catalog);
      var lo, hi := Min(ys), Max(ys);
      assert forall m :: m in catalog ==> m.year in ys by {
        forall m | m in catalog ensures m.year in ys {
          var i :| 0 <= i < |catalog| && catalog[i] == m;
          assert ys[i] == m.year;
        }
      }
      var i :| 0 <= i < |ys| && ys[i] == lo;
      var j :| 0 <= j < |ys| && ys[j] == hi;
      assert catalog[i] in catalog && catalog[j] in catalog;
      Ok((lo, hi))
  }
}
