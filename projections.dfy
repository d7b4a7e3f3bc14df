/** The two chart projections of the filtered view: `sort_values` on one
    column, ascending or descending, followed for the bar chart by `head(10)`. */
module Projections {
  import opened Games

  /** The columns the dashboard sorts by. */
  datatype Column = Rating | Released

  /** The sort key of a row; release day numbers are compared as reals. */
  function Key(g: Game, col: Column): real
  {
    match col
    case Rating => g.rating
    case Released => g.released as real
  }

  /** `a` may stand before `b` in the requested order. */
  predicate InOrder(a: Game, b: Game, col: Column, ascending: bool)
  {
    if ascending then Key(a, col) <= Key(b, col) else Key(b, col) <= Key(a, col)
  }

  /** Every earlier row may stand before every later one. */
  predicate Sorted(s: Table, col: Column, ascending: bool)
  {
    forall i, j :: 0 <= i < j < |s| ==> InOrder(s[i], s[j], col, ascending)
  }

  /** Inserts `x` before the first row it may stand before. */
  function Insert(x: Game, s: Table, col: Column, ascending: bool): (r: Table)
    ensures multiset(r) == multiset(s) + multiset{x}
  {
    if s == [] then [x]
    else if InOrder(x, s[0], col, ascending) then [x] + s
    else
      assert s == [s[0]] + s[1..];
      [s[0]] + Insert(x, s[1..], col, ascending)
  }

  /** Inserting into a sorted table keeps it sorted. */
  lemma {:induction false} InsertSorted(x: Game, s: Table, col: Column, ascending: bool)
    requires Sorted(s, col, ascending)
    ensures Sorted(Insert(x, s, col, ascending), col, ascending)
  {
    if s != [] && !InOrder(x, s[0], col, ascending) {
      var rest := Insert(x, s[1..], col, ascending);
      InsertSorted(x, s[1..], col, ascending);
      assert Insert(x, s, col, ascending) == [s[0]] + rest;
      forall j | 0 <= j < |rest| ensures InOrder(s[0], rest[j], col, ascending) {
        assert rest[j] in multiset(rest);
        if rest[j] != x {
          assert rest[j] in multiset(s[1..]);
          var k :| 0 <= k < |s[1..]| && s[1..][k] == rest[j];
          assert s[1 + k] == rest[j];
        }
      }
    }
  }

  /** `df.sort_values(col, ascending=ascending)`. The library's default sort
      does not keep the table order among equal keys; this one is a single
      admissible choice, and the lemmas below about the projections hold for
      every sorted permutation. */
  function SortValues(s: Table, col: Column, ascending: bool): (r: Table)
    ensures multiset(r) == multiset(s)
    ensures Sorted(r, col, ascending)
  {
    if s == [] then []
    else
      assert s == [s[0]] + s[1..];
      InsertSorted(s[0], SortValues(s[1..], col, ascending), col, ascending);
      Insert(s[0], SortValues(s[1..], col, ascending), col, ascending)
  }

  /** `df.head(n)`: the first `n` rows, or all of them when there are fewer. */
  function Head(s: Table, n: nat): (r: Table)
    ensures |r| == Min(n, |s|)
    ensures r <= s
  {
    if |s| <= n then s else s[..n]
  }

  /** The number of rows on the "top games" bar chart. */
  const TopCount: nat := 10

  /** `df.sort_values("rating", ascending=False).head(10)`. */
  function TopGames(df: Table): (top: Table)
    ensures |top| == Min(TopCount, |df|)
    ensures Sorted(top, Rating, false)
    ensures multiset(top) <= multiset(df)
  {
    var sorted := SortValues(df, Rating, false);
    PrefixSorted(sorted, TopCount, Rating, false);
    PrefixSubMultiset(sorted, Head(sorted, TopCount));
    Head(sorted, TopCount)
  }

  /** `df.sort_values("released")`: the chronological series of the trend chart. */
  function Chronological(df: Table): (c: Table)
    ensures multiset(c) == multiset(df)
    ensures |c| == |df|
    ensures Sorted(c, Released, true)
    ensures forall i, j :: 0 <= i < j < |c| ==> c[i].released <= c[j].released
  {
    var r := SortValues(df, Released, true);
    assert |r| == |multiset(r)| == |multiset(df)| == |df|;
    r
  }

  lemma PrefixSorted(s: Table, n: nat, col: Column, ascending: bool)
    requires Sorted(s, col, ascending)
    ensures Sorted(Head(s, n), col, ascending)
  {
  }

  lemma PrefixSubMultiset(s: Table, p: Table)
    requires p <= s
    ensures multiset(p) <= multiset(s)
    ensures multiset(s) - multiset(p) == multiset(s[|p|..])
  {
    assert s == p + s[|p|..];
  }

  /** The first `n` rows of any sorted permutation of `df` are a top-`n`
      selection: they come from `df`, and no row left out may stand before
      any row taken. */
  lemma {:induction false} HeadOfSortedIsTop(df: Table, q: Table, n: nat, col: Column, ascending: bool)
    requires multiset(q) == multiset(df) && Sorted(q, col, ascending)
    ensures var h := Head(q, n);
      && |h| == Min(n, |df|)
      && multiset(h) <= multiset(df)
      && forall x, y :: x in multiset(h) && y in multiset(df) - multiset(h) ==> InOrder(x, y, col, ascending)
  {
    var h := Head(q, n);
    assert |q| == |multiset(q)| == |multiset(df)| == |df|;
    PrefixSubMultiset(q, h);
    forall x, y | x in multiset(h) && y in multiset(df) - multiset(h)
      ensures InOrder(x, y, col, ascending)
    {
      var i :| 0 <= i < |h| && h[i] == x;
      assert y in q[|h|..];
      var j :| 0 <= j < |q[|h|..]| && q[|h|..][j] == y;
      assert q[i] == x && q[|h| + j] == y;
    }
  }

  /** Every row of the view left out of the "top games" projection is rated
      no higher than any row in it. */
  lemma TopGamesAreHighestRated(df: Table)
    ensures var top := TopGames(df);
      forall x: Game, y: Game :: x in multiset(top) && y in multiset(df) - multiset(top) ==> y.rating <= x.rating
  {
    var top, q := TopGames(df), SortValues(df, Rating, false);
    assert top == Head(q, TopCount);
    HeadOfSortedIsTop(df, q, TopCount, Rating, false);
    forall x: Game, y: Game | x in multiset(top) && y in multiset(df) - multiset(top)
      ensures y.rating <= x.rating
    {
      assert InOrder(x, y, Rating, false);
    }
  }

  /** Whichever order the library gives tied ratings, the ten rows it shows
      form such a top selection. */
  lemma AnyRatingOrderGivesTop(df: Table, q: Table)
    requires multiset(q) == multiset(df) && Sorted(q, Rating, false)
    ensures var top := Head(q, TopCount);
      && |top| == Min(TopCount, |df|)
      && multiset(top) <= multiset(df)
      && Sorted(top, Rating, false)
      && forall x, y :: x in multiset(top) && y in multiset(df) - multiset(top) ==> y.rating <= x.rating
  {
    HeadOfSortedIsTop(df, q, TopCount, Rating, false);
    PrefixSorted(q, TopCount, Rating, false);
  }
}
