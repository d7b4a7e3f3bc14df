/** The filtered view `df` the dashboard derives from the loaded table
    `df_raw`: a boolean mask of two conditions, applied by indexing, and
    the "Total Games" count of what remains. */
module View {
  import opened Games
  import opened Text

  /** The slider's bounds and the widgets' defaults. */
  const SliderMin: int := 0
  const SliderMax: int := 100
  const DefaultSearch: string := ""
  const DefaultLo: int := 0
  const DefaultHi: int := 100

  /** A range the slider can produce: both ends within its bounds, low end first. */
  predicate ValidRange(lo: int, hi: int)
  {
    SliderMin <= lo <= hi <= SliderMax
  }

  /** The `between` test of a score, with its default of including both ends. */
  predicate Between(x: int, lo: int, hi: int)
  {
    lo <= x && x <= hi
  }

  /** The row condition: the name contains the search text, ignoring case,
      and the score lies in the chosen range. With an empty search text only
      the score decides. */
  predicate Keep(g: Game, search: string, lo: int, hi: int)
    ensures Keep(g, search, lo, hi) ==> lo <= g.metacritic <= hi && |search| <= |g.name|
    ensures search == "" ==> (Keep(g, search, lo, hi) <==> lo <= g.metacritic <= hi)
  {
    Matches(g.name, search) && Between(g.metacritic, lo, hi)
  }

  /** The name test applied to every row: `str.contains` on the name column. */
  function NameMask(t: Table, search: string): seq<bool>
  {
    seq(|t|, i requires 0 <= i < |t| => Matches(t[i].name, search))
  }

  /** The score test applied to every row: `between` on the score column. */
  function RangeMask(t: Table, lo: int, hi: int): seq<bool>
  {
    seq(|t|, i requires 0 <= i < |t| => Between(t[i].metacritic, lo, hi))
  }

  /** Element-wise `&` of two masks of one length. */
  function And(a: seq<bool>, b: seq<bool>): seq<bool>
    requires |a| == |b|
  {
    seq(|a|, i requires 0 <= i < |a| => a[i] && b[i])
  }

  /** The filter's mask, the `&` of the two column tests: one entry per row,
      true exactly when the row meets the condition. */
  function Mask(t: Table, search: string, lo: int, hi: int): (m: seq<bool>)
    ensures |m| == |t|
    ensures forall i :: 0 <= i < |t| ==> m[i] == Keep(t[i], search, lo, hi)
  {
    And(NameMask(t, search), RangeMask(t, lo, hi))
  }

  /** The positions at which the mask holds, in increasing order. */
  function Positions(m: seq<bool>): (p: seq<nat>)
    ensures |p| <= |m|
    ensures forall k :: 0 <= k < |p| ==> p[k] < |m| && m[p[k]]
    ensures forall k, l :: 0 <= k < l < |p| ==> p[k] < p[l]
    ensures forall i :: 0 <= i < |m| && m[i] ==> i in p
  {
    if m == [] then []
    else Positions(m[..|m| - 1]) + (if m[|m| - 1] then [|m| - 1] else [])
  }

  /** Indexing a sequence by a mask: the elements at the positions where it holds. */
  function Select<T>(s: seq<T>, m: seq<bool>): (r: seq<T>)
    requires |m| == |s|
    ensures |r| <= |s|
    ensures forall x :: x in r ==> x in s
  {
    if s == [] then []
    else
      var n := |s| - 1;
      Select(s[..n], m[..n]) + (if m[n] then [s[n]] else [])
  }

  /** Indexing by a mask gives one element per position where the mask
      holds, namely the element at that position, in order. */
  lemma {:induction false} SelectAt<T>(s: seq<T>, m: seq<bool>)
    requires |m| == |s|
    ensures |Select(s, m)| == |Positions(m)|
    ensures forall k :: 0 <= k < |Select(s, m)| ==> Select(s, m)[k] == s[Positions(m)[k]]
  {
    if s != [] {
      var n := |s| - 1;
      assert m[..n] == m[..|m| - 1];
      SelectAt(s[..n], m[..n]);
      var r, r' := Select(s, m), Select(s[..n], m[..n]);
      var p, p' := Positions(m), Positions(m[..n]);
      assert r == r' + (if m[n] then [s[n]] else []);
      assert p == p' + (if m[n] then [n] else []);
      forall k | 0 <= k < |r| ensures r[k] == s[p[k]] {
        if k < |r'| {
          assert r[k] == r'[k] == s[..n][p'[k]];
        }
      }
    }
  }

  /** The filtered view. The slider only produces valid ranges, and the
      search text is read as a literal only when it has no regular-expression
      metacharacters. */
  function Filter(t: Table, search: string, lo: int, hi: int): (df: Table)
    requires PlainText(search) && ValidRange(lo, hi)
    ensures |df| <= |t|
    ensures forall k :: 0 <= k < |df| ==> Keep(df[k], search, lo, hi)
  {
    SelectAt(t, Mask(t, search, lo, hi));
    Select(t, Mask(t, search, lo, hi))
  }

  /** The positions of the table's rows that the filter keeps. */
  function KeptPositions(t: Table, search: string, lo: int, hi: int): (p: seq<nat>)
  {
    Positions(Mask(t, search, lo, hi))
  }

  /** The filtered view is the subsequence of the table at exactly the
      positions whose row meets the condition: it keeps their order and
      neither adds nor drops a row. */
  lemma FilterIsMaskedSubsequence(t: Table, search: string, lo: int, hi: int)
    requires PlainText(search) && ValidRange(lo, hi)
    ensures var df, p := Filter(t, search, lo, hi), KeptPositions(t, search, lo, hi);
      && |df| == |p|
      && (forall k :: 0 <= k < |p| ==> p[k] < |t| && df[k] == t[p[k]])
      && (forall k, l :: 0 <= k < l < |p| ==> p[k] < p[l])
      && (forall i :: 0 <= i < |t| ==> (i in p <==> Keep(t[i], search, lo, hi)))
  {
    SelectAt(t, Mask(t, search, lo, hi));
  }

  /** A row is in the view if and only if it is a row of the table that meets
      the condition. */
  lemma {:induction false} FilterMembership(t: Table, search: string, lo: int, hi: int, g: Game)
    requires PlainText(search) && ValidRange(lo, hi)
    ensures g in Filter(t, search, lo, hi) <==> g in t && Keep(g, search, lo, hi)
  {
    var df, p := Filter(t, search, lo, hi), KeptPositions(t, search, lo, hi);
    FilterIsMaskedSubsequence(t, search, lo, hi);
    if g in df {
      var k :| 0 <= k < |df| && df[k] == g;
      assert t[p[k]] == g;
    }
    if g in t && Keep(g, search, lo, hi) {
      var i :| 0 <= i < |t| && t[i] == g;
      assert i in p;
      var k :| 0 <= k < |p| && p[k] == i;
      assert df[k] == g;
    }
  }

  /** The search ignores case: searching for the lower-case or the
      upper-case form of the text gives the same view. */
  lemma FilterIgnoresSearchCase(t: Table, search: string, lo: int, hi: int)
    requires PlainText(search) && ValidRange(lo, hi)
    ensures PlainText(LowerStr(search)) && PlainText(UpperStr(search))
    ensures Filter(t, LowerStr(search), lo, hi) == Filter(t, search, lo, hi)
    ensures Filter(t, UpperStr(search), lo, hi) == Filter(t, search, lo, hi)
  {
    PlainTextFolds(search);
    forall i | 0 <= i < |t|
      ensures Keep(t[i], LowerStr(search), lo, hi) == Keep(t[i], search, lo, hi)
      ensures Keep(t[i], UpperStr(search), lo, hi) == Keep(t[i], search, lo, hi)
    {
      MatchesIgnoresCase(t[i].name, search);
    }
    assert Mask(t, LowerStr(search), lo, hi) == Mask(t, search, lo, hi);
    assert Mask(t, UpperStr(search), lo, hi) == Mask(t, search, lo, hi);
  }

  /** The score range is inclusive at both ends: a matching row scored
      exactly `lo` or exactly `hi` is kept. */
  lemma FilterKeepsBounds(t: Table, search: string, lo: int, hi: int, g: Game)
    requires PlainText(search) && ValidRange(lo, hi)
    requires g in t && Matches(g.name, search)
    requires g.metacritic == lo || g.metacritic == hi
    ensures g in Filter(t, search, lo, hi)
  {
    FilterMembership(t, search, lo, hi, g);
  }

  /** When every row meets the condition, the view is the whole table. */
  lemma {:induction false} SelectAll<T>(s: seq<T>, m: seq<bool>)
    requires |m| == |s|
    requires forall i :: 0 <= i < |m| ==> m[i]
    ensures Select(s, m) == s
  {
    if s != [] {
      var n := |s| - 1;
      SelectSnoc(s, m);
      SelectAll(s[..n], m[..n]);
      assert s[..n] + [s[n]] == s;
    }
  }

  /** One step of `Select`: the last element is kept when its mask entry holds. */
  lemma SelectSnoc<T>(s: seq<T>, m: seq<bool>)
    requires |m| == |s| > 0
    ensures Select(s, m) == Select(s[..|s| - 1], m[..|s| - 1]) + (if m[|s| - 1] then [s[|s| - 1]] else [])
  {
  }

  /** The view is the whole table exactly when every row meets the condition. */
  lemma FilterKeepsAllIff(t: Table, search: string, lo: int, hi: int)
    requires PlainText(search) && ValidRange(lo, hi)
    ensures Filter(t, search, lo, hi) == t <==> forall i :: 0 <= i < |t| ==> Keep(t[i], search, lo, hi)
  {
    if forall i :: 0 <= i < |t| ==> Keep(t[i], search, lo, hi) {
      SelectAll(t, Mask(t, search, lo, hi));
    }
  }

  /** Filtering the view again with the same inputs changes nothing. */
  lemma FilterIdempotent(t: Table, search: string, lo: int, hi: int)
    requires PlainText(search) && ValidRange(lo, hi)
    ensures Filter(Filter(t, search, lo, hi), search, lo, hi) == Filter(t, search, lo, hi)
  {
    FilterKeepsAllIff(Filter(t, search, lo, hi), search, lo, hi);
  }

  /** With the widgets' defaults (empty search, full range) the view keeps
      exactly the rows scored within 0..100; a table whose scores all lie
      there is kept whole. */
  lemma FilterDefaults(t: Table, g: Game)
    ensures PlainText(DefaultSearch) && ValidRange(DefaultLo, DefaultHi)
    ensures g in Filter(t, DefaultSearch, DefaultLo, DefaultHi) <==> g in t && 0 <= g.metacritic <= 100
    ensures (forall i :: 0 <= i < |t| ==> 0 <= t[i].metacritic <= 100) ==>
              Filter(t, DefaultSearch, DefaultLo, DefaultHi) == t
  {
    FilterMembership(t, DefaultSearch, DefaultLo, DefaultHi, g);
    assert LowerStr(DefaultSearch) == "";
    assert forall h: Game :: Matches(h.name, DefaultSearch);
    FilterKeepsAllIff(t, DefaultSearch, DefaultLo, DefaultHi);
  }

  /** The "Total Games" figure: the number of rows in the view. */
  function TotalGames(df: Table): nat
  {
    |df|
  }

  /** The table positions whose row meets the condition. */
  ghost function KeptSet(t: Table, search: string, lo: int, hi: int): set<int>
  {
    set i | 0 <= i < |t| && Keep(t[i], search, lo, hi)
  }

  /** The count of the view is the number of table positions whose row meets
      the condition, never more than the table's size, and equal to it
      exactly when no row is dropped. */
  lemma TotalGamesOfFilter(t: Table, search: string, lo: int, hi: int)
    requires PlainText(search) && ValidRange(lo, hi)
    ensures TotalGames(Filter(t, search, lo, hi)) == |KeptSet(t, search, lo, hi)|
    ensures TotalGames(Filter(t, search, lo, hi)) <= |t|
    ensures TotalGames(Filter(t, search, lo, hi)) == |t| <==> forall i :: 0 <= i < |t| ==> Keep(t[i], search, lo, hi)
  {
    var df, p := Filter(t, search, lo, hi), KeptPositions(t, search, lo, hi);
    FilterKeepsAllIff(t, search, lo, hi);
    FilterIsMaskedSubsequence(t, search, lo, hi);
    KeptSetCard(t, search, lo, hi);
    if |df| == |t| {
      StrictlyIncreasingFull(p, |t|);
      forall i | 0 <= i < |t| ensures Keep(t[i], search, lo, hi) {
        assert p[i] == i;
      }
    }
  }

  /** There are as many kept positions as positions whose row meets the condition. */
  lemma KeptSetCard(t: Table, search: string, lo: int, hi: int)
    ensures |KeptSet(t, search, lo, hi)| == |KeptPositions(t, search, lo, hi)|
  {
    var m := Mask(t, search, lo, hi);
    var p := Positions(m);
    DistinctCard(p);
    forall i ensures i in KeptSet(t, search, lo, hi) <==> i in p {
      if i in p {
        var k :| 0 <= k < |p| && p[k] == i;
      }
    }
    assert KeptSet(t, search, lo, hi) == Elems(p);
  }

  /** The distinct entries of a sequence of positions. */
  ghost function Elems(p: seq<nat>): set<nat>
  {
    set x | x in p
  }

  /** A strictly increasing sequence has as many distinct elements as entries. */
  lemma {:induction false} DistinctCard(p: seq<nat>)
    requires forall k, l :: 0 <= k < l < |p| ==> p[k] < p[l]
    ensures |Elems(p)| == |p|
  {
    if p != [] {
      var n := |p| - 1;
      var q := p[..n];
      DistinctCard(q);
      assert p == q + [p[n]];
      assert Elems(p) == Elems(q) + {p[n]};
      forall x | x in Elems(q) ensures x < p[n] {
        var k :| 0 <= k < |q| && q[k] == x;
      }
      assert p[n] !in Elems(q);
    }
  }

  /** `n` strictly increasing positions below `n` are 0, 1, ..., n-1. */
  lemma {:induction false} StrictlyIncreasingFull(p: seq<nat>, n: nat)
    requires |p| == n
    requires forall k :: 0 <= k < |p| ==> p[k] < n
    requires forall k, l :: 0 <= k < l < |p| ==> p[k] < p[l]
    ensures forall k :: 0 <= k < |p| ==> p[k] == k
  {
    if n > 0 {
      assert forall k :: 0 <= k < n - 1 ==> p[k] < p[n - 1];
      StrictlyIncreasingFull(p[..n - 1], n - 1);
      assert forall k :: 0 <= k < n - 1 ==> p[k] == p[..n - 1][k] == k;
      if n > 1 {
        assert p[n - 2] < p[n - 1];
      }
    }
  }

  /** Two rows named "Halo" and "Halo 2", scored 90 and 85: searching for
      "halo" in 80..100 keeps both, and the count is 2. */
  lemma HaloScenario()
    ensures var t := [Game("Halo", 4.5, 90, 0, 10.0), Game("Halo 2", 4.0, 85, 0, 12.0)];
      && PlainText("halo") && ValidRange(80, 100)
      && Filter(t, "halo", 80, 100) == t
      && TotalGames(Filter(t, "halo", 80, 100)) == 2
  {
  }
}
