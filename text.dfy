/** Case-insensitive literal substring search, as the name filter uses it. */
module Text {

  /** ASCII upper-case letters become lower-case; every other character is kept. */
  function Lower(c: char): (r: char)
    ensures !('A' <= r <= 'Z')
    ensures ('a' <= r <= 'z') <==> ('a' <= c <= 'z' || 'A' <= c <= 'Z')
    ensures r != c ==> 'A' <= c <= 'Z'
  {
    if 'A' <= c <= 'Z' then (c as int + 32) as char else c
  }

  /** ASCII lower-case letters become upper-case; every other character is kept. */
  function Upper(c: char): (r: char)
    ensures !('a' <= r <= 'z')
    ensures ('A' <= r <= 'Z') <==> ('a' <= c <= 'z' || 'A' <= c <= 'Z')
    ensures r != c ==> 'a' <= c <= 'z'
  {
    if 'a' <= c <= 'z' then (c as int - 32) as char else c
  }

  /** Folding to lower case is idempotent, and a letter and its upper-case
      form fold to the same character. */
  lemma CaseFoldChar(c: char)
    ensures Lower(Lower(c)) == Lower(c)
    ensures Lower(Upper(c)) == Lower(c)
    ensures Upper(Lower(c)) == Upper(c)
  {
  }

  function LowerStr(s: string): (r: string)
  {
    seq(|s|, i requires 0 <= i < |s| => Lower(s[i]))
  }

  function UpperStr(s: string): (r: string)
  {
    seq(|s|, i requires 0 <= i < |s| => Upper(s[i]))
  }

  /** The characters that make a search text more than a literal pattern. */
  const RegexMeta: set<char> := {'.', '^', '$', '*', '+', '?', '{', '}', '[', ']', '\\', '|', '(', ')'}

  /** A search text that, read as a regular expression, matches only itself. */
  predicate PlainText(s: string)
  {
    forall i :: 0 <= i < |s| ==> s[i] !in RegexMeta
  }

  /** `needle` occurs in `hay` starting at position `i`. */
  ghost predicate OccursAt(hay: string, needle: string, i: int)
  {
    0 <= i && i + |needle| <= |hay| && hay[i..i + |needle|] == needle
  }

  /** Left-to-right search for `needle` in `hay`: the empty text is always
      found, and nothing longer than `hay` ever is. */
  function Contains(hay: string, needle: string): (r: bool)
    ensures needle == [] ==> r
    ensures r ==> |needle| <= |hay|
    decreases |hay|
  {
    needle <= hay || (|hay| > 0 && Contains(hay[1..], needle))
  }

  /** The search finds `needle` exactly when it occurs at some position. */
  lemma {:induction false} ContainsIff(hay: string, needle: string)
    ensures Contains(hay, needle) <==> exists i :: OccursAt(hay, needle, i)
  {
    assert OccursAt(hay, needle, 0) <==> needle <= hay;
    if |hay| > 0 {
      ContainsIff(hay[1..], needle);
      forall i | 0 <= i
        ensures OccursAt(hay[1..], needle, i) <==> OccursAt(hay, needle, i + 1)
      {
        if i + |needle| <= |hay[1..]| {
          assert hay[1..][i..i + |needle|] == hay[i + 1..i + 1 + |needle|];
        }
      }
      if exists i :: OccursAt(hay, needle, i) {
        var i :| OccursAt(hay, needle, i);
        if i > 0 {
          assert OccursAt(hay[1..], needle, i - 1);
        }
      }
      if Contains(hay[1..], needle) {
        var i :| OccursAt(hay[1..], needle, i);
        assert OccursAt(hay, needle, i + 1);
      }
    } else {
      if exists i :: OccursAt(hay, needle, i) {
        var i :| OccursAt(hay, needle, i);
        assert i == 0;
      }
    }
  }

  /** `name` contains `search`, ignoring the case of ASCII letters on both
      sides: the folded search text occurs somewhere in the folded name. */
  function Matches(name: string, search: string): (r: bool)
    ensures r <==> exists i :: OccursAt(LowerStr(name), LowerStr(search), i)
    ensures search == "" ==> r
    ensures r ==> |search| <= |name|
  {
    ContainsIff(LowerStr(name), LowerStr(search));
    Contains(LowerStr(name), LowerStr(search))
  }

  /** Matching is the same whatever the case of the search text or the name. */
  lemma MatchesIgnoresCase(name: string, search: string)
    ensures Matches(name, LowerStr(search)) == Matches(name, search)
    ensures Matches(name, UpperStr(search)) == Matches(name, search)
    ensures Matches(LowerStr(name), search) == Matches(name, search)
    ensures Matches(UpperStr(name), search) == Matches(name, search)
  {
    FoldIdempotent(search);
    FoldIdempotent(name);
  }

  lemma FoldIdempotent(s: string)
    ensures LowerStr(LowerStr(s)) == LowerStr(s)
    ensures LowerStr(UpperStr(s)) == LowerStr(s)
  {
    assert forall i :: 0 <= i < |s| ==> LowerStr(LowerStr(s))[i] == LowerStr(s)[i];
    assert forall i :: 0 <= i < |s| ==> LowerStr(UpperStr(s))[i] == LowerStr(s)[i];
  }

  /** Folding the case of a search text keeps it free of metacharacters. */
  lemma PlainTextFolds(s: string)
    requires PlainText(s)
    ensures PlainText(LowerStr(s)) && PlainText(UpperStr(s))
  {
  }
}
