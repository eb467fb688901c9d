/**
  The live search of the catalogue page (src/App.js:127): a row is shown when the
  lower-cased search text occurs in the lower-cased `C` or, failing that, in the
  lower-cased `B`. Optional chaining skips an absent field, but a number or boolean
  in either field has no `toLowerCase`, and calling it throws.
 */
module Search {
  import opened JsValue
  import JsString
  import Feed
  import Seqs

  /** `v` is a string in which the lower-cased search text occurs, case-insensitively. */
  ghost predicate Matches(v: Value, search: string) {
    v.Str? && exists k :: JsString.OccursAt(JsString.Lower(v.s), JsString.Lower(search), k)
  }

  /** `v` has no `toLowerCase` method: it is neither a string nor `null`/`undefined`. */
  predicate NotStringOrAbsent(v: Value) {
    v.Num? || v.Bool?
  }

  /** `v?.toLowerCase().includes(q)`. */
  function OptionalIncludes(v: Value, q: string): (r: Completion<bool>)
    ensures v.Absent? ==> r == Normal(false)
    ensures v.Str? ==> r == Normal(exists k :: JsString.OccursAt(JsString.Lower(v.s), q, k))
    ensures NotStringOrAbsent(v) ==> r == Throw
  {
    match v
    case Absent => Normal(false)
    case Str(s) =>
      JsString.IncludesIffOccurs(JsString.Lower(s), q);
      Normal(JsString.Includes(JsString.Lower(s), q))
    case _ => Throw
  }

  /** The filter callback `i => i.C?... || i.B?...`; `||` evaluates the `B` test only
      when the `C` test is not true. */
  function Shows(row: Feed.Row, search: string): (r: Completion<bool>)
    ensures r == Throw <==>
              || NotStringOrAbsent(Feed.Get(row, "C"))
              || (!Matches(Feed.Get(row, "C"), search) && NotStringOrAbsent(Feed.Get(row, "B")))
    ensures r.Normal? ==> (r.value <==> Matches(Feed.Get(row, "C"), search) || Matches(Feed.Get(row, "B"), search))
  {
    var q := JsString.Lower(search);
    match OptionalIncludes(Feed.Get(row, "C"), q)
    case Throw => Throw
    case Normal(true) => Normal(true)
    case Normal(false) => OptionalIncludes(Feed.Get(row, "B"), q)
  }

  /** The row is on screen for this search text. */
  predicate Displayed(row: Feed.Row, search: string) {
    Shows(row, search) == Normal(true)
  }

  /** The callback as a predicate over rows, for `Seqs.Filter`. */
  function Shown(search: string): Feed.Row -> bool {
    row => Displayed(row, search)
  }

  /** Some row of the list makes the search callback throw. */
  ghost predicate SomeRowThrows(rows: seq<Feed.Row>, search: string) {
    exists i :: 0 <= i < |rows| && Shows(rows[i], search) == Throw
  }

  /** `data.filter(...)` with the search callback: the callback runs on every row in
      order, and the first row whose test throws ends the render with that error. */
  function SearchFilter(rows: seq<Feed.Row>, search: string): (r: Completion<seq<Feed.Row>>)
    ensures r == Throw <==> SomeRowThrows(rows, search)
    ensures r.Normal? ==> r.value == Seqs.Filter(Shown(search), rows)
  {
    if |rows| == 0 then Normal([])
    else
      assert forall i :: 1 <= i < |rows| ==> rows[i] == rows[1..][i - 1];
      match Shows(rows[0], search)
      case Throw => Throw
      case Normal(b) =>
        match SearchFilter(rows[1..], search)
        case Throw => Throw
        case Normal(rest) =>
          assert Seqs.Filter(Shown(search), rows) == if b then [rows[0]] + rest else rest;
          Normal(if b then [rows[0]] + rest else rest)
  }

  /** `B` and `C` are each a string or absent, the shape for which the search never throws. */
  predicate Searchable(row: Feed.Row) {
    !NotStringOrAbsent(Feed.Get(row, "B")) && !NotStringOrAbsent(Feed.Get(row, "C"))
  }

  /** On a searchable row the callback does not throw, and the row is shown exactly when
      the lower-cased search text occurs in the lower-cased `C` or `B`; a row with neither
      field is never shown. */
  lemma DisplayedIffMatches(row: Feed.Row, search: string)
    requires Searchable(row)
    ensures Shows(row, search).Normal?
    ensures Displayed(row, search) <==> Matches(Feed.Get(row, "C"), search) || Matches(Feed.Get(row, "B"), search)
    ensures "B" !in row && "C" !in row ==> !Displayed(row, search)
  {
  }

  /** With an empty search box a row whose `C` is a string, or whose `C` is absent and
      whose `B` is a string or absent, is shown exactly when `B` or `C` is a string. */
  lemma EmptySearchShowsStringRows(row: Feed.Row)
    requires !NotStringOrAbsent(Feed.Get(row, "C"))
    requires Feed.Get(row, "C").Str? || !NotStringOrAbsent(Feed.Get(row, "B"))
    ensures Shows(row, "").Normal?
    ensures Displayed(row, "") <==> Feed.Get(row, "C").Str? || Feed.Get(row, "B").Str?
  {
    var c := Feed.Get(row, "C");
    var b := Feed.Get(row, "B");
    if c.Str? {
      assert JsString.OccursAt(JsString.Lower(c.s), JsString.Lower(""), 0);
    }
    if b.Str? {
      assert JsString.OccursAt(JsString.Lower(b.s), JsString.Lower(""), 0);
    }
  }

  /** The list on first render, before anything is typed: the empty search keeps exactly
      the rows with a string `B` or `C`, in order, and does not throw. */
  lemma EmptySearchShowsStringList(rows: seq<Feed.Row>)
    requires forall i :: 0 <= i < |rows| ==> !NotStringOrAbsent(Feed.Get(rows[i], "C"))
    requires forall i :: 0 <= i < |rows| ==>
               Feed.Get(rows[i], "C").Str? || !NotStringOrAbsent(Feed.Get(rows[i], "B"))
    ensures SearchFilter(rows, "").Normal?
    ensures forall r :: r in SearchFilter(rows, "").value <==>
              r in rows && (Feed.Get(r, "C").Str? || Feed.Get(r, "B").Str?)
  {
    forall i | 0 <= i < |rows|
      ensures Shows(rows[i], "") != Throw
    {
      EmptySearchShowsStringRows(rows[i]);
    }
    forall r | r in rows
      ensures Displayed(r, "") <==> Feed.Get(r, "C").Str? || Feed.Get(r, "B").Str?
    {
      var i :| 0 <= i < |rows| && rows[i] == r;
      EmptySearchShowsStringRows(r);
    }
  }

  /** Typing more narrows the list: text whose lower-cased form contains the lower-cased
      form of a shorter text shows no row that the shorter text hides. */
  lemma LongerSearchNarrows(row: Feed.Row, short: string, long: string, j: int)
    requires Searchable(row)
    requires JsString.OccursAt(JsString.Lower(long), JsString.Lower(short), j)
    ensures Displayed(row, long) ==> Displayed(row, short)
  {
    DisplayedIffMatches(row, long);
    DisplayedIffMatches(row, short);
    forall v | v == Feed.Get(row, "C") || v == Feed.Get(row, "B")
      ensures Matches(v, long) ==> Matches(v, short)
    {
      if Matches(v, long) {
        var k :| JsString.OccursAt(JsString.Lower(v.s), JsString.Lower(long), k);
        JsString.OccursTransitive(JsString.Lower(v.s), JsString.Lower(long), JsString.Lower(short), k, j);
      }
    }
  }

  /** A list of searchable rows never makes the search throw. */
  lemma SearchableNeverThrows(rows: seq<Feed.Row>, search: string)
    requires forall i :: 0 <= i < |rows| ==> Searchable(rows[i])
    ensures SearchFilter(rows, search).Normal?
  {
    forall i | 0 <= i < |rows|
      ensures Shows(rows[i], search) != Throw
    {
      DisplayedIffMatches(rows[i], search);
    }
  }

  /** A successful search keeps exactly the displayed rows, in catalogue order, never
      more rows than it was given. */
  lemma SearchFilterKeepsOrder(rows: seq<Feed.Row>, search: string)
    ensures SearchFilter(rows, search).Normal? ==>
              && |SearchFilter(rows, search).value| <= |rows|
              && Seqs.IsSubseq(SearchFilter(rows, search).value, rows)
              && forall r :: r in SearchFilter(rows, search).value <==> r in rows && Displayed(r, search)
  {
  }

  /** Searching the search result again with the same text changes nothing. */
  lemma {:induction false} SearchIdempotent(rows: seq<Feed.Row>, search: string)
    ensures SearchFilter(rows, search).Normal? ==>
              SearchFilter(SearchFilter(rows, search).value, search) == SearchFilter(rows, search)
  {
    if SearchFilter(rows, search).Throw? {
      return;
    }
    var shown := SearchFilter(rows, search).value;
    assert shown == Seqs.Filter(Shown(search), rows);
    forall i | 0 <= i < |shown|
      ensures Shows(shown[i], search) != Throw
    {
      assert Shown(search)(shown[i]);
    }
    assert SearchFilter(shown, search).Normal?;
    assert SearchFilter(shown, search).value == Seqs.Filter(Shown(search), shown);
    Seqs.FilterIdempotent(Shown(search), rows);
  }

  /** Reversing the list changes no row, so it changes nothing about whether one throws. */
  lemma ReverseKeepsThrowing(rows: seq<Feed.Row>, search: string)
    ensures SomeRowThrows(Seqs.Reverse(rows), search) <==> SomeRowThrows(rows, search)
  {
    var rev := Seqs.Reverse(rows);
    if SomeRowThrows(rows, search) {
      var i :| 0 <= i < |rows| && Shows(rows[i], search) == Throw;
      assert rev[|rows| - 1 - i] == rows[i];
    }
    if SomeRowThrows(rev, search) {
      var i :| 0 <= i < |rev| && Shows(rev[i], search) == Throw;
      assert rows[|rows| - 1 - i] == rev[i];
    }
  }

  /** Searching the most-recent-first catalogue gives the matches of the feed-ordered
      list, most recent first; and one search throws exactly when the other does. */
  lemma SearchCommutesWithReverse(rows: seq<Feed.Row>, search: string)
    ensures SearchFilter(Seqs.Reverse(rows), search).Throw? <==> SearchFilter(rows, search).Throw?
    ensures SearchFilter(rows, search).Normal? ==>
              SearchFilter(Seqs.Reverse(rows), search) == Normal(Seqs.Reverse(SearchFilter(rows, search).value))
  {
    ReverseKeepsThrowing(rows, search);
    Seqs.FilterReverse(Shown(search), rows);
  }

  /** What the page lists for a search once the feed has arrived: the matching kept rows,
      most recent first; when every kept row is searchable this never throws. */
  lemma DisplayedCatalogue(t: Feed.Table, search: string)
    requires forall i :: 0 <= i < |Feed.GetData(t)| ==> Searchable(Feed.GetData(t)[i])
    ensures SearchFilter(Feed.Catalogue(t), search).Normal?
    ensures SearchFilter(Feed.Catalogue(t), search).value
            == Seqs.Reverse(Seqs.Filter(Shown(search), Feed.GetData(t)))
    ensures forall i :: 0 <= i < |SearchFilter(Feed.Catalogue(t), search).value| ==>
              Feed.Keep(SearchFilter(Feed.Catalogue(t), search).value[i])
  {
    SearchableNeverThrows(Feed.GetData(t), search);
    SearchCommutesWithReverse(Feed.GetData(t), search);
    var shown := SearchFilter(Feed.Catalogue(t), search).value;
    forall i | 0 <= i < |shown|
      ensures Feed.Keep(shown[i])
    {
      assert shown[i] in Feed.GetData(t);
    }
  }
}
