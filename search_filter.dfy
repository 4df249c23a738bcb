/**
 * The year page's hymn search (app/static/site.js:2-19): on every input, each
 * hymn row and each hymn card is shown when the trimmed, lower-cased query
 * is empty or occurs in the element's `data-title`, and hidden otherwise.
 *
 * The title is compared as the page wrote it: the script lower-cases the
 * query only, so the search ignores letter case exactly when the titles in
 * the page are written in lower case.
 */
module SearchFilter {
  import opened Wrappers
  import opened Text

  /** `(search.value || "").trim().toLowerCase()`. */
  function Query(value: string): (q: string)
    ensures NoEdgeSpace(q) && Lower(q) == q
    ensures |q| <= |value|
  {
    LowerStripCommute(value);
    Lower(Strip(value))
  }

  /** `r.dataset.title || ""`. */
  function TitleText(title: Option<string>): string {
    title.GetOr("")
  }

  /**
   * Whether an element with this title stays displayed for the normalised
   * query q: always for the empty query, never for a query longer than the title.
   */
  predicate Shown(title: Option<string>, q: string)
    ensures q == "" ==> Shown(title, q)
    ensures |q| > |TitleText(title)| ==> !Shown(title, q)
  {
    IncludesIsSubstring(TitleText(title), q);
    q == "" || Includes(TitleText(title), q)
  }

  /** An element is shown exactly when the query is empty or occurs somewhere in its title. */
  lemma ShownIffOccurs(title: Option<string>, q: string)
    ensures Shown(title, q) <==> q == "" || exists i :: OccursAt(TitleText(title), q, i)
  {
    IncludesIsSubstring(TitleText(title), q);
  }

  /** The query is lower-case and normalising it again changes nothing. */
  lemma QueryNormalised(value: string)
    ensures Lower(Query(value)) == Query(value)
    ensures Query(Query(value)) == Query(value)
  {
    LowerStripCommute(value);
  }

  /**
   * A title with an upper-case letter anywhere is not found by typing the
   * title itself as the query ("Agios" does not find "Agios").
   */
  lemma TitleCaseKept(t: string, k: nat)
    requires NoEdgeSpace(t) && k < |t| && 'A' <= t[k] <= 'Z'
    ensures !Shown(Some(t), Query(t))
  {
    StripIdentity(t);
    var q := Query(t);
    assert q == Lower(t) && |q| == |t|;
    assert q[k] != t[k];
    IncludesIsSubstring(t, q);
  }

  /** The hymn rows and cards of a year page and whether each is displayed. */
  class SearchPage {
    const rowTitles: seq<Option<string>>
    const cardTitles: seq<Option<string>>
    var rowShown: seq<bool>
    var cardShown: seq<bool>

    ghost predicate Valid()
      reads this
    {
      |rowShown| == |rowTitles| && |cardShown| == |cardTitles|
    }

    /** The page as loaded: every row and card displayed. */
    constructor(rowTitles: seq<Option<string>>, cardTitles: seq<Option<string>>)
      ensures Valid()
      ensures this.rowTitles == rowTitles && this.cardTitles == cardTitles
      ensures forall i :: 0 <= i < |rowShown| ==> rowShown[i]
      ensures forall i :: 0 <= i < |cardShown| ==> cardShown[i]
    {
      this.rowTitles := rowTitles;
      this.cardTitles := cardTitles;
      rowShown := seq(|rowTitles|, i => true);
      cardShown := seq(|cardTitles|, i => true);
    }

    /** The `input` listener: every row, then every card, is shown or hidden for the new query. */
    method OnSearchInput(value: string)
      requires Valid()
      modifies this
      ensures Valid()
      ensures forall i :: 0 <= i < |rowTitles| ==> (rowShown[i] <==> Shown(rowTitles[i], Query(value)))
      ensures forall i :: 0 <= i < |cardTitles| ==> (cardShown[i] <==> Shown(cardTitles[i], Query(value)))
    {
      var q := Lower(Strip(value));
      var i := 0;
      while i < |rowTitles|
        invariant 0 <= i <= |rowTitles| && Valid()
        invariant forall k :: 0 <= k < i ==> (rowShown[k] <==> Shown(rowTitles[k], q))
      {
        var t := rowTitles[i].GetOr("");
        rowShown := rowShown[i := q == "" || Includes(t, q)];
        i := i + 1;
      }
      var j := 0;
      while j < |cardTitles|
        invariant 0 <= j <= |cardTitles| && Valid()
        invariant forall k :: 0 <= k < |rowTitles| ==> (rowShown[k] <==> Shown(rowTitles[k], q))
        invariant forall k :: 0 <= k < j ==> (cardShown[k] <==> Shown(cardTitles[k], q))
      {
        var t := cardTitles[j].GetOr("");
        cardShown := cardShown[j := q == "" || Includes(t, q)];
        j := j + 1;
      }
    }
  }
}
