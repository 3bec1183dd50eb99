/**
 * The search header of the contact list: a form with one search field `q`. Submitting it
 * puts the search text into the location's query string (or removes it when empty) and
 * sends the listing back to page 1; "clear filters" removes the text and also returns to
 * page 1. The clear button shows only while the location carries a non-empty `q`.
 */
module Header {
  import opened Wrappers
  import opened SearchParams

  /** `if (data.q)`: the search text is present and non-empty. */
  predicate Truthy(q: Option<string>) {
    q.Some? && q.value != ""
  }

  /** The query the filter handler navigates to, given the current query and the submitted text. */
  function Filtered(ps: seq<Param>, q: Option<string>): seq<Param> {
    var searched := if Truthy(q) then WithValue(ps, "q", q.value) else Without(ps, "q");
    WithValue(searched, "page", "1")
  }

  /** The query the clear handler navigates to. */
  function Cleared(ps: seq<Param>): seq<Param> {
    WithValue(Without(ps, "q"), "page", "1")
  }

  /** `hasAnyFilter = !!query`: whether the clear button is shown for this query. */
  predicate HasAnyFilter(ps: seq<Param>) {
    Truthy(Get(ps, "q"))
  }

  /** One rendering of the header, with its own copy of the location's query. */
  class SearchHeader {
    /** `new URLSearchParams(searchParams)`. */
    const params: UrlSearchParams
    /** `params.get("q")`, read once when the header renders. */
    const query: Option<string>
    /** The search field's current value. */
    var searchText: string

    constructor (search: seq<Param>)
      ensures fresh(params) && params.entries == search
      ensures query == Get(search, "q")
      ensures searchText == (if query.Some? then query.value else "")
    {
      var p := new UrlSearchParams(search);
      var q := p.GetParam("q");
      params := p;
      query := q;
      searchText := if q.Some? then q.value else "";
    }

    /** `handleFilterContact`: returns the query it navigates to with `replace`. */
    method HandleFilterContact(q: Option<string>) returns (location: seq<Param>)
      modifies params
      ensures location == params.entries == Filtered(old(params.entries), q)
    {
      if Truthy(q) {
        params.Set("q", q.value);
      } else {
        params.Delete("q");
      }
      params.Set("page", "1");
      location := params.entries;
    }

    /** `handleClearFilters`: empties the field; returns the query it navigates to. */
    method HandleClearFilters() returns (location: seq<Param>)
      modifies this, params
      ensures searchText == ""
      ensures location == params.entries == Cleared(old(params.entries))
    {
      params.Delete("q");
      params.Set("page", "1");
      searchText := "";
      location := params.entries;
    }
  }

  /**
   * Submitting a search sets `q` to the text (or removes it when the text is empty), sets
   * `page` to "1", and leaves every other parameter as it was (every pair, not only the first
   * of each name, in order); the next rendering shows the clear button exactly when the text
   * was non-empty.
   */
  lemma FilterResult(ps: seq<Param>, q: Option<string>)
    ensures Get(Filtered(ps, q), "q") == (if Truthy(q) then q else None)
    ensures Get(Filtered(ps, q), "page") == Some("1")
    ensures HasAnyFilter(Filtered(ps, q)) <==> Truthy(q)
    ensures forall other :: other != "q" && other != "page" ==> Get(Filtered(ps, q), other) == Get(ps, other)
    ensures Without(Without(Filtered(ps, q), "q"), "page") == Without(Without(ps, "q"), "page")
  {
    var searched := if Truthy(q) then WithValue(ps, "q", q.value) else Without(ps, "q");
    DeleteSetCommute(searched, "q", "page", "1");
    SetKeepsOthers(Without(searched, "q"), "page", "1");
    if Truthy(q) {
      SetKeepsOthers(ps, "q", q.value);
    } else {
      WithoutIdempotent(ps, "q");
    }
    SetThenGet(searched, "page", "1");
    GetOtherAfterSet(searched, "page", "1", "q");
    if Truthy(q) {
      SetThenGet(ps, "q", q.value);
    } else {
      DeleteThenGet(ps, "q");
    }
    forall other | other != "q" && other != "page"
      ensures Get(Filtered(ps, q), other) == Get(ps, other)
    {
      GetOtherAfterSet(searched, "page", "1", other);
      if Truthy(q) {
        GetOtherAfterSet(ps, "q", q.value, other);
      } else {
        GetOtherAfterDelete(ps, "q", other);
      }
    }
  }

  /** Clearing is submitting an empty search. */
  lemma ClearIsEmptySearch(ps: seq<Param>)
    ensures Cleared(ps) == Filtered(ps, None) == Filtered(ps, Some(""))
  {
  }

  /** Clearing twice lands on the same query as clearing once, and hides the clear button. */
  lemma ClearIdempotent(ps: seq<Param>)
    ensures Cleared(Cleared(ps)) == Cleared(ps)
    ensures !HasAnyFilter(Cleared(ps))
  {
    var w := Without(ps, "q");
    DeleteSetCommute(w, "q", "page", "1");
    WithoutIdempotent(ps, "q");
    SetIdempotent(w, "page", "1");
    FilterResult(ps, None);
  }

  /** Submitting the same search again lands on the same query. */
  lemma FilterIdempotent(ps: seq<Param>, q: Option<string>)
    ensures Filtered(Filtered(ps, q), q) == Filtered(ps, q)
  {
    if Truthy(q) {
      var x := WithValue(ps, "q", q.value);
      var y := WithValue(x, "page", "1");
      SetThenGet(ps, "q", q.value);
      SetLeavesOnePair(ps, "q", q.value);
      GetOtherAfterSet(x, "page", "1", "q");
      OccurrencesAfterOtherSet(x, "page", "1", "q");
      SetFixed(y, "q", q.value);
      SetIdempotent(x, "page", "1");
    } else {
      ClearIdempotent(ps);
    }
  }
}
