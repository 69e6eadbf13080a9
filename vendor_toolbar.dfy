/**
 * The vendor list's toolbar (components/vendor-management/vendor-toolbar.tsx):
 * the search box and the status filter write their value into the URL's
 * query parameters and send the list back to page 1. Each handler copies
 * the current parameters into a fresh `URLSearchParams`, updates it in
 * place and navigates to `pathname?query`; here it returns the new
 * parameters and the URL it navigates to.
 */
module VendorToolbar {
  import opened Wrappers
  import opened UrlSearchParams

  /** `searchParams.get("search") || ""`: the text the search box starts with. */
  function InitialSearch(params: seq<Pair>): (s: string)
    ensures s == "" <==> Get(params, "search").None? || Get(params, "search") == Some("")
    ensures s != "" ==> Get(params, "search") == Some(s)
  {
    Get(params, "search").GetOr("")
  }

  /** `searchParams.get("status") || "all"`: the status the filter starts on. */
  function InitialStatus(params: seq<Pair>): (s: string)
    ensures s != ""
    ensures s == "all" <==> Get(params, "status").None? || Get(params, "status") == Some("") || Get(params, "status") == Some("all")
    ensures s != "all" ==> Get(params, "status") == Some(s)
  {
    match Get(params, "status")
    case Some(v) => if v != "" then v else "all"
    case None => "all"
  }

  /** The parameters the search handler navigates to for the term `term`. */
  function AfterSearch(params: seq<Pair>, term: string): seq<Pair> {
    var withTerm := if term != "" then Updated(params, "search", term) else Removed(params, "search");
    Updated(withTerm, "page", "1")
  }

  /** Whether the status handler writes `status` into the URL: not for "" and not for "all". */
  predicate IsStatusFilter(status: string) {
    status != "" && status != "all"
  }

  /** The parameters the status handler navigates to for the choice `status`. */
  function AfterStatusChange(params: seq<Pair>, status: string): seq<Pair> {
    var withStatus := if IsStatusFilter(status) then Updated(params, "status", status) else Removed(params, "status");
    Updated(withStatus, "page", "1")
  }

  /**
   * `handleSearch(term)` with the current parameters `current`, after the
   * debounce has fired: the search term is stored (or removed when empty),
   * the page is reset to "1", and the URL navigated to is
   * `pathname?` followed by the new query string.
   */
  method HandleSearch(pathname: string, current: seq<Pair>, term: string) returns (next: seq<Pair>, url: string)
    ensures next == AfterSearch(current, term)
    ensures Values(next, "page") == ["1"]
    ensures Values(next, "search") == if term != "" then [term] else []
    ensures url == pathname + "?" + Serialize(next)
  {
    var params := new Params(current);
    if term != "" {
      params.Set("search", term);
    } else {
      params.Delete("search");
    }
    params.Set("page", "1");
    next := params.list;
    url := pathname + "?" + Serialize(next);
    SearchStoresTermAndResetsPage(current, term);
  }

  /**
   * `handleStatusChange(status)` with the current parameters `current`:
   * the status is stored (removed for "" and "all"), the page is reset
   * to "1", and the URL navigated to is `pathname?` followed by the new
   * query string.
   */
  method HandleStatusChange(pathname: string, current: seq<Pair>, status: string) returns (next: seq<Pair>, url: string)
    ensures next == AfterStatusChange(current, status)
    ensures Values(next, "page") == ["1"]
    ensures Values(next, "status") == if IsStatusFilter(status) then [status] else []
    ensures url == pathname + "?" + Serialize(next)
  {
    var params := new Params(current);
    if status != "" && status != "all" {
      params.Set("status", status);
    } else {
      params.Delete("status");
    }
    params.Set("page", "1");
    next := params.list;
    url := pathname + "?" + Serialize(next);
    StatusStoresChoiceAndResetsPage(current, status);
  }

  // -----------------------------------------------------------------------
  // Properties
  // -----------------------------------------------------------------------

  /** Without query parameters the search box is empty and the filter shows "all". */
  lemma InitialDefaults()
    ensures InitialSearch([]) == "" && InitialStatus([]) == "all"
  {
  }

  /**
   * After a search the page is exactly "1"; a non-empty term is the one
   * value of "search", and an empty term leaves no "search" at all.
   */
  lemma SearchStoresTermAndResetsPage(params: seq<Pair>, term: string)
    ensures var next := AfterSearch(params, term);
      && Values(next, "page") == ["1"]
      && Values(next, "search") == (if term != "" then [term] else [])
  {
    var withTerm := if term != "" then Updated(params, "search", term) else Removed(params, "search");
    UpdatedValues(withTerm, "page", "1", "page");
    UpdatedValues(withTerm, "page", "1", "search");
    if term != "" {
      UpdatedValues(params, "search", term, "search");
    } else {
      RemovedValues(params, "search", "search");
    }
  }

  /**
   * After a status change the page is exactly "1"; "" and "all" leave no
   * "status" at all, and any other choice is the one value of "status".
   */
  lemma StatusStoresChoiceAndResetsPage(params: seq<Pair>, status: string)
    ensures var next := AfterStatusChange(params, status);
      && Values(next, "page") == ["1"]
      && Values(next, "status") == (if IsStatusFilter(status) then [status] else [])
  {
    var withStatus := if IsStatusFilter(status) then Updated(params, "status", status) else Removed(params, "status");
    UpdatedValues(withStatus, "page", "1", "page");
    UpdatedValues(withStatus, "page", "1", "status");
    if IsStatusFilter(status) {
      UpdatedValues(params, "status", status, "status");
    } else {
      RemovedValues(params, "status", "status");
    }
  }

  /** A search leaves every parameter other than "search" and "page" as it was. */
  lemma SearchKeepsOthers(params: seq<Pair>, term: string, other: string)
    requires other != "search" && other != "page"
    ensures Values(AfterSearch(params, term), other) == Values(params, other)
  {
    var withTerm := if term != "" then Updated(params, "search", term) else Removed(params, "search");
    UpdatedValues(withTerm, "page", "1", other);
    if term != "" {
      UpdatedValues(params, "search", term, other);
    } else {
      RemovedValues(params, "search", other);
    }
  }

  /** A status change leaves every parameter other than "status" and "page" as it was. */
  lemma StatusKeepsOthers(params: seq<Pair>, status: string, other: string)
    requires other != "status" && other != "page"
    ensures Values(AfterStatusChange(params, status), other) == Values(params, other)
  {
    var withStatus := if IsStatusFilter(status) then Updated(params, "status", status) else Removed(params, "status");
    UpdatedValues(withStatus, "page", "1", other);
    if IsStatusFilter(status) {
      UpdatedValues(params, "status", status, other);
    } else {
      RemovedValues(params, "status", other);
    }
  }

  /**
   * The order of the untouched parameters survives too: without "search"
   * and "page", the list after a search is the list before it.
   */
  lemma SearchKeepsOrder(params: seq<Pair>, term: string)
    ensures Removed(Removed(AfterSearch(params, term), "page"), "search")
      == Removed(Removed(params, "page"), "search")
  {
    var withTerm := if term != "" then Updated(params, "search", term) else Removed(params, "search");
    UpdatedRemoved(withTerm, "page", "1");
    RemovedCommutes(withTerm, "page", "search");
    RemovedCommutes(params, "page", "search");
    if term != "" {
      UpdatedRemoved(params, "search", term);
    } else {
      RemovedTwice(params, "search");
    }
  }

  /** Without "status" and "page", the list after a status change is the list before it. */
  lemma StatusKeepsOrder(params: seq<Pair>, status: string)
    ensures Removed(Removed(AfterStatusChange(params, status), "page"), "status")
      == Removed(Removed(params, "page"), "status")
  {
    var withStatus := if IsStatusFilter(status) then Updated(params, "status", status) else Removed(params, "status");
    UpdatedRemoved(withStatus, "page", "1");
    RemovedCommutes(withStatus, "page", "status");
    RemovedCommutes(params, "page", "status");
    if IsStatusFilter(status) {
      UpdatedRemoved(params, "status", status);
    } else {
      RemovedTwice(params, "status");
    }
  }

  /** Searching twice for the same term gives the parameters of searching once. */
  lemma SearchIdempotent(params: seq<Pair>, term: string)
    ensures AfterSearch(AfterSearch(params, term), term) == AfterSearch(params, term)
  {
    var next := AfterSearch(params, term);
    SearchStoresTermAndResetsPage(params, term);
    if term != "" {
      UpdatedSame(next, "search", term);
    } else {
      RemovedAbsent(next, "search");
    }
    UpdatedSame(next, "page", "1");
  }

  /** Choosing the same status twice gives the parameters of choosing it once. */
  lemma StatusIdempotent(params: seq<Pair>, status: string)
    ensures AfterStatusChange(AfterStatusChange(params, status), status) == AfterStatusChange(params, status)
  {
    var next := AfterStatusChange(params, status);
    StatusStoresChoiceAndResetsPage(params, status);
    if IsStatusFilter(status) {
      UpdatedSame(next, "status", status);
    } else {
      RemovedAbsent(next, "status");
    }
    UpdatedSame(next, "page", "1");
  }

  /** Reloading the toolbar after a search shows the term that was searched for. */
  lemma SearchRoundTrip(params: seq<Pair>, term: string)
    ensures InitialSearch(AfterSearch(params, term)) == term
  {
    SearchStoresTermAndResetsPage(params, term);
  }

  /** Reloading the toolbar after a status change shows the status chosen ("all" for ""). */
  lemma StatusRoundTrip(params: seq<Pair>, status: string)
    ensures InitialStatus(AfterStatusChange(params, status)) == if status == "" then "all" else status
  {
    StatusStoresChoiceAndResetsPage(params, status);
  }
}
