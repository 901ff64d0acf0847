/** The history page: the paged list of the user's validations, the verdict filter applied in
    the browser, and the pagination controls. The awaited list reply is a parameter. */
module HistoryPage {

  import opened Wrappers
  import opened Strings
  import opened Lists
  import J = Json

  const PerPage: nat := 10
  const Filters: seq<string> := ["ALL", "AUTHENTIC", "SUSPICIOUS", "FAKE"]

  /** What the list request gives back: the page's rows with the pagination totals, or a
      rejection. */
  datatype HistoryReply = Listed(results: seq<J.Value>, total: int, pages: int) | ListFailed

  /** The request for one page. */
  function HistoryUrl(page: nat): (url: string)
    ensures StartsWith(url, "/history?page=")
  {
    "/history?page=" + NatToString(page) + "&per_page=" + NatToString(PerPage)
  }

  /** Different pages are asked for with different requests. */
  lemma HistoryUrlInjective(m: nat, n: nat)
    requires HistoryUrl(m) == HistoryUrl(n)
    ensures m == n
  {
    var prefix := "/history?page=";
    var suffix := "&per_page=" + NatToString(PerPage);
    var a := NatToString(m);
    var b := NatToString(n);
    assert HistoryUrl(m) == prefix + (a + suffix);
    assert HistoryUrl(n) == prefix + (b + suffix);
    assert a + suffix == b + suffix by {
      assert a + suffix == HistoryUrl(m)[|prefix|..];
      assert b + suffix == HistoryUrl(n)[|prefix|..];
    }
    assert |a| == |b|;
    assert a == (a + suffix)[..|a|];
    assert b == (b + suffix)[..|b|];
    NatToStringInjective(m, n);
  }

  /** `r.verdict === filter`: strict equality, so a row whose verdict is null or missing is
      under no filter, and a row is under at most one. */
  function HasVerdict(r: J.Value, verdict: string): (ok: bool)
    ensures ok ==> r.Obj? && "verdict" in r.fields && r.fields["verdict"].Str? && r.fields["verdict"].s == verdict
    ensures r.Obj? && "verdict" in r.fields && r.fields["verdict"] == J.Null ==> !ok
    ensures !r.Obj? || "verdict" !in r.fields ==> !ok
  {
    r.Obj? && "verdict" in r.fields && r.fields["verdict"] == J.Str(verdict)
  }

  /** `filteredResults`: everything under 'ALL', otherwise the rows with that verdict, in
      their order. */
  function FilteredResults(results: seq<J.Value>, filter: string): (r: seq<J.Value>)
    ensures filter == "ALL" ==> r == results
    ensures filter != "ALL" ==> forall x :: x in r <==> x in results && HasVerdict(x, filter)
    ensures |r| <= |results|
  {
    if filter == "ALL" then results else Filter(results, x => HasVerdict(x, filter))
  }

  /** Filtering a page split in two gives the filtered halves in the same order. */
  lemma FilteredResultsKeepOrder(a: seq<J.Value>, b: seq<J.Value>, filter: string)
    ensures FilteredResults(a + b, filter) == FilteredResults(a, filter) + FilteredResults(b, filter)
  {
    if filter != "ALL" {
      FilterAppend(a, b, x => HasVerdict(x, filter));
    }
  }

  /** The three verdict filters split the rows that carry one of those verdicts. */
  lemma VerdictFiltersDisjoint(results: seq<J.Value>, x: J.Value)
    requires x in FilteredResults(results, "AUTHENTIC")
    ensures x !in FilteredResults(results, "SUSPICIOUS") && x !in FilteredResults(results, "FAKE")
  {
  }

  /** `getVerdictBadge`: the style of each of the three verdicts, and the plain badge for
      anything else. */
  function VerdictBadge(verdict: string): (b: string)
    ensures b == "badge" <==> verdict !in {"AUTHENTIC", "SUSPICIOUS", "FAKE"}
    ensures verdict == "AUTHENTIC" ==> b == "badge-success"
    ensures verdict == "SUSPICIOUS" ==> b == "badge-warning"
    ensures verdict == "FAKE" ==> b == "badge-danger"
  {
    if verdict == "AUTHENTIC" then "badge-success"
    else if verdict == "SUSPICIOUS" then "badge-warning"
    else if verdict == "FAKE" then "badge-danger"
    else "badge"
  }

  /** Different verdicts never share a badge style. */
  lemma VerdictBadgesDistinct(u: string, v: string)
    requires u in {"AUTHENTIC", "SUSPICIOUS", "FAKE"} && v in {"AUTHENTIC", "SUSPICIOUS", "FAKE"}
    requires VerdictBadge(u) == VerdictBadge(v)
    ensures u == v
  {
  }

  /** `totalPages > 1`. */
  predicate ShowPagination(totalPages: int) {
    totalPages > 1
  }

  /** Prev: `max(1, p - 1)`. */
  function PrevPage(page: int): (r: int)
    ensures r >= 1
    ensures page > 1 ==> r == page - 1
    ensures page <= 1 ==> r == 1
  {
    if page - 1 > 1 then page - 1 else 1
  }

  /** Next: `min(totalPages, p + 1)`. */
  function NextPage(page: int, totalPages: int): (r: int)
    ensures r <= totalPages && r <= page + 1
    ensures page < totalPages ==> r == page + 1
    ensures page >= totalPages ==> r == totalPages
  {
    if totalPages < page + 1 then totalPages else page + 1
  }

  /** The numbered buttons: 1 .. min(totalPages, 5). */
  function PageButtons(totalPages: int): (r: seq<int>)
    ensures |r| == if totalPages < 0 then 0 else if totalPages > 5 then 5 else totalPages
    ensures forall i :: 0 <= i < |r| ==> r[i] == i + 1
  {
    var n := if totalPages < 0 then 0 else if totalPages > 5 then 5 else totalPages;
    seq(n, i => i + 1)
  }

  /** Every control, used on a page within range, keeps the page within range. */
  lemma ControlsStayInRange(page: int, totalPages: int, b: int)
    requires ShowPagination(totalPages) && 1 <= page <= totalPages
    requires b in PageButtons(totalPages)
    ensures 1 <= PrevPage(page) <= totalPages
    ensures 1 <= NextPage(page, totalPages) <= totalPages
    ensures 1 <= b <= totalPages
  {
  }

  class HistoryPage {
    var results: seq<J.Value>
    var page: nat
    var totalPages: int
    var total: int
    var loading: bool
    var filter: string
    /** The list requests sent so far, oldest first. */
    var requested: seq<string>

    ghost predicate Valid()
      reads this
    {
      page >= 1 && |requested| >= 1 && requested[|requested| - 1] == HistoryUrl(page)
    }

    /** First render and the effect it runs: page 1 is requested. */
    constructor ()
      ensures Valid()
      ensures results == [] && page == 1 && totalPages == 1 && total == 0 && loading && filter == "ALL"
      ensures requested == [HistoryUrl(1)]
    {
      results := [];
      page := 1;
      totalPages := 1;
      total := 0;
      loading := true;
      filter := "ALL";
      requested := [HistoryUrl(1)];
    }

    /** `setPage`: the effect keyed on the page fires only when the page really changes. */
    method SetPage(p: nat)
      requires Valid() && p >= 1
      modifies this`page, this`loading, this`requested
      ensures Valid() && page == p
      ensures p == old(page) ==> requested == old(requested) && loading == old(loading)
      ensures p != old(page) ==> requested == old(requested) + [HistoryUrl(p)] && loading
    {
      if p != page {
        page := p;
        loading := true;
        requested := requested + [HistoryUrl(p)];
      }
    }

    /** The Prev button. */
    method ClickPrev()
      requires Valid() && ShowPagination(totalPages)
      modifies this`page, this`loading, this`requested
      ensures Valid() && page == PrevPage(old(page))
      ensures page == old(page) ==> requested == old(requested) && loading == old(loading)
      ensures page != old(page) ==> requested == old(requested) + [HistoryUrl(page)] && loading
      ensures old(page) == 1 ==> requested == old(requested)
    {
      SetPage(PrevPage(page));
    }

    /** The Next button, shown only with more than one page. */
    method ClickNext()
      requires Valid() && ShowPagination(totalPages)
      modifies this`page, this`loading, this`requested
      ensures Valid() && page == NextPage(old(page), totalPages)
      ensures page == old(page) ==> requested == old(requested) && loading == old(loading)
      ensures page != old(page) ==> requested == old(requested) + [HistoryUrl(page)] && loading
      ensures old(page) == totalPages ==> requested == old(requested)
    {
      SetPage(NextPage(page, totalPages));
    }

    /** A numbered button. */
    method ClickPageButton(b: int)
      requires Valid() && ShowPagination(totalPages) && b in PageButtons(totalPages)
      modifies this`page, this`loading, this`requested
      ensures Valid() && page == b
      ensures b == old(page) ==> requested == old(requested) && loading == old(loading)
      ensures b != old(page) ==> requested == old(requested) + [HistoryUrl(b)] && loading
    {
      SetPage(b);
    }

    /** A filter tab: neither the page nor the requests change. */
    method SetFilter(f: string)
      requires Valid() && f in Filters
      modifies this`filter
      ensures Valid() && filter == f
    {
      filter := f;
    }

    /** The list reply arrives: rows and totals are taken on success and kept on failure;
        loading ends either way. */
    method FetchSettled(reply: HistoryReply)
      requires Valid()
      modifies this`results, this`total, this`totalPages, this`loading
      ensures Valid() && !loading
      ensures reply.Listed? ==> results == reply.results && total == reply.total && totalPages == reply.pages
      ensures reply.ListFailed? ==> results == old(results) && total == old(total) && totalPages == old(totalPages)
    {
      if reply.Listed? {
        results := reply.results;
        total := reply.total;
        totalPages := reply.pages;
      }
      loading := false;
    }
  }
}
