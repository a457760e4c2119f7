/** Enumeration of the opportunities on the search-results listing
    (`scrape_opportunity_urls`, scraper.py lines 43-65): the number of pages is
    the number of pagination items on the start page, and pages 1..N are
    visited in turn, collecting the absolute URL of every listed item. The
    browser is replaced by the rendered pages it would show. */
module Listing {
  import opened Errors
  import opened Text

  /** The site origin prefixed to every item's href (line 63). */
  const Origin: string := "https://volunteercentrenewcastle.org.uk"

  /** The listing the crawl starts from (line 19). */
  const SearchResults: string := Origin + "/search-results"

  /** A rendered listing page: how many `ul.pagination li` items it shows, and
      for every `ul.vp_opportunities li` the href of its `p.more a` link, or
      `None` when the link or its href is missing. */
  datatype ListingPage = ListingPage(paginationItems: nat, hrefs: seq<Option<string>>)

  /** The listing pages the browser can load, by address; an address outside
      the map is a page that never renders. */
  type Listing = map<string, ListingPage>

  /** The address of result page `n` (line 55): the start address followed
      by the query. */
  function PageUrl(start: string, n: nat): (url: string)
    ensures start <= url
  {
    var url := start + "?results_page=" + NatToString(n);
    assert url[..|start|] == start;
    url
  }

  /** The page number can be read back from the digits after the query key. */
  lemma PageNumberReadBack(start: string, n: nat)
    ensures |PageUrl(start, n)| > |start| + |"?results_page="|
    ensures forall k :: |start| + |"?results_page="| <= k < |PageUrl(start, n)| ==> '0' <= PageUrl(start, n)[k] <= '9'
    ensures DigitsValue(PageUrl(start, n)[|start| + |"?results_page="|..]) == n
  {
    assert PageUrl(start, n)[|start| + |"?results_page="|..] == NatToString(n);
    NatToStringRoundTrip(n);
  }

  /** Different page numbers give different addresses. */
  lemma PageUrlsDistinct(start: string, m: nat, n: nat)
    requires m != n
    ensures PageUrl(start, m) != PageUrl(start, n)
  {
    PageNumberReadBack(start, m);
    PageNumberReadBack(start, n);
  }

  /** The absolute URLs of the items of one listing page, in position order;
      a missing href fails the run (lines 61-63). */
  function Absolute(pageUrl: string, hrefs: seq<Option<string>>): (r: Result<seq<string>>)
    ensures r.Ok? <==> forall j :: 0 <= j < |hrefs| ==> hrefs[j].Some?
    ensures r.Ok? ==> |r.value| == |hrefs|
    ensures r.Ok? ==> forall j :: 0 <= j < |hrefs| ==> r.value[j] == Origin + hrefs[j].value
    ensures r.Err? ==> r.error == MissingHref(pageUrl)
    decreases |hrefs|
  {
    if hrefs == [] then Ok([])
    else
      var init := hrefs[..|hrefs| - 1];
      assert forall j :: 0 <= j < |init| ==> init[j] == hrefs[j];
      match Absolute(pageUrl, init)
      case Err(e) => Err(e)
      case Ok(urls) =>
        match hrefs[|hrefs| - 1]
        case None => Err(MissingHref(pageUrl))
        case Some(h) => Ok(urls + [Origin + h])
  }

  /** The items of the page at `url`, or a timeout when it does not render. */
  function PageItems(listing: Listing, url: string): (r: Result<seq<string>>)
    ensures r.Ok? <==> url in listing && forall j :: 0 <= j < |listing[url].hrefs| ==> listing[url].hrefs[j].Some?
    ensures r.Err? ==> r.error == if url in listing then MissingHref(url) else PageLoadTimeout(url)
    ensures r.Ok? ==> |r.value| == |listing[url].hrefs|
  {
    if url !in listing then Err(PageLoadTimeout(url)) else Absolute(url, listing[url].hrefs)
  }

  /** The URLs of result pages 1..n, page after page. A failure is the
      failure of one of those pages, and every URL starts with the origin. */
  function UrlsOfPages(start: string, listing: Listing, n: nat): (r: Result<seq<string>>)
    ensures r.Err? ==> exists p :: 1 <= p <= n && PageItems(listing, PageUrl(start, p)) == Err(r.error)
    ensures r.Ok? ==> forall u :: u in r.value ==> Origin <= u
    decreases n
  {
    if n == 0 then Ok([])
    else
      match UrlsOfPages(start, listing, n - 1)
      case Err(e) => Err(e)
      case Ok(before) =>
        match PageItems(listing, PageUrl(start, n))
        case Err(e) => Err(e)
        case Ok(items) =>
          assert forall u :: u in items ==> Origin <= u by {
            forall u | u in items
              ensures Origin <= u
            {
              var j :| 0 <= j < |items| && items[j] == u;
              assert u[..|Origin|] == Origin;
            }
          }
          Ok(before + items)
  }

  /** What `scrape_opportunity_urls(start)` returns: the start page must show
      at least one pagination item, or the wait for one times out. */
  function ListedUrls(start: string, listing: Listing): (r: Result<seq<string>>)
    ensures (start !in listing || listing[start].paginationItems == 0) ==> r == Err(PageLoadTimeout(start))
    ensures r.Ok? ==> forall u :: u in r.value ==> Origin <= u
  {
    if start !in listing || listing[start].paginationItems == 0 then Err(PageLoadTimeout(start))
    else UrlsOfPages(start, listing, listing[start].paginationItems)
  }

  lemma {:induction false} UrlsOfPagesFailureSticks(start: string, listing: Listing, k: nat, n: nat)
    requires k <= n
    requires UrlsOfPages(start, listing, k).Err?
    ensures UrlsOfPages(start, listing, n) == UrlsOfPages(start, listing, k)
    decreases n - k
  {
    if k < n {
      UrlsOfPagesFailureSticks(start, listing, k, n - 1);
    }
  }

  /** Page `p` of `start` is loaded and lists an item whose URL is `u`. */
  predicate OnPage(start: string, listing: Listing, p: nat, u: string) {
    var url := PageUrl(start, p);
    url in listing && Origin <= u &&
    exists j :: 0 <= j < |listing[url].hrefs| && listing[url].hrefs[j] == Some(u[|Origin|..])
  }

  /** Pages 1..n are enumerated without failure exactly when each of them
      renders and has an href on every item. */
  lemma {:induction false} UrlsOfPagesOk(start: string, listing: Listing, n: nat)
    ensures UrlsOfPages(start, listing, n).Ok? <==> forall p :: 1 <= p <= n ==> PageItems(listing, PageUrl(start, p)).Ok?
    decreases n
  {
    if n > 0 {
      UrlsOfPagesOk(start, listing, n - 1);
    }
  }

  /** The URLs of one page are exactly its items' hrefs behind the origin. */
  lemma PageItemsExact(start: string, listing: Listing, p: nat, u: string)
    requires PageItems(listing, PageUrl(start, p)).Ok?
    ensures u in PageItems(listing, PageUrl(start, p)).value <==> OnPage(start, listing, p, u)
  {
    var url := PageUrl(start, p);
    var items := PageItems(listing, url).value;
    var hrefs := listing[url].hrefs;
    if u in items {
      var j :| 0 <= j < |items| && items[j] == u;
      assert u == Origin + hrefs[j].value;
      assert u[|Origin|..] == hrefs[j].value;
    }
    if OnPage(start, listing, p, u) {
      var j :| 0 <= j < |hrefs| && hrefs[j] == Some(u[|Origin|..]);
      assert u == Origin + u[|Origin|..];
      assert items[j] == u;
    }
  }

  /** The URLs of pages 1..n are exactly the items of those pages, each the
      origin followed by the item's href. */
  lemma {:induction false} UrlsOfPagesExact(start: string, listing: Listing, n: nat, u: string)
    requires UrlsOfPages(start, listing, n).Ok?
    ensures u in UrlsOfPages(start, listing, n).value <==> exists p :: 1 <= p <= n && OnPage(start, listing, p, u)
    decreases n
  {
    if n > 0 {
      UrlsOfPagesExact(start, listing, n - 1, u);
      PageItemsExact(start, listing, n, u);
    }
  }

  /** Enumerating fewer pages gives a prefix of the URLs: the URLs of page
      `p` come after those of every earlier page and before those of every
      later one. */
  lemma {:induction false} UrlsOfPagesPrefix(start: string, listing: Listing, m: nat, n: nat)
    requires m <= n
    requires UrlsOfPages(start, listing, n).Ok?
    ensures UrlsOfPages(start, listing, m).Ok?
    ensures UrlsOfPages(start, listing, m).value <= UrlsOfPages(start, listing, n).value
    decreases n - m
  {
    if m < n {
      UrlsOfPagesPrefix(start, listing, m, n - 1);
      var shorter := UrlsOfPages(start, listing, m).value;
      var before := UrlsOfPages(start, listing, n - 1).value;
      var all := UrlsOfPages(start, listing, n).value;
      assert all[..|before|] == before;
      assert all[..|shorter|] == before[..|shorter|];
    }
  }

  /** The nested loop of `scrape_opportunity_urls`: one outer iteration per
      result page, one inner iteration per listed item, each appending the
      item's absolute URL. */
  method ScrapeOpportunityUrls(start: string, listing: Listing) returns (r: Result<seq<string>>)
    ensures r == ListedUrls(start, listing)
  {
    if start !in listing || listing[start].paginationItems == 0 {
      return Err(PageLoadTimeout(start));
    }
    var pageCount := listing[start].paginationItems;
    var urls: seq<string> := [];
    var pageNumber := 1;
    while pageNumber <= pageCount
      invariant 1 <= pageNumber <= pageCount + 1
      invariant UrlsOfPages(start, listing, pageNumber - 1) == Ok(urls)
    {
      var pageUrl := PageUrl(start, pageNumber);
      if pageUrl !in listing {
        UrlsOfPagesFailureSticks(start, listing, pageNumber, pageCount);
        return Err(PageLoadTimeout(pageUrl));
      }
      var hrefs := listing[pageUrl].hrefs;
      ghost var before := urls;
      var j := 0;
      while j < |hrefs|
        invariant 0 <= j <= |hrefs|
        invariant Absolute(pageUrl, hrefs[..j]).Ok?
        invariant urls == before + Absolute(pageUrl, hrefs[..j]).value
      {
        assert hrefs[..j + 1][..j] == hrefs[..j];
        match hrefs[j]
        case None =>
          assert forall k :: 0 <= k < j ==> hrefs[..j][k] == hrefs[k];
          assert !(forall k :: 0 <= k < |hrefs| ==> hrefs[k].Some?);
          UrlsOfPagesFailureSticks(start, listing, pageNumber, pageCount);
          return Err(MissingHref(pageUrl));
        case Some(h) =>
          urls := urls + [Origin + h];
        j := j + 1;
      }
      assert hrefs[..j] == hrefs;
      pageNumber := pageNumber + 1;
    }
    r := Ok(urls);
  }
}
