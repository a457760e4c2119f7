/** One run of the crawler (`update_opportunities` and `scrape_all_urls`,
    scraper.py lines 17-40): read the persisted URL list, enumerate the
    listing, keep the URLs not seen before, persist the extended list, then
    extract one feed entry per new URL and store the re-stamped feed. The web
    is a parameter (the listing pages and the detail pages a browser would
    render), and so is the clock reading that stamps the feed. */
module Pipeline {
  import opened Errors
  import opened UrlStore
  import opened Diff
  import opened Listing
  import opened Feed
  import opened Extract
  import opened Storage

  /** What the browser would show: the listing pages and the detail pages. */
  datatype Web = Web(listing: Listing, pages: Pages)

  /** The contents of opportunity_urls.txt and feed.xml. */
  datatype Files = Files(urlsFile: string, feedFile: Document)

  /** How a run of `update_opportunities` ends. */
  datatype Report =
    | NoNewOpportunities       // nothing new was listed; nothing is written
    | Updated(added: seq<string>)
    | Failed(error: Error)     // an exception aborted the run

  datatype Run = Run(report: Report, files: Files)

  /** What one `update_opportunities()` run reports and leaves on disk. The
      URL list is written before any detail page is loaded; the feed only
      once every new entry has been extracted. */
  function Update(files: Files, web: Web, now: string): (run: Run)
    ensures !run.report.Updated? ==> run.files.feedFile == files.feedFile
    ensures run.report.NoNewOpportunities? ==> run.files == files
    ensures run.report.Updated? ==> run.report.added != [] && run.files.feedFile.lastUpdate == now
    ensures files.feedFile.entries <= run.files.feedFile.entries
  {
    var existing := SplitLines(files.urlsFile);
    match ListedUrls(SearchResults, web.listing)
    case Err(e) => Run(Failed(e), files)
    case Ok(listed) =>
      var added := NewUrls(existing, listed);
      if added == [] then Run(NoNewOpportunities, files)
      else
        var urlsFile := Serialise(existing + added);
        match ExtractAll(added, web.pages)
        case Err(e) => Run(Failed(e), Files(urlsFile, files.feedFile))
        case Ok(entries) =>
          Run(Updated(added), Files(urlsFile, Document(now, files.feedFile.entries + entries)))
  }

  /** `update_opportunities()` on the working directory `disk`. */
  method UpdateOpportunities(disk: Disk, web: Web, now: string) returns (report: Report)
    modifies disk
    ensures Run(report, Files(disk.urlsFile, disk.feedFile))
         == Update(Files(old(disk.urlsFile), old(disk.feedFile)), web, now)
  {
    var existing := ReadUrls(disk);
    var listed := ScrapeOpportunityUrls(SearchResults, web.listing);
    if listed.Err? {
      return Failed(listed.error);
    }
    var added := NewUrls(existing, listed.value);
    if |added| == 0 {
      return NoNewOpportunities;
    }
    existing := existing + added;
    WriteUrls(disk, existing);
    var feed := ReadXml(disk);
    var outcome := ScrapeUrl(added, web.pages, feed);
    if outcome.Fail? {
      return Failed(outcome.error);
    }
    WriteXml(feed, disk, now);
    report := Updated(added);
  }

  /** Every listed item's href is a single line. */
  predicate SingleLineHrefs(listing: Listing) {
    forall url, j :: url in listing && 0 <= j < |listing[url].hrefs| && listing[url].hrefs[j].Some? ==>
      SingleLine(listing[url].hrefs[j].value)
  }

  lemma OriginSingleLine()
    ensures SingleLine(Origin)
  {
    assert |Origin| == 39;
    forall k | 0 <= k < |Origin| ensures !IsLineBreak(Origin[k]) {
      assert Origin[k] in "https://volunteercentrenewcastle.org.uk";
    }
  }

  /** With single-line hrefs every enumerated URL is a single line. */
  lemma ListedSingleLine(listing: Listing)
    requires SingleLineHrefs(listing)
    requires ListedUrls(SearchResults, listing).Ok?
    ensures forall u :: u in ListedUrls(SearchResults, listing).value ==> SingleLine(u)
  {
    var n := listing[SearchResults].paginationItems;
    OriginSingleLine();
    forall u | u in ListedUrls(SearchResults, listing).value
      ensures SingleLine(u)
    {
      UrlsOfPagesExact(SearchResults, listing, n, u);
      var p :| 1 <= p <= n && OnPage(SearchResults, listing, p, u);
      var url := PageUrl(SearchResults, p);
      var j :| 0 <= j < |listing[url].hrefs| && listing[url].hrefs[j] == Some(u[|Origin|..]);
      assert u == Origin + u[|Origin|..];
      forall k | 0 <= k < |u| ensures !IsLineBreak(u[k]) {
        if k < |Origin| {
          assert u[k] == Origin[k];
        } else {
          assert u[k] == u[|Origin|..][k - |Origin|];
        }
      }
    }
  }

  /** The URLs a run would add to the persisted list: the listed URLs not
      persisted yet, or none when the listing cannot be enumerated. */
  function NewOpportunities(files: Files, web: Web): (added: seq<string>)
    ensures forall u :: u in added <==>
      ListedUrls(SearchResults, web.listing).Ok? &&
      u in ListedUrls(SearchResults, web.listing).value && u !in SplitLines(files.urlsFile)
    ensures NoDuplicates(added)
  {
    match ListedUrls(SearchResults, web.listing)
    case Err(_) => []
    case Ok(listed) => NewUrls(SplitLines(files.urlsFile), listed)
  }

  /** The run reports nothing new exactly when the listing was enumerated and
      every URL on it is already persisted; it reports the new URLs when it
      succeeds. */
  lemma ReportNamesNewUrls(files: Files, web: Web, now: string)
    ensures Update(files, web, now).report.NoNewOpportunities? <==>
      ListedUrls(SearchResults, web.listing).Ok? &&
      forall u :: u in ListedUrls(SearchResults, web.listing).value ==> u in SplitLines(files.urlsFile)
    ensures Update(files, web, now).report.Updated? ==>
      Update(files, web, now).report.added == NewOpportunities(files, web)
  {
    var listed := ListedUrls(SearchResults, web.listing);
    if listed.Ok? {
      var added := NewUrls(SplitLines(files.urlsFile), listed.value);
      assert added == NewOpportunities(files, web);
    }
  }

  /** With single-line hrefs, the persisted lines followed by the new URLs
      are all single lines. */
  lemma ExtendedListSingleLine(files: Files, web: Web)
    requires SingleLineHrefs(web.listing)
    ensures forall k :: 0 <= k < |SplitLines(files.urlsFile) + NewOpportunities(files, web)| ==>
      SingleLine((SplitLines(files.urlsFile) + NewOpportunities(files, web))[k])
  {
    var existing := SplitLines(files.urlsFile);
    var added := NewOpportunities(files, web);
    var all := existing + added;
    forall k | 0 <= k < |all| ensures SingleLine(all[k]) {
      if k >= |existing| {
        assert all[k] == added[k - |existing|];
        assert all[k] in added;
        ListedSingleLine(web.listing);
      }
    }
  }

  /** The URL list only grows: after any run its lines are the old lines
      followed by the new URLs (none when nothing new was listed or the
      listing failed), including when a detail page then fails. */
  lemma UrlListAppendOnly(files: Files, web: Web, now: string)
    requires SingleLineHrefs(web.listing)
    ensures SplitLines(Update(files, web, now).files.urlsFile) == SplitLines(files.urlsFile) + NewOpportunities(files, web)
  {
    var existing := SplitLines(files.urlsFile);
    var added := NewOpportunities(files, web);
    var run := Update(files, web, now);
    if added == [] {
      assert existing + added == existing;
    } else {
      assert run.files.urlsFile == Serialise(existing + added);
      ExtendedListSingleLine(files, web);
      RoundTrip(existing + added);
    }
  }

  /** A successful run appends one well-formed entry per new URL, in the
      order of the new URLs, keeps the old entries in front and stamps the
      feed with `now`. */
  lemma FeedAppendOnly(files: Files, web: Web, now: string)
    requires Update(files, web, now).report.Updated?
    ensures var run := Update(files, web, now);
      var oldEntries := files.feedFile.entries;
      var added := run.report.added;
      |run.files.feedFile.entries| == |oldEntries| + |added| &&
      run.files.feedFile.entries[..|oldEntries|] == oldEntries &&
      run.files.feedFile.lastUpdate == now &&
      forall k :: 0 <= k < |added| ==>
        run.files.feedFile.entries[|oldEntries| + k] == EntryAt(web.pages, added[k]).value &&
        WellFormed(run.files.feedFile.entries[|oldEntries| + k])
  {
    var run := Update(files, web, now);
    ExtractedWellFormed(run.report.added, web.pages);
  }

  /** When a detail page of a new URL fails, the run fails after persisting
      every new URL, and leaves the feed as it was. */
  lemma FailedExtractionPersistsUrls(files: Files, web: Web, now: string)
    requires SingleLineHrefs(web.listing)
    requires NewOpportunities(files, web) != []
    requires ExtractAll(NewOpportunities(files, web), web.pages).Err?
    ensures Update(files, web, now).report == Failed(ExtractAll(NewOpportunities(files, web), web.pages).error)
    ensures Update(files, web, now).files.feedFile == files.feedFile
    ensures SplitLines(Update(files, web, now).files.urlsFile) == SplitLines(files.urlsFile) + NewOpportunities(files, web)
  {
    var added := NewOpportunities(files, web);
    assert ListedUrls(SearchResults, web.listing).Ok?;
    assert added == NewUrls(SplitLines(files.urlsFile), ListedUrls(SearchResults, web.listing).value);
    UrlListAppendOnly(files, web, now);
  }

  /** Running again against an unchanged listing finds nothing new and
      writes nothing, whatever the first run ended with once the listing was
      enumerated; in particular, with single-line hrefs, the URLs of a failed
      extraction are not retried. */
  lemma {:induction false} RerunFindsNothing(files: Files, web: Web, now: string, later: string)
    requires SingleLineHrefs(web.listing)
    requires ListedUrls(SearchResults, web.listing).Ok?
    ensures Update(Update(files, web, now).files, web, later).report.NoNewOpportunities?
    ensures Update(Update(files, web, now).files, web, later).files == Update(files, web, now).files
  {
    var existing := SplitLines(files.urlsFile);
    var listed := ListedUrls(SearchResults, web.listing).value;
    var added := NewOpportunities(files, web);
    assert added == NewUrls(existing, listed);
    var run := Update(files, web, now);
    UrlListAppendOnly(files, web, now);
    SecondDiffEmpty(existing, listed);
    assert NewUrls(SplitLines(run.files.urlsFile), listed) == [];
  }

  /** What `scrape_all_urls()` stores as the feed: one entry for every
      persisted URL appended to the stored entries, stamped with `now`; the
      URL list is only read. */
  function ScrapeAll(files: Files, web: Web, now: string): (r: Result<Document>)
    ensures r.Ok? <==> forall k :: 0 <= k < |SplitLines(files.urlsFile)| ==>
      EntryAt(web.pages, SplitLines(files.urlsFile)[k]).Ok?
    ensures r.Ok? ==> r.value.lastUpdate == now
    ensures r.Ok? ==> files.feedFile.entries <= r.value.entries
    ensures r.Ok? ==> |r.value.entries| == |files.feedFile.entries| + |SplitLines(files.urlsFile)|
    ensures r.Ok? ==> forall k :: 0 <= k < |SplitLines(files.urlsFile)| ==>
      r.value.entries[|files.feedFile.entries| + k] == EntryAt(web.pages, SplitLines(files.urlsFile)[k]).value
  {
    match ExtractAll(SplitLines(files.urlsFile), web.pages)
    case Err(e) => Err(e)
    case Ok(entries) => Ok(Document(now, files.feedFile.entries + entries))
  }

  /** `scrape_all_urls()` on the working directory `disk`; a failure leaves
      both files as they were. */
  method ScrapeAllUrls(disk: Disk, web: Web, now: string) returns (r: Outcome)
    modifies disk
    ensures disk.urlsFile == old(disk.urlsFile)
    ensures r.Pass? <==> ScrapeAll(Files(old(disk.urlsFile), old(disk.feedFile)), web, now).Ok?
    ensures r.Pass? ==> disk.feedFile == ScrapeAll(Files(old(disk.urlsFile), old(disk.feedFile)), web, now).value
    ensures r.Fail? ==> disk.feedFile == old(disk.feedFile)
    ensures r.Fail? ==> r.error == ScrapeAll(Files(old(disk.urlsFile), old(disk.feedFile)), web, now).error
  {
    var urls := ReadUrls(disk);
    var feed := ReadXml(disk);
    r := ScrapeUrl(urls, web.pages, feed);
    if r.Fail? {
      return;
    }
    WriteXml(feed, disk, now);
  }
}
