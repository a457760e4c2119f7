/** Extraction of feed entries from detail pages (`scrape_url`, scraper.py
    lines 68-123): for each URL in order the page is loaded, six element
    lists are picked from fixed regions of it, each list is formatted into
    the text of one section, and one entry with the six sections is added to
    the end of the feed's entries. The browser is replaced by the rendered
    pages it would show. */
module Extract {
  import opened Errors
  import opened Formatter
  import opened Feed

  /** One `div.eight.columns` info panel at the bottom of a detail page, by
      what the three locators applied to it find. */
  datatype Panel = Panel(
    headingsAndLists: seq<Element>,       // "h3, ul"
    headingsAndParagraphs: seq<Element>,  // "h1, h2, h3, h4, h5, p"
    tables: seq<Element>)                 // "table"

  /** A rendered detail page, by what the locators find on it. */
  datatype DetailPage = DetailPage(
    description: seq<Element>,  // "div.twelve.columns" then "p, ul, h1 … h5"
    aside: seq<Element>,        // "div.four.columns aside.details" then "p, ul, h1 … h5"
    panels: seq<Panel>,         // "div#content div.container div.eight.columns"
    address: seq<Element>)      // "div#vp-address p"

  /** The detail pages the browser can load, by address; an address outside
      the map is a page that never renders. */
  type Pages = map<string, DetailPage>

  /** The six element lists of a page, in section order (lines 79-87); a page
      with fewer than two bottom panels fails at `bottom_divs[0]` or `bottom_divs[1]`. */
  function SectionLists(page: DetailPage): (r: Result<seq<seq<Element>>>)
    ensures r.Ok? <==> |page.panels| >= 2
    ensures r.Ok? ==> |r.value| == |SectionTagNames|
  {
    if |page.panels| < 2 then Err(MissingInfoPanel)
    else Ok([page.description, page.aside, page.panels[0].headingsAndLists,
             page.panels[1].headingsAndParagraphs, page.panels[1].tables, page.address])
  }

  /** The sections for the first `|lists|` tag names, one per element list;
      the first failing section fails them all. */
  function Sections(lists: seq<seq<Element>>): (r: Result<seq<Section>>)
    requires |lists| <= |SectionTagNames|
    ensures r.Ok? <==> forall i {:trigger SectionText(lists[i])} :: 0 <= i < |lists| ==> SectionText(lists[i]).Ok?
    ensures r.Ok? ==> |r.value| == |lists|
    ensures r.Ok? ==> forall i {:trigger SectionText(lists[i])} :: 0 <= i < |lists| ==>
      r.value[i] == Section(SectionTagNames[i], SectionText(lists[i]).value)
    decreases |lists|
  {
    if lists == [] then Ok([])
    else
      var n := |lists| - 1;
      var init := lists[..n];
      var prior := Sections(init);
      var last := SectionText(lists[n]);
      if prior.Err? then
        assert exists i :: 0 <= i < |lists| && SectionText(lists[i]).Err? by {
          var i :| 0 <= i < n && SectionText(init[i]).Err?;
          assert init[i] == lists[i];
        }
        Err(prior.error)
      else if last.Err? then
        Err(last.error)
      else
        var all := prior.value + [Section(SectionTagNames[n], last.value)];
        assert forall i {:trigger SectionText(lists[i])} :: 0 <= i < |lists| ==>
          SectionText(lists[i]).Ok? && all[i] == Section(SectionTagNames[i], SectionText(lists[i]).value) by {
          forall i | 0 <= i < |lists|
            ensures SectionText(lists[i]).Ok? && all[i] == Section(SectionTagNames[i], SectionText(lists[i]).value)
          {
            if i < n {
              assert all[i] == prior.value[i] && init[i] == lists[i];
              assert SectionText(init[i]).Ok?;
            } else {
              assert i == n;
            }
          }
        }
        Ok(all)
  }

  /** One more list extends the sections by its section, or fails with it. */
  lemma SectionsSnoc(lists: seq<seq<Element>>, i: nat)
    requires i < |lists| <= |SectionTagNames|
    ensures Sections(lists[..i + 1]) ==
      match Sections(lists[..i])
      case Err(e) => Err(e)
      case Ok(s) => (match SectionText(lists[i]) case Err(e) => Err(e) case Ok(t) => Ok(s + [Section(SectionTagNames[i], t)]))
  {
    assert lists[..i + 1][..i] == lists[..i];
    assert lists[..i + 1][i] == lists[i];
  }

  /** The entry one detail page yields. */
  function ExtractEntry(page: DetailPage): (r: Result<Entry>)
    ensures r.Ok? ==> WellFormed(r.value)
  {
    match SectionLists(page)
    case Err(e) => Err(e)
    case Ok(lists) =>
      match Sections(lists)
      case Err(e) => Err(e)
      case Ok(sections) =>
        assert forall i :: 0 <= i < |sections| ==> sections[i].tag == SectionTagNames[i] by {
          forall i | 0 <= i < |sections|
            ensures sections[i].tag == SectionTagNames[i]
          {
            assert sections[i] == Section(SectionTagNames[i], SectionText(lists[i]).value);
          }
        }
        Ok(Entry(sections))
  }

  /** The entry for the page at `url`: a timeout when it does not render, the
      missing-panel failure when it has fewer than two bottom panels. */
  function EntryAt(pages: Pages, url: string): (r: Result<Entry>)
    ensures url !in pages ==> r == Err(PageLoadTimeout(url))
    ensures url in pages && |pages[url].panels| < 2 ==> r == Err(MissingInfoPanel)
  {
    if url !in pages then Err(PageLoadTimeout(url)) else ExtractEntry(pages[url])
  }

  /** The entries for `urls`, in order; the first failure fails them all. */
  function ExtractAll(urls: seq<string>, pages: Pages): (r: Result<seq<Entry>>)
    ensures r.Ok? <==> forall k {:trigger EntryAt(pages, urls[k])} :: 0 <= k < |urls| ==> EntryAt(pages, urls[k]).Ok?
    ensures r.Ok? ==> |r.value| == |urls|
    ensures r.Ok? ==> forall k {:trigger EntryAt(pages, urls[k])} :: 0 <= k < |urls| ==> r.value[k] == EntryAt(pages, urls[k]).value
    decreases |urls|
  {
    if urls == [] then Ok([])
    else
      var n := |urls| - 1;
      var init := urls[..n];
      var prior := ExtractAll(init, pages);
      var last := EntryAt(pages, urls[n]);
      if prior.Err? then
        assert exists k :: 0 <= k < |urls| && EntryAt(pages, urls[k]).Err? by {
          var k :| 0 <= k < n && EntryAt(pages, init[k]).Err?;
          assert init[k] == urls[k];
        }
        Err(prior.error)
      else if last.Err? then
        Err(last.error)
      else
        var all := prior.value + [last.value];
        assert forall k {:trigger EntryAt(pages, urls[k])} :: 0 <= k < |urls| ==>
          EntryAt(pages, urls[k]).Ok? && all[k] == EntryAt(pages, urls[k]).value by {
          forall k | 0 <= k < |urls|
            ensures EntryAt(pages, urls[k]).Ok? && all[k] == EntryAt(pages, urls[k]).value
          {
            if k < n {
              assert all[k] == prior.value[k] && init[k] == urls[k];
              assert EntryAt(pages, init[k]).Ok?;
            } else {
              assert k == n;
            }
          }
        }
        Ok(all)
  }

  /** One more URL extends the entries by its entry, or fails with it. */
  lemma ExtractSnoc(urls: seq<string>, pages: Pages, i: nat)
    requires i < |urls|
    ensures ExtractAll(urls[..i + 1], pages) ==
      match ExtractAll(urls[..i], pages)
      case Err(e) => Err(e)
      case Ok(es) => (match EntryAt(pages, urls[i]) case Err(e) => Err(e) case Ok(x) => Ok(es + [x]))
  {
    assert urls[..i + 1][..i] == urls[..i];
    assert urls[..i + 1][i] == urls[i];
  }

  /** Every extracted entry has the six sections in `SECTION_TAG_NAMES` order. */
  lemma ExtractedWellFormed(urls: seq<string>, pages: Pages)
    requires ExtractAll(urls, pages).Ok?
    ensures forall k :: 0 <= k < |urls| ==> WellFormed(ExtractAll(urls, pages).value[k])
  {
    forall k | 0 <= k < |urls|
      ensures WellFormed(ExtractAll(urls, pages).value[k])
    {
      assert EntryAt(pages, urls[k]).Ok?;
    }
  }

  lemma {:induction false} ExtractFailureSticks(urls: seq<string>, pages: Pages, i: nat)
    requires i <= |urls|
    requires ExtractAll(urls[..i], pages).Err?
    ensures ExtractAll(urls, pages) == ExtractAll(urls[..i], pages)
    decreases |urls| - i
  {
    if i < |urls| {
      var init := urls[..|urls| - 1];
      assert init[..i] == urls[..i];
      ExtractFailureSticks(init, pages, i);
      assert ExtractAll(init, pages).Err?;
    } else {
      assert urls[..i] == urls;
    }
  }

  lemma {:induction false} SectionsFailureSticks(lists: seq<seq<Element>>, i: nat)
    requires i <= |lists| <= |SectionTagNames|
    requires Sections(lists[..i]).Err?
    ensures Sections(lists) == Sections(lists[..i])
    decreases |lists| - i
  {
    if i < |lists| {
      var init := lists[..|lists| - 1];
      assert init[..i] == lists[..i];
      SectionsFailureSticks(init, i);
      assert Sections(init).Err?;
    } else {
      assert lists[..i] == lists;
    }
  }

  /** The section loop of one entry (lines 89-123): one section per element
      list, named by its position. */
  method BuildEntry(lists: seq<seq<Element>>) returns (r: Result<Entry>)
    requires |lists| == |SectionTagNames|
    ensures r == (match Sections(lists) case Err(e) => Err(e) case Ok(s) => Ok(Entry(s)))
  {
    var sections: seq<Section> := [];
    for index := 0 to |lists|
      invariant Sections(lists[..index]) == Ok(sections)
    {
      SectionsSnoc(lists, index);
      var text := FormatSection(lists[index]);
      if text.Err? {
        SectionsFailureSticks(lists, index + 1);
        return Err(text.error);
      }
      sections := sections + [Section(SectionTagNames[index], text.value)];
    }
    assert lists[..|lists|] == lists;
    r := Ok(Entry(sections));
  }

  /** `scrape_url(page_urls, entries)`: one entry per URL, in order, added at
      the end of the feed's entries; the entries already there are left as
      they are. A failure stops the loop with the entries of the URLs before
      it already added to the in-memory tree. */
  method ScrapeUrl(urls: seq<string>, pages: Pages, root: FeedTree) returns (r: Outcome)
    modifies root
    ensures r.Pass? <==> ExtractAll(urls, pages).Ok?
    ensures r.Pass? ==> root.entries == old(root.entries) + ExtractAll(urls, pages).value
    ensures r.Fail? ==> r.error == ExtractAll(urls, pages).error
    ensures old(root.entries) <= root.entries
    ensures root.lastUpdate == old(root.lastUpdate)
  {
    for i := 0 to |urls|
      invariant ExtractAll(urls[..i], pages).Ok?
      invariant root.entries == old(root.entries) + ExtractAll(urls[..i], pages).value
      invariant root.lastUpdate == old(root.lastUpdate)
    {
      ExtractSnoc(urls, pages, i);
      var url := urls[i];
      if url !in pages {
        ExtractFailureSticks(urls, pages, i + 1);
        return Fail(PageLoadTimeout(url));
      }
      var page := pages[url];
      if |page.panels| < 2 {
        ExtractFailureSticks(urls, pages, i + 1);
        return Fail(MissingInfoPanel);
      }
      var lists := [page.description, page.aside, page.panels[0].headingsAndLists,
                    page.panels[1].headingsAndParagraphs, page.panels[1].tables, page.address];
      var entry := BuildEntry(lists);
      assert SectionLists(page) == Ok(lists);
      assert entry == EntryAt(pages, url);
      if entry.Err? {
        ExtractFailureSticks(urls, pages, i + 1);
        return Fail(entry.error);
      }
      root.AddEntry(entry.value);
    }
    assert urls[..|urls|] == urls;
    r := Pass;
  }
}
