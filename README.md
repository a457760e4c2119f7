# Volunteer Centre Newcastle opportunity crawler — Dafny model

This project models the core of `scraper.py`, a crawler that keeps an XML
feed (`feed.xml`) of the volunteering opportunities listed on
volunteercentrenewcastle.org.uk, together with a plain-text list of the
opportunity URLs already seen (`opportunity_urls.txt`).

One run of `update_opportunities` reads the persisted URL list, enumerates
every page of the search-results listing, keeps the listed URLs not seen
before, appends them to the URL list on disk, then loads each new detail
page, formats six regions of it into the six sections of a new feed entry
(`description`, `aside`, `details`, `availability`, `availability_table`,
`location`), and stores the feed with a fresh `lastUpdate` stamp.
`scrape_all_urls` builds entries for every persisted URL instead.

The model is split into modules that follow the program:

- `Errors` — `Option`, `Result`, `Outcome` and the exceptions that abort a
  run: a page that never renders (`PageLoadTimeout`), an item link without an
  href (`MissingHref`), a detail page with fewer than two bottom panels
  (`MissingInfoPanel`), and a table the renderer indexes out of range
  (`TableIndexError`).
- `Text` — the Python string operations the code uses: `str.strip` (with
  Python's whitespace set), `str.replace`, `str.ljust`, `str.join` and `str(n)`
  for natural numbers. `Split` at one character is not used by the code; the
  model uses it to state how many lines a fragment or a table has.
- `Table` — the plain-text table renderer (column widths, left-justified
  cells, two-space column gap, newline-separated rows).
- `Formatter` — the per-section element loop: heading, paragraph, list and
  table fragments, the list-item glyphs, and how `section.text` ends up.
- `UrlStore` — the text format of `opportunity_urls.txt`: one URL and a
  newline per entry, read back with `str.splitlines`.
- `Diff` — the set difference that picks the new URLs.
- `Listing` — the paginated enumeration of the listing (`scrape_opportunity_urls`).
- `Feed` — entries, sections, the stored document and the in-memory tree
  (`FeedTree`, a class whose `entries` grow in place).
- `Storage` — the working directory as a class `Disk` with the two files,
  and `read_urls_txt`, `write_urls_txt`, `read_xml`, `write_xml`.
- `Extract` — `scrape_url`: one entry per URL, in order, appended to the tree.
- `Pipeline` — `update_opportunities` and `scrape_all_urls`, each as a
  specification function on file contents and a method on `Disk` proved
  equal to it.

The web is a parameter: a map from listing-page address to what the page
shows (the number of pagination items and the href of every item's link) and
a map from detail-page address to the element lists the locators find. A page
missing from its map is a page that never renders, so the wait for it times
out. The clock reading that stamps the feed is a parameter too.

Points of the code the model keeps exactly:

- A table cell list with no rows, or with rows of different lengths, raises
  an `IndexError` in the code (`rows[0]`, `row[i]`, `col_widths[i]`);
  `Table.Render` fails with `TableIndexError` in both cases.
- The code turns every newline in a heading or paragraph text into a space
  after replacing `<br>`, so a heading or paragraph fragment never spans more
  than its own line.
- `section.text` is assigned inside the element loop, so a section whose list
  is empty (or holds only `None`) is left without text, not set to `""`.

## Model

| member | source | states |
|---|---|---|
| Text.TrimLeft | scraper.py:97 | `lstrip` leaves a suffix of the input, every dropped character is whitespace, and the result does not start with whitespace |
| Text.TrimRight | scraper.py:97 | `rstrip` leaves a prefix of the input, every dropped character is whitespace, and the result does not end with whitespace |
| Text.Strip | scraper.py:97 | `strip` leaves a window of the input with only whitespace before and after it; the window neither starts nor ends with whitespace and is empty exactly when the input is all whitespace |
| Text.LJust | scraper.py:119 | `ljust` gives exactly the requested width (or the text when longer), the text first and spaces after it |
| Text.ReplaceAll | scraper.py:97 | replacing a pattern by one no longer never lengthens the text, and by one of equal length keeps its length |
| Text.Join | scraper.py:119-121 | the joined string starts with the first part |
| Text.NatToString | scraper.py:55 | `str(n)` is a non-empty string of decimal digits without a leading zero |
| Text.NatToStringRoundTrip | scraper.py:55 | reading the digits of `str(n)` back gives `n` |
| Text.NatToStringInjective | scraper.py:55 | different page numbers print differently |
| Table.ColumnMax | scraper.py:118 | a column's width is at least every cell length of that column and equal to one of them |
| Table.ColumnWidths | scraper.py:118 | one width per column of the first row, each the longest cell of its column |
| Table.PaddedCells | scraper.py:119 | every padded cell has exactly its column's width, starts with the cell and is filled with spaces |
| Table.FormatRow | scraper.py:119 | a formatted row starts with its first cell, and holds no line break when no cell holds one |
| Table.FormattedRows | scraper.py:119 | one formatted line per table row |
| Table.Render | scraper.py:117-121 | rendering succeeds exactly when the table has rows and every row has as many cells as the first |
| Table.RowLength | scraper.py:119 | a formatted row is as long as the column widths together plus two spaces between neighbouring columns |
| Table.TableLines | scraper.py:117-121 | for cells without a newline, the rendered table is one line per row, rows in order, no trailing newline, every line of the same length |
| Table.NameAgeFixture | scraper.py:117-121 | the table Name/Age, Al/30 renders as `Name  Age` over `Al    30 ` |
| Formatter.Normalise | scraper.py:97 | the normalised text holds no newline and follows the stripped, `<br>`-replaced text character by character: a newline becomes a space, every other character is kept |
| Formatter.NormaliseStripped | scraper.py:97 | without a `<br>`, the normalised text keeps the stripped length, neither starts nor ends with whitespace, and is the stripped text with each newline turned into a space |
| Formatter.Glyph | scraper.py:108-113 | bullet exactly when the class is absent or empty, crossed box exactly for `status_2`, checked box exactly for any other class |
| Formatter.ItemText | scraper.py:107-114 | a list line holds a line break exactly when the stripped item text does |
| Formatter.ListFragment | scraper.py:105-114 | a list fragment is empty exactly for a list without items, and otherwise ends with a newline |
| Formatter.ListLines | scraper.py:105-114 | for item texts whose stripped form has no newline, a list fragment is one newline-terminated line per item, in item order, each the glyph, a space and the stripped item text |
| Formatter.StripCells | scraper.py:117 | every table cell is stripped, the row and cell counts kept |
| Formatter.HeadingLines | scraper.py:99-100 | a heading fragment is a newline, the text, and a blank line |
| Formatter.ParagraphLines | scraper.py:102-103 | a paragraph fragment is the text on a line of its own |
| Formatter.Joined | scraper.py:92-121 | the running string can be formed exactly when every element's fragment can |
| Formatter.SectionText | scraper.py:92-123 | the section fails exactly when some element's fragment fails, and on success is unset exactly when every element is `None` |
| Formatter.Fragment | scraper.py:99-121 | a fragment can fail only for a table, and then with the renderer's index error; a `None` adds nothing |
| Formatter.FragmentFails | scraper.py:99-121 | a fragment fails exactly when it is a table with no rows or with rows of differing lengths |
| Formatter.JoinedAppendLeftFails | scraper.py:92-121 | once the running string has failed, further elements keep that failure |
| Formatter.JoinedAppendOk | scraper.py:92-121 | the running string of two element lists that both succeed is the concatenation of their running strings |
| Formatter.JoinedAppendRightFails | scraper.py:92-121 | after a succeeding prefix, the running string fails with the failure of the suffix |
| Formatter.JoinedNothingPresent | scraper.py:93-95 | a list of `None`s leaves the running string empty |
| Formatter.SectionUnsetIffNothingPresent | scraper.py:92-123 | a section is left without text exactly when its list has no element other than `None` |
| Formatter.SectionSkipsMissing | scraper.py:93-95 | a `None` anywhere in the element list changes neither the section text nor a failure |
| Formatter.FormatSection | scraper.py:92-123 | the element loop yields the section text: the fragments of the present elements concatenated in order, unset when none is present, or the first table failure |
| UrlStore.SplitLines | scraper.py:137-141 | `splitlines` gives lines free of line breaks, and none exactly for the empty file |
| UrlStore.LineEnd | scraper.py:140 | the first line ends at the first line break or at the end of the file, and holds no line break |
| UrlStore.Serialise | scraper.py:143-146 | the file is empty exactly for no URLs; otherwise it starts with the first URL and ends with a newline |
| UrlStore.SerialiseAppend | scraper.py:143-146 | writing a longer list only appends to the file |
| UrlStore.RoundTrip | scraper.py:137-146 | reading back a written list of single-line URLs gives the same URLs in the same order |
| UrlStore.CarriageReturnSplits | scraper.py:137-146 | a URL holding a carriage return comes back as two lines, so the single-line condition is needed |
| UrlStore.ReadWriteRead | scraper.py:137-146 | writing what was read and reading it again gives the same lines |
| Diff.Unseen | scraper.py:20 | the result holds exactly the discovered URLs outside the seen set, each once |
| Diff.NewUrls | scraper.py:20 | a URL is new exactly when it is listed and not persisted; no URL twice; nothing new exactly when every listed URL is persisted |
| Diff.NewUrlsInListingOrder | scraper.py:20 | on a listing without repeats the new URLs are the listing with the persisted URLs removed, in listing order |
| Diff.SecondDiffEmpty | scraper.py:20-27 | after appending the new URLs to the persisted ones, the same listing yields nothing new |
| Listing.PageUrl | scraper.py:55 | a result page's address starts with the start address |
| Listing.PageNumberReadBack | scraper.py:55 | the digits after `?results_page=` read back as the page number |
| Listing.PageUrlsDistinct | scraper.py:54-55 | different page numbers give different page addresses |
| Listing.Absolute | scraper.py:60-63 | the items of one page give the origin followed by each href, in position order; a missing href fails with that page's address |
| Listing.PageItems | scraper.py:56-63 | a page's items enumerate exactly when the page renders and every item has an href; otherwise the failure is a timeout for a page that does not render and a missing href naming the page otherwise |
| Listing.UrlsOfPages | scraper.py:54-63 | a failure of pages 1..n is the failure of one of those pages, and every enumerated URL starts with the site origin |
| Listing.UrlsOfPagesFailureSticks | scraper.py:54-63 | once a page fails, enumerating further pages returns that failure |
| Listing.UrlsOfPagesOk | scraper.py:54-63 | pages 1..n enumerate without failure exactly when every one renders and has an href on every item |
| Listing.PageItemsExact | scraper.py:59-63 | a URL comes from a page exactly when the page lists an item whose href is the URL after the origin |
| Listing.UrlsOfPagesExact | scraper.py:52-63 | a URL is enumerated from pages 1..n exactly when one of those pages lists an item whose href is the URL after the origin |
| Listing.UrlsOfPagesPrefix | scraper.py:54-63 | enumerating fewer pages gives a prefix of the URLs of more pages, so each page's URLs follow those of every earlier page |
| Listing.ListedUrls | scraper.py:43-65 | a start page that does not render or shows no pagination item times out; every enumerated URL starts with the site origin |
| Listing.ScrapeOpportunityUrls | scraper.py:43-65 | the nested page and item loops return the enumeration of pages 1..N, N the pagination count, or the first failure |
| Feed.FeedTree.Load | scraper.py:125-128 | the parsed tree holds the stored stamp and entries |
| Feed.FeedTree.AddEntry | scraper.py:89 | a new entry goes at the end; nothing else changes |
| Feed.FeedTree.SetLastUpdate | scraper.py:131-132 | the stamp is replaced; the entries are kept |
| Storage.ReadUrls | scraper.py:137-141 | the URLs read are the lines of the file, each a single line |
| Storage.WriteUrls | scraper.py:143-146 | the file becomes every URL followed by a newline, in order; the feed is untouched |
| Storage.ReadXml | scraper.py:125-128 | a fresh tree of the stored feed |
| Storage.WriteXml | scraper.py:130-135 | the feed file becomes the tree's entries stamped with the given time; the URL list is untouched |
| Extract.SectionLists | scraper.py:79-87 | six element lists, exactly when the page has at least two bottom panels |
| Extract.Sections | scraper.py:90-123 | one section per list, named in `SECTION_TAG_NAMES` order, each with its list's section text; fails exactly when some list fails |
| Extract.SectionsSnoc | scraper.py:89-123 | one more list extends the sections by its section, named by its position, or fails with its failure |
| Extract.ExtractEntry | scraper.py:79-123 | every extracted entry has the six sections in `SECTION_TAG_NAMES` order |
| Extract.EntryAt | scraper.py:74-84 | a detail page that does not render times out, and one with fewer than two bottom panels fails at `bottom_divs[0]` or `bottom_divs[1]` (an IndexError) |
| Extract.ExtractAll | scraper.py:74-123 | one entry per URL in URL order, each the entry of that URL's page; fails exactly when some URL's page fails |
| Extract.ExtractedWellFormed | scraper.py:89-91 | every entry extracted has the six sections in order |
| Extract.ExtractFailureSticks | scraper.py:74-75 | the first URL whose page fails decides the failure of the whole list |
| Extract.ExtractSnoc | scraper.py:74-123 | one more URL extends the entries by that URL's entry, or fails with its failure |
| Extract.SectionsFailureSticks | scraper.py:90-93 | the first failing section decides the failure of the entry |
| Extract.BuildEntry | scraper.py:89-123 | the section loop gives the entry of the six sections or the first failure |
| Extract.ScrapeUrl | scraper.py:68-123 | the tree gains one entry per URL, in order, after the entries already there, or the run fails with the first failing URL's error; the stamp is kept |
| Pipeline.Update | scraper.py:17-32 | the feed changes only on success, and then keeps its old entries in front and carries the new stamp; nothing is written when nothing is new |
| Pipeline.UpdateOpportunities | scraper.py:17-32 | the report and both files after the run are those `Update` gives for the files before it |
| Pipeline.ListedSingleLine | scraper.py:63 | with single-line hrefs every enumerated URL is a single line |
| Pipeline.NewOpportunities | scraper.py:18-20 | the URLs a run adds are the listed URLs not persisted, each once |
| Pipeline.ReportNamesNewUrls | scraper.py:20-24 | a run reports nothing new exactly when the listing enumerates and all of it is persisted; a successful run reports the new URLs |
| Pipeline.UrlListAppendOnly | scraper.py:26-27 | after any run the persisted lines are the old lines followed by the new URLs |
| Pipeline.FeedAppendOnly | scraper.py:29-32 | a successful run keeps the old entries in front, adds one well-formed entry per new URL in order, and stamps the feed |
| Pipeline.FailedExtractionPersistsUrls | scraper.py:26-31 | with single-line hrefs, when a new URL's page fails, the new URLs are still persisted and the feed is left as it was |
| Pipeline.RerunFindsNothing | scraper.py:17-27 | with single-line hrefs and a listing that enumerates, a second run against the same listing finds nothing new and writes nothing, so URLs whose extraction failed are not retried |
| Pipeline.ScrapeAll | scraper.py:35-40 | the feed gains one entry per persisted URL after the old ones, the k-th new entry being the entry of the k-th persisted URL's page, stamped with the given time, exactly when every persisted URL's page extracts |
| Pipeline.ScrapeAllUrls | scraper.py:35-40 | the feed file becomes what `ScrapeAll` gives, or stays as it was on failure; the URL list is only read |

## Left out

- The browser (Playwright, Firefox, page navigation, viewport) is replaced by maps from address to rendered page; selector waits are modelled only as a page that is missing from its map or shows no pagination item, both of which time out.
- The DOM locators are abstracted: a detail page is given by the element lists each locator finds, and an element by the tag it dispatches on and its inner text; `evaluate` and `inner_text` are not modelled.
- XML parsing and serialisation (`ET.parse`, the UTF-8 declaration, escaping) are not modelled; the feed is its tree. A feed without `lastUpdate` or `entries` elements is not modelled.
- File I/O is replaced by the contents of the two files; encoding errors and a missing file are not modelled.
- The clock (`datetime.now`) is a parameter; the stamp's format is not modelled.
- `get_memory_usage`, `print` output, and the `time` import are not modelled: they do not affect the files.
- The web front end and the scheduler that call these functions are not part of this model.
- Diff.NewUrls: the code goes through a Python `set`, whose iteration order is unspecified; the model fixes one of the possible orders (listing order, first occurrence), so claims about the order of new URLs hold of that choice only.
- Extract.ScrapeUrl: the code adds the `entry` element before filling its sections, so a failure leaves a partial entry in the in-memory tree; the model adds the entry after it is built. The tree is dropped on failure, so nothing written to disk differs.
- Formatter.NormaliseStripped: the edge-whitespace claim is proved only for texts without `<br>`, since replacing `<br>` by a space after stripping can put a space at either end.
- Empty and unset sections: ElementTree writes a section whose text is `None` and one whose text is `""` alike (`<tag />`) and reads both back as `None`; the model's `Document` keeps `None` and `Some("")` apart, so it tells apart stored feeds that the file does not.
- Pipeline.UrlListAppendOnly: the round trip needs every listed href to be a single line; an href holding a line break would come back as several persisted lines.
- Pipeline.FailedExtractionPersistsUrls: proved only for single-line hrefs; for an href with a line break the persisted lines are not the URL itself.
- Pipeline.RerunFindsNothing: proved only for single-line hrefs and a listing that enumerates. In the program a URL holding a line break is read back as several lines, so it counts as new on every run and is persisted and extracted again each time (`UrlStore.CarriageReturnSplits` shows the splitting).
- Table.TableLines: proved only for cells without a newline; a cell such as `a<br>b` keeps its inner newline after `strip`, so one row can give several lines.
- Formatter.ListLines: proved only for item texts whose stripped form has no newline; an item text with an inner newline spreads one item over several lines.
