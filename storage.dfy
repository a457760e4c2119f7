/** The two durable files of the crawl and the functions that read and
    write them (scraper.py, lines 125-146). File handles are replaced by the
    contents they hold; parsing and writing the XML syntax are not modelled. */
module Storage {
  import opened Feed
  import opened UrlStore

  /** The working directory: opportunity_urls.txt as text and feed.xml as
      its document. */
  class Disk {
    var urlsFile: string
    var feedFile: Document

    constructor (urlsFile: string, feedFile: Document)
      ensures this.urlsFile == urlsFile && this.feedFile == feedFile
    {
      this.urlsFile := urlsFile;
      this.feedFile := feedFile;
    }
  }

  /** `read_urls_txt`: the lines of the URL store. */
  method ReadUrls(disk: Disk) returns (urls: seq<string>)
    ensures urls == SplitLines(disk.urlsFile)
    ensures forall k :: 0 <= k < |urls| ==> SingleLine(urls[k])
  {
    urls := SplitLines(disk.urlsFile);
  }

  /** `write_urls_txt`: truncate the store, then write each URL and a newline. */
  method WriteUrls(disk: Disk, urls: seq<string>)
    modifies disk
    ensures disk.urlsFile == Serialise(urls)
    ensures disk.feedFile == old(disk.feedFile)
  {
    disk.urlsFile := "";
    for i := 0 to |urls|
      invariant disk.urlsFile == Serialise(urls[..i])
      invariant disk.feedFile == old(disk.feedFile)
    {
      SerialiseSnoc(urls, i);
      disk.urlsFile := disk.urlsFile + urls[i] + "\n";
    }
    assert urls[..|urls|] == urls;
  }

  /** `read_xml`: the tree of the stored feed. */
  method ReadXml(disk: Disk) returns (root: FeedTree)
    ensures fresh(root)
    ensures root.Snapshot() == disk.feedFile
  {
    root := new FeedTree.Load(disk.feedFile);
  }

  /** `write_xml`: stamp the tree with the current time, then store it whole. */
  method WriteXml(root: FeedTree, disk: Disk, now: string)
    modifies root, disk
    ensures root.lastUpdate == now && root.entries == old(root.entries)
    ensures disk.feedFile == Document(now, old(root.entries))
    ensures disk.urlsFile == old(disk.urlsFile)
  {
    root.SetLastUpdate(now);
    disk.feedFile := root.Snapshot();
  }
}
