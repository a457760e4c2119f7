/** The feed document (feed.xml): a `lastUpdate` stamp and an `entries`
    container of `entry` elements, each with six named sections. The XML
    syntax itself is not modelled; the document is its tree. */
module Feed {
  import opened Errors

  /** `SECTION_TAG_NAMES` (scraper.py, line 12): the children of every entry,
      in order. */
  const SectionTagNames: seq<string> := ["description", "aside", "details", "availability", "availability_table", "location"]

  /** One child element of an entry; its text is unset when the section had
      no element to format. */
  datatype Section = Section(tag: string, text: Option<string>)

  datatype Entry = Entry(sections: seq<Section>)

  /** An entry has exactly the six sections, named in `SECTION_TAG_NAMES` order. */
  predicate WellFormed(e: Entry) {
    |e.sections| == |SectionTagNames| &&
    forall i :: 0 <= i < |e.sections| ==> e.sections[i].tag == SectionTagNames[i]
  }

  /** The feed as stored: the stamp is an opaque text written by the clock. */
  datatype Document = Document(lastUpdate: string, entries: seq<Entry>)

  /** The parsed feed tree, which `scrape_url` extends and `write_xml`
      re-stamps in place. */
  class FeedTree {
    var lastUpdate: string
    var entries: seq<Entry>

    /** The tree `read_xml` parses from a stored document. */
    constructor Load(doc: Document)
      ensures lastUpdate == doc.lastUpdate && entries == doc.entries
    {
      lastUpdate := doc.lastUpdate;
      entries := doc.entries;
    }

    /** The document this tree serialises to. */
    function Snapshot(): Document
      reads this
    {
      Document(lastUpdate, entries)
    }

    /** `ET.SubElement(entries, "entry")` with its sections filled in. */
    method AddEntry(e: Entry)
      modifies this
      ensures entries == old(entries) + [e]
      ensures lastUpdate == old(lastUpdate)
    {
      entries := entries + [e];
    }

    /** `last_updated.text = stamp`. */
    method SetLastUpdate(stamp: string)
      modifies this
      ensures lastUpdate == stamp
      ensures entries == old(entries)
    {
      lastUpdate := stamp;
    }
  }
}
