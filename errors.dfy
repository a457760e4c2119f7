/** Failure-carrying values shared by every stage of the crawl. In the source
    each failure is a Python exception that aborts the whole run; here it is a
    value that every caller passes on unchanged. */
module Errors {

  datatype Option<+T> = None | Some(value: T)

  /** The exceptions the crawl can raise. */
  datatype Error =
      /** Navigation to `url` failed, or a selector waited for never appeared. */
    | PageLoadTimeout(url: string)
      /** A listing item on `pageUrl` has no "more" link or the link has no href. */
    | MissingHref(pageUrl: string)
      /** A detail page has fewer than two bottom info panels: the IndexError
          at `bottom_divs[0]` or at `bottom_divs[1]`. */
    | MissingInfoPanel
      /** A table with no rows, or with rows of differing lengths (`rows[0]`, `row[i]`). */
    | TableIndexError

  datatype Result<+T> = Ok(value: T) | Err(error: Error)

  /** The outcome of an operation that returns nothing on success. */
  datatype Outcome = Pass | Fail(error: Error)
}
