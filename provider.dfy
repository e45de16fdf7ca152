/**
 * The browser as the scrapers see it, as plain data: what each page shows
 * after a given number of clicks on the next-page button.
 */
module Provider {
  import opened Wrappers
  import opened Records
  import opened SaleStatus

  /**
   * One listing element: its link, the text of its title element (None when
   * `find_element` for it raises) and the outcome of every status lookup,
   * in the order they are made.
   */
  datatype Listing = Listing(url: string, title: Option<string>, lookups: seq<Read>)

  /** The next-page button: not there (or the wait for it times out), there but disabled, or clickable. */
  datatype Button = Absent | Disabled | Enabled

  /** What the browser shows: whether the wait for the items succeeds, the listing elements, and the button. */
  datatype Page = Page(itemsVisible: bool, listings: seq<Listing>, button: Button)

  /** Page i is what the browser shows after i clicks on the button. */
  datatype Site = Site(pages: seq<Page>)

  /** What the browser shows past the last page given: nothing becomes visible. */
  const Blank: Page := Page(false, [], Absent)

  /** The page after `clicks` clicks. */
  function PageAt(site: Site, clicks: nat): (p: Page)
    ensures clicks >= |site.pages| ==> p == Blank
  {
    if clicks < |site.pages| then site.pages[clicks] else Blank
  }

  /**
   * What the item loop does with one listing: appends a record, fails inside
   * the `try` (the `except` moves on to the next listing), or skips it
   * with `continue`.
   */
  datatype Outcome = Emitted(record: Record) | Failed | Skipped
}
