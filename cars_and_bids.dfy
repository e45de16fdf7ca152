/**
 * The Cars & Bids scraper: the item loop with its "Bid to"/"Canceled" skip
 * and no URL set, the page loop whose visibility wait is not caught, and
 * the final sort.
 */
module CarsAndBids {
  import opened Wrappers
  import opened Records
  import opened Text
  import opened MakeDictionary
  import opened TitleParser
  import opened SaleStatus
  import opened Provider
  import opened Sorter

  /**
   * One listing: a missing title element fails the item; a status saying
   * "Bid to" or "Canceled" skips it; otherwise a record is appended.
   */
  function ListingOutcome(keys: seq<string>, l: Listing): (o: Outcome)
    ensures o.Failed? <==> l.title.None?
  {
    match l.title
    case None => Failed
    case Some(text) =>
      var status := ReadOutcome(l.lookups).status;
      if Excluded(status) then Skipped
      else
        var t := TitleOf(keys, Strip(text));
        Emitted(Record(t.year, t.make, t.model, PriceCarsAndBids(status)))
  }

  /**
   * The three ends of a listing: it fails exactly when its title element is
   * missing, is skipped exactly when its status says "Bid to" or "Canceled",
   * and otherwise gives a record whose make is "N/A" or a dictionary key after
   * a four-digit year, and whose price is "N/A" unless the status says "Sold for".
   */
  lemma ListingOutcomeCases(keys: seq<string>, l: Listing)
    ensures var o := ListingOutcome(keys, l);
      && (o.Failed? <==> l.title.None?)
      && (o.Skipped? <==> l.title.Some? && Excluded(ReadOutcome(l.lookups).status))
      && (o.Emitted? ==> o.record.make == NA || (o.record.make in keys && o.record.make != "" && |o.record.year| == 4))
      && (o.Emitted? && !IsSold(ReadOutcome(l.lookups).status) ==> o.record.salePrice == NA)
  {
  }

  /** The body of the item loop's `try`. */
  method ProcessListing(keys: seq<string>, l: Listing) returns (o: Outcome)
    ensures o == ListingOutcome(keys, l)
  {
    if l.title.None? {
      return Failed;
    }
    var carName := Strip(l.title.value);
    var statusRead := ReadStatus(l.lookups);
    var status := statusRead.status;
    if Contains(status, "Bid to") || Contains(status, "Canceled") {
      return Skipped;
    }
    var price := PriceCarsAndBids(status);
    var t := ParseTitle(keys, carName);
    o := Emitted(Record(t.year, t.make, t.model, price));
  }

  /** What one listing appends to `cars`. */
  function Emission(o: Outcome): seq<Record> {
    if o.Emitted? then [o.record] else []
  }

  /** The outcome of each listing, in listing order. */
  function Outcomes(keys: seq<string>, listings: seq<Listing>): (os: seq<Outcome>)
    ensures |os| == |listings|
    ensures forall i :: 0 <= i < |listings| ==> os[i] == ListingOutcome(keys, listings[i])
  {
    seq(|listings|, i requires 0 <= i < |listings| => ListingOutcome(keys, listings[i]))
  }

  /** The records a run of outcomes appends, in order. */
  function Gathered(os: seq<Outcome>): seq<Record> {
    if os == [] then [] else Gathered(os[..|os| - 1]) + Emission(os[|os| - 1])
  }

  /** One more outcome appends its emission. */
  lemma GatheredStep(os: seq<Outcome>, i: nat)
    requires i < |os|
    ensures Gathered(os[..i + 1]) == Gathered(os[..i]) + Emission(os[i])
  {
    assert os[..i + 1][..i] == os[..i];
  }

  /** The records a run of listings appends, in listing order. */
  function Emissions(keys: seq<string>, listings: seq<Listing>): seq<Record> {
    Gathered(Outcomes(keys, listings))
  }

  /** One pass of the item loop: `continue` on a skipped listing, nothing on a failed one, an append otherwise. */
  method ScrapeItem(keys: seq<string>, l: Listing, cars: seq<Record>) returns (cars': seq<Record>)
    ensures cars' == cars + Emission(ListingOutcome(keys, l))
  {
    cars' := cars;
    var o := ProcessListing(keys, l);
    if o.Skipped? {
      return;
    }
    if o.Emitted? {
      cars' := cars' + [o.record];
    }
  }

  /** The `for item in items` loop: each listing appends its record, if any, to `cars`. */
  method ScrapeItems(keys: seq<string>, listings: seq<Listing>, cars: seq<Record>) returns (cars': seq<Record>)
    ensures cars' == cars + Emissions(keys, listings)
  {
    ghost var os := Outcomes(keys, listings);
    cars' := cars;
    for i := 0 to |listings|
      invariant cars' == cars + Gathered(os[..i])
    {
      cars' := ScrapeItem(keys, listings[i], cars');
      GatheredStep(os, i);
    }
    assert os[..|listings|] == os;
  }

  /** How the page loop ends: normally, with `current_page`, or with the uncaught timeout on a page. */
  datatype Run = Finished(currentPage: nat) | TimedOut(atPage: nat)

  /**
   * The page loop from page `page` on, page by page: it ends at the limit; a
   * page whose items never become visible raises out of the script;
   * otherwise only an enabled button leads on.
   */
  function PageLoop(site: Site, pagesToScrape: int, page: nat): Run
    decreases pagesToScrape - page
  {
    if page >= pagesToScrape then Finished(page)
    else if !PageAt(site, page).itemsVisible then TimedOut(page)
    else if PageAt(site, page).button == Enabled then PageLoop(site, pagesToScrape, page + 1)
    else Finished(page)
  }

  /** How many pages a finished loop had its item loop run on: the ones it clicked past, and the last one short of the limit. */
  function PagesVisited(pagesToScrape: int, run: Run): nat {
    match run
    case Finished(currentPage) => if currentPage < pagesToScrape then currentPage + 1 else currentPage
    case TimedOut(atPage) => atPage
  }

  /** The records the item loop appends on pages 0 .. n - 1, page after page. */
  function RecordsBefore(keys: seq<string>, site: Site, n: nat): seq<Record> {
    if n == 0 then [] else RecordsBefore(keys, site, n - 1) + Emissions(keys, PageAt(site, n - 1).listings)
  }

  /** The records the script ends with, if it does not time out: those of every page visited. */
  function Scraped(keys: seq<string>, site: Site, pagesToScrape: int): Option<seq<Record>> {
    var run := PageLoop(site, pagesToScrape, 0);
    if run.TimedOut? then None else Some(RecordsBefore(keys, site, PagesVisited(pagesToScrape, run)))
  }

  /** The item loop on page p appends that page's records after those of the pages before it. */
  method ScrapePage(keys: seq<string>, site: Site, p: nat, cars: seq<Record>) returns (cars': seq<Record>)
    requires cars == RecordsBefore(keys, site, p)
    ensures cars' == RecordsBefore(keys, site, p + 1)
  {
    cars' := ScrapeItems(keys, PageAt(site, p).listings, cars);
  }

  /** The `while current_page < pages_to_scrape` loop with its item loop. */
  method ScrapePages(keys: seq<string>, site: Site, pagesToScrape: int) returns (run: Run, cars: seq<Record>)
    ensures run == PageLoop(site, pagesToScrape, 0)
    ensures run.Finished? ==> cars == RecordsBefore(keys, site, PagesVisited(pagesToScrape, run))
  {
    cars := [];
    var currentPage: nat := 0;
    while currentPage < pagesToScrape
      invariant PageLoop(site, pagesToScrape, currentPage) == PageLoop(site, pagesToScrape, 0)
      invariant cars == RecordsBefore(keys, site, currentPage)
      decreases pagesToScrape - currentPage
    {
      var page := PageAt(site, currentPage);
      if !page.itemsVisible {
        assert PageLoop(site, pagesToScrape, currentPage) == TimedOut(currentPage);
        return TimedOut(currentPage), cars;
      }
      cars := ScrapePage(keys, site, currentPage, cars);
      if page.button == Enabled {
        currentPage := currentPage + 1;
      } else {
        assert PageLoop(site, pagesToScrape, currentPage) == Finished(currentPage);
        return Finished(currentPage), cars;
      }
    }
    run := Finished(currentPage);
  }

  /**
   * The whole script after the dictionary is loaded. A timeout ends it with
   * nothing written; otherwise the output holds exactly the records
   * gathered, in key order, those of one key in the order they were found.
   */
  method Scrape(dict: MakeDict, site: Site, pagesToScrape: int) returns (sortedCars: Option<seq<Record>>)
    ensures sortedCars.None? <==> Scraped(dict.keys, site, pagesToScrape).None?
    ensures sortedCars.Some? ==> var cars := Scraped(dict.keys, site, pagesToScrape).value;
      var key := r => KeyOf(dict.rank, r);
      && sortedCars.value == SortCars(dict.rank, cars)
      && Sorted(key, sortedCars.value)
      && multiset(sortedCars.value) == multiset(cars)
      && forall k :: WithKey(key, sortedCars.value, k) == WithKey(key, cars, k)
  {
    var run, cars := ScrapePages(dict.keys, site, pagesToScrape);
    if run.TimedOut? {
      return None;
    }
    sortedCars := Some(SortCars(dict.rank, cars));
    SortCarsCorrect(dict.rank, cars);
  }

  /** No URL set: a listing that appears twice gives two records. */
  lemma RepeatedListingTwice(keys: seq<string>, l: Listing)
    requires ListingOutcome(keys, l).Emitted?
    ensures Emissions(keys, [l, l]) == [ListingOutcome(keys, l).record, ListingOutcome(keys, l).record]
  {
    var o := ListingOutcome(keys, l);
    assert Outcomes(keys, [l, l]) == [o, o];
    GatheredTwice(o);
  }

  lemma GatheredTwice(o: Outcome)
    requires o.Emitted?
    ensures Gathered([o, o]) == [o.record, o.record]
  {
    assert [o][..0] == [];
    assert Gathered([o]) == [o.record];
    assert [o, o][..1] == [o];
  }

  /** A skipped or failed listing appends nothing; an emitted one appends its record. */
  lemma EmissionsOfOne(keys: seq<string>, l: Listing)
    ensures Emissions(keys, [l]) == if ListingOutcome(keys, l).Emitted? then [ListingOutcome(keys, l).record] else []
  {
    var o := ListingOutcome(keys, l);
    assert Outcomes(keys, [l]) == [o];
    assert [o][..0] == [];
    assert Gathered([o]) == Gathered([]) + Emission(o);
  }

  /** The title is matched at its very start: a title that does not begin with four digits does not resolve. */
  lemma AnchoredAtStart(keys: seq<string>, l: Listing)
    requires l.title.Some? && !YearAt(Strip(l.title.value), 0)
    requires ListingOutcome(keys, l).Emitted?
    ensures var r := ListingOutcome(keys, l).record;
      Title(r.year, r.make, r.model) == Unresolved
  {
  }

  /**
   * Where the page loop ends and why. A finished run stops at the limit, or
   * short of it on a visible page whose button is missing or disabled; a
   * timed-out run stops on the first page whose items never become visible.
   * Every page left before either had visible items and an enabled button.
   */
  lemma {:induction false} PageLoopEnds(site: Site, pagesToScrape: int, page: nat)
    ensures var run := PageLoop(site, pagesToScrape, page);
      && (page >= pagesToScrape ==> run == Finished(page))
      && (run.Finished? ==>
            && page <= run.currentPage
            && (page <= pagesToScrape ==> run.currentPage <= pagesToScrape)
            && (forall p :: page <= p < run.currentPage ==> PageAt(site, p).itemsVisible && PageAt(site, p).button == Enabled)
            && (run.currentPage < pagesToScrape ==>
                  PageAt(site, run.currentPage).itemsVisible && PageAt(site, run.currentPage).button != Enabled))
      && (run.TimedOut? ==>
            && page <= run.atPage < pagesToScrape
            && (forall p :: page <= p < run.atPage ==> PageAt(site, p).itemsVisible && PageAt(site, p).button == Enabled)
            && !PageAt(site, run.atPage).itemsVisible)
    decreases pagesToScrape - page
  {
    if page < pagesToScrape && PageAt(site, page).itemsVisible && PageAt(site, page).button == Enabled {
      PageLoopEnds(site, pagesToScrape, page + 1);
    }
  }

  /** With a limit of zero or less the loop body never runs: no page is waited for, nothing is gathered. */
  lemma NothingRequested(keys: seq<string>, site: Site, pagesToScrape: int)
    requires pagesToScrape <= 0
    ensures Scraped(keys, site, pagesToScrape) == Some([])
  {
  }
}
