/**
 * The Bring a Trailer scraper: the item loop with its URL set, the page loop
 * bounded by the requested page count, and the final sort.
 */
module BringATrailer {
  import opened Wrappers
  import opened Collections
  import opened Records
  import opened Text
  import opened MakeDictionary
  import opened TitleParser
  import opened SaleStatus
  import opened Provider
  import opened Sorter

  /**
   * One listing not seen before: a missing title element fails the item;
   * otherwise a record is appended, whatever the status says.
   */
  function ListingOutcome(keys: seq<string>, l: Listing): (o: Outcome)
    ensures o.Emitted? <==> l.title.Some?
    ensures o.Emitted? ==> o.record.make == NA || (o.record.make in keys && o.record.make != "" && |o.record.year| == 4)
    ensures o.Emitted? && !IsSold(ReadOutcome(l.lookups).status) ==> o.record.salePrice == NA
  {
    match l.title
    case None => Failed
    case Some(text) =>
      var price := PriceBringATrailer(ReadOutcome(l.lookups).status);
      var t := TitleOf(keys, Strip(DropBeforeYear(Strip(text))));
      Emitted(Record(t.year, t.make, t.model, price))
  }

  /** The body of the item loop's `try` for a listing not seen before. */
  method ProcessListing(keys: seq<string>, l: Listing) returns (o: Outcome)
    ensures o == ListingOutcome(keys, l)
  {
    if l.title.None? {
      return Failed;
    }
    var carName := Strip(l.title.value);
    var statusRead := ReadStatus(l.lookups);
    var price := PriceBringATrailer(statusRead.status);
    var cleaned := Strip(DropBeforeYear(carName));
    var t := ParseTitle(keys, cleaned);
    o := Emitted(Record(t.year, t.make, t.model, price));
  }

  /** What the loops have gathered: the records, the URL set, and the URL each record came from. */
  datatype Harvest = Harvest(cars: seq<Record>, scrapedUrls: set<string>, origins: seq<string>)

  const Empty: Harvest := Harvest([], {}, [])

  /** Adding a listing not seen before: its URL, and its record when it has one. */
  function Add(h: Harvest, url: string, o: Outcome): (r: Harvest)
    ensures r.scrapedUrls == h.scrapedUrls + {url}
  {
    match o
    case Emitted(record) => Harvest(h.cars + [record], h.scrapedUrls + {url}, h.origins + [url])
    case _ => Harvest(h.cars, h.scrapedUrls + {url}, h.origins)
  }

  /** One pass of the item loop: a URL seen before changes nothing; otherwise it is added before parsing. */
  function Visit(keys: seq<string>, h: Harvest, l: Listing): (r: Harvest)
    ensures l.url in h.scrapedUrls ==> r == h
    ensures r.scrapedUrls == h.scrapedUrls + {l.url}
  {
    if l.url in h.scrapedUrls then h else Add(h, l.url, ListingOutcome(keys, l))
  }

  /** The item loop over the listings of one page. */
  function VisitAll(keys: seq<string>, listings: seq<Listing>, h: Harvest): (r: Harvest)
    ensures h.cars <= r.cars && |r.cars| <= |h.cars| + |listings|
    ensures h.scrapedUrls <= r.scrapedUrls
  {
    if listings == [] then h
    else Visit(keys, VisitAll(keys, listings[..|listings| - 1], h), listings[|listings| - 1])
  }

  /** Where the page loop ends: what was gathered, and `current_page`. */
  datatype Traversal = Traversal(harvest: Harvest, currentPage: nat)

  /**
   * The page loop from page `page` on: it ends when `page` reaches the limit
   * or the items never become visible (the wait's exception is caught);
   * otherwise the page's listings are visited, and only an enabled button
   * leads to the next page.
   */
  function Traverse(keys: seq<string>, site: Site, pagesToScrape: int, page: nat, h: Harvest): (t: Traversal)
    decreases pagesToScrape - page
    ensures page <= t.currentPage
    ensures h.cars <= t.harvest.cars && h.scrapedUrls <= t.harvest.scrapedUrls
  {
    if page >= pagesToScrape then Traversal(h, page)
    else
      var p := PageAt(site, page);
      if !p.itemsVisible then Traversal(h, page)
      else
        var h' := VisitAll(keys, p.listings, h);
        if p.button == Enabled then Traverse(keys, site, pagesToScrape, page + 1, h')
        else Traversal(h', page)
  }

  /** The whole page loop. */
  function Scraped(keys: seq<string>, site: Site, pagesToScrape: int): (t: Traversal)
    ensures t.currentPage <= if pagesToScrape > 0 then pagesToScrape else 0
  {
    TraverseBounds(keys, site, pagesToScrape, 0, Empty);
    Traverse(keys, site, pagesToScrape, 0, Empty)
  }

  /** The `while current_page < pages_to_scrape` loop with its item loop. */
  method ScrapePages(keys: seq<string>, site: Site, pagesToScrape: int)
    returns (cars: seq<Record>, scrapedUrls: set<string>, currentPage: nat)
    ensures var t := Scraped(keys, site, pagesToScrape);
      cars == t.harvest.cars && scrapedUrls == t.harvest.scrapedUrls && currentPage == t.currentPage
  {
    cars, scrapedUrls, currentPage := [], {}, 0;
    ghost var origins: seq<string> := [];
    while currentPage < pagesToScrape
      invariant Traverse(keys, site, pagesToScrape, currentPage, Harvest(cars, scrapedUrls, origins))
        == Scraped(keys, site, pagesToScrape)
      decreases pagesToScrape - currentPage
    {
      var page := PageAt(site, currentPage);
      if !page.itemsVisible {
        break;
      }
      ghost var start := Harvest(cars, scrapedUrls, origins);
      for i := 0 to |page.listings|
        invariant VisitAll(keys, page.listings[..i], start) == Harvest(cars, scrapedUrls, origins)
      {
        var l := page.listings[i];
        assert page.listings[..i + 1][..i] == page.listings[..i];
        if l.url in scrapedUrls {
          continue;
        }
        scrapedUrls := scrapedUrls + {l.url};
        var o := ProcessListing(keys, l);
        if o.Emitted? {
          cars := cars + [o.record];
          origins := origins + [l.url];
        }
      }
      assert page.listings[..|page.listings|] == page.listings;
      if page.button == Enabled {
        currentPage := currentPage + 1;
      } else {
        break;
      }
    }
  }

  /**
   * The whole script after the dictionary is loaded: the page loop, then the
   * sort. The output holds exactly the records gathered, in key order, those
   * of one key in the order they were found.
   */
  method Scrape(dict: MakeDict, site: Site, pagesToScrape: int) returns (sortedCars: seq<Record>)
    ensures var cars := Scraped(dict.keys, site, pagesToScrape).harvest.cars;
      sortedCars == SortCars(dict.rank, cars)
    ensures var cars := Scraped(dict.keys, site, pagesToScrape).harvest.cars;
      var key := r => KeyOf(dict.rank, r);
      && Sorted(key, sortedCars)
      && multiset(sortedCars) == multiset(cars)
      && forall k :: WithKey(key, sortedCars, k) == WithKey(key, cars, k)
  {
    var cars, scrapedUrls, currentPage := ScrapePages(dict.keys, site, pagesToScrape);
    sortedCars := SortCars(dict.rank, cars);
    SortCarsCorrect(dict.rank, cars);
  }

  /** Every record has its own URL, and every such URL is in the set. */
  ghost predicate Deduped(h: Harvest) {
    && |h.origins| == |h.cars|
    && Distinct(h.origins)
    && forall u :: u in h.origins ==> u in h.scrapedUrls
  }

  lemma AddDeduped(h: Harvest, url: string, o: Outcome)
    requires Deduped(h) && url !in h.scrapedUrls
    ensures Deduped(Add(h, url, o))
  {
    if o.Emitted? {
      assert url !in h.origins;
    }
  }

  lemma VisitDeduped(keys: seq<string>, h: Harvest, l: Listing)
    requires Deduped(h)
    ensures Deduped(Visit(keys, h, l))
  {
    if l.url !in h.scrapedUrls {
      AddDeduped(h, l.url, ListingOutcome(keys, l));
    }
  }

  lemma {:induction false} VisitAllDeduped(keys: seq<string>, listings: seq<Listing>, h: Harvest)
    requires Deduped(h)
    ensures Deduped(VisitAll(keys, listings, h))
  {
    if listings != [] {
      VisitAllDeduped(keys, listings[..|listings| - 1], h);
      VisitDeduped(keys, VisitAll(keys, listings[..|listings| - 1], h), listings[|listings| - 1]);
    }
  }

  lemma {:induction false} TraverseDeduped(keys: seq<string>, site: Site, pagesToScrape: int, page: nat, h: Harvest)
    requires Deduped(h)
    ensures Deduped(Traverse(keys, site, pagesToScrape, page, h).harvest)
    decreases pagesToScrape - page
  {
    if page < pagesToScrape && PageAt(site, page).itemsVisible {
      VisitAllDeduped(keys, PageAt(site, page).listings, h);
      if PageAt(site, page).button == Enabled {
        TraverseDeduped(keys, site, pagesToScrape, page + 1, VisitAll(keys, PageAt(site, page).listings, h));
      }
    }
  }

  /**
   * Across all pages each URL yields at most one record, so there are never
   * more records than scraped URLs.
   */
  lemma CarsAtMostUrls(keys: seq<string>, site: Site, pagesToScrape: int)
    ensures var h := Scraped(keys, site, pagesToScrape).harvest;
      Distinct(h.origins) && |h.origins| == |h.cars| && |h.cars| <= |h.scrapedUrls|
  {
    TraverseDeduped(keys, site, pagesToScrape, 0, Empty);
    var h := Scraped(keys, site, pagesToScrape).harvest;
    DistinctWithin(h.origins, h.scrapedUrls);
  }

  /** A listing repeated on a page is visited once. */
  lemma RepeatedListingOnce(keys: seq<string>, l: Listing, h: Harvest)
    ensures VisitAll(keys, [l, l], h) == VisitAll(keys, [l], h)
  {
    assert [l, l][..1] == [l];
    assert [l][..0] == [];
  }

  /** A listing whose title element is missing adds its URL but no record. */
  lemma FailedListingKeepsUrl(keys: seq<string>, l: Listing, h: Harvest)
    requires l.title.None? && l.url !in h.scrapedUrls
    ensures Visit(keys, h, l) == Harvest(h.cars, h.scrapedUrls + {l.url}, h.origins)
  {
    assert ListingOutcome(keys, l) == Failed;
  }

  /** A listing whose status element never appears is still emitted, priced "N/A". */
  lemma NoStatusStillEmitted(keys: seq<string>, l: Listing)
    requires l.title.Some?
    requires forall j :: 0 <= j < |l.lookups| ==> l.lookups[j].Missing?
    ensures ListingOutcome(keys, l).Emitted? && ListingOutcome(keys, l).record.salePrice == NA
  {
    NeverFound(l.lookups);
    NotContains(NA, "Sold for");
  }

  /** The URLs of some listings. */
  function UrlsOf(listings: seq<Listing>): set<string> {
    set l | l in listings :: l.url
  }

  lemma {:induction false} VisitAllUrls(keys: seq<string>, listings: seq<Listing>, h: Harvest)
    ensures VisitAll(keys, listings, h).scrapedUrls == h.scrapedUrls + UrlsOf(listings)
  {
    if listings != [] {
      var init := listings[..|listings| - 1];
      VisitAllUrls(keys, init, h);
      assert listings == init + [listings[|listings| - 1]];
      assert UrlsOf(listings) == UrlsOf(init) + {listings[|listings| - 1].url};
    }
  }

  /** The URLs of the listings on pages from .. to - 1. */
  function UrlsFrom(site: Site, from: nat, to: nat): set<string>
    decreases to - from
  {
    if from >= to then {} else UrlsOf(PageAt(site, from).listings) + UrlsFrom(site, from + 1, to)
  }

  /** How many pages the loop visits from `page` on, given where it ends: those it leaves by a click, and the last one if it got past the wait. */
  function VisitedUpTo(site: Site, pagesToScrape: int, t: Traversal): nat {
    if t.currentPage < pagesToScrape && PageAt(site, t.currentPage).itemsVisible then t.currentPage + 1 else t.currentPage
  }

  /**
   * Where the page loop ends and why. It never starts at or past the limit;
   * `current_page` grows by one per enabled button and never passes the
   * limit; and short of the limit it stops on a page whose items never
   * became visible or whose button is missing or disabled.
   */
  lemma {:induction false} TraverseBounds(keys: seq<string>, site: Site, pagesToScrape: int, page: nat, h: Harvest)
    ensures var t := Traverse(keys, site, pagesToScrape, page, h);
      && (page >= pagesToScrape ==> t == Traversal(h, page))
      && page <= t.currentPage
      && (page <= pagesToScrape ==> t.currentPage <= pagesToScrape)
      && (forall p :: page <= p < t.currentPage ==> PageAt(site, p).itemsVisible && PageAt(site, p).button == Enabled)
      && (t.currentPage < pagesToScrape ==>
            !PageAt(site, t.currentPage).itemsVisible || PageAt(site, t.currentPage).button != Enabled)
    decreases pagesToScrape - page
  {
    if page < pagesToScrape && PageAt(site, page).itemsVisible && PageAt(site, page).button == Enabled {
      TraverseBounds(keys, site, pagesToScrape, page + 1, VisitAll(keys, PageAt(site, page).listings, h));
    }
  }

  /** The URL set ends up holding the URLs of every listing on every page the loop visited. */
  lemma {:induction false} TraverseUrls(keys: seq<string>, site: Site, pagesToScrape: int, page: nat, h: Harvest)
    ensures var t := Traverse(keys, site, pagesToScrape, page, h);
      t.harvest.scrapedUrls == h.scrapedUrls + UrlsFrom(site, page, VisitedUpTo(site, pagesToScrape, t))
    decreases pagesToScrape - page
  {
    if page < pagesToScrape && PageAt(site, page).itemsVisible {
      var ls := PageAt(site, page).listings;
      var h' := VisitAll(keys, ls, h);
      VisitAllUrls(keys, ls, h);
      if PageAt(site, page).button == Enabled {
        var t := Traverse(keys, site, pagesToScrape, page + 1, h');
        assert Traverse(keys, site, pagesToScrape, page, h) == t;
        TraverseUrls(keys, site, pagesToScrape, page + 1, h');
        TraverseBounds(keys, site, pagesToScrape, page + 1, h');
        var n := VisitedUpTo(site, pagesToScrape, t);
        assert UrlsFrom(site, page, n) == UrlsOf(ls) + UrlsFrom(site, page + 1, n);
      } else {
        assert UrlsFrom(site, page + 1, page + 1) == {};
      }
    }
  }

  /** With a limit of zero or less the loop body never runs and nothing is gathered. */
  lemma NothingRequested(keys: seq<string>, site: Site, pagesToScrape: int)
    requires pagesToScrape <= 0
    ensures Scraped(keys, site, pagesToScrape) == Traversal(Empty, 0)
  {
  }

  /** The listings of pages from .. to - 1, in the order the item loop meets them. */
  function Stream(site: Site, from: nat, to: nat): seq<Listing>
    decreases to - from
  {
    if from >= to then [] else PageAt(site, from).listings + Stream(site, from + 1, to)
  }

  /** The index of the first listing with URL u; |ls| when there is none. */
  function FirstUrlIndex(ls: seq<Listing>, u: string): (r: nat)
    ensures r <= |ls|
    ensures r < |ls| ==> ls[r].url == u
    ensures forall i :: 0 <= i < r ==> ls[i].url != u
  {
    if ls == [] then 0
    else if ls[0].url == u then 0
    else 1 + FirstUrlIndex(ls[1..], u)
  }

  /** The first listing of each URL, in order of first appearance. */
  function Fresh(ls: seq<Listing>): seq<Listing> {
    if ls == [] then []
    else
      var init, l := ls[..|ls| - 1], ls[|ls| - 1];
      if l.url in UrlsOf(init) then Fresh(init) else Fresh(init) + [l]
  }

  /** The listings that give a record, in order: those whose title element exists. */
  function Kept(ls: seq<Listing>): seq<Listing> {
    if ls == [] then []
    else
      var init, l := ls[..|ls| - 1], ls[|ls| - 1];
      if l.title.Some? then Kept(init) + [l] else Kept(init)
  }

  /** Running the item loop over a + b is running it over a, then over b. */
  lemma {:induction false} VisitAllConcat(keys: seq<string>, a: seq<Listing>, b: seq<Listing>, h: Harvest)
    ensures VisitAll(keys, a + b, h) == VisitAll(keys, b, VisitAll(keys, a, h))
  {
    if b == [] {
      assert a + b == a;
    } else {
      var init := b[..|b| - 1];
      assert (a + b)[..|a + b| - 1] == a + init;
      assert (a + b)[|a + b| - 1] == b[|b| - 1];
      VisitAllConcat(keys, a, init, h);
    }
  }

  /** The page loop is the item loop over the listings of every page it got past the wait on. */
  lemma {:induction false} TraverseStream(keys: seq<string>, site: Site, pagesToScrape: int, page: nat, h: Harvest)
    ensures var t := Traverse(keys, site, pagesToScrape, page, h);
      t.harvest == VisitAll(keys, Stream(site, page, VisitedUpTo(site, pagesToScrape, t)), h)
    decreases pagesToScrape - page
  {
    var t := Traverse(keys, site, pagesToScrape, page, h);
    if page < pagesToScrape && PageAt(site, page).itemsVisible {
      var ls := PageAt(site, page).listings;
      var h' := VisitAll(keys, ls, h);
      if PageAt(site, page).button == Enabled {
        TraverseStream(keys, site, pagesToScrape, page + 1, h');
        TraverseBounds(keys, site, pagesToScrape, page + 1, h');
        var n := VisitedUpTo(site, pagesToScrape, t);
        assert Stream(site, page, n) == ls + Stream(site, page + 1, n);
        VisitAllConcat(keys, ls, Stream(site, page + 1, n), h);
      } else {
        assert Stream(site, page, page + 1) == ls + [];
        assert ls + [] == ls;
      }
    } else {
      assert VisitedUpTo(site, pagesToScrape, t) == page;
    }
  }

  /** One first listing per URL. */
  lemma {:induction false} FreshCount(ls: seq<Listing>)
    ensures |Fresh(ls)| == |UrlsOf(ls)|
  {
    if ls != [] {
      var init, l := ls[..|ls| - 1], ls[|ls| - 1];
      assert ls == init + [l];
      FreshCount(init);
      UrlsOfSnoc(init, l);
      if l.url !in UrlsOf(init) {
        assert Fresh(ls) == Fresh(init) + [l];
        assert |UrlsOf(ls)| == |UrlsOf(init)| + 1;
      } else {
        assert Fresh(ls) == Fresh(init);
        assert UrlsOf(ls) == UrlsOf(init);
      }
    }
  }

  /** The URLs of init + [l]. */
  lemma UrlsOfSnoc(init: seq<Listing>, l: Listing)
    ensures UrlsOf(init + [l]) == UrlsOf(init) + {l.url}
    ensures (init + [l])[..|init|] == init
  {
    assert forall m :: m in init + [l] <==> m in init || m == l;
  }

  /** Each first listing of a URL is the listing at the first index of its URL. */
  lemma {:induction false} FreshFirst(ls: seq<Listing>)
    ensures forall l :: l in Fresh(ls) ==> FirstUrlIndex(ls, l.url) < |ls| && ls[FirstUrlIndex(ls, l.url)] == l
  {
    if ls != [] {
      var init, l := ls[..|ls| - 1], ls[|ls| - 1];
      assert ls == init + [l];
      FreshFirst(init);
      forall m | m in Fresh(ls)
        ensures FirstUrlIndex(ls, m.url) < |ls| && ls[FirstUrlIndex(ls, m.url)] == m
      {
        if m in Fresh(init) {
          FirstUrlIndexPrefix(init, l, m.url);
        } else {
          assert m == l && l.url !in UrlsOf(init);
          forall i | 0 <= i < |init| ensures init[i].url != l.url {
            assert init[i] in init;
          }
          FirstUrlIndexAfter(init, l);
        }
      }
    }
  }

  /** A URL met in `init` is first met there. */
  lemma {:induction false} FirstUrlIndexPrefix(init: seq<Listing>, l: Listing, u: string)
    requires FirstUrlIndex(init, u) < |init|
    ensures FirstUrlIndex(init + [l], u) == FirstUrlIndex(init, u)
  {
    if init[0].url != u {
      assert (init + [l])[1..] == init[1..] + [l];
      FirstUrlIndexPrefix(init[1..], l, u);
    }
  }

  /** A URL not met in `init` is first met right after it. */
  lemma {:induction false} FirstUrlIndexAfter(init: seq<Listing>, l: Listing)
    requires forall i :: 0 <= i < |init| ==> init[i].url != l.url
    ensures FirstUrlIndex(init + [l], l.url) == |init|
  {
    if init != [] {
      assert (init + [l])[1..] == init[1..] + [l];
      FirstUrlIndexAfter(init[1..], l);
    }
  }

  /** The kept listings are listings of `ls`; with every title present, all of them are kept. */
  lemma {:induction false} KeptWithin(ls: seq<Listing>)
    ensures forall l :: l in Kept(ls) ==> l in ls
    ensures (forall l :: l in ls ==> l.title.Some?) ==> Kept(ls) == ls
  {
    if ls != [] {
      var init, l := ls[..|ls| - 1], ls[|ls| - 1];
      KeptWithin(init);
      assert ls == init + [l];
    }
  }

  /** Fresh listings are listings of `ls`. */
  lemma {:induction false} FreshWithin(ls: seq<Listing>)
    ensures forall l :: l in Fresh(ls) ==> l in ls
  {
    if ls != [] {
      FreshWithin(ls[..|ls| - 1]);
      assert ls == ls[..|ls| - 1] + [ls[|ls| - 1]];
    }
  }

  /**
   * The item loop from nothing gathered: the URL of every listing, and for
   * each URL whose first listing gives a record, that record, in order.
   */
  lemma {:induction false} VisitAllFromEmpty(keys: seq<string>, ls: seq<Listing>)
    ensures var h := VisitAll(keys, ls, Empty);
      var kept := Kept(Fresh(ls));
      && h.scrapedUrls == UrlsOf(ls)
      && |h.cars| == |kept| && |h.origins| == |kept|
      && forall i :: 0 <= i < |kept| ==> ListingOutcome(keys, kept[i]) == Emitted(h.cars[i]) && h.origins[i] == kept[i].url
  {
    VisitAllUrls(keys, ls, Empty);
    if ls != [] {
      var init, l := ls[..|ls| - 1], ls[|ls| - 1];
      VisitAllFromEmpty(keys, init);
      VisitAllUrls(keys, init, Empty);
      var h0 := VisitAll(keys, init, Empty);
      var k0 := Kept(Fresh(init));
      assert VisitAll(keys, ls, Empty) == Visit(keys, h0, l);
      if l.url !in UrlsOf(init) {
        var fs := Fresh(init);
        assert Fresh(ls) == fs + [l];
        assert (fs + [l])[..|fs|] == fs;
        var o := ListingOutcome(keys, l);
        if l.title.Some? {
          var h1 := Harvest(h0.cars + [o.record], h0.scrapedUrls + {l.url}, h0.origins + [l.url]);
          assert Kept(Fresh(ls)) == k0 + [l];
          assert Visit(keys, h0, l) == h1;
          forall i | 0 <= i < |k0| + 1
            ensures ListingOutcome(keys, (k0 + [l])[i]) == Emitted(h1.cars[i]) && h1.origins[i] == (k0 + [l])[i].url
          {
            if i < |k0| {
              assert (k0 + [l])[i] == k0[i] && h1.cars[i] == h0.cars[i] && h1.origins[i] == h0.origins[i];
            }
          }
        } else {
          assert Kept(Fresh(ls)) == k0;
          assert Visit(keys, h0, l).cars == h0.cars && Visit(keys, h0, l).origins == h0.origins;
        }
      }
    }
  }

  /**
   * Which records the page loop gathers: for each URL of the listings on the
   * pages it visited, in order of first appearance, the record of the first
   * listing with that URL, when that listing gives one; `origins` says which
   * URL each record came from.
   */
  lemma ScrapedRecords(keys: seq<string>, site: Site, pagesToScrape: int)
    ensures var t := Scraped(keys, site, pagesToScrape);
      var ls := Stream(site, 0, VisitedUpTo(site, pagesToScrape, t));
      var kept := Kept(Fresh(ls));
      && t.harvest.scrapedUrls == UrlsOf(ls)
      && |t.harvest.cars| == |kept| && |t.harvest.origins| == |kept|
      && forall i :: 0 <= i < |kept| ==>
           && ListingOutcome(keys, kept[i]) == Emitted(t.harvest.cars[i])
           && t.harvest.origins[i] == kept[i].url
           && FirstUrlIndex(ls, kept[i].url) < |ls| && ls[FirstUrlIndex(ls, kept[i].url)] == kept[i]
  {
    var t := Scraped(keys, site, pagesToScrape);
    var ls := Stream(site, 0, VisitedUpTo(site, pagesToScrape, t));
    TraverseStream(keys, site, pagesToScrape, 0, Empty);
    VisitAllFromEmpty(keys, ls);
    FreshFirst(ls);
    KeptWithin(Fresh(ls));
    var kept := Kept(Fresh(ls));
    forall i | 0 <= i < |kept|
      ensures FirstUrlIndex(ls, kept[i].url) < |ls| && ls[FirstUrlIndex(ls, kept[i].url)] == kept[i]
    {
      assert kept[i] in kept;
    }
  }

  /**
   * When every listing met has its title element, there is one record per
   * scraped URL: a page that shows listings again adds no record.
   */
  lemma OneRecordPerUrl(keys: seq<string>, site: Site, pagesToScrape: int)
    requires var t := Scraped(keys, site, pagesToScrape);
      forall l :: l in Stream(site, 0, VisitedUpTo(site, pagesToScrape, t)) ==> l.title.Some?
    ensures var h := Scraped(keys, site, pagesToScrape).harvest; |h.cars| == |h.scrapedUrls|
  {
    var t := Scraped(keys, site, pagesToScrape);
    var ls := Stream(site, 0, VisitedUpTo(site, pagesToScrape, t));
    ScrapedRecords(keys, site, pagesToScrape);
    FreshCount(ls);
    FreshWithin(ls);
    KeptWithin(Fresh(ls));
  }

  /**
   * Every resolved record's make is a key of the dictionary, so the final
   * sort places it by that key's rank, ahead of every unresolved record.
   */
  lemma ResolvedMakesRanked(dict: MakeDict, site: Site, pagesToScrape: int)
    requires Valid(dict) && Normalised(dict)
    ensures var cars := Scraped(dict.keys, site, pagesToScrape).harvest.cars;
      forall i :: 0 <= i < |cars| && cars[i].make != NA ==>
        cars[i].make in dict.rank && KeyOf(dict.rank, cars[i]).rank == Ranked(dict.rank[cars[i].make])
  {
    var t := Scraped(dict.keys, site, pagesToScrape);
    var ls := Stream(site, 0, VisitedUpTo(site, pagesToScrape, t));
    var kept := Kept(Fresh(ls));
    ScrapedRecords(dict.keys, site, pagesToScrape);
    forall i | 0 <= i < |t.harvest.cars| && t.harvest.cars[i].make != NA
      ensures t.harvest.cars[i].make in dict.rank
      ensures KeyOf(dict.rank, t.harvest.cars[i]).rank == Ranked(dict.rank[t.harvest.cars[i].make])
    {
      assert ListingOutcome(dict.keys, kept[i]) == Emitted(t.harvest.cars[i]);
      StoredMakeRanked(dict, t.harvest.cars[i]);
    }
  }
}
