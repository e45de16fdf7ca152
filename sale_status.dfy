/**
 * The sale status of a listing: the bounded retry read with its one
 * scroll-then-read fallback, and the price each scraper cuts out of the
 * status text.
 */
module SaleStatus {
  import opened Records
  import opened Text

  /**
   * One `find_element` call for the status element: it raises (Missing), or
   * returns the element, whose text is read.
   */
  datatype Read = Missing | Found(text: string)

  /** How many times the retry loop looks for the status element. */
  const Attempts: nat := 5

  /** The outcome of the k-th status lookup of a listing; lookups beyond the given ones find nothing. */
  function ReadAt(lookups: seq<Read>, k: nat): Read {
    if k < |lookups| then lookups[k] else Missing
  }

  /** The first of the lookups k .. Attempts - 1 that finds the element; Attempts when none does. */
  function FirstFound(lookups: seq<Read>, k: nat): (r: nat)
    requires k <= Attempts
    decreases Attempts - k
    ensures k <= r <= Attempts
    ensures r < Attempts ==> ReadAt(lookups, r).Found?
    ensures forall j :: k <= j < r ==> ReadAt(lookups, j).Missing?
  {
    if k == Attempts then Attempts
    else if ReadAt(lookups, k).Found? then k
    else FirstFound(lookups, k + 1)
  }

  /** What reading the status gave: the status text, the retry-loop lookups made, and whether the fallback ran. */
  datatype StatusRead = StatusRead(status: string, attempts: nat, scrolled: bool)

  /** The stripped text of a lookup, or "N/A" when it found nothing. */
  function TextOf(read: Read): string {
    match read
    case Found(t) => Strip(t)
    case Missing => NA
  }

  /**
   * The status the retry loop and its fallback settle on: the loop stops at
   * the first lookup that finds the element; only when the status is then
   * still "N/A" does one more lookup follow, the one right after the loop's
   * last.
   */
  function ReadOutcome(lookups: seq<Read>): (r: StatusRead)
    ensures 1 <= r.attempts <= Attempts
    ensures forall j :: 0 <= j < r.attempts - 1 ==> ReadAt(lookups, j).Missing?
    ensures r.attempts < Attempts ==> ReadAt(lookups, r.attempts - 1).Found?
    ensures r.scrolled <==> TextOf(ReadAt(lookups, r.attempts - 1)) == NA
    ensures r.status == if r.scrolled then TextOf(ReadAt(lookups, r.attempts)) else TextOf(ReadAt(lookups, r.attempts - 1))
  {
    var first := FirstFound(lookups, 0);
    var attempts := if first < Attempts then first + 1 else Attempts;
    var loopStatus := TextOf(ReadAt(lookups, attempts - 1));
    if loopStatus == NA then StatusRead(TextOf(ReadAt(lookups, attempts)), attempts, true)
    else StatusRead(loopStatus, attempts, false)
  }

  /** The retry loop with `break`, then the fallback lookup when the status is still "N/A". */
  method ReadStatus(lookups: seq<Read>) returns (r: StatusRead)
    ensures r == ReadOutcome(lookups)
  {
    var status := NA;
    var attempts := 0;
    for attempt := 0 to Attempts
      invariant attempts == attempt && status == NA
      invariant forall j :: 0 <= j < attempt ==> ReadAt(lookups, j).Missing?
    {
      attempts := attempts + 1;
      var read := ReadAt(lookups, attempt);
      if read.Found? {
        assert FirstFound(lookups, 0) == attempt;
        status := Strip(read.text);
        break;
      }
    }
    assert attempts == ReadOutcome(lookups).attempts;
    var scrolled := false;
    if status == NA {
      scrolled := true;
      var read := ReadAt(lookups, attempts);
      if read.Found? {
        status := Strip(read.text);
      }
    }
    r := StatusRead(status, attempts, scrolled);
  }

  /** A listing whose status element never appears ends with status "N/A" after all six lookups. */
  lemma NeverFound(lookups: seq<Read>)
    requires forall j :: 0 <= j < |lookups| ==> lookups[j].Missing?
    ensures ReadOutcome(lookups) == StatusRead(NA, Attempts, true)
  {
    assert forall j :: 0 <= j < Attempts ==> ReadAt(lookups, j).Missing?;
  }

  /** A lookup that finds an empty text still counts as found: the loop stops and no fallback runs. */
  lemma EmptyTextFound(lookups: seq<Read>, k: nat)
    requires k < Attempts && ReadAt(lookups, k) == Found("")
    requires forall j :: 0 <= j < k ==> ReadAt(lookups, j).Missing?
    ensures ReadOutcome(lookups) == StatusRead("", k + 1, false)
  {
    assert FirstFound(lookups, 0) == k;
  }

  /** A found status that reads "N/A" once stripped sends the listing to the fallback all the same. */
  lemma LiteralNAScrolls(lookups: seq<Read>)
    requires |lookups| >= 2 && lookups[0] == Found(" N/A ") && lookups[1] == Found("Sold for $1")
    ensures ReadOutcome(lookups) == StatusRead("Sold for $1", 1, true)
  {
    assert FirstFound(lookups, 0) == 0;
    assert TextOf(lookups[0]) == NA by {
      PaddedNA();
    }
    assert TextOf(lookups[1]) == "Sold for $1" by {
      StripTrimmed("Sold for $1");
    }
  }

  lemma PaddedNA()
    ensures Strip(" N/A ") == NA
  {
    assert LStrip(" N/A ") == "N/A ";
    assert RStrip("N/A ") == "N/A";
  }

  /** `"Sold for" in status`. */
  predicate IsSold(status: string) {
    Contains(status, "Sold for")
  }

  /** Bring a Trailer's price: after the first "Sold for", stripped, then before the first " on ", stripped. */
  function PriceBringATrailer(status: string): (price: string)
    ensures !IsSold(status) ==> price == NA
    ensures IsSold(status) ==> price == [] || (!IsSpace(price[0]) && !IsSpace(price[|price| - 1]))
  {
    if IsSold(status) then Strip(Before(Strip(SecondPiece(status, "Sold for")), " on ")) else NA
  }

  /** Cars & Bids' price: the stripped text after the first "Sold for", the date left on. */
  function PriceCarsAndBids(status: string): (price: string)
    ensures !IsSold(status) ==> price == NA
    ensures IsSold(status) ==> price == [] || (!IsSpace(price[0]) && !IsSpace(price[|price| - 1]))
  {
    if IsSold(status) then Strip(SecondPiece(status, "Sold for")) else NA
  }

  /** Cars & Bids skips listings whose status says "Bid to" or "Canceled". */
  predicate Excluded(status: string) {
    Contains(status, "Bid to") || Contains(status, "Canceled")
  }

  /** Bring a Trailer's price never holds " on ": the date is always cut off. */
  lemma PriceHasNoDate(status: string)
    requires IsSold(status)
    ensures !Contains(PriceBringATrailer(status), " on ")
  {
    var b := Before(Strip(SecondPiece(status, "Sold for")), " on ");
    NoneBefore(Strip(SecondPiece(status, "Sold for")), " on ");
    NoneInStrip(b, " on ");
  }

  /** The text after "Sold for " in the usual sold status, stripped: amount, " on " and date. */
  lemma SoldForPiece(amount: string, date: string)
    requires |amount| > 0 && forall k :: 0 <= k < |amount| ==> amount[k] != 'S' && !IsSpace(amount[k])
    requires |date| > 0 && !IsSpace(date[|date| - 1]) && forall k :: 0 <= k < |date| ==> date[k] != 'S'
    ensures var s := "Sold for " + amount + " on " + date;
      IsSold(s) && Strip(SecondPiece(s, "Sold for")) == amount + " on " + date
  {
    var rest := amount + " on " + date;
    var tail := " " + rest;
    var s := "Sold for " + amount + " on " + date;
    assert s == "Sold for" + tail;
    AfterLeading("Sold for", tail);
    assert !Contains(tail, "Sold for") by {
      NoCapitalS(amount, date);
      NotContains(tail, "Sold for");
    }
    assert SecondPiece(s, "Sold for") == tail;
    StripLeadingBlank(rest);
  }

  lemma NoCapitalS(amount: string, date: string)
    requires forall k :: 0 <= k < |amount| ==> amount[k] != 'S'
    requires forall k :: 0 <= k < |date| ==> date[k] != 'S'
    ensures var tail := " " + amount + " on " + date; forall k :: 0 <= k < |tail| ==> tail[k] != 'S'
  {
    var tail := " " + amount + " on " + date;
    assert forall k :: 0 <= k < |amount| ==> tail[1 + k] == amount[k];
    assert forall k :: 0 <= k < |date| ==> tail[|amount| + 5 + k] == date[k];
  }

  /** Cutting the amount-and-date text at its first " on " leaves the amount. */
  lemma DateCut(amount: string, date: string)
    requires |amount| > 0 && forall k :: 0 <= k < |amount| ==> !IsSpace(amount[k])
    ensures Strip(Before(amount + " on " + date, " on ")) == amount
  {
    var rest := amount + " on " + date;
    assert forall k :: 0 <= k < |amount| ==> rest[k] == amount[k];
    IndexFromSkip(rest, " on ", 0, |amount|);
    assert rest[|amount|..|amount| + 4] == " on ";
    FoundAtStart(rest, " on ", |amount|);
    assert Before(rest, " on ") == amount;
    StripTrimmed(amount);
  }

  /**
   * The usual sold status, "Sold for <amount> on <date>": Bring a Trailer
   * keeps the amount, Cars & Bids keeps the amount and the date.
   */
  lemma SoldForAmountOnDate(amount: string, date: string)
    requires |amount| > 0 && forall k :: 0 <= k < |amount| ==> amount[k] != 'S' && !IsSpace(amount[k])
    requires |date| > 0 && !IsSpace(date[|date| - 1]) && forall k :: 0 <= k < |date| ==> date[k] != 'S'
    ensures PriceBringATrailer("Sold for " + amount + " on " + date) == amount
    ensures PriceCarsAndBids("Sold for " + amount + " on " + date) == amount + " on " + date
  {
    SoldForPiece(amount, date);
    DateCut(amount, date);
  }

  /** "Sold for $12,000 on 3/4/21": "$12,000" on Bring a Trailer, "$12,000 on 3/4/21" on Cars & Bids. */
  lemma SoldForExample()
    ensures PriceBringATrailer("Sold for $12,000 on 3/4/21") == "$12,000"
    ensures PriceCarsAndBids("Sold for $12,000 on 3/4/21") == "$12,000 on 3/4/21"
  {
    assert "Sold for $12,000 on 3/4/21" == "Sold for " + "$12,000" + " on " + "3/4/21";
    assert "$12,000 on 3/4/21" == "$12,000" + " on " + "3/4/21";
    SoldForAmountOnDate("$12,000", "3/4/21");
  }
}
