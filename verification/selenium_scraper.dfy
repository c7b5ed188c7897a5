/** The browser-driven InkStation adapter (scrapers/selenium_scraper.py):
    a session that opens one browser lazily, waits for the Cloudflare
    challenge at most once, and reads the rendered page. The browser and
    the person solving the challenge are observations passed in. */
module SeleniumScraper {
  import opened Wrappers
  import opened Text
  import opened Records
  import opened RequestUtils

  /** How long `scrape_inkstation` lets `wait_for_cloudflare` poll, one poll
      per second. */
  const ChallengeTimeout := 120

  /** The scraper object's state: whether a driver is open, whether the
      challenge has been handled, and the number of page loads started. */
  datatype Session = Session(driverOpen: bool, cloudflareSolved: bool, requestCount: nat)

  /** A new `SeleniumScraper`: no browser yet. */
  function Fresh(): (s: Session)
    ensures !s.driverOpen && !s.cloudflareSolved && s.requestCount == 0
  {
    Session(false, false, 0)
  }

  // ---------------------------------------------------------------------
  // wait_for_cloudflare
  // ---------------------------------------------------------------------

  /** One read of `driver.page_source`: the HTML, or an exception. */
  datatype Poll = Source(html: string) | PollFailed

  /** The page shows real content once its lower-cased source mentions any
      of these. */
  const Indicators: seq<string> := ["product", "search", "add to cart", "$"]

  predicate ShowsContent(p: Poll) {
    p.Source? && exists k :: 0 <= k < |Indicators| && Contains(Lower(p.html), Indicators[k])
  }

  /** Whether the wait saw content, and how many polls it made. */
  datatype WaitResult = WaitResult(solved: bool, polls: nat)

  function WaitFrom(polls: Feed<Poll>, timeout: int, i: nat): (r: WaitResult)
    ensures i <= r.polls
    ensures r.solved ==> 1 <= r.polls <= timeout && ShowsContent(polls.At(r.polls - 1))
    ensures !r.solved ==> r.polls == if i < timeout then timeout else i
    ensures forall j: nat :: i <= j < r.polls - (if r.solved then 1 else 0) ==> !ShowsContent(polls.At(j))
    decreases timeout - i
  {
    if i < timeout then
      if ShowsContent(polls.At(i)) then WaitResult(true, i + 1) else WaitFrom(polls, timeout, i + 1)
    else WaitResult(false, i)
  }

  /** `wait_for_cloudflare(timeout)` over the page sources read once a
      second: it stops at the first poll that shows content and returns
      True, and returns False after `timeout` polls otherwise. A poll that
      raises counts as a poll without content. */
  function WaitForCloudflare(polls: Feed<Poll>, timeout: int): (r: WaitResult)
    ensures r.solved <==> exists i: nat :: i < timeout && ShowsContent(polls.At(i))
    ensures r.solved ==> 1 <= r.polls <= timeout && ShowsContent(polls.At(r.polls - 1))
    ensures !r.solved ==> r.polls == if timeout > 0 then timeout else 0
    ensures forall j: nat :: j < r.polls - 1 ==> !ShowsContent(polls.At(j))
  {
    var r := WaitFrom(polls, timeout, 0);
    assert !r.solved ==> forall j: nat :: j < timeout ==> !ShowsContent(polls.At(j));
    r
  }

  /** The polling loop of the source. */
  method WaitForCloudflareLoop(polls: Feed<Poll>, timeout: int) returns (solved: bool, count: nat)
    ensures WaitResult(solved, count) == WaitForCloudflare(polls, timeout)
  {
    var i := 0;
    while i < timeout
      invariant 0 <= i && (timeout > 0 ==> i <= timeout)
      invariant WaitFrom(polls, timeout, i) == WaitFrom(polls, timeout, 0)
    {
      if ShowsContent(polls.At(i)) {
        return true, i + 1;
      }
      i := i + 1;
    }
    return false, i;
  }

  // ---------------------------------------------------------------------
  // Locating the product card
  // ---------------------------------------------------------------------

  /** A candidate container element and what the lookups inside it find. */
  datatype Card = Card(
    texts: seq<string>,             // its text nodes, in document order
    heading: Option<string>,        // get_text of the first of h2, h3, h4, a[href*product], a[class*title|name|product]
    linkTexts: seq<string>,         // get_text of each `a`, in document order
    hasHrefLink: bool,              // it contains an `a` with an href
    priceClassTexts: seq<string>)   // get_text of each span/div/p whose class mentions "price"

  predicate HasDollar(t: string) {
    '$' in t
  }

  /** The card contains a text node with a dollar sign. */
  predicate Priced(c: Card) {
    exists i :: 0 <= i < |c.texts| && HasDollar(c.texts[i])
  }

  /** For one selector, the `div`s matching it, else the `article`s, else the `li`s. */
  datatype TagHits = TagHits(divs: seq<Card>, articles: seq<Card>, items: seq<Card>)

  function Candidates(h: TagHits): (cs: seq<Card>)
    ensures |h.divs| > 0 ==> cs == h.divs
    ensures |h.divs| == 0 && |h.articles| > 0 ==> cs == h.articles
    ensures |h.divs| == 0 && |h.articles| == 0 ==> cs == h.items
  {
    if |h.divs| > 0 then h.divs else if |h.articles| > 0 then h.articles else h.items
  }

  /** The selector loop: the first selector one of whose candidates is
      priced supplies the product, its first priced candidate. */
  function ScanSelectors(hits: seq<TagHits>): Option<Card>
  {
    if |hits| == 0 then None
    else
      match FirstWhere(Candidates(hits[0]), Priced)
      case Some(c) => Some(c)
      case None => ScanSelectors(hits[1..])
  }

  /** Every selector's candidates, in selector order. */
  function AllCandidates(hits: seq<TagHits>): seq<Card>
  {
    if |hits| == 0 then [] else Candidates(hits[0]) + AllCandidates(hits[1..])
  }

  /** The nested loops with their two `break`s pick the first priced card of
      the selectors' candidate lists laid end to end. */
  lemma {:induction false} ScanSelectorsIsFirstPriced(hits: seq<TagHits>)
    ensures ScanSelectors(hits) == FirstWhere(AllCandidates(hits), Priced)
  {
    if |hits| > 0 {
      FirstWhereAppend(Candidates(hits[0]), AllCandidates(hits[1..]), Priced);
      ScanSelectorsIsFirstPriced(hits[1..]);
    }
  }

  /** The fallback accepts a container with a price text and a link. */
  predicate PricedWithLink(c: Card) {
    Priced(c) && c.hasHrefLink
  }

  /** The rendered page: the readiness wait timed out or parsing raised, or
      the lookups' results and the page source. */
  datatype Rendered =
    | RenderFailed
    | Rendered(
        selectorHits: seq<TagHits>,  // one entry per selector, in the source's order
        containers: seq<Card>,       // every div, article and li, in document order
        source: string)              // driver.page_source

  /** The product card: the first priced card among the selectors'
      candidates, else the first container with a price text and a link. */
  function FindProduct(page: Rendered): (r: Option<Card>)
    requires page.Rendered?
    ensures r.Some? ==> Priced(r.value)
    ensures var all := AllCandidates(page.selectorHits);
            (exists i :: 0 <= i < |all| && Priced(all[i])) ==>
              exists i :: 0 <= i < |all| && r == Some(all[i]) && Priced(all[i])
                          && forall j :: 0 <= j < i ==> !Priced(all[j])
    ensures var all := AllCandidates(page.selectorHits);
            (forall i :: 0 <= i < |all| ==> !Priced(all[i])) && r.Some? ==>
              exists i :: 0 <= i < |page.containers| && r.value == page.containers[i]
                          && PricedWithLink(page.containers[i])
                          && forall j :: 0 <= j < i ==> !PricedWithLink(page.containers[j])
    ensures r.None? <==>
              (forall i :: 0 <= i < |AllCandidates(page.selectorHits)| ==> !Priced(AllCandidates(page.selectorHits)[i]))
              && (forall i :: 0 <= i < |page.containers| ==> !PricedWithLink(page.containers[i]))
  {
    ScanSelectorsIsFirstPriced(page.selectorHits);
    match ScanSelectors(page.selectorHits)
    case Some(c) => Some(c)
    case None => FirstWhere(page.containers, PricedWithLink)
  }

  // ---------------------------------------------------------------------
  // Fields of the record
  // ---------------------------------------------------------------------

  /** A link text long enough to be a product name and not a price. */
  predicate LooksLikeName(t: string) {
    |t| > 10 && !HasDollar(t)
  }

  /** The title: the heading text unless it is missing or "N/A", in which
      case the first link text that looks like a name, else "N/A". */
  function CardTitle(c: Card): (t: string)
    ensures c.heading.Some? && c.heading.value != NA ==> t == c.heading.value
    ensures c.heading.None? || c.heading.value == NA ==>
              (t == NA <==> forall i :: 0 <= i < |c.linkTexts| ==> !LooksLikeName(c.linkTexts[i]))
    ensures (c.heading.None? || c.heading.value == NA) && t != NA ==>
              exists i :: 0 <= i < |c.linkTexts| && c.linkTexts[i] == t && LooksLikeName(t)
                          && forall j :: 0 <= j < i ==> !LooksLikeName(c.linkTexts[j])
  {
    var title := if c.heading.Some? then c.heading.value else NA;
    if title != NA then title
    else
      match FirstWhere(c.linkTexts, LooksLikeName)
      case Some(t) =>
        assert t != NA by { assert |NA| == 3; }
        t
      case None => NA
  }

  predicate HasPriceMatch(t: string) {
    PriceSearch(t).Some?
  }

  /** The price: the pattern's match in the first text with a dollar sign,
      else its match in the first price-class element that has one, else
      "N/A". Unlike `clean_price`, nothing is stripped and raw text is
      never returned. */
  function CardPrice(c: Card): (p: string)
    ensures p == NA || IsPriceToken(p)
    ensures var first := FirstWhere(c.texts, HasDollar);
            && (first.Some? && HasPriceMatch(first.value) ==> IsLeftmostPrice(first.value, p))
            && (p == NA <==> (first.None? || !HasPriceMatch(first.value))
                             && forall i :: 0 <= i < |c.priceClassTexts| ==> !HasPriceMatch(c.priceClassTexts[i]))
            && ((first.None? || !HasPriceMatch(first.value)) && p != NA ==>
                  exists k :: 0 <= k < |c.priceClassTexts| && IsLeftmostPrice(c.priceClassTexts[k], p)
                              && forall j :: 0 <= j < k ==> !HasPriceMatch(c.priceClassTexts[j]))
  {
    var first := FirstWhere(c.texts, HasDollar);
    var fromText := if first.Some? then PriceSearch(first.value) else None;
    if fromText.Some? then
      assert fromText.value != NA by { assert fromText.value[0] == '$'; }
      fromText.value
    else
      match FirstWhere(c.priceClassTexts, HasPriceMatch)
      case Some(t) =>
        assert PriceSearch(t).value != NA by { assert PriceSearch(t).value[0] == '$'; }
        PriceSearch(t).value
      case None => NA
  }

  /** Availability is read off the whole page, not the card: Out of Stock
      exactly when "out of stock" or "not available" occurs in it, in any
      case. */
  function PageStatus(source: string): (st: Availability)
    ensures st in {Available, OutOfStock}
    ensures st == OutOfStock <==>
              (exists i :: OccursFoldedAt(source, "out of stock", i))
              || (exists i :: OccursFoldedAt(source, "not available", i))
  {
    ContainsLowerIff(source, "out of stock");
    ContainsLowerIff(source, "not available");
    var low := Lower(source);
    if Contains(low, "out of stock") || Contains(low, "not available") then OutOfStock else Available
  }

  // ---------------------------------------------------------------------
  // scrape_inkstation and close
  // ---------------------------------------------------------------------

  /** What the browser and the world did during one lookup. */
  datatype Visit = Visit(
    setupOk: bool,            // starting the driver succeeded (consulted only without one)
    loadOk: bool,             // driver.get(url) returned
    challenge: Feed<Poll>,    // the page sources during the challenge wait
    scrollOk: bool,           // both scroll scripts ran
    page: Rendered)

  /** The session after the lookup, the record, and the challenge wait if
      one happened. */
  datatype Lookup = Lookup(session: Session, result: ScrapeResult, challengeWait: Option<WaitResult>)

  /** Whether the lookup got as far as a driver, and then a loaded page. */
  predicate HasDriver(s: Session, v: Visit) {
    s.driverOpen || v.setupOk
  }

  predicate Loaded(s: Session, v: Visit) {
    HasDriver(s, v) && v.loadOk
  }

  /** `SeleniumScraper.scrape_inkstation(code)`. */
  function Scrape(s: Session, code: string, v: Visit): (r: Lookup)
    ensures Describes(r.result, InkStation, code)
    ensures r.session.driverOpen <==> HasDriver(s, v)
    ensures r.session.requestCount == s.requestCount + (if HasDriver(s, v) then 1 else 0)
    ensures r.challengeWait.Some? <==> !s.cloudflareSolved && Loaded(s, v)
    ensures r.challengeWait.Some? ==> r.challengeWait.value == WaitForCloudflare(v.challenge, ChallengeTimeout)
    ensures r.session.cloudflareSolved <==> s.cloudflareSolved || r.challengeWait.Some?
    ensures r.result.status == Failed <==> !Loaded(s, v) || !v.scrollOk || v.page.RenderFailed?
    ensures r.result.status == Failed ==> r.result == ErrorResult(InkStation, code)
    ensures r.result.status == NotAvailable <==>
              Loaded(s, v) && v.scrollOk && v.page.Rendered? && FindProduct(v.page).None?
    ensures r.result.status == NotAvailable ==> r.result == NotFound(InkStation, code)
    ensures Loaded(s, v) && v.scrollOk && v.page.Rendered? && FindProduct(v.page).Some? ==>
              var c := FindProduct(v.page).value;
              r.result == ScrapeResult(code, CardTitle(c), CardPrice(c), InkStation,
                                       PageStatus(v.page.source), InkStation.SearchUrl(code))
    ensures r.result.price == NA || IsPriceToken(r.result.price)
  {
    if !HasDriver(s, v) then Lookup(s, ErrorResult(InkStation, code), None)
    else
      var started := Session(true, s.cloudflareSolved, s.requestCount + 1);
      if !v.loadOk then Lookup(started, ErrorResult(InkStation, code), None)
      else
        var wait := if s.cloudflareSolved then None else Some(WaitForCloudflare(v.challenge, ChallengeTimeout));
        var ready := started.(cloudflareSolved := true);
        if !v.scrollOk || v.page.RenderFailed? then Lookup(ready, ErrorResult(InkStation, code), wait)
        else
          match FindProduct(v.page)
          case None => Lookup(ready, NotFound(InkStation, code), wait)
          case Some(c) =>
            var rec := ScrapeResult(code, CardTitle(c), CardPrice(c), InkStation,
                                    PageStatus(v.page.source), InkStation.SearchUrl(code));
            Lookup(ready, rec, wait)
  }

  /** The challenge's outcome never changes the record: a timed-out wait
      proceeds as if it had been solved. */
  lemma ChallengeOutcomeIrrelevant(s: Session, code: string, v: Visit, other: Feed<Poll>)
    ensures Scrape(s, code, v).result == Scrape(s, code, v.(challenge := other)).result
    ensures Scrape(s, code, v).session == Scrape(s, code, v.(challenge := other)).session
  {
  }

  /** The outcome of `close()`: the session afterwards and whether a driver
      was quit. */
  datatype Closed = Closed(session: Session, quit: bool)

  /** `close()`: quits an open driver. The challenge flag and the request
      count are kept. */
  function Close(s: Session): (r: Closed)
    ensures !r.session.driverOpen
    ensures r.quit <==> s.driverOpen
    ensures r.session.cloudflareSolved == s.cloudflareSolved && r.session.requestCount == s.requestCount
  {
    Closed(s.(driverOpen := false), s.driverOpen)
  }

  /** Closing twice quits at most once. */
  lemma CloseIdempotent(s: Session)
    ensures Close(Close(s).session).session == Close(s).session
    ensures !Close(Close(s).session).quit
  {
  }

  /** A run of lookups on one scraper object, as a worker makes them. */
  function Run(s: Session, jobs: seq<(string, Visit)>): (r: (Session, seq<Lookup>))
    ensures |r.1| == |jobs|
    decreases |jobs|
  {
    if |jobs| == 0 then (s, [])
    else
      var first := Scrape(s, jobs[0].0, jobs[0].1);
      var rest := Run(first.session, jobs[1..]);
      (rest.0, [first] + rest.1)
  }

  /** Every record of a run describes its code on InkStation and carries
      "N/A" or a dollar amount as its price. */
  lemma {:induction false} RunRecords(s: Session, jobs: seq<(string, Visit)>)
    ensures var ls := Run(s, jobs).1;
            forall i :: 0 <= i < |jobs| ==>
              Describes(ls[i].result, InkStation, jobs[i].0) && (ls[i].result.price == NA || IsPriceToken(ls[i].result.price))
    decreases |jobs|
  {
    if |jobs| > 0 {
      var first := Scrape(s, jobs[0].0, jobs[0].1);
      var rest := Run(first.session, jobs[1..]);
      RunRecords(first.session, jobs[1..]);
      var ls := Run(s, jobs).1;
      assert ls == [first] + rest.1;
      forall i | 0 <= i < |jobs|
        ensures Describes(ls[i].result, InkStation, jobs[i].0)
        ensures ls[i].result.price == NA || IsPriceToken(ls[i].result.price)
      {
        if i > 0 {
          assert ls[i] == rest.1[i - 1] && jobs[i] == jobs[1..][i - 1];
        }
      }
    }
  }

  predicate Waited(l: Lookup) {
    l.challengeWait.Some?
  }

  /** The challenge wait happens at most once per scraper object, and never
      once the flag is set: the first lookup that loads a page sets it, and
      nothing — not even `close()` — clears it. */
  lemma {:induction false} AtMostOneChallengeWait(s: Session, jobs: seq<(string, Visit)>)
    ensures CountWhere(Run(s, jobs).1, Waited) <= (if s.cloudflareSolved then 0 else 1)
    ensures s.cloudflareSolved ==> Run(s, jobs).0.cloudflareSolved
    decreases |jobs|
  {
    if |jobs| > 0 {
      var first := Scrape(s, jobs[0].0, jobs[0].1);
      var rest := Run(first.session, jobs[1..]);
      AtMostOneChallengeWait(first.session, jobs[1..]);
      assert Run(s, jobs).1 == [first] + rest.1;
      assert ([first] + rest.1)[1..] == rest.1;
    }
  }

  /** Every lookup that got a driver counts one request. */
  lemma {:induction false} RequestCountCountsDriverLookups(s: Session, jobs: seq<(string, Visit)>)
    ensures Run(s, jobs).0.requestCount == s.requestCount + CountWhere(Run(s, jobs).1, (l: Lookup) => l.session.driverOpen)
    decreases |jobs|
  {
    if |jobs| > 0 {
      var first := Scrape(s, jobs[0].0, jobs[0].1);
      var rest := Run(first.session, jobs[1..]);
      RequestCountCountsDriverLookups(first.session, jobs[1..]);
      assert ([first] + rest.1)[1..] == rest.1;
    }
  }
}
