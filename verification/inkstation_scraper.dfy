/** The InkStation adapter over plain HTTP (scrapers/inkstation_scraper.py):
    `make_request` with three attempts, then a cascade of selectors over the
    returned page. */
module InkStationScraper {
  import opened Wrappers
  import opened Text
  import opened Records
  import opened RequestUtils

  /** The attempt budget the adapter passes to `make_request` (its default). */
  const MaxRetries := 3

  /** The product element the selectors located, described by what the
      title, price and stock lookups inside it find. */
  datatype Product = Product(
    titleLink: Option<Element>,  // an `a` whose class mentions "title"
    h2: Option<Element>,
    h3: Option<Element>,
    nameLink: Option<Element>,   // an `a` whose class mentions "name"
    priceSpan: Option<Element>,  // a `span` whose class mentions "price"
    priceDiv: Option<Element>,   // a `div` whose class mentions "price"
    priceP: Option<Element>,     // a `p` whose class mentions "price"
    texts: seq<string>)          // the product's text nodes, in document order

  /** The body of a 200 response: the first element each product selector
      finds, or a body whose parsing or querying raises. */
  datatype Page =
    | Page(
        productItemDiv: Option<Product>,      // div.product-item
        productDiv: Option<Product>,          // div.product
        productItemArticle: Option<Product>,  // article.product-item
        productCardDiv: Option<Product>,      // div.productCard
        anyProductDiv: Option<Product>)       // a div whose class mentions "product"
    | Garbled

  /** The selectors in the order the source tries them; the first hit wins,
      and the catch-all `div` is consulted only when all four miss. */
  function ChooseProduct(p: Page): (r: Option<Product>)
    requires p.Page?
    ensures var hits := [p.productItemDiv, p.productDiv, p.productItemArticle, p.productCardDiv];
            && (r.None? <==> (forall i :: 0 <= i < 4 ==> hits[i].None?) && p.anyProductDiv.None?)
            && (forall i :: 0 <= i < 4 && hits[i].Some? && (forall j :: 0 <= j < i ==> hits[j].None?) ==> r == hits[i])
            && ((forall i :: 0 <= i < 4 ==> hits[i].None?) ==> r == p.anyProductDiv)
  {
    var hits := [p.productItemDiv, p.productDiv, p.productItemArticle, p.productCardDiv];
    match FirstWhere(hits, (o: Option<Product>) => o.Some?)
    case Some(hit) => hit
    case None => p.anyProductDiv
  }

  /** The `for ... if elem: value = ...; if value != "N/A": break` cascade.
      Each entry is None for a lookup that found nothing, or the value the
      found element yields. The result is None when nothing was found, the
      first value other than "N/A" when there is one, and "N/A" otherwise. */
  function FirstUsable(vals: seq<Option<string>>): (r: Option<string>)
    ensures r.None? <==> forall i :: 0 <= i < |vals| ==> vals[i].None?
    ensures r.Some? && r.value != NA ==>
              exists i :: 0 <= i < |vals| && vals[i] == r
                          && forall j :: 0 <= j < i ==> vals[j].None? || vals[j].value == NA
    ensures r.Some? && r.value == NA ==>
              forall i :: 0 <= i < |vals| ==> vals[i].None? || vals[i].value == NA
  {
    if |vals| == 0 then None
    else
      var rest := FirstUsable(vals[1..]);
      assert forall i :: 1 <= i < |vals| ==> vals[i] == vals[1..][i - 1];
      if vals[0].Some? && vals[0].value != NA then vals[0]
      else if rest.None? then vals[0]
      else
        assert rest.value != NA ==>
                 exists i :: 0 <= i < |vals| && vals[i] == rest
                             && forall j :: 0 <= j < i ==> vals[j].None? || vals[j].value == NA by {
          if rest.value != NA {
            var i :| 0 <= i < |vals[1..]| && vals[1..][i] == rest
                     && forall j :: 0 <= j < i ==> vals[1..][j].None? || vals[1..][j].value == NA;
            assert vals[i + 1] == rest;
          }
        }
        rest
  }

  /** The same cascade as the source's loop with `break`. */
  method FirstUsableLoop(vals: seq<Option<string>>) returns (value: Option<string>)
    ensures value == FirstUsable(vals)
  {
    value := None;
    var i := 0;
    while i < |vals|
      invariant 0 <= i <= |vals|
      invariant FirstUsable(vals) == (if FirstUsable(vals[i..]).Some? then FirstUsable(vals[i..]) else value)
      invariant value.Some? ==> value.value == NA
    {
      assert vals[i..][1..] == vals[i + 1..];
      if vals[i].Some? {
        value := vals[i];
        if value.value != NA {
          return;
        }
      }
      i := i + 1;
    }
  }

  /** The record field: an absent or empty value is reported as "N/A". */
  function OrNA(v: Option<string>): (s: string)
    ensures s != ""
    ensures v.Some? && v.value != "" ==> s == v.value
    ensures v.None? || v.value == "" ==> s == NA
  {
    if v.Some? && v.value != "" then v.value else NA
  }

  /** What a found title element yields. */
  function TitleOf(e: Option<Element>): Option<string> {
    if e.Some? then Some(SafeExtractText(e, NA)) else None
  }

  /** What a found price element yields. */
  function PriceOf(e: Option<Element>): Option<string> {
    if e.Some? then Some(CleanPrice(SafeExtractText(e, NA))) else None
  }

  function Title(p: Product): string {
    OrNA(FirstUsable([TitleOf(p.titleLink), TitleOf(p.h2), TitleOf(p.h3), TitleOf(p.nameLink)]))
  }

  function Price(p: Product): string {
    OrNA(FirstUsable([PriceOf(p.priceSpan), PriceOf(p.priceDiv), PriceOf(p.priceP)]))
  }

  predicate MentionsStock(t: string) {
    Contains(Lower(t), "stock") || Contains(Lower(t), "available")
  }

  /** The first text mentioning stock or availability decides: Out of Stock
      when it contains "out", Available otherwise and when there is none. */
  function StockStatus(texts: seq<string>): (st: Availability)
    ensures st in {Available, OutOfStock}
    ensures st == OutOfStock <==>
              exists i :: 0 <= i < |texts| && MentionsStock(texts[i]) && Contains(Lower(texts[i]), "out")
                          && forall j :: 0 <= j < i ==> !MentionsStock(texts[j])
  {
    match FirstWhere(texts, MentionsStock)
    case None => Available
    case Some(t) =>
      if Contains(Lower(t), "out") then OutOfStock else Available
  }

  /** `scrape_inkstation(code)` with the GET attempts read from `attempts`. */
  function Scrape(code: string, attempts: Feed<Attempt<Page>>): (r: ScrapeResult)
    ensures Describes(r, InkStation, code)
    ensures var resp := MakeRequest(attempts, MaxRetries).response;
            && (resp.None? ==> r == NotFound(InkStation, code))
            && (r.status == Failed <==> resp == Some(Garbled))
            && (r.status == NotAvailable <==> resp.None? || (resp.value.Page? && ChooseProduct(resp.value).None?))
            && (resp.Some? && resp.value.Page? && ChooseProduct(resp.value).Some? ==>
                  var p := ChooseProduct(resp.value).value;
                  r.title == Title(p) && r.price == Price(p) && r.status == StockStatus(p.texts))
    ensures r.title != "" && r.price != ""
  {
    match MakeRequest(attempts, MaxRetries).response
    case None => NotFound(InkStation, code)
    case Some(page) =>
      if page.Garbled? then ErrorResult(InkStation, code)
      else match ChooseProduct(page)
      case None => NotFound(InkStation, code)
      case Some(p) =>
        ScrapeResult(code, Title(p), Price(p), InkStation, StockStatus(p.texts), InkStation.SearchUrl(code))
  }

  /** The adapter reports "Not Found" whenever no attempt within the budget
      of three answered 200 before a 404 ended the retries. */
  lemma NotFoundWhenNoResponse(code: string, attempts: Feed<Attempt<Page>>)
    ensures (forall k: nat :: k < MaxRetries && IsOk(attempts.At(k)) ==>
               exists j: nat :: j < k && IsFinal(attempts.At(j)))
            ==> Scrape(code, attempts) == NotFound(InkStation, code)
  {
    MakeRequestSucceedsIff(attempts, MaxRetries);
  }

  /** A title found by any title lookup that yields real text beats the
      "N/A" placeholder: the record's title is "N/A" only when every found
      title element yielded "N/A" or the first usable one was empty. */
  lemma TitleIsNAOnlyWithoutText(p: Product)
    requires Title(p) == NA
    ensures var vals := [TitleOf(p.titleLink), TitleOf(p.h2), TitleOf(p.h3), TitleOf(p.nameLink)];
            forall i :: 0 <= i < 4 && vals[i].Some? && vals[i].value != "" && vals[i].value != NA ==>
              exists j :: 0 <= j < i && vals[j] == Some("")
  {
    var vals := [TitleOf(p.titleLink), TitleOf(p.h2), TitleOf(p.h3), TitleOf(p.nameLink)];
    var f := FirstUsable(vals);
    forall i | 0 <= i < 4 && vals[i].Some? && vals[i].value != "" && vals[i].value != NA
      ensures exists j :: 0 <= j < i && vals[j] == Some("")
    {
      assert f.Some? && f.value != NA;
      var k :| 0 <= k < 4 && vals[k] == f && forall j :: 0 <= j < k ==> vals[j].None? || vals[j].value == NA;
      assert f.value == "";
      assert k < i;
    }
  }

  /** The price on any InkStation record is "N/A" or a `clean_price` result. */
  lemma PriceIsCleaned(code: string, attempts: Feed<Attempt<Page>>)
    ensures IsCleanedPrice(Scrape(code, attempts).price)
  {
    var resp := MakeRequest(attempts, MaxRetries).response;
    if resp.Some? && resp.value.Page? && ChooseProduct(resp.value).Some? {
      var p := ChooseProduct(resp.value).value;
      var vals := [PriceOf(p.priceSpan), PriceOf(p.priceDiv), PriceOf(p.priceP)];
      var f := FirstUsable(vals);
      if f.Some? && f.value != "" && f.value != NA {
        var i :| 0 <= i < |vals| && vals[i] == f && forall j :: 0 <= j < i ==> vals[j].None? || vals[j].value == NA;
        var e := [p.priceSpan, p.priceDiv, p.priceP][i];
        assert f.value == CleanPrice(SafeExtractText(e, NA));
        CleanPriceShape(SafeExtractText(e, NA));
      }
    }
  }
}
