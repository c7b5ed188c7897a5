/** The HotToner adapter (scrapers/hottoner_scraper.py) as a decision table
    over what one GET of the search URL showed. */
module HotTonerScraper {
  import opened Wrappers
  import opened Text
  import opened Records
  import opened RequestUtils

  /** The first `li` of the search results list. */
  datatype ListItem = ListItem(
    nameCell: Option<Option<Element>>,  // td.pl-name, and the link inside it
    priceCell: Option<Element>,         // td.pl-our-price
    texts: seq<string>)                 // the item's text nodes, in document order

  /** The parsed page, classified by whether a `div.product-info` exists. */
  datatype Page =
    | DetailPage(
        heading: Option<Element>,             // the first h1
        priceBox: Option<Option<Element>>,    // div.price, and span.price-new inside it
        availability: Option<Option<Element>>, // the text node holding "Availability:", and its parent
        outOfStockBanner: bool)               // a div.OutofStock exists
    | ResultsPage(productList: Option<Option<ListItem>>)  // div.product-list, and its first li

  /** What `requests.get(url)` did: raised, or answered with a status and a page. */
  datatype Fetch = Raised | Reply(status: int, page: Page)

  /** The detail-page status: the availability line decides between In Stock
      and Out of Stock, and the OutofStock banner overrides everything. */
  function DetailStatus(availability: Option<Option<Element>>, banner: bool): (st: Availability)
    ensures st in {Available, InStock, OutOfStock}
    ensures banner ==> st == OutOfStock
    ensures var line := if availability.Some? then Some(SafeExtractText(availability.value, NA)) else None;
            && (st == InStock <==> !banner && line.Some? && Contains(line.value, "InStock"))
            && (st == Available <==>
                  !banner && (line.None? || (!Contains(line.value, "InStock")
                    && !Contains(line.value, "OutOfStock") && !Contains(line.value, "Out of Stock"))))
  {
    var fromLine :=
      match availability
      case Some(parent) =>
        if parent.None? then Available
        else
          var stock := SafeExtractText(parent, NA);
          if Contains(stock, "InStock") then InStock
          else if Contains(stock, "OutOfStock") || Contains(stock, "Out of Stock") then OutOfStock
          else Available
      case None => Available;
    if banner then OutOfStock else fromLine
  }

  predicate MentionsInStock(t: string) {
    Contains(t, "InStock")
  }

  predicate MentionsOutOfStock(t: string) {
    Contains(t, "OutOfStock") || Contains(Lower(t), "out of stock")
  }

  /** The search-page status: an InStock text wins over out-of-stock text. */
  function ListingStatus(texts: seq<string>): (st: Availability)
    ensures st in {Available, InStock, OutOfStock}
    ensures st == InStock <==> exists i :: 0 <= i < |texts| && MentionsInStock(texts[i])
    ensures st == OutOfStock <==>
              (forall i :: 0 <= i < |texts| ==> !MentionsInStock(texts[i]))
              && exists i :: 0 <= i < |texts| && MentionsOutOfStock(texts[i])
  {
    if FirstWhere(texts, MentionsInStock).Some? then InStock
    else if FirstWhere(texts, MentionsOutOfStock).Some? then OutOfStock
    else Available
  }

  /** A title or price field that is present goes through `safe_extract_text`. */
  function DetailTitle(heading: Option<Element>): string {
    if heading.Some? then SafeExtractText(heading, NA) else NA
  }

  function DetailPrice(priceBox: Option<Option<Element>>): string {
    if priceBox.Some? && priceBox.value.Some? then CleanPrice(SafeExtractText(priceBox.value, NA)) else NA
  }

  function ItemTitle(nameCell: Option<Option<Element>>): string {
    if nameCell.Some? && nameCell.value.Some? then SafeExtractText(nameCell.value, NA) else NA
  }

  function ItemPrice(priceCell: Option<Element>): string {
    if priceCell.Some? then CleanPrice(SafeExtractText(priceCell, NA)) else NA
  }

  /** `scrape_hottoner(code)`. */
  function Scrape(code: string, fetch: Fetch): (r: ScrapeResult)
    ensures Describes(r, HotToner, code)
    ensures r.status == Failed <==> fetch.Raised?
    ensures fetch.Raised? ==> r == ErrorResult(HotToner, code)
    ensures fetch.Reply? && fetch.status != 200 ==> r == NotFound(HotToner, code)
    ensures r.status == NotAvailable <==>
              fetch.Reply? && (fetch.status != 200 || (fetch.page.ResultsPage?
                && (fetch.page.productList.None? || fetch.page.productList.value.None?)))
    ensures r.status == NotAvailable ==> r == NotFound(HotToner, code)
    ensures fetch.Reply? && fetch.status == 200 && fetch.page.DetailPage? ==>
              r.status == DetailStatus(fetch.page.availability, fetch.page.outOfStockBanner)
    ensures fetch.Reply? && fetch.status == 200 && fetch.page.ResultsPage? && r.status != NotAvailable ==>
              r.status == ListingStatus(fetch.page.productList.value.value.texts)
  {
    var url := HotToner.SearchUrl(code);
    match fetch
    case Raised => ErrorResult(HotToner, code)
    case Reply(status, page) =>
      if status != 200 then NotFound(HotToner, code)
      else
        match page
        case DetailPage(heading, priceBox, availability, banner) =>
          ScrapeResult(code, DetailTitle(heading), DetailPrice(priceBox), HotToner,
                       DetailStatus(availability, banner), url)
        case ResultsPage(productList) =>
          match productList
          case None => NotFound(HotToner, code)
          case Some(None) => NotFound(HotToner, code)
          case Some(Some(item)) =>
            ScrapeResult(code, ItemTitle(item.nameCell), ItemPrice(item.priceCell), HotToner,
                         ListingStatus(item.texts), url)
  }

  /** On a 200 reply, a title or price element that is missing gives "N/A";
      a found title is the element's stripped text and a found price is
      `clean_price` of it. */
  lemma ScrapedFields(code: string, fetch: Fetch)
    requires fetch.Reply? && fetch.status == 200
    ensures var r := Scrape(code, fetch);
            match fetch.page
            case DetailPage(heading, priceBox, _, _) =>
              && (heading.None? ==> r.title == NA)
              && (heading.Some? ==> r.title == SafeExtractText(heading, NA))
              && (priceBox.None? || priceBox.value.None? ==> r.price == NA)
              && (priceBox.Some? && priceBox.value.Some? ==>
                    r.price == CleanPrice(SafeExtractText(priceBox.value, NA)))
            case ResultsPage(productList) =>
              productList.Some? && productList.value.Some? ==>
                var item := productList.value.value;
                && (item.nameCell.None? || item.nameCell.value.None? ==> r.title == NA)
                && (item.nameCell.Some? && item.nameCell.value.Some? ==>
                      r.title == SafeExtractText(item.nameCell.value, NA))
                && (item.priceCell.None? ==> r.price == NA)
                && (item.priceCell.Some? ==> r.price == CleanPrice(SafeExtractText(item.priceCell, NA)))
  {
  }

  lemma DetailPriceIsCleaned(priceBox: Option<Option<Element>>)
    ensures IsCleanedPrice(DetailPrice(priceBox))
  {
    if priceBox.Some? && priceBox.value.Some? {
      CleanPriceShape(SafeExtractText(priceBox.value, NA));
    }
  }

  lemma ItemPriceIsCleaned(priceCell: Option<Element>)
    ensures IsCleanedPrice(ItemPrice(priceCell))
  {
    if priceCell.Some? {
      CleanPriceShape(SafeExtractText(priceCell, NA));
    }
  }

  /** The price on any HotToner record is "N/A" or a `clean_price` result. */
  lemma PriceIsCleaned(code: string, fetch: Fetch)
    ensures IsCleanedPrice(Scrape(code, fetch).price)
  {
    if fetch.Reply? && fetch.status == 200 {
      match fetch.page
      case DetailPage(_, priceBox, _, _) =>
        DetailPriceIsCleaned(priceBox);
      case ResultsPage(productList) =>
        if productList.Some? && productList.value.Some? {
          ItemPriceIsCleaned(productList.value.value.priceCell);
        }
    }
  }
}
