/** The result record every scraper returns: the dictionary with keys
    OEM_CODE, Title, Price, Website, Status and URL. */
module Records {

  /** The two retail sites; `Name` is the record's Website value. */
  datatype Site = HotToner | InkStation {
    function Name(): string {
      match this
      case HotToner => "HotToner"
      case InkStation => "InkStation"
    }

    /** The search URL the adapter requests for a code. */
    function SearchUrl(code: string): (url: string)
      ensures |url| == |SearchPrefix()| + |code|
      ensures url[..|SearchPrefix()|] == SearchPrefix() && url[|SearchPrefix()|..] == code
    {
      SearchPrefix() + code
    }

    function SearchPrefix(): string {
      match this
      case HotToner => HotTonerPrefix
      case InkStation => InkStationPrefix
    }
  }

  /** The search pages of the two sites; a record's URL is one of these
      followed by the code. */
  const HotTonerPrefix: string := "https://www.hottoner.com.au/index.php?route=product/search&filter_cartridge="
  const InkStationPrefix: string := "https://www.inkstation.com.au/search?keywords="

  /** The Status value of a record. */
  datatype Availability = Available | InStock | OutOfStock | NotAvailable | Failed {
    function Label(): string {
      match this
      case Available => "Available"
      case InStock => "In Stock"
      case OutOfStock => "Out of Stock"
      case NotAvailable => "Not Available"
      case Failed => "Error"
    }
  }

  datatype ScrapeResult = ScrapeResult(
    oemCode: string,
    title: string,
    price: string,
    website: Site,
    status: Availability,
    url: string)

  /** The record returned when the site has no product for the code. */
  function NotFound(site: Site, code: string): ScrapeResult {
    ScrapeResult(code, "Not Found", "N/A", site, NotAvailable, site.SearchUrl(code))
  }

  /** The record returned when anything raised while scraping. */
  function ErrorResult(site: Site, code: string): ScrapeResult {
    ScrapeResult(code, "Error", "N/A", site, Failed, site.SearchUrl(code))
  }

  /** The fields every record of `site` for `code` carries, on every path. */
  predicate Describes(r: ScrapeResult, site: Site, code: string) {
    r.oemCode == code && r.website == site && r.url == site.SearchUrl(code)
  }

  /** The search URL identifies the code: the record's URL alone determines
      which code was looked up. */
  lemma SearchUrlInjective(site: Site, a: string, b: string)
    requires site.SearchUrl(a) == site.SearchUrl(b)
    ensures a == b
  {
    assert a == site.SearchUrl(a)[|site.SearchPrefix()|..];
  }
}
