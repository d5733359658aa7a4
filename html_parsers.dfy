/**
 * `html_parsers.py`: the HTML scrapers keyed by a class-level `hostname`, the
 * constructor that keeps the stripped URL, `ParserManager`'s choice of a parser, and
 * `get_image_info` over a parsed page.
 */
module HtmlParsers {
  import opened Wrappers
  import opened Strings
  import Sites
  import Downloaders

  /** The parser classes that carry a `hostname`. */
  datatype Site = Gelbooru | Konachan | Yandere

  /** The `hostname` table. */
  function Hostname(s: Site): string {
    match s
    case Gelbooru => "gelbooru.com"
    case Konachan => "konachan.com"
    case Yandere => "yande.re"
  }

  /** A parser object: its class and its stripped URL. */
  datatype Parser = Parser(site: Site, url: string)

  /** `Parser.__init__` stores `url.strip()`: the URL without its surrounding whitespace. */
  function NewParser(site: Site, url: string): (p: Parser)
    ensures p.site == site
    ensures exists i :: Surrounded(url, p.url, i)
    ensures p.url == [] || (!IsSpace(p.url[0]) && !IsSpace(p.url[|p.url| - 1]))
  {
    StripSpec(url);
    Parser(site, Strip(url))
  }

  /** The order `determine_parser` tests the hostnames in. */
  const Order: seq<Site> := [Gelbooru, Konachan, Yandere]

  /** `url.find(hostname) != -1`. */
  predicate Matches(s: Site, url: string) {
    Contains(url, Hostname(s))
  }

  /**
   * `ParserManager.determine_parser`: the first class in the order Gelbooru, Konachan,
   * yande.re whose hostname occurs in the URL, constructed on it; otherwise
   * `NotImplementedError`.
   */
  function DetermineParser(url: string): (r: Result<Parser, string>)
    ensures r.Success? <==> Sites.FirstIndex(Order, (s: Site) => Matches(s, url)).Some?
    ensures r.Success? ==>
              r.value.site == Order[Sites.FirstIndex(Order, (s: Site) => Matches(s, url)).value]
    ensures r.Success? ==> exists i :: OccursAt(url, Hostname(r.value.site), i)
    ensures r.Failure? ==> r.error == "Parser for (" + url + ") does not exist yet"
  {
    assert Order[1..] == [Konachan, Yandere] && Order[1..][1..] == [Yandere];
    if Contains(url, Hostname(Gelbooru)) then
      ContainsIff(url, Hostname(Gelbooru));
      Success(NewParser(Gelbooru, url))
    else if Contains(url, Hostname(Konachan)) then
      ContainsIff(url, Hostname(Konachan));
      Success(NewParser(Konachan, url))
    else if Contains(url, Hostname(Yandere)) then
      ContainsIff(url, Hostname(Yandere));
      Success(NewParser(Yandere, url))
    else
      Failure("Parser for (" + url + ") does not exist yet")
  }

  /** `_get_image_parent`: `find(id='image')` for every site. */
  function ImageParent(s: Site, soup: Sites.Soup): (r: Option<Sites.Element>)
    ensures r.Some? ==> r.value.id == Some("image") && r.value in soup
    ensures r.Some? ==> exists k :: 0 <= k < |soup| && soup[k] == r.value
                                    && forall j :: 0 <= j < k ==> soup[j].id != Some("image")
    ensures r.None? <==> forall j :: 0 <= j < |soup| ==> soup[j].id != Some("image")
  {
    Sites.FindById(soup, "image")
  }

  /** What `_get_link_parent` looks for: the anchor whose string is `Original image` on
      Gelbooru, the element with id `highres` on Konachan and, inherited, on yande.re. */
  predicate IsLinkParent(s: Site, e: Sites.Element)
  {
    if s == Gelbooru then e.name == "a" && e.text == Some("Original image") else e.id == Some("highres")
  }

  /** `_get_link_parent`: the first `Original image` anchor on Gelbooru,
      `find(id='highres')` on Konachan and, inherited, on yande.re. */
  function LinkParent(s: Site, soup: Sites.Soup): (r: Option<Sites.Element>)
    ensures s == Gelbooru && r.Some? ==> r.value.name == "a" && r.value.text == Some("Original image")
    ensures s != Gelbooru && r.Some? ==> r.value.id == Some("highres")
    ensures r.Some? ==> r.value in soup
    ensures r.Some? ==> exists k :: 0 <= k < |soup| && soup[k] == r.value
                                    && forall j :: 0 <= j < k ==> !IsLinkParent(s, soup[j])
    ensures r.None? <==> forall j :: 0 <= j < |soup| ==> !IsLinkParent(s, soup[j])
  {
    match s
    case Gelbooru => Sites.FindOriginalImageLink(soup)
    case _ => Sites.FindById(soup, "highres")
  }

  /** `Parser.get_image_info`, given the parser's page: nothing unless the page has both
      elements; otherwise the words of the image element's `alt` and the resolved `href`
      of the link element. */
  function GetImageInfo(p: Parser, soup: Sites.Soup): (r: Result<Option<Sites.Meta>, string>)
    ensures (r.Success? && r.value.None?) <==> ImageParent(p.site, soup).None? || LinkParent(p.site, soup).None?
    ensures (r.Success? && r.value.None?) <==>
              (forall j :: 0 <= j < |soup| ==> soup[j].id != Some("image"))
              || (forall j :: 0 <= j < |soup| ==> !IsLinkParent(p.site, soup[j]))
    ensures r.Success? && r.value.Some? ==>
              ImageParent(p.site, soup).Some? && LinkParent(p.site, soup).Some? && "alt" in ImageParent(p.site, soup).value.attrs && "href" in LinkParent(p.site, soup).value.attrs
    ensures r.Success? && r.value.Some? ==>
              && r.value.value.tags == Words(ImageParent(p.site, soup).value.attrs["alt"])
              && Success(r.value.value.link) == Sites.LinkFor(p.url, LinkParent(p.site, soup).value.attrs["href"])
  {
    Sites.PageInfo(p.url, ImageParent(p.site, soup), LinkParent(p.site, soup))
  }

  /** The yande.re parser differs from Konachan's only in its hostname: on the same
      URL and page it extracts the same thing. */
  lemma YandereReusesKonachan(url: string, soup: Sites.Soup)
    ensures Hostname(Yandere) != Hostname(Konachan)
    ensures GetImageInfo(Parser(Yandere, url), soup) == GetImageInfo(Parser(Konachan, url), soup)
  {
  }

  /** Both managers dispatch on the same hosts in the same order: a URL gets a parser
      exactly when it gets a downloader, for the same site, with the same stored URL. */
  lemma SameDispatchAsDownloaders(url: string, credentials: Downloaders.Credentials)
    ensures DetermineParser(url).Success? <==> Downloaders.DetermineDownloader(url, credentials).Success?
    ensures DetermineParser(url).Success? ==>
              var p, d := DetermineParser(url).value, Downloaders.DetermineDownloader(url, credentials).value;
              p.url == d.url
              && (p.site == Gelbooru <==> d.kind == Downloaders.GelbooruApi)
              && (p.site == Konachan <==> d.kind == Downloaders.Konachan)
              && (p.site == Yandere <==> d.kind == Downloaders.Yandere)
  {
    ContainsIff(url, Hostname(Gelbooru));
    ContainsIff(url, Hostname(Konachan));
    ContainsIff(url, Hostname(Yandere));
    assert Matches(Gelbooru, url) == Downloaders.Supports(Downloaders.GelbooruApi, url);
    assert Matches(Konachan, url) == Downloaders.Supports(Downloaders.Konachan, url);
    assert Matches(Yandere, url) == Downloaders.Supports(Downloaders.Yandere, url);
  }
}
