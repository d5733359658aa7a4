/**
 * `downloaders.py`: the downloader classes, each with a static `supports` test on the
 * URL, the constructor that keeps the stripped URL, `DownloaderManager`'s choice of a
 * downloader, and the HTML downloaders' `get_image_info` over a parsed page.
 */
module Downloaders {
  import opened Wrappers
  import opened Strings
  import Sites

  /** The downloader classes: the base class, the Gelbooru API client, and the HTML
      scrapers for Gelbooru, Konachan and yande.re. */
  datatype Kind = Base | GelbooruApi | GelbooruHtml | Konachan | Yandere

  /** The host string a class's `supports` looks for. */
  function Host(k: Kind): string
    requires k != Base
  {
    match k
    case GelbooruApi => "gelbooru.com"
    case GelbooruHtml => "gelbooru.com"
    case Konachan => "konachan.com"
    case Yandere => "yande.re"
  }

  /** `supports(url)`: `url.find(host) != -1`, and always false for the base class. */
  function Supports(k: Kind, url: string): (b: bool)
    ensures b <==> k != Base && exists i :: OccursAt(url, Host(k), i)
  {
    if k == Base then false
    else
      ContainsIff(url, Host(k));
      Contains(url, Host(k))
  }

  /** `config['credentials']['gelbooru']`. */
  datatype Credentials = Credentials(apiKey: string, userId: string)

  /** A downloader object: its class, its stripped URL, and the API credentials of a
      Gelbooru API client. */
  datatype Downloader = Downloader(kind: Kind, url: string, credentials: Option<Credentials>)

  /** The constructors: every one stores `url.strip()`, which is the URL with its
      surrounding whitespace, and only that, removed. */
  function NewDownloader(kind: Kind, url: string, credentials: Option<Credentials>): (d: Downloader)
    ensures d.kind == kind && d.credentials == credentials
    ensures exists i :: Surrounded(url, d.url, i)
    ensures d.url == [] || (!IsSpace(d.url[0]) && !IsSpace(d.url[|d.url| - 1]))
  {
    StripSpec(url);
    Downloader(kind, Strip(url), credentials)
  }

  /** The order `determine_downloader` tries the classes in; the HTML Gelbooru branch is
      commented out. */
  const Order: seq<Kind> := [GelbooruApi, Konachan, Yandere]

  /** The first class of `Order` that supports `url`. */
  function FirstSupporting(url: string): Option<nat> {
    Sites.FirstIndex(Order, (k: Kind) => Supports(k, url))
  }

  /**
   * `DownloaderManager.determine_downloader`: the first class in the order Gelbooru
   * API, Konachan, yande.re whose `supports` accepts the URL, constructed on it (the
   * API client with the configured credentials); a URL no class supports raises
   * `NotImplementedError`. The HTML Gelbooru scraper and the base class never come back.
   */
  function DetermineDownloader(url: string, credentials: Credentials): (r: Result<Downloader, string>)
    ensures r.Success? <==> FirstSupporting(url).Some?
    ensures r.Success? ==> r.value.kind == Order[FirstSupporting(url).value]
    ensures r.Success? ==> r.value.kind != GelbooruHtml && r.value.kind != Base
    ensures r.Success? ==> (r.value.credentials == Some(credentials) <==> r.value.kind == GelbooruApi)
    ensures r.Success? ==> (r.value.credentials.None? <==> r.value.kind != GelbooruApi)
    ensures r.Failure? ==> r.error == "Parser for (" + url + ") does not exist yet"
  {
    assert Order[1..] == [Konachan, Yandere] && Order[1..][1..] == [Yandere];
    if Supports(GelbooruApi, url) then
      Success(NewDownloader(GelbooruApi, url, Some(credentials)))
    else if Supports(Konachan, url) then
      Success(NewDownloader(Konachan, url, None))
    else if Supports(Yandere, url) then
      Success(NewDownloader(Yandere, url, None))
    else
      Failure("Parser for (" + url + ") does not exist yet")
  }

  /** A URL naming two hosts goes to the class tried first: a Gelbooru URL that also
      mentions konachan.com still gets the API client. */
  lemma FirstMatchWins(url: string, credentials: Credentials)
    requires Supports(GelbooruApi, url) && Supports(Konachan, url)
    ensures DetermineDownloader(url, credentials).Success?
    ensures DetermineDownloader(url, credentials).value.kind == GelbooruApi
  {
    assert Order[0] == GelbooruApi;
  }

  /** The element holding the image and its tags: `find(id='image')`. */
  function ImageParent(soup: Sites.Soup): (r: Option<Sites.Element>)
    ensures r.Some? ==> r.value.id == Some("image") && r.value in soup
    ensures r.Some? ==> exists k :: 0 <= k < |soup| && soup[k] == r.value
                                    && forall j :: 0 <= j < k ==> soup[j].id != Some("image")
    ensures r.None? <==> forall j :: 0 <= j < |soup| ==> soup[j].id != Some("image")
  {
    Sites.FindById(soup, "image")
  }

  /** `_get_link_parent` of an HTML downloader: the first `Original image` anchor on
      Gelbooru, the first element with id `highres` on Konachan and yande.re. */
  function LinkParent(k: Kind, soup: Sites.Soup): (r: Option<Sites.Element>)
    requires k in {GelbooruHtml, Konachan, Yandere}
    ensures k == GelbooruHtml && r.Some? ==> r.value.name == "a" && r.value.text == Some("Original image")
    ensures k != GelbooruHtml && r.Some? ==> r.value.id == Some("highres")
    ensures r.Some? ==> r.value in soup
    ensures r.Some? ==> exists i :: 0 <= i < |soup| && soup[i] == r.value
                                    && forall j :: 0 <= j < i ==> !IsLinkParent(k, soup[j])
    ensures r.None? <==> forall j :: 0 <= j < |soup| ==> !IsLinkParent(k, soup[j])
  {
    if k == GelbooruHtml then Sites.FindOriginalImageLink(soup) else Sites.FindById(soup, "highres")
  }

  /** What an HTML downloader's `_get_link_parent` looks for: the anchor whose string is
      `Original image` on Gelbooru, the element with id `highres` on Konachan and yande.re. */
  predicate IsLinkParent(k: Kind, e: Sites.Element)
  {
    if k == GelbooruHtml then e.name == "a" && e.text == Some("Original image") else e.id == Some("highres")
  }

  /** `HTMLParser.get_image_info` of a downloader, given its page: nothing unless the
      page has both elements; otherwise the words of the image element's `alt` and the
      resolved `href` of the link element. */
  function HtmlImageInfo(d: Downloader, soup: Sites.Soup): (r: Result<Option<Sites.Meta>, string>)
    requires d.kind in {GelbooruHtml, Konachan, Yandere}
    ensures (r.Success? && r.value.None?) <==> ImageParent(soup).None? || LinkParent(d.kind, soup).None?
    ensures (r.Success? && r.value.None?) <==>
              (forall j :: 0 <= j < |soup| ==> soup[j].id != Some("image"))
              || (forall j :: 0 <= j < |soup| ==> !IsLinkParent(d.kind, soup[j]))
    ensures r.Success? && r.value.Some? ==>
              ImageParent(soup).Some? && LinkParent(d.kind, soup).Some? && "alt" in ImageParent(soup).value.attrs && "href" in LinkParent(d.kind, soup).value.attrs
    ensures r.Success? && r.value.Some? ==>
              && r.value.value.tags == Words(ImageParent(soup).value.attrs["alt"])
              && Success(r.value.value.link) == Sites.LinkFor(d.url, LinkParent(d.kind, soup).value.attrs["href"])
  {
    Sites.PageInfo(d.url, ImageParent(soup), LinkParent(d.kind, soup))
  }

  /** The HTML downloaders report nothing for a page lacking the `image` element. */
  lemma NoImageNoInfo(d: Downloader, soup: Sites.Soup)
    requires d.kind in {GelbooruHtml, Konachan, Yandere}
    requires forall j :: 0 <= j < |soup| ==> soup[j].id != Some("image")
    ensures HtmlImageInfo(d, soup) == Success(None)
  {
  }
}
