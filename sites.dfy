/**
 * What the site parsers share: first-match search over a sequence (used both to pick
 * a parser and to find an element in a page), the parsed page as a sequence of
 * elements in document order, and the rule `get_image_info` uses to turn the image
 * element and the link element into tags and an image link.
 */
module Sites {
  import opened Wrappers
  import opened Strings
  import UrlLib

  /** The position of the first element of `s` that satisfies `p`, if any. */
  function FirstIndex<T>(s: seq<T>, p: T -> bool): (r: Option<nat>)
    ensures r.Some? ==> r.value < |s| && p(s[r.value])
    ensures r.Some? ==> forall j :: 0 <= j < r.value ==> !p(s[j])
    ensures r.None? <==> forall j :: 0 <= j < |s| ==> !p(s[j])
  {
    if s == [] then None
    else if p(s[0]) then Some(0)
    else
      match FirstIndex(s[1..], p)
      case None => None
      case Some(k) => Some(k + 1)
  }

  /** An element of the parsed page: its tag name, `id`, `.string` and attributes. */
  datatype Element = Element(name: string, id: Option<string>, text: Option<string>, attrs: map<string, string>)

  /** The page's elements in document order. */
  type Soup = seq<Element>

  /** The first element satisfying `p`; BeautifulSoup's `find` and the first hit of a
      scan over `find_all`. */
  function FindFirst(soup: Soup, p: Element -> bool): (r: Option<Element>)
    ensures r.Some? ==> exists k :: 0 <= k < |soup| && soup[k] == r.value && p(soup[k])
                                    && forall j :: 0 <= j < k ==> !p(soup[j])
    ensures r.None? <==> forall j :: 0 <= j < |soup| ==> !p(soup[j])
  {
    match FirstIndex(soup, p)
    case None => None
    case Some(k) => Some(soup[k])
  }

  /** `soup.find(id=...)`. */
  function FindById(soup: Soup, id: string): (r: Option<Element>)
    ensures r.Some? ==> exists k :: 0 <= k < |soup| && soup[k] == r.value && soup[k].id == Some(id)
                                    && forall j :: 0 <= j < k ==> soup[j].id != Some(id)
    ensures r.None? <==> forall j :: 0 <= j < |soup| ==> soup[j].id != Some(id)
  {
    FindFirst(soup, (e: Element) => e.id == Some(id))
  }

  /** The `_get_link_parent` scan over `find_all('a')` for the text `Original image`;
      its `''` when nothing is found is falsy, as `None` is. */
  function FindOriginalImageLink(soup: Soup): (r: Option<Element>)
    ensures r.Some? ==> r.value.name == "a" && r.value.text == Some("Original image")
    ensures r.Some? ==> exists k :: 0 <= k < |soup| && soup[k] == r.value
                                    && forall j :: 0 <= j < k ==> !(soup[j].name == "a" && soup[j].text == Some("Original image"))
    ensures r.None? <==> forall j :: 0 <= j < |soup| ==> !(soup[j].name == "a" && soup[j].text == Some("Original image"))
  {
    FindFirst(soup, (e: Element) => e.name == "a" && e.text == Some("Original image"))
  }

  /**
   * The image link for an `href`: one starting with `//` is a network-path reference
   * and is resolved against the page URL with `urljoin`, which keeps the reference's
   * authority and path as they are (unlike section 5.2.2 of RFC 3986, dot segments in
   * that path are not removed) and raises `ValueError` when either URL has an unbalanced bracket in its
   * authority; any other `href` is kept verbatim.
   */
  function LinkFor(pageUrl: string, href: string): (r: Result<string, string>)
    ensures !StartsWith(href, "//") ==> r == Success(href)
    ensures StartsWith(href, "//") && pageUrl == [] ==> r == Success(href)
    ensures r.Failure? <==>
              StartsWith(href, "//") && pageUrl != []
              && (UrlLib.UrlParse(pageUrl, "").Failure?
                  || UrlLib.UrlParse(href, UrlLib.UrlParse(pageUrl, "").value.scheme).Failure?)
    ensures StartsWith(href, "//") && pageUrl != [] && UrlLib.UrlParse(pageUrl, "").Success?
            && UrlLib.UrlParse(pageUrl, "").value.scheme in UrlLib.UsesRelative
            && UrlLib.UrlParse(href, UrlLib.UrlParse(pageUrl, "").value.scheme).Success?
            && UrlLib.UrlParse(href, UrlLib.UrlParse(pageUrl, "").value.scheme).value.netloc != [] ==>
              r.Success?
              && UrlLib.UrlParse(r.value, "") == UrlLib.UrlParse(href, UrlLib.UrlParse(pageUrl, "").value.scheme)
  {
    if StartsWith(href, "//") then
      if pageUrl != [] && UrlLib.UrlParse(pageUrl, "").Success? then
        var scheme := UrlLib.UrlParse(pageUrl, "").value.scheme;
        if scheme in UrlLib.UsesRelative && UrlLib.UrlParse(href, scheme).Success?
           && UrlLib.UrlParse(href, scheme).value.netloc != [] then
          UrlLib.JoinParsesBack(pageUrl, href);
          UrlLib.JoinNetworkPath(pageUrl, href)
        else
          UrlLib.JoinNetworkPath(pageUrl, href)
      else
        UrlLib.JoinNetworkPath(pageUrl, href)
    else
      Success(href)
  }

  /** The dictionary `get_image_info` returns. */
  datatype Meta = Meta(tags: seq<string>, link: string)

  /**
   * `get_image_info` once the two elements are located: nothing unless both are
   * found; otherwise the words of the image's `alt` and the link rule applied to the
   * link's `href`. A missing attribute is a `KeyError`, `alt` being read first, and the
   * link rule's `ValueError` comes last.
   */
  function PageInfo(pageUrl: string, image: Option<Element>, link: Option<Element>)
      : (r: Result<Option<Meta>, string>)
    ensures (r.Success? && r.value.None?) <==> image.None? || link.None?
    ensures r.Failure? <==>
              image.Some? && link.Some?
              && ("alt" !in image.value.attrs || "href" !in link.value.attrs
                  || LinkFor(pageUrl, link.value.attrs["href"]).Failure?)
    ensures r.Failure? && "alt" !in image.value.attrs ==> r.error == "KeyError: 'alt'"
    ensures r.Failure? && "alt" in image.value.attrs && "href" !in link.value.attrs ==>
              r.error == "KeyError: 'href'"
    ensures r.Success? && r.value.Some? ==>
              image.Some? && link.Some? && "alt" in image.value.attrs && "href" in link.value.attrs
    ensures r.Success? && r.value.Some? ==>
              var m := r.value.value;
              && m.tags == Words(image.value.attrs["alt"])
              && (forall i :: 0 <= i < |m.tags| ==> m.tags[i] != [] && NoSpace(m.tags[i]))
              && Success(m.link) == LinkFor(pageUrl, link.value.attrs["href"])
  {
    if image.Some? && link.Some? then
      if "alt" !in image.value.attrs then Failure("KeyError: 'alt'")
      else if "href" !in link.value.attrs then Failure("KeyError: 'href'")
      else
        var alt := image.value.attrs["alt"];
        WordsAreWords(alt);
        match LinkFor(pageUrl, link.value.attrs["href"])
        case Failure(e) => Failure(e)
        case Success(l) => Success(Some(Meta(Words(alt), l)))
    else
      Success(None)
  }
}
