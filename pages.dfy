/**
 * `get_links_from_page`: fetch a page, run the link filter over it and resolve
 * every accepted reference against the site's base URL.
 *
 * Everything the crawler obtains from outside is gathered in `Web`: the page
 * fetch (`get_page`, including its percent-encoding of the URL and its pause),
 * the HTML tokenizer, and the URL library's `unquote`, `urljoin` and the
 * scheme-and-host part of `urlparse`. These are uninterpreted here.
 */
module Pages {
  import opened Wrappers
  import opened Html

  /**
   * What `get_page` gives back: the decoded body, which is "" when the server
   * answered with an HTTP error or the URL could not be reached, or an
   * exception that `get_page` does not catch (a body that is not UTF-8, say).
   */
  datatype Fetch = Body(html: string) | Escaped

  /**
   * `tokenize` gives the start tags `HTMLParser.feed` reports, or `Raised` when
   * the tokenizer itself raises on malformed markup; `origin` gives
   * `scheme + "://" + netloc` of `urlparse`, or `Raised` when `urlparse` raises
   * (an unbalanced `[` or `]` in the host, for one).
   */
  datatype Web = Web(
    getPage: string -> Fetch,
    tokenize: string -> Result<seq<StartTag>>,
    unquote: string -> string,
    urljoin: (string, string) -> string,
    origin: string -> Result<string>)

  /** A raw article reference made absolute: percent-decoded, then joined to the base. */
  function Resolve(web: Web, base: string, raw: string): (r: string)
  {
    web.urljoin(base, web.unquote(raw))
  }

  /**
   * The result of `get_links_from_page(url, base)`: the resolved article links of
   * the page, the empty set for an empty or failed page, or `Raised` when the
   * fetch or the link filter raises.
   */
  function LinksOf(web: Web, base: string, url: string): (r: Result<set<string>>)
  {
    match web.getPage(url)
    case Escaped => Raised
    case Body(html) =>
      if html == "" then Ok({})
      else
        match web.tokenize(html)
        case Raised => Raised
        case Ok(tags) =>
          match Collect(tags)
          case Raised => Raised
          case Ok(links) => Ok(set raw | raw in links :: Resolve(web, base, raw))
  }

  /** An empty body (which is also what a failed request gives) yields no links and no exception. */
  lemma EmptyPageHasNoLinks(web: Web, base: string, url: string)
    requires web.getPage(url) == Body("")
    ensures LinksOf(web, base, url) == Ok({})
  {
  }

  /**
   * An exception escaping the fetch, an exception of the tokenizer, or a
   * valueless `href` on an anchor of the page yields `Raised`, and nothing else does.
   */
  lemma RaisingPage(web: Web, base: string, url: string)
    ensures web.getPage(url).Escaped? ==> LinksOf(web, base, url).Raised?
    ensures web.getPage(url).Body? && web.getPage(url).html != "" && web.tokenize(web.getPage(url).html).Raised? ==>
              LinksOf(web, base, url).Raised?
    ensures web.getPage(url).Body? && web.getPage(url).html != "" && web.tokenize(web.getPage(url).html).Ok? ==>
              (LinksOf(web, base, url).Raised? <==> exists t :: t in web.tokenize(web.getPage(url).html).value && Raises(t))
  {
    if web.getPage(url).Body? && web.tokenize(web.getPage(url).html).Ok? {
      var tags := web.tokenize(web.getPage(url).html).value;
      CollectMeaning(tags);
      assert forall t :: t in tags <==> exists i :: 0 <= i < |tags| && tags[i] == t;
    }
  }

  /**
   * The links of a page are exactly the resolved article references of its
   * anchors: nothing else is let through and none of them is missed.
   */
  lemma PageLinksAreResolvedArticleHrefs(web: Web, base: string, url: string, x: string)
    requires LinksOf(web, base, url).Ok? && web.getPage(url).html != ""
    ensures x in LinksOf(web, base, url).value <==>
              exists t, raw :: t in web.tokenize(web.getPage(url).html).value && raw in TagLinks(t) && x == Resolve(web, base, raw)
    ensures x in LinksOf(web, base, url).value ==> exists raw :: IsArticleHref(raw) && x == Resolve(web, base, raw)
  {
    var tags := web.tokenize(web.getPage(url).html).value;
    CollectMeaning(tags);
    assert forall t :: t in tags <==> exists i :: 0 <= i < |tags| && tags[i] == t;
  }
}
