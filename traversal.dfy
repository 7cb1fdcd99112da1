/**
 * `recursive_url_scrap`: the depth-bounded, visited-aware traversal.
 *
 * The Python function receives the caller's `visited` set and mutates it in
 * place; here the set is a field of a `Crawler` object that owns it for the
 * run, together with the link store and the log of pages requested from the
 * web (one entry per call of `get_links_from_page`).
 */
module Traversal {
  import opened Wrappers
  import opened Html
  import opened Pages
  import opened Store

  /** The links a page hands to the store and to the recursion; a page whose handling raises hands over none. */
  function Children(web: Web, base: string, url: string): (r: set<string>)
  {
    match LinksOf(web, base, url)
    case Ok(links) => links
    case Raised => {}
  }

  /**
   * `x` is a page that a crawl from `url` with `depth` levels left may explore:
   * none at depth 0, otherwise `url` itself and what each of its links may
   * reach one level down.
   */
  ghost predicate Reachable(web: Web, base: string, url: string, x: string, depth: nat)
    decreases depth
  {
    depth > 0 && (x == url || exists w :: w in Children(web, base, url) && Reachable(web, base, w, x, depth - 1))
  }

  /** Everything saved while exploring `pages`: the union of their link sets. */
  ghost function SavedBy(web: Web, base: string, pages: set<string>): (r: set<string>)
  {
    set v, u | v in pages && u in Children(web, base, v) :: u
  }

  predicate Distinct(s: seq<string>)
  {
    forall i, j :: 0 <= i < j < |s| ==> s[i] != s[j]
  }

  function Elems(s: seq<string>): (r: set<string>)
  {
    set x | x in s
  }

  /** A link of `url` can reach, one level down, only what `url` itself can reach. */
  lemma ReachThroughLink(web: Web, base: string, url: string, link: string, x: string, depth: nat)
    requires depth >= 1 && link in Children(web, base, url)
    requires Reachable(web, base, link, x, depth - 1)
    ensures Reachable(web, base, url, x, depth)
  {
  }

  /** A crawl with one level left explores its own page and nothing else. */
  lemma ReachAtDepthOne(web: Web, base: string, url: string, x: string)
    ensures Reachable(web, base, url, x, 1) <==> x == url
  {
  }

  /** The bound `Reachable` grows with depth (a bound only: one crawl with more depth may visit fewer pages, since set order decides which path marks a page visited first). */
  lemma {:induction false} ReachGrowsWithDepth(web: Web, base: string, url: string, x: string, depth: nat)
    requires Reachable(web, base, url, x, depth)
    ensures Reachable(web, base, url, x, depth + 1)
    decreases depth
  {
    if x != url {
      var w :| w in Children(web, base, url) && Reachable(web, base, w, x, depth - 1);
      ReachGrowsWithDepth(web, base, w, x, depth - 1);
    }
  }

  /** Exploring one more page adds exactly that page's links to what is saved. */
  lemma SavedByAdd(web: Web, base: string, pages: set<string>, url: string)
    ensures SavedBy(web, base, pages + {url}) == SavedBy(web, base, pages) + Children(web, base, url)
  {
  }

  /** Appending a new URL to a duplicate-free log keeps it duplicate-free. */
  lemma DistinctAppend(s: seq<string>, x: string)
    requires Distinct(s) && x !in Elems(s)
    ensures Distinct(s + [x]) && Elems(s + [x]) == Elems(s) + {x}
  {
  }

  /** A duplicate-free log has one entry per distinct URL. */
  lemma {:induction false} DistinctCount(s: seq<string>)
    requires Distinct(s)
    ensures |Elems(s)| == |s|
  {
    if s != [] {
      var init := s[..|s| - 1];
      assert s == init + [s[|s| - 1]];
      assert Distinct(init);
      DistinctCount(init);
      assert s[|s| - 1] !in Elems(init) by {
        forall x | x in init ensures x != s[|s| - 1] {
          var k :| 0 <= k < |init| && init[k] == x;
          assert s[k] == x;
        }
      }
      assert Elems(s) == Elems(init) + {s[|s| - 1]};
    }
  }

  class Crawler {
    const web: Web
    const baseUrl: string
    const store: LinkStore
    /** The URLs the store held before this crawler saved anything. */
    ghost const preexisting: set<string>
    var visited: set<string>
    /** The pages handed to `get_links_from_page`, in order. */
    var fetchLog: seq<string>

    /**
     * Each page is requested at most once, exactly the visited pages have been
     * requested, and the store holds what it held before plus the links of
     * every visited page.
     */
    ghost predicate Valid()
      reads this, store
    {
      && store.Valid()
      && Distinct(fetchLog)
      && Elems(fetchLog) == visited
      && store.Urls() == preexisting + SavedBy(web, baseUrl, visited)
    }

    /** A crawl of a fresh run: nothing visited, nothing requested. */
    constructor (web: Web, baseUrl: string, store: LinkStore)
      requires store.Valid()
      ensures Valid()
      ensures this.web == web && this.baseUrl == baseUrl && this.store == store
      ensures visited == {} && fetchLog == [] && preexisting == store.Urls()
    {
      this.web := web;
      this.baseUrl := baseUrl;
      this.store := store;
      preexisting := store.Urls();
      visited := {};
      fetchLog := [];
    }

    /** `get_links_from_page(url, base_url)`: one request to the web, then filter and resolve. */
    method GetLinksFromPage(url: string) returns (r: Result<set<string>>)
      modifies this`fetchLog
      ensures fetchLog == old(fetchLog) + [url]
      ensures r == LinksOf(web, baseUrl, url)
    {
      fetchLog := fetchLog + [url];
      match web.getPage(url)
      case Escaped =>
        r := Raised;
      case Body(html) =>
        if html == "" {
          return Ok({});
        }
        match web.tokenize(html)
        case Raised =>
          return Raised;
        case Ok(tags) =>
          var parser := new WikiParser();
          var ok := parser.Feed(tags);
          if !ok {
            return Raised;
          }
          assert parser.links == Collect(tags).value;
          r := Ok(set raw | raw in parser.links :: Resolve(web, baseUrl, raw));
    }

    /**
     * The work of a `recursive_url_scrap` frame before its recursion: mark the
     * page visited, get its links and save them. An exception while fetching
     * or filtering the page is caught by the frame: nothing is saved and there
     * is nothing to recurse into, so the frame hands back no links.
     */
    method Visit(url: string) returns (links: set<string>)
      requires Valid() && url !in visited
      modifies this, store
      ensures Valid()
      ensures visited == old(visited) + {url} && fetchLog == old(fetchLog) + [url]
      ensures old(store.rows) <= store.rows
      ensures links == Children(web, baseUrl, url)
    {
      DistinctAppend(fetchLog, url);
      SavedByAdd(web, baseUrl, visited, url);
      visited := visited + {url};
      var r := GetLinksFromPage(url);
      match r
      case Raised =>
        assert Children(web, baseUrl, url) == {};
        links := {};
      case Ok(ls) =>
        assert Children(web, baseUrl, url) == ls;
        store.SaveAll(ls);
        links := ls;
    }

    /**
     * `recursive_url_scrap(base_url, url, db_name, depth, visited)`.
     * With no depth left or an already visited page it changes nothing.
     * Otherwise the page is marked visited before anything else, its links are
     * saved before any of them is explored, and every link is explored with
     * one level less.
     */
    method Scrap(url: string, depth: nat)
      requires Valid()
      modifies this, store
      decreases depth
      ensures Valid()
      ensures old(visited) <= visited && old(fetchLog) <= fetchLog && old(store.rows) <= store.rows
      ensures depth == 0 || url in old(visited) ==> unchanged(this) && unchanged(store)
      ensures depth > 0 ==> url in visited
      ensures forall x :: x in visited && x !in old(visited) ==> Reachable(web, baseUrl, url, x, depth)
      ensures depth > 1 && url !in old(visited) ==> Children(web, baseUrl, url) <= visited
    {
      if depth == 0 || url in visited {
        return;
      }
      var links := Visit(url);
      var rest := links;
      while rest != {}
        invariant rest <= links
        invariant Valid()
        invariant old(visited) + {url} <= visited
        invariant old(fetchLog) <= fetchLog && old(store.rows) <= store.rows
        invariant forall x :: x in visited && x !in old(visited) ==> Reachable(web, baseUrl, url, x, depth)
        invariant depth > 1 ==> links - rest <= visited
        decreases rest
      {
        var link :| link in rest;
        rest := rest - {link};
        ghost var before := visited;
        Scrap(link, depth - 1);
        forall x | x in visited && x !in before
          ensures Reachable(web, baseUrl, url, x, depth)
        {
          ReachThroughLink(web, baseUrl, url, link, x, depth);
        }
      }
    }
  }

  /**
   * A crawl with depth 1 on an empty store requests the seed page exactly
   * once, visits only the seed, and leaves exactly the seed's links stored;
   * its links are reached with depth 0 and do nothing.
   */
  method ScrapDepthOne(web: Web, base: string, seed: string)
    returns (requested: seq<string>, explored: set<string>, stored: set<string>)
    ensures requested == [seed] && explored == {seed}
    ensures stored == Children(web, base, seed)
  {
    var store := new LinkStore();
    var crawler := new Crawler(web, base, store);
    crawler.Scrap(seed, 1);
    forall x | x in crawler.visited ensures x == seed {
      ReachAtDepthOne(web, base, seed, x);
    }
    assert crawler.visited == {seed};
    DistinctCount(crawler.fetchLog);
    assert crawler.fetchLog == [crawler.fetchLog[0]];
    SavedByAdd(web, base, {}, seed);
    requested, explored, stored := crawler.fetchLog, crawler.visited, store.Urls();
  }
}
