/**
 * `main`: check the seed URL, reset the store, and crawl from the seed with
 * the fixed depth.
 */
module Program {
  import opened Wrappers
  import opened Pages
  import opened Store
  import opened Traversal
  import opened SeedUrl

  /** The fixed crawl depth. */
  const Depth: nat := 6

  /**
   * Runs the crawler on the command line `argv` against `store`, the database
   * file. A missing or malformed seed, or one that `urlparse` raises on, ends
   * the run with exit status 1 before the store is touched. Otherwise the store is emptied, the crawl runs from
   * the seed against the seed's scheme and host, and the run ends with status 0
   * whatever happened to individual pages. Afterwards the store holds exactly
   * the links of the visited pages, the seed and every link of the seed are among them, every visited page
   * lies within `Depth` levels of the seed, and no page was requested twice.
   */
  method Run(argv: seq<string>, web: Web, store: LinkStore) returns (exitCode: int, crawler: Crawler?)
    modifies store
    ensures exitCode == 0 || exitCode == 1
    ensures exitCode == 0 <==> |argv| >= 2 && SeedMatches(argv[1]) && web.origin(argv[1]).Ok?
    ensures exitCode == 1 ==> unchanged(store) && crawler == null
    ensures exitCode == 0 ==>
              && crawler != null && crawler.Valid() && crawler.store == store
              && crawler.baseUrl == web.origin(argv[1]).value
              && store.Urls() == SavedBy(web, crawler.baseUrl, crawler.visited)
              && argv[1] in crawler.visited
              && Children(web, crawler.baseUrl, argv[1]) <= crawler.visited
              && (forall x :: x in crawler.visited ==> Reachable(web, crawler.baseUrl, argv[1], x, Depth))
  {
    if |argv| < 2 {
      return 1, null;
    }
    var seed := argv[1];
    if !SeedMatches(seed) {
      return 1, null;
    }
    var parsed := web.origin(seed);
    if parsed.Raised? {
      // the exception passes through `finally` and ends the process with status 1
      return 1, null;
    }
    var base := parsed.value;
    store.Reset();
    crawler := new Crawler(web, base, store);
    crawler.Scrap(seed, Depth);
    exitCode := 0;
  }
}
