# WikiParser crawler — a Dafny model

WikiParser is a small crawler for Wikipedia's article graph. It starts from a seed
article URL and fetches the page. It keeps the article links of the page: the
`href` values of `<a>` tags that start with `/wiki` and contain no `:`. It resolves
them against the site's base URL and stores them in an SQLite table `Urls` with
insert-if-absent semantics. Then it recurses into every link with one level of
depth less, starting from depth 6. A `visited` set owned by the run makes sure no
page is explored twice.

The model follows `main.py` module by module:

- `Html` (html.dfy) is the link filter. It defines the start-tag token, the article-reference test
  and `Collect`, the links a fresh parser holds after a page is fed to it. The class
  `WikiParser` has the mutable `links` set, `HandleStartTag` (a loop over the
  attributes) and `Feed` (a loop over the tags). Both are proved against `Collect`.
- `Pages` (pages.dfy) is `get_links_from_page` as the function `LinksOf`. The
  outside world is the datatype `Web`: page fetch, HTML tokenizer, `unquote`,
  `urljoin` and the scheme-and-host part of `urlparse`. Each is an uninterpreted
  function.
- `Store` (store.dfy) is the `Urls` table as the class `LinkStore`. It holds rows
  `(id, url)` and AUTOINCREMENT's counter. `InsertOrIgnore` and `SaveAll` model
  `save_to_db`.
- `Traversal` (traversal.dfy) is `recursive_url_scrap` as the class `Crawler`. It
  owns `visited`, the store and `fetchLog`, the log of pages requested from the web.
  `Valid()` is the run invariant:
  - no page has been requested twice;
  - the requested pages are exactly the visited ones;
  - the store holds what it held before plus the links of every visited page.
  `Scrap` is the recursive method. `Visit` is the part of a frame before its loop.
  `Reachable` bounds what a crawl may explore.
- `SeedUrl` (seed.dfy) is the seed check `^https?://[^\s/$.?#].[^\s]*$` under
  Python's `re.match`. It is written two ways: as a left-to-right check, and as a
  piece-by-piece reading of the pattern. A lemma proves the two equivalent.
- `Program` (program.dfy) is `main`: argument and seed check, store reset, crawl.

Behaviour of the code that the model keeps:

- HTMLParser reports an attribute written without a value as `None`. On an anchor
  with a valueless `href`, `None.startswith` raises. The exception leaves `feed` and
  `get_links_from_page` and is caught by the frame of `recursive_url_scrap`. So such
  a page saves nothing and is not recursed into, even if its other anchors are good
  article links. The model follows the code here: the page's result is `Raised`.
- `get_page` turns HTTP and URL errors into `""`, and an empty page gives no links.
  Other exceptions (a body that is not UTF-8, say) escape `get_page`. The frame
  catches them in the same way.
- `urlparse` of the seed runs inside `try`/`finally` with no `except`. When it
  raises (a host such as `[a`), the process ends with status 1 before the table
  is dropped.
- In the seed pattern, `.` accepts whitespace other than a newline as the second
  character after `://`. `$` also matches before a final newline, so
  `"http://ab\n"` is accepted.
- `for link in links` follows Python's set order. The model picks any remaining
  link on each turn. Its contracts state only what holds for every order.

## Model

| member | source | states |
|---|---|---|
| `Html.HrefLinks` | main.py:26-32 | every value the attribute scan accepts is an article reference: it starts with `/wiki` and has no `:` |
| `Html.CollectMeaning` | main.py:21-32 | feeding a page raises exactly when one of its tags is an anchor with a valueless `href`; otherwise the links are exactly the article `href`s of the page's `<a>` tags, and each is an article reference |
| `Html.WikiParser.constructor` | main.py:17-19 | a new parser holds no links |
| `Html.WikiParser.HandleStartTag` | main.py:21-32 | raises exactly on an anchor with a valueless `href`; otherwise adds exactly the tag's article `href`s (none for a tag other than `a`); `links` only grows, and only by article references, even when it raises |
| `Html.WikiParser.Feed` | main.py:79-80 | succeeds exactly when `Collect` does, and then adds exactly `Collect`'s links; `links` only grows, and only by article references |
| `Html.ArticleLinkIsKept` | test_wiki_parser.py:11-14 | `<a href="/wiki/Python">` yields `{"/wiki/Python"}` |
| `Html.NamespacedLinkIsDropped` | test_wiki_parser.py:16-19 | `<a href="/wiki/Python:History">` yields no link |
| `Html.ExternalLinkIsDropped` | test_wiki_parser.py:21-24 | `<a href="https://python.org">` yields no link |
| `Pages.EmptyPageHasNoLinks` | main.py:76-78 | an empty body, which is also what an HTTP or URL error gives, yields the empty link set and no exception |
| `Pages.RaisingPage` | main.py:39-49 | an exception escaping the fetch gives `Raised`; for a non-empty page, an exception of the tokenizer gives `Raised`, and when the tokenizer succeeds the result is `Raised` exactly when some tag of the page raises in the filter |
| `Pages.PageLinksAreResolvedArticleHrefs` | main.py:79-84 | the page's links are exactly the resolved (`unquote`, then `urljoin` with the base) article `href`s of its anchors: nothing else is let through and none is missed |
| `Store.UniqueRowsCount` | main.py:61-64 | with the UNIQUE constraint on `url`, the table has exactly one row per stored URL |
| `Store.SavedRowCount` | main.py:67-68 | after a save that unites the stored URLs with `urls`, the row count grew by exactly the number of URLs that were new |
| `Store.LinkStore.constructor` | main.py:59-65 | a newly created table is empty and consistent, and its ids start at 1 |
| `Store.LinkStore.Reset` | main.py:137-140 | dropping the table leaves it empty, with ids starting again at 1 |
| `Store.LinkStore.InsertOrIgnore` | main.py:68 | a URL already present adds no row; a new URL is appended as one row with an id at least the counter, so ids stay increasing (gaps allowed) and URLs unique; the stored set gains exactly that URL |
| `Store.LinkStore.SaveAll` | main.py:52-69 | existing rows are kept unchanged; the stored URL set becomes the old set united with `urls`; saving URLs that are all present changes nothing; no duplicate URL ever appears |
| `Store.SaveTwiceKeepsRows` | test_wiki_parser.py:31-41 | saving a set into a new table stores exactly that set, one row per URL, and saving it again leaves every row as it was |
| `Traversal.ReachThroughLink` | main.py:101-102 | what a link of a page may reach with one level less, the page may reach with its own depth |
| `Traversal.ReachAtDepthOne` | main.py:93-94 | with one level left, a crawl may explore its own page and nothing else |
| `Traversal.ReachGrowsWithDepth` | main.py:93-102 | the bound `Reachable` grows with depth: a page within `d` levels is within `d + 1` levels (this is about the bound, not about which pages one crawl visits) |
| `Traversal.SavedByAdd` | main.py:99-100 | exploring one more page adds exactly that page's link set to what has been saved |
| `Traversal.DistinctAppend` | main.py:93-96 | requesting a page that is not yet visited keeps the request log free of repeats and adds exactly that page to it |
| `Traversal.DistinctCount` | main.py:93-96 | a request log free of repeats has one entry per distinct page |
| `Traversal.Crawler.constructor` | main.py:143 | a run starts with nothing visited and nothing requested, and the invariant holds |
| `Traversal.Crawler.GetLinksFromPage` | main.py:72-84 | requests the page exactly once and returns `LinksOf` of it |
| `Traversal.Crawler.Visit` | main.py:96-100 | an unvisited page is marked visited and requested once, and its links are saved before anything else happens; on an exception nothing is saved and no links are handed back; the invariant is kept |
| `Traversal.Crawler.Scrap` | main.py:87-104 | terminates on the depth; with depth 0 or a visited page nothing changes; otherwise the page ends up visited; `visited`, the request log and the table only grow; no page is requested twice; the store holds exactly the earlier rows plus the links of the visited pages; every newly visited page is reachable within `depth` levels; with depth above 1 every link of the page ends up visited |
| `Traversal.ScrapDepthOne` | test_wiki_parser.py:70-86 | at depth 1 the seed is requested exactly once and is the only visited page, and the store ends up holding exactly the seed's links |
| `SeedUrl.AcceptedMatchesPattern` | main.py:125-126 | every seed the seed check accepts is `http://` or `https://`, one character outside whitespace and `/$.?#`, one non-newline character, a run without whitespace, and nothing or a final newline |
| `SeedUrl.PatternIsAccepted` | main.py:125-126 | every string of that shape is accepted |
| `SeedUrl.SeedMatchesPattern` | main.py:125-126 | the seed check accepts exactly the strings the pattern describes |
| `SeedUrl.PlainWordIsRejected` | main.py:125-128 | `not-a-url` is refused |
| `SeedUrl.SiteUrlIsAccepted` | main.py:125-126 | `https://en.wikipedia.org` is accepted |
| `SeedUrl.SpaceAsSecondCharacterIsAccepted` | main.py:125-126 | `http://a b` is accepted: the `.` lets a space through |
| `SeedUrl.LaterSpaceIsRejected` | main.py:125-126 | `http://ab c` is refused: whitespace from the third host character on is not allowed |
| `SeedUrl.FinalNewlineIsAccepted` | main.py:125-126 | `http://ab` followed by a newline is accepted, because `$` matches before a final newline |
| `SeedUrl.EmptyHostIsRejected` | main.py:125-126 | `http:///wiki` is refused |
| `Program.Run` | main.py:118-143 | exit status 0 exactly when a second argument exists, matches the seed pattern and `urlparse` does not raise on it, 1 otherwise, and then the store is untouched; after a crawl the store holds exactly the links of the visited pages, the seed and every link of the seed are visited, every visited page is within 6 levels of the seed, and no page was requested twice |

## Left out

- `get_page`'s network access, its `quote` of the URL, the 0.3 s pause and its
  error messages. The fetch is the function `Web.getPage`. It yields a body, where
  `""` stands for a handled HTTP or URL error, or an escaping exception.
- The HTML tokenizer of `HTMLParser`. `Web.tokenize` gives the start tags of a page
  with lower-cased names, or `Raised` when the tokenizer itself raises on
  malformed markup. Data and end tags have no handler in the parser and are not
  modelled.
- `urllib.parse.unquote`, `urljoin` and `urlparse`. They are uninterpreted
  functions of `Web`; `Web.origin` may give `Raised`, as `urlparse` does for a
  host with an unbalanced `[` or `]`. No property of URL joining, such as
  staying on the base host, is claimed.
- The SQLite engine: the connection, `PRAGMA journal_mode=WAL`, transactions and
  the database file name. Only the insert-if-absent contract of `Urls` is
  modelled. AUTOINCREMENT is modelled only as far as SQLite promises it: ids
  increase, and an ignored insert may still advance the counter.
- `Store.LinkStore.SaveAll`: never fails. An SQLite error inside `save_to_db`
  would be caught by the frame of `recursive_url_scrap`; the model does not
  include that path.
- `Traversal.Crawler.Scrap`: `depth` is a natural number. `main` always passes 6,
  and a negative depth, which would never reach the zero test, is not modelled.
- `Traversal.Crawler.Scrap`: the contract bounds the visited pages (the seed, each
  page at most once, only pages within the depth) and does not fix which pages
  are visited. That depends on set iteration order. A page first reached along a
  long path is marked visited with little depth left. It is then not explored
  again along a shorter path.
- Exceptions that `except Exception` does not catch (`KeyboardInterrupt`, task
  cancellation), `shutdown` and the asyncio event loop. The awaited calls run one
  after the other, so the traversal is plain sequential recursion.
- `print` diagnostics, `sys.exit` and the usage message. `Program.Run` returns the
  exit status instead.
