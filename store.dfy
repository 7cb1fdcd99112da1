/**
 * The link store: the `Urls` table that `save_to_db` fills with
 * `INSERT OR IGNORE`. The table has an auto-incremented `id` and a `url`
 * column declared `NOT NULL UNIQUE`; only that insert-if-absent contract is
 * modelled, not the database engine.
 */
module Store {

  datatype Row = Row(id: nat, url: string)

  function UrlsOf(rows: seq<Row>): (r: set<string>)
  {
    set r | r in rows :: r.url
  }

  lemma UrlsOfAppend(rows: seq<Row>, r: Row)
    ensures UrlsOf(rows + [r]) == UrlsOf(rows) + {r.url}
  {
  }

  /** The UNIQUE constraint on the `url` column. */
  predicate UniqueUrls(rows: seq<Row>)
  {
    forall i, j :: 0 <= i < j < |rows| ==> rows[i].url != rows[j].url
  }

  /** Because URLs are unique, the table has exactly one row per stored URL. */
  lemma {:induction false} UniqueRowsCount(rows: seq<Row>)
    requires UniqueUrls(rows)
    ensures |UrlsOf(rows)| == |rows|
  {
    if rows != [] {
      var init := rows[..|rows| - 1];
      var last := rows[|rows| - 1];
      assert rows == init + [last];
      UniqueRowsCount(init);
      assert UrlsOf(rows) == UrlsOf(init) + {last.url};
      assert last.url !in UrlsOf(init) by {
        forall r | r in init ensures r.url != last.url {
          var k :| 0 <= k < |init| && init[k] == r;
          assert rows[k] == r;
        }
      }
    }
  }

  /** Saving `urls` adds exactly one row per URL that was not stored before. */
  lemma SavedRowCount(before: seq<Row>, after: seq<Row>, urls: set<string>)
    requires UniqueUrls(before) && UniqueUrls(after)
    requires UrlsOf(after) == UrlsOf(before) + urls
    ensures |after| == |before| + |urls - UrlsOf(before)|
  {
    UniqueRowsCount(before);
    UniqueRowsCount(after);
    assert UrlsOf(after) == UrlsOf(before) + (urls - UrlsOf(before));
  }

  class LinkStore {
    var rows: seq<Row>
    /** AUTOINCREMENT's counter: every id handed out from now on is at least this. */
    var nextId: nat

    ghost predicate Valid()
      reads this
    {
      && 1 <= nextId
      && UniqueUrls(rows)
      && (forall i :: 0 <= i < |rows| ==> 1 <= rows[i].id < nextId)
      && (forall i, j :: 0 <= i < j < |rows| ==> rows[i].id < rows[j].id)
    }

    function Urls(): (r: set<string>)
      reads this
    {
      UrlsOf(rows)
    }

    /** A freshly created, empty `Urls` table. */
    constructor ()
      ensures Valid() && rows == [] && nextId == 1
    {
      rows := [];
      nextId := 1;
    }

    /** `DROP TABLE IF EXISTS Urls`, after which the next save recreates an empty table. */
    method Reset()
      modifies this
      ensures Valid() && rows == [] && nextId == 1
    {
      rows := [];
      nextId := 1;
    }

    /**
     * `INSERT OR IGNORE INTO Urls (url) VALUES (?)`: a present URL adds no row.
     * AUTOINCREMENT promises only increasing ids, so a new row gets some id at
     * least `nextId`, and the counter may advance even when the insert is
     * ignored, leaving a gap.
     */
    method InsertOrIgnore(url: string)
      requires Valid()
      modifies this
      ensures Valid()
      ensures Urls() == old(Urls()) + {url}
      ensures old(rows) <= rows
      ensures nextId >= old(nextId)
      ensures url in old(Urls()) ==> rows == old(rows)
      ensures url !in old(Urls()) ==>
                && |rows| == |old(rows)| + 1
                && rows[|old(rows)|].url == url
                && rows[|old(rows)|].id >= old(nextId)
    {
      var id: nat :| id >= nextId;
      if url !in Urls() {
        assert forall i :: 0 <= i < |rows| ==> rows[i] in rows;
        UrlsOfAppend(rows, Row(id, url));
        rows := rows + [Row(id, url)];
        nextId := id + 1;
      } else {
        nextId := id;
      }
    }

    /**
     * `save_to_db(urls)`: every URL of `urls` is inserted if absent. Existing rows
     * are kept as they were, the stored URL set becomes the union (so, by
     * `SavedRowCount`, one row is added per URL that was new), and saving URLs
     * that are all present changes nothing, so a second save of the same set
     * is a no-op.
     */
    method SaveAll(urls: set<string>)
      requires Valid()
      modifies this
      ensures Valid()
      ensures old(rows) <= rows
      ensures Urls() == old(Urls()) + urls
      ensures urls <= old(Urls()) ==> rows == old(rows)
    {
      var rest := urls;
      ghost var done: set<string> := {};
      while rest != {}
        invariant rest <= urls && done == urls - rest
        invariant Valid()
        invariant old(rows) <= rows
        invariant Urls() == old(Urls()) + done
        invariant urls <= old(Urls()) ==> rows == old(rows)
        decreases rest
      {
        var u :| u in rest;
        InsertOrIgnore(u);
        rest, done := rest - {u}, done + {u};
      }
    }
  }

  /**
   * Saving a set into a new table stores exactly that set, one row per URL,
   * and saving the same set again leaves every row as it was.
   */
  method SaveTwiceKeepsRows(urls: set<string>) returns (first: seq<Row>, second: seq<Row>)
    ensures UrlsOf(first) == urls && |first| == |urls|
    ensures second == first
  {
    var store := new LinkStore();
    store.SaveAll(urls);
    first := store.rows;
    SavedRowCount([], first, urls);
    store.SaveAll(urls);
    second := store.rows;
  }
}
