/** The crawl loop shared by the single-machine crawler and the per-machine
    crawler (their `save_article_links`, `get_next_unprocessed_articles`,
    `populate_articles_table` insert, `batch_run` and `get_stats` are the same
    code), and the single-machine `main`. */
module Crawler {
  import opened Tables
  import opened Persistence
  import opened Cleaning

  /** The default `batch_size` of `batch_run()`. */
  const DefaultBatchSize: int := 100

  // ---------------------------------------------------------------------------
  // save_article_links

  /** The file once `save_article_links(title, links)` has committed: the
      article upserted unprocessed, its links inserted with its id, then the
      article marked processed. */
  function SaveLinks(d: Db, title: string, links: seq<string>): Db {
    var d1 := InsertOrIgnoreArticle(d, title, false);
    var id := IdOf(d1, title).value;
    MarkProcessed(InsertOrIgnoreLinks(d1, id, Elems(links)), id)
  }

  /** After a successful save the title is present once and processed, each
      link leaves its id, no existing link or other row's flag changes, and at
      most one row is added. */
  lemma SaveLinksSpec(d: Db, title: string, links: seq<string>)
    requires Valid(d)
    ensures var r := SaveLinks(d, title, links);
      && Valid(r)
      && Titles(r) == Titles(d) + {title}
      && title in ProcessedTitles(r)
      && IdOf(r, title).Some?
      && (forall l :: l in links ==> (IdOf(r, title).value, l) in r.links)
      && d.links <= r.links
      && (forall l :: l in r.links && l !in d.links ==> l.0 == IdOf(r, title).value && l.1 in links)
      && |d.articles| <= |r.articles| <= |d.articles| + 1 && r.nextId == d.nextId + 1
      && (forall i :: 0 <= i < |d.articles| ==>
            r.articles[i].id == d.articles[i].id && r.articles[i].title == d.articles[i].title &&
            (d.articles[i].title != title ==> r.articles[i].processed == d.articles[i].processed))
  {
    var d1 := InsertOrIgnoreArticle(d, title, false);
    var k := Find(d1.articles, title).value;
    IdOfRow(d1, k);
    var id := d1.articles[k].id;
    var d2 := InsertOrIgnoreLinks(d1, id, Elems(links));
    var r := MarkProcessed(d2, id);
    SameRowsValid(d1, r);
    IdOfRow(r, k);
    assert r.articles[k] in r.articles;
    forall i | 0 <= i < |d.articles| && d.articles[i].title != title
      ensures r.articles[i].processed == d.articles[i].processed
    {
      assert d1.articles[i] == d.articles[i];
    }
  }

  /** A save keeps the foreign key: its links leave the saved row. */
  lemma SaveLinksAnchored(d: Db, title: string, links: seq<string>)
    requires Valid(d) && Anchored(d)
    ensures Anchored(SaveLinks(d, title, links))
  {
    var d1 := InsertOrIgnoreArticle(d, title, false);
    var k := Find(d1.articles, title).value;
    var id := d1.articles[k].id;
    var r := SaveLinks(d, title, links);
    IdOfRow(d1, k);
    forall l | l in r.links ensures HasId(r, l.0) {
      if l in d.links {
        var i :| 0 <= i < |d.articles| && d.articles[i].id == l.0;
        assert r.articles[i].id == l.0;
      } else {
        assert r.articles[k].id == l.0;
      }
    }
  }

  /** A second identical save leaves the rows and links as the first one left
      them; only its ignored insert uses up one more id. */
  lemma SaveLinksIdempotent(d: Db, title: string, links: seq<string>)
    requires Valid(d)
    ensures var r := SaveLinks(d, title, links);
      SaveLinks(r, title, links) == r.(nextId := r.nextId + 1)
  {
    var r := SaveLinks(d, title, links);
    SaveLinksSpec(d, title, links);
    var d1 := InsertOrIgnoreArticle(d, title, false);
    var k := Find(d1.articles, title).value;
    IdOfRow(d1, k);
    var id := d1.articles[k].id;
    IdOfRow(r, k);
    assert IdOf(r, title) == Some(id);
    var r1 := InsertOrIgnoreArticle(r, title, false);
    IdOfRow(r1, k);
    var r2 := InsertOrIgnoreLinks(r1, id, Elems(links));
    assert r2 == r.(nextId := r.nextId + 1);
    var r3 := MarkProcessed(r2, id);
    forall i | 0 <= i < |r.articles| ensures r3.articles[i] == r.articles[i] {
      if r.articles[i].id == id {
        SameIdSameRow(r, i, k);
      }
    }
    assert r3.articles == r.articles;
  }

  /** `save_article_links`. `fault` is the point where an exception strikes, if
      one does: `Some(k)` before the (k+1)-th link insert, `Some(|links|)` at the
      update or the commit. The exception handler rolls back. */
  method SaveArticleLinks(store: Store, title: string, links: seq<string>, fault: Option<nat>)
    requires store.Settled()
    requires fault.Some? ==> fault.value <= |links|
    modifies store
    ensures store.Settled()
    ensures store.Snapshot() == if fault.Some? then old(store.Snapshot()) else SaveLinks(old(store.Snapshot()), title, links)
  {
    ghost var d := store.Snapshot();
    store.InsertOrIgnoreArticle(title, false);
    ghost var d1 := store.Snapshot();
    var id := IdOf(store.Snapshot(), title).value;
    var i := 0;
    while i < |links|
      invariant 0 <= i <= |links|
      invariant store.Valid() && store.committed == d
      invariant store.Snapshot() == InsertOrIgnoreLinks(d1, id, Elems(links[..i]))
    {
      if fault == Some(i) {
        store.Rollback();
        return;
      }
      store.InsertOrIgnoreLink(id, links[i]);
      InsertLinksTwice(d1, id, Elems(links[..i]), {links[i]});
      assert links[..i + 1] == links[..i] + [links[i]];
      ElemsSnoc(links[..i], links[i]);
      i := i + 1;
    }
    assert links[..i] == links;
    if fault.Some? {
      store.Rollback();
      return;
    }
    store.MarkProcessed(id);
    store.Commit();
  }

  // ---------------------------------------------------------------------------
  // get_next_unprocessed_articles

  /** SQLite's `LIMIT n`: a negative limit means no limit. */
  function Limit(rows: seq<Article>, limit: int): (r: seq<Article>)
    ensures r <= rows
  {
    if limit < 0 || |rows| <= limit then rows else rows[..limit]
  }

  /** The rows `SELECT title FROM articles WHERE processed = FALSE ORDER BY id LIMIT ?` reads. */
  function NextUnprocessedRows(d: Db, limit: int): seq<Article> {
    Limit(Unprocessed(d.articles), limit)
  }

  /** `get_next_unprocessed_articles(batch_size)`. */
  function NextUnprocessed(d: Db, limit: int): (titles: seq<string>)
    ensures |titles| == |NextUnprocessedRows(d, limit)|
    ensures forall i :: 0 <= i < |titles| ==> titles[i] == NextUnprocessedRows(d, limit)[i].title
  {
    var rows := NextUnprocessedRows(d, limit);
    seq(|rows|, i requires 0 <= i < |rows| => rows[i].title)
  }

  lemma {:induction false} UnprocessedAscending(rows: seq<Article>)
    requires IdsAscending(rows)
    ensures IdsAscending(Unprocessed(rows))
  {
    if rows != [] {
      var init := rows[..|rows| - 1];
      UnprocessedAscending(init);
      forall a | a in Unprocessed(init) ensures a.id < rows[|rows| - 1].id {
        var i :| 0 <= i < |init| && init[i] == a;
      }
    }
  }

  /** The queue query returns at most `limit` rows (any number for a negative
      limit), each unprocessed, in ascending id order, and they are the
      lowest-id unprocessed rows; it returns none exactly when the limit is 0
      or no row is unprocessed. */
  lemma NextUnprocessedSpec(d: Db, limit: int)
    requires Valid(d)
    ensures var r := NextUnprocessedRows(d, limit);
      && (limit >= 0 ==> |r| <= limit)
      && (forall a :: a in r ==> a in d.articles && !a.processed)
      && IdsAscending(r)
      && (forall a :: a in d.articles && !a.processed && a !in r ==>
            |r| == limit && forall b :: b in r ==> b.id < a.id)
      && (r == [] <==> limit == 0 || forall a :: a in d.articles ==> a.processed)
  {
    QueueAscending(d, limit);
    QueueLowest(d, limit);
    QueueEmpty(d, limit);
  }

  lemma QueueAscending(d: Db, limit: int)
    requires Valid(d)
    ensures IdsAscending(NextUnprocessedRows(d, limit))
  {
    UnprocessedAscending(d.articles);
  }

  /** An unprocessed row left out of the batch comes after a full batch. */
  lemma QueueLowest(d: Db, limit: int)
    requires Valid(d)
    ensures var r := NextUnprocessedRows(d, limit);
      forall a :: a in d.articles && !a.processed && a !in r ==>
        |r| == limit && forall b :: b in r ==> b.id < a.id
  {
    var u := Unprocessed(d.articles);
    var r := NextUnprocessedRows(d, limit);
    UnprocessedAscending(d.articles);
    forall a | a in d.articles && !a.processed && a !in r
      ensures |r| == limit && forall b :: b in r ==> b.id < a.id
    {
      var j :| 0 <= j < |u| && u[j] == a;
      assert j >= limit;
      forall b | b in r ensures b.id < a.id {
        var i :| 0 <= i < |r| && r[i] == b;
        assert u[i] == b;
      }
    }
  }

  lemma QueueEmpty(d: Db, limit: int)
    ensures NextUnprocessedRows(d, limit) == [] <==> limit == 0 || forall a :: a in d.articles ==> a.processed
  {
    var u := Unprocessed(d.articles);
    if limit != 0 && exists a :: a in d.articles && !a.processed {
      var a :| a in d.articles && !a.processed;
      assert a in u;
      assert NextUnprocessedRows(d, limit)[0] == u[0];
    }
    if forall a :: a in d.articles ==> a.processed {
      NoneUnprocessed(d.articles);
    }
  }

  // ---------------------------------------------------------------------------
  // batch_run

  /** What `get_article_links` returns for each title. */
  function LinksOf(fetch: string -> FetchResult): string -> seq<string> {
    t => ArticleLinks(fetch(t))
  }

  /** The links that crawling the rows whose ids are in `done` adds. */
  function NewLinks(d: Db, linksOf: string -> seq<string>, done: set<nat>): set<Link> {
    set a, l | a in d.articles && a.id in done && l in linksOf(a.title) :: (a.id, l)
  }

  /** The rows whose ids are in `done`, crawled: each marked processed, with
      the links the fetch of its title yields. Each save's ignored insert
      uses up one id. */
  function Crawled(d: Db, linksOf: string -> seq<string>, done: set<nat>): Db {
    Db(seq(|d.articles|, i requires 0 <= i < |d.articles| =>
         d.articles[i].(processed := d.articles[i].processed || d.articles[i].id in done)),
       d.links + NewLinks(d, linksOf, done),
       d.nextId + |done|)
  }

  function UnprocessedIds(d: Db): set<nat> {
    set a | a in d.articles && !a.processed :: a.id
  }

  /** What a completed `batch_run` leaves: every row that was unprocessed, crawled. */
  function CrawlAll(d: Db, linksOf: string -> seq<string>): Db {
    Crawled(d, linksOf, UnprocessedIds(d))
  }

  lemma CrawledRows(d: Db, linksOf: string -> seq<string>, done: set<nat>)
    requires Valid(d)
    ensures var c := Crawled(d, linksOf, done);
      && SameRows(d, c) && c.nextId == d.nextId + |done| && Valid(c) && Titles(c) == Titles(d)
      && (forall i :: 0 <= i < |d.articles| ==>
            c.articles[i].processed == (d.articles[i].processed || d.articles[i].id in done))
  {
    SameRowsValid(d, Crawled(d, linksOf, done));
  }

  lemma CrawledNothing(d: Db, linksOf: string -> seq<string>)
    ensures Crawled(d, linksOf, {}) == d
  {
    var c := Crawled(d, linksOf, {});
    assert c.articles == d.articles;
    assert NewLinks(d, linksOf, {}) == {};
  }

  lemma NewLinksStep(d: Db, linksOf: string -> seq<string>, done: set<nat>, k: nat)
    requires Valid(d) && k < |d.articles|
    ensures var a := d.articles[k];
      NewLinks(d, linksOf, done + {a.id}) == NewLinks(d, linksOf, done) + Pairs(a.id, Elems(linksOf(a.title)))
  {
    var id := d.articles[k].id;
    forall x | x in NewLinks(d, linksOf, done + {id}) && x !in NewLinks(d, linksOf, done)
      ensures x in Pairs(id, Elems(linksOf(d.articles[k].title)))
    {
      var a, l :| a in d.articles && a.id in done + {id} && l in linksOf(a.title) && x == (a.id, l);
      var i :| 0 <= i < |d.articles| && d.articles[i] == a;
      SameIdSameRow(d, i, k);
    }
    forall x | x in Pairs(id, Elems(linksOf(d.articles[k].title)))
      ensures x in NewLinks(d, linksOf, done + {id})
    {
      assert d.articles[k] in d.articles;
    }
  }

  /** Saving the fetched links of a row that was unprocessed at the start
      extends the crawled set by that row. */
  lemma CrawlStep(d: Db, linksOf: string -> seq<string>, done: set<nat>, k: nat)
    requires Valid(d) && k < |d.articles| && !d.articles[k].processed && d.articles[k].id !in done
    ensures var t := d.articles[k].title;
      SaveLinks(Crawled(d, linksOf, done), t, linksOf(t)) == Crawled(d, linksOf, done + {d.articles[k].id})
  {
    var t, id := d.articles[k].title, d.articles[k].id;
    var c := Crawled(d, linksOf, done);
    var c' := Crawled(d, linksOf, done + {id});
    CrawledRows(d, linksOf, done);
    assert c.articles[k] in c.articles;
    IdOfRow(c, k);
    var c1 := InsertOrIgnoreArticle(c, t, false);
    assert c1 == c.(nextId := c.nextId + 1);
    IdOfRow(c1, k);
    var r := MarkProcessed(InsertOrIgnoreLinks(c1, id, Elems(linksOf(t))), id);
    assert SaveLinks(c, t, linksOf(t)) == r;
    forall i | 0 <= i < |d.articles| ensures r.articles[i] == c'.articles[i] {
      if d.articles[i].id == id {
        SameIdSameRow(d, i, k);
      }
    }
    assert r.articles == c'.articles;
    assert |done + {id}| == |done| + 1;
    NewLinksStep(d, linksOf, done, k);
  }

  lemma ProperSubsetSmaller(a: set<nat>, b: set<nat>, x: nat)
    requires a <= b && x in b && x !in a
    ensures |a| < |b|
  {
    SubsetNotLarger(a, b - {x});
  }

  lemma SubsetNotLarger(a: set<nat>, b: set<nat>)
    requires a <= b
    ensures |a| <= |b|
  {
    if a != {} {
      var y :| y in a;
      SubsetNotLarger(a - {y}, b - {y});
    }
  }

  /** A row the queue query returns was unprocessed at the start of the run
      and has not been crawled since. */
  lemma QueuedRow(d: Db, linksOf: string -> seq<string>, done: set<nat>, limit: int, j: nat)
    requires Valid(d)
    requires j < |NextUnprocessedRows(Crawled(d, linksOf, done), limit)|
    ensures var b := NextUnprocessedRows(Crawled(d, linksOf, done), limit)[j];
      exists k :: 0 <= k < |d.articles| && d.articles[k].title == b.title && d.articles[k].id == b.id &&
        !d.articles[k].processed && b.id !in done
  {
    var c := Crawled(d, linksOf, done);
    CrawledRows(d, linksOf, done);
    NextUnprocessedSpec(c, limit);
    var b := NextUnprocessedRows(c, limit)[j];
    assert b in NextUnprocessedRows(c, limit);
    var k :| 0 <= k < |c.articles| && c.articles[k] == b;
  }

  /** When the queue query comes back empty under a non-zero limit, every row
      that was unprocessed at the start has been crawled. */
  lemma QueueDrained(d: Db, linksOf: string -> seq<string>, done: set<nat>, limit: int)
    requires Valid(d) && limit != 0 && done <= UnprocessedIds(d)
    requires NextUnprocessedRows(Crawled(d, linksOf, done), limit) == []
    ensures done == UnprocessedIds(d)
  {
    var c := Crawled(d, linksOf, done);
    CrawledRows(d, linksOf, done);
    NextUnprocessedSpec(c, limit);
    forall x | x in UnprocessedIds(d) ensures x in done {
      var a :| a in d.articles && !a.processed && a.id == x;
      var i :| 0 <= i < |d.articles| && d.articles[i] == a;
      assert c.articles[i] in c.articles;
    }
  }

  /** The ids of the given rows. */
  function RowIds(rows: seq<Article>): set<nat> {
    set r | r in rows :: r.id
  }

  lemma RowIdsSnoc(rows: seq<Article>, j: nat)
    requires j < |rows|
    ensures RowIds(rows[..j + 1]) == RowIds(rows[..j]) + {rows[j].id}
  {
    assert rows[..j + 1] == rows[..j] + [rows[j]];
    assert forall r :: r in rows[..j + 1] <==> r in rows[..j] || r == rows[j];
  }

  /** The ids the queue query returns are distinct and not yet crawled, so
      each row of a batch is crawled once. */
  lemma QueuedFresh(d: Db, linksOf: string -> seq<string>, done: set<nat>, limit: int, j: nat)
    requires Valid(d)
    requires j < |NextUnprocessedRows(Crawled(d, linksOf, done), limit)|
    ensures var rows := NextUnprocessedRows(Crawled(d, linksOf, done), limit);
      rows[j].id !in done + RowIds(rows[..j])
  {
    var rows := NextUnprocessedRows(Crawled(d, linksOf, done), limit);
    QueuedRow(d, linksOf, done, limit, j);
    CrawledRows(d, linksOf, done);
    QueueAscending(Crawled(d, linksOf, done), limit);
    forall r | r in rows[..j] ensures r.id != rows[j].id {
      var i :| 0 <= i < j && rows[..j][i] == r;
      assert rows[i] == r;
    }
  }

  /** One pass of the inner `for` loop of `batch_run`: fetch and save the
      `j`-th title of the batch. Its row was unprocessed when the run started,
      and is now crawled too. */
  method CrawlQueued(store: Store, fetch: string -> FetchResult, batchSize: int, articles: seq<string>, j: nat,
                     ghost d0: Db, ghost done: set<nat>, ghost rows: seq<Article>, ghost before: set<nat>)
    returns (ghost after: set<nat>)
    requires Valid(d0) && store.Settled()
    requires rows == NextUnprocessedRows(Crawled(d0, LinksOf(fetch), done), batchSize)
    requires articles == NextUnprocessed(Crawled(d0, LinksOf(fetch), done), batchSize) && j < |articles|
    requires store.Snapshot() == Crawled(d0, LinksOf(fetch), before)
    requires before == done + RowIds(rows[..j])
    modifies store
    ensures store.Settled()
    ensures after == before + {rows[j].id} == done + RowIds(rows[..j + 1])
    ensures store.Snapshot() == Crawled(d0, LinksOf(fetch), after)
  {
    QueuedRow(d0, LinksOf(fetch), done, batchSize, j);
    ghost var k :| 0 <= k < |d0.articles| && d0.articles[k].title == articles[j] &&
      d0.articles[k].id == rows[j].id && !d0.articles[k].processed;
    assert d0.articles[k] in d0.articles;
    QueuedFresh(d0, LinksOf(fetch), done, batchSize, j);
    RowIdsSnoc(rows, j);
    after := before + {rows[j].id};
    var links := GetArticleLinks(fetch(articles[j]));
    assert links == LinksOf(fetch)(d0.articles[k].title);
    SaveArticleLinks(store, articles[j], links, None);
    CrawlStep(d0, LinksOf(fetch), before, k);
  }

  /** The inner `for` loop of `batch_run`: fetch and save each title of the
      batch the queue query returned, in order. Exactly the batch's rows join
      the crawled set. */
  method SaveBatch(store: Store, fetch: string -> FetchResult, batchSize: int, articles: seq<string>,
                   ghost d0: Db, ghost done: set<nat>, ghost rows: seq<Article>)
    returns (ghost after: set<nat>)
    requires Valid(d0) && store.Settled()
    requires store.Snapshot() == Crawled(d0, LinksOf(fetch), done)
    requires rows == NextUnprocessedRows(Crawled(d0, LinksOf(fetch), done), batchSize)
    requires articles == NextUnprocessed(Crawled(d0, LinksOf(fetch), done), batchSize)
    modifies store
    ensures store.Settled()
    ensures store.Snapshot() == Crawled(d0, LinksOf(fetch), after)
    ensures after == done + RowIds(rows)
  {
    after := done;
    var j := 0;
    while j < |articles|
      invariant 0 <= j <= |articles| == |rows|
      invariant store.Settled()
      invariant store.Snapshot() == Crawled(d0, LinksOf(fetch), after)
      invariant after == done + RowIds(rows[..j])
    {
      after := CrawlQueued(store, fetch, batchSize, articles, j, d0, done, rows, after);
      j := j + 1;
    }
    assert rows[..j] == rows;
  }

  /** One batch of `batch_run`: the inner loop saves exactly the batch's rows,
      each unprocessed at the start of the run, so the rows still to crawl
      shrink. */
  method CrawlBatch(store: Store, fetch: string -> FetchResult, batchSize: int, articles: seq<string>,
                    ghost d0: Db, ghost done: set<nat>)
    returns (ghost after: set<nat>)
    requires Valid(d0) && store.Settled() && done <= UnprocessedIds(d0)
    requires store.Snapshot() == Crawled(d0, LinksOf(fetch), done)
    requires articles == NextUnprocessed(store.Snapshot(), batchSize) && articles != []
    modifies store
    ensures store.Settled() && done <= after <= UnprocessedIds(d0)
    ensures store.Snapshot() == Crawled(d0, LinksOf(fetch), after)
    ensures after == done + RowIds(NextUnprocessedRows(Crawled(d0, LinksOf(fetch), done), batchSize))
    ensures |UnprocessedIds(d0) - after| < |UnprocessedIds(d0) - done|
  {
    ghost var rows := NextUnprocessedRows(store.Snapshot(), batchSize);
    after := SaveBatch(store, fetch, batchSize, articles, d0, done, rows);
    BatchShrinks(d0, LinksOf(fetch), done, batchSize);
  }

  /** The rows of a non-empty batch were all unprocessed at the start of the
      run, and at least one of them had not been crawled, so adding the batch
      to the crawled set shrinks what is left to crawl. */
  lemma BatchShrinks(d0: Db, linksOf: string -> seq<string>, done: set<nat>, batchSize: int)
    requires Valid(d0) && done <= UnprocessedIds(d0)
    requires NextUnprocessedRows(Crawled(d0, linksOf, done), batchSize) != []
    ensures var after := done + RowIds(NextUnprocessedRows(Crawled(d0, linksOf, done), batchSize));
      after <= UnprocessedIds(d0) && |UnprocessedIds(d0) - after| < |UnprocessedIds(d0) - done|
  {
    var rows := NextUnprocessedRows(Crawled(d0, linksOf, done), batchSize);
    var after := done + RowIds(rows);
    forall r | r in rows ensures r.id in UnprocessedIds(d0) {
      var j :| 0 <= j < |rows| && rows[j] == r;
      QueuedRow(d0, linksOf, done, batchSize, j);
      var k :| 0 <= k < |d0.articles| && d0.articles[k].id == r.id && !d0.articles[k].processed;
      assert d0.articles[k] in d0.articles;
    }
    QueuedRow(d0, linksOf, done, batchSize, 0);
    assert rows[0] in rows;
    ProperSubsetSmaller(UnprocessedIds(d0) - after, UnprocessedIds(d0) - done, rows[0].id);
  }

  /** `batch_run(batch_size)`: take the next batch of unprocessed titles, fetch
      and save each, until the queue query returns nothing. Every save is
      taken to commit: with a save that keeps failing the source loops forever. */
  method BatchRun(store: Store, fetch: string -> FetchResult, batchSize: int)
    requires store.Settled()
    modifies store
    ensures store.Settled()
    ensures store.Snapshot() ==
      if batchSize == 0 then old(store.Snapshot()) else CrawlAll(old(store.Snapshot()), LinksOf(fetch))
  {
    ghost var d0 := store.Snapshot();
    ghost var done: set<nat> := {};
    CrawledNothing(d0, LinksOf(fetch));
    while true
      invariant store.Settled()
      invariant done <= UnprocessedIds(d0)
      invariant store.Snapshot() == Crawled(d0, LinksOf(fetch), done)
      invariant batchSize == 0 ==> done == {}
      decreases |UnprocessedIds(d0) - done|
    {
      var articles := NextUnprocessed(store.Snapshot(), batchSize);
      if articles == [] {
        if batchSize != 0 {
          QueueDrained(d0, LinksOf(fetch), done, batchSize);
        }
        break;
      }
      done := CrawlBatch(store, fetch, batchSize, articles, d0, done);
    }
  }

  /** A completed crawl keeps the rows and their ids and titles, and leaves
      none unprocessed. */
  lemma CrawlAllRows(d: Db, linksOf: string -> seq<string>)
    requires Valid(d)
    ensures var r := CrawlAll(d, linksOf);
      && Valid(r) && SameRows(d, r) && Titles(r) == Titles(d)
      && (forall a :: a in r.articles ==> a.processed)
      && Unprocessed(r.articles) == []
  {
    var r := CrawlAll(d, linksOf);
    CrawledRows(d, linksOf, UnprocessedIds(d));
    forall a | a in r.articles ensures a.processed {
      var i :| 0 <= i < |r.articles| && r.articles[i] == a;
      assert d.articles[i] in d.articles;
    }
    NoneUnprocessed(r.articles);
  }

  /** A completed crawl keeps every link and gives each row that was
      unprocessed exactly the links the fetch of its title yields, and rows
      already processed none. */
  lemma CrawlAllLinks(d: Db, linksOf: string -> seq<string>)
    requires Valid(d)
    ensures var r := CrawlAll(d, linksOf);
      && d.links <= r.links
      && (forall i, l :: 0 <= i < |d.articles| && !d.articles[i].processed && l in linksOf(d.articles[i].title) ==>
            (d.articles[i].id, l) in r.links)
      && (forall i, x :: 0 <= i < |d.articles| && x in r.links && x !in d.links && x.0 == d.articles[i].id ==>
            !d.articles[i].processed && x.1 in linksOf(d.articles[i].title))
  {
    var r := CrawlAll(d, linksOf);
    var u := UnprocessedIds(d);
    forall i, l | 0 <= i < |d.articles| && !d.articles[i].processed && l in linksOf(d.articles[i].title)
      ensures (d.articles[i].id, l) in r.links
    {
      assert d.articles[i] in d.articles;
    }
    forall i, x | 0 <= i < |d.articles| && x in r.links && x !in d.links && x.0 == d.articles[i].id
      ensures !d.articles[i].processed && x.1 in linksOf(d.articles[i].title)
    {
      var a, l :| a in d.articles && a.id in u && l in linksOf(a.title) && x == (a.id, l);
      var b :| b in d.articles && !b.processed && b.id == a.id;
      var j :| 0 <= j < |d.articles| && d.articles[j] == a;
      var m :| 0 <= m < |d.articles| && d.articles[m] == b;
      SameIdSameRow(d, i, j);
      SameIdSameRow(d, j, m);
    }
  }

  /** A title whose fetch failed ends processed with no link added. */
  lemma CrawlAllFailedFetch(d: Db, fetch: string -> FetchResult, i: nat)
    requires Valid(d) && i < |d.articles| && fetch(d.articles[i].title).FetchFailed?
    ensures CrawlAll(d, LinksOf(fetch)).articles[i].processed
    ensures forall x :: x in CrawlAll(d, LinksOf(fetch)).links && x.0 == d.articles[i].id ==> x in d.links
  {
    CrawlAllRows(d, LinksOf(fetch));
    CrawlAllLinks(d, LinksOf(fetch));
    assert CrawlAll(d, LinksOf(fetch)).articles[i] in CrawlAll(d, LinksOf(fetch)).articles;
    assert LinksOf(fetch)(d.articles[i].title) == [];
  }

  /** A completed crawl keeps the foreign key: new links leave crawled rows. */
  lemma CrawlAllAnchored(d: Db, linksOf: string -> seq<string>)
    requires Valid(d) && Anchored(d)
    ensures Anchored(CrawlAll(d, linksOf))
  {
    var r := CrawlAll(d, linksOf);
    var u := UnprocessedIds(d);
    forall x | x in r.links ensures HasId(r, x.0) {
      if x in d.links {
        var i :| 0 <= i < |d.articles| && d.articles[i].id == x.0;
        assert r.articles[i].id == x.0;
      } else {
        var a, l :| a in d.articles && a.id in u && l in linksOf(a.title) && x == (a.id, l);
        var i :| 0 <= i < |d.articles| && d.articles[i] == a;
        assert r.articles[i].id == x.0;
      }
    }
  }

  /** Once a crawl has completed, running it again changes nothing. */
  lemma CrawlAllIdempotent(d: Db, linksOf: string -> seq<string>)
    requires Valid(d)
    ensures CrawlAll(CrawlAll(d, linksOf), linksOf) == CrawlAll(d, linksOf)
  {
    var r := CrawlAll(d, linksOf);
    CrawlAllRows(d, linksOf);
    assert UnprocessedIds(r) == {};
    CrawledNothing(r, linksOf);
  }

  // ---------------------------------------------------------------------------
  // populate_articles_table

  /** `executemany('INSERT OR IGNORE INTO articles (title) VALUES (?)', titles)`. */
  function InsertAll(d: Db, titles: seq<string>): Db {
    if titles == [] then d
    else InsertOrIgnoreArticle(InsertAll(d, titles[..|titles| - 1]), titles[|titles| - 1], false)
  }

  /** Every given title ends up present once, existing rows and links are kept,
      and the added rows are unprocessed. */
  lemma {:induction false} InsertAllSpec(d: Db, titles: seq<string>)
    requires Valid(d)
    ensures var r := InsertAll(d, titles);
      && Valid(r)
      && Titles(r) == Titles(d) + Elems(titles)
      && d.articles <= r.articles && r.links == d.links && r.nextId == d.nextId + |titles|
      && (forall i :: |d.articles| <= i < |r.articles| ==> !r.articles[i].processed)
  {
    if titles != [] {
      var init, last := titles[..|titles| - 1], titles[|titles| - 1];
      assert titles == init + [last];
      ElemsSnoc(init, last);
      InsertAllSpec(d, init);
    }
  }

  /** The inserts add rows only, so links still leave existing rows. */
  lemma InsertAllAnchored(d: Db, titles: seq<string>)
    requires Valid(d) && Anchored(d)
    ensures Anchored(InsertAll(d, titles))
  {
    InsertAllSpec(d, titles);
    var r := InsertAll(d, titles);
    forall l | l in r.links ensures HasId(r, l.0) {
      var i :| 0 <= i < |d.articles| && d.articles[i].id == l.0;
      assert r.articles[i] == d.articles[i];
    }
  }

  /** Inserting titles that are all present already changes no row and no
      link; each ignored insert only uses up an id. */
  lemma {:induction false} InsertAllPresent(d: Db, titles: seq<string>)
    requires forall t :: t in titles ==> t in Titles(d)
    ensures InsertAll(d, titles) == d.(nextId := d.nextId + |titles|)
  {
    if titles != [] {
      var init, last := titles[..|titles| - 1], titles[|titles| - 1];
      assert forall t :: t in init ==> t in titles;
      InsertAllPresent(d, init);
      assert last in titles;
      assert Titles(d.(nextId := d.nextId + |init|)) == Titles(d);
    }
  }

  /** Running the insert again adds no row and changes no row or link; only
      the id counter moves on, by one per title. */
  lemma InsertAllIdempotent(d: Db, titles: seq<string>)
    requires Valid(d)
    ensures var r := InsertAll(d, titles);
      InsertAll(r, titles) == r.(nextId := r.nextId + |titles|)
  {
    InsertAllSpec(d, titles);
    assert forall t :: t in titles ==> t in Elems(titles);
    InsertAllPresent(InsertAll(d, titles), titles);
  }

  /** The insert and commit of `populate_articles_table`. */
  method InsertTitles(store: Store, titles: seq<string>)
    requires store.Settled()
    modifies store
    ensures store.Settled()
    ensures store.Snapshot() == InsertAll(old(store.Snapshot()), titles)
  {
    ghost var d := store.Snapshot();
    var i := 0;
    while i < |titles|
      invariant 0 <= i <= |titles|
      invariant store.Valid() && store.committed == d
      invariant store.Snapshot() == InsertAll(d, titles[..i])
    {
      assert titles[..i + 1][..i] == titles[..i];
      assert InsertAll(d, titles[..i + 1]) == InsertOrIgnoreArticle(InsertAll(d, titles[..i]), titles[i], false);
      store.InsertOrIgnoreArticle(titles[i], false);
      i := i + 1;
    }
    assert titles[..i] == titles;
    store.Commit();
  }

  /** `populate_articles_table` of the single-machine crawler: every title of the dump. */
  method PopulateArticlesTable(store: Store, dumpLines: seq<string>)
    requires store.Settled()
    modifies store
    ensures store.Settled()
    ensures store.Snapshot() == InsertAll(old(store.Snapshot()), DumpTitles(dumpLines))
  {
    var titles := GetAllTitles(dumpLines);
    InsertTitles(store, titles);
  }

  /** The single-machine `main`: an empty file gets the initial run (populate,
      then `batch_run()`), any other file continues with `batch_run()`. */
  method RunSingleMachine(store: Store, dumpLines: seq<string>, fetch: string -> FetchResult) returns (initial: bool)
    requires store.Settled()
    modifies store
    ensures store.Settled()
    ensures initial <==> GetStats(old(store.Snapshot())).totalArticles == 0
    ensures store.Snapshot() == CrawlAll(
      if initial then InsertAll(old(store.Snapshot()), DumpTitles(dumpLines)) else old(store.Snapshot()), LinksOf(fetch))
  {
    var stats := GetStats(store.Snapshot());
    initial := stats.totalArticles == 0;
    if initial {
      PopulateArticlesTable(store, dumpLines);
    }
    BatchRun(store, fetch, DefaultBatchSize);
  }

  /** After a completed crawl nothing remains: the stats report no remaining
      article and the queue query returns nothing. */
  lemma CrawlAllLeavesNothing(d: Db, linksOf: string -> seq<string>, limit: int)
    requires Valid(d)
    ensures GetStats(CrawlAll(d, linksOf)).remainingArticles == 0
    ensures NextUnprocessed(CrawlAll(d, linksOf), limit) == []
  {
    CrawlAllRows(d, linksOf);
  }
}
