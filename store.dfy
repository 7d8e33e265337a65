/** One SQLite file seen through one connection: the rows the connection sees,
    and the state as of the last commit, to which a rollback returns. */
module Persistence {
  import opened Tables

  class Store {
    var articles: seq<Article>
    var links: set<Link>
    var nextId: nat
    /** The durable state: what the file holds as of the last commit. */
    var committed: Db

    /** The tables as the connection sees them, uncommitted work included. */
    function Snapshot(): Db
      reads this
    {
      Db(articles, links, nextId)
    }

    ghost predicate Valid()
      reads this
    {
      Tables.Valid(Snapshot()) && Tables.Valid(committed)
    }

    /** No transaction is open: every public operation starts and ends here,
        since each one opens its own connection and commits or rolls back. */
    ghost predicate Settled()
      reads this
    {
      Valid() && committed == Snapshot()
    }

    /** An existing file, or a fresh one when `d` is `Tables.Empty` (`CREATE TABLE IF NOT EXISTS`). */
    constructor Open(d: Db)
      requires Tables.Valid(d)
      ensures Settled() && Snapshot() == d
    {
      articles, links, nextId := d.articles, d.links, d.nextId;
      committed := d;
    }

    method InsertOrIgnoreArticle(title: string, processed: bool)
      requires Valid()
      modifies this
      ensures Valid() && committed == old(committed)
      ensures Snapshot() == Tables.InsertOrIgnoreArticle(old(Snapshot()), title, processed)
    {
      if Find(articles, title).None? {
        articles := articles + [Article(nextId, title, processed)];
      }
      nextId := nextId + 1;
    }

    method InsertOrIgnoreLink(from: nat, to: string)
      requires Valid()
      modifies this
      ensures Valid() && committed == old(committed)
      ensures Snapshot() == Tables.InsertOrIgnoreLinks(old(Snapshot()), from, {to})
    {
      links := links + {(from, to)};
      assert Snapshot().links == old(Snapshot()).links + set t | t in {to} :: (from, t);
    }

    method MarkProcessed(id: nat)
      requires Valid()
      modifies this
      ensures Valid() && committed == old(committed)
      ensures Snapshot() == Tables.MarkProcessed(old(Snapshot()), id)
    {
      articles := Tables.MarkProcessed(Snapshot(), id).articles;
      SameRowsValid(old(Snapshot()), Snapshot());
    }

    method MarkProcessedByTitle(title: string)
      requires Valid()
      modifies this
      ensures Valid() && committed == old(committed)
      ensures Snapshot() == Tables.MarkProcessedByTitle(old(Snapshot()), title)
    {
      articles := Tables.MarkProcessedByTitle(Snapshot(), title).articles;
      SameRowsValid(old(Snapshot()), Snapshot());
    }

    method Commit()
      requires Valid()
      modifies this
      ensures Settled() && Snapshot() == old(Snapshot())
    {
      committed := Snapshot();
    }

    /** Discards everything since the last commit. */
    method Rollback()
      requires Valid()
      modifies this
      ensures Settled() && Snapshot() == old(committed)
    {
      articles, links, nextId := committed.articles, committed.links, committed.nextId;
    }
  }
}
