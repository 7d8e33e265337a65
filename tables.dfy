/** The three-table SQLite database shared by the two crawlers and the merger,
    as a value: the `articles` rows in rowid order, the `links` pairs, and the
    next AUTOINCREMENT id. The `progress` table is never written and the
    `last_updated` column carries no behaviour, so neither is modelled. */
module Tables {

  datatype Option<T> = None | Some(value: T)

  /** A row of `articles`: INTEGER PRIMARY KEY AUTOINCREMENT id, UNIQUE title, processed flag. */
  datatype Article = Article(id: nat, title: string, processed: bool)

  /** A row of `links`: (from_article_id, to_article_title), UNIQUE as a pair. */
  type Link = (nat, string)

  datatype Db = Db(articles: seq<Article>, links: set<Link>, nextId: nat)

  /** A freshly created file: empty tables, AUTOINCREMENT starting at 1. */
  const Empty: Db := Db([], {}, 1)

  /** Ids ascend in rowid order. */
  ghost predicate IdsAscending(rows: seq<Article>) {
    forall i, j :: 0 <= i < j < |rows| ==> rows[i].id < rows[j].id
  }

  /** The UNIQUE constraint on `title`. */
  ghost predicate TitlesUnique(rows: seq<Article>) {
    forall i, j :: 0 <= i < j < |rows| ==> rows[i].title != rows[j].title
  }

  /** What SQLite guarantees of every file with this schema: ids ascend and
      stay below the next AUTOINCREMENT value, titles are unique. */
  ghost predicate Valid(d: Db) {
    && IdsAscending(d.articles)
    && TitlesUnique(d.articles)
    && (forall i :: 0 <= i < |d.articles| ==> d.articles[i].id < d.nextId)
  }

  ghost predicate HasId(d: Db, id: nat) {
    exists i :: 0 <= i < |d.articles| && d.articles[i].id == id
  }

  /** FOREIGN KEY (from_article_id) REFERENCES articles (id): every link leaves an existing row. */
  ghost predicate Anchored(d: Db) {
    forall l :: l in d.links ==> HasId(d, l.0)
  }

  function RowTitles(rows: seq<Article>): set<string> {
    set a | a in rows :: a.title
  }

  function RowProcessed(rows: seq<Article>): set<string> {
    set a | a in rows && a.processed :: a.title
  }

  /** The links leaving the given rows, with the source id replaced by the source title. */
  function RowLinks(rows: seq<Article>, links: set<Link>): set<(string, string)> {
    set a, l | a in rows && l in links && l.0 == a.id :: (a.title, l.1)
  }

  function Titles(d: Db): set<string> { RowTitles(d.articles) }

  function ProcessedTitles(d: Db): set<string> { RowProcessed(d.articles) }

  /** The link table at title level: ids are local to one file, titles are not. */
  function TitleLinks(d: Db): set<(string, string)> { RowLinks(d.articles, d.links) }

  /** Index of the row with the given title (`WHERE title = ?`). */
  function Find(rows: seq<Article>, title: string): (r: Option<nat>)
    ensures r.Some? ==> r.value < |rows| && rows[r.value].title == title
    ensures r.None? <==> title !in RowTitles(rows)
  {
    if rows == [] then None
    else if rows[0].title == title then Some(0)
    else match Find(rows[1..], title)
      case None => None
      case Some(k) => Some(k + 1)
  }

  /** `SELECT id FROM articles WHERE title = ?`, as `fetchone()` sees it. */
  function IdOf(d: Db, title: string): (r: Option<nat>)
    ensures r.None? <==> title !in Titles(d)
  {
    match Find(d.articles, title)
    case None => None
    case Some(k) => Some(d.articles[k].id)
  }

  /** On a valid file the lookup by title finds exactly the row that carries it. */
  lemma IdOfRow(d: Db, k: nat)
    requires Valid(d) && k < |d.articles|
    ensures IdOf(d, d.articles[k].title) == Some(d.articles[k].id)
  {
    var f := Find(d.articles, d.articles[k].title);
    assert d.articles[k] in d.articles;
    assert f.Some?;
  }

  /** Two rows of a valid file with the same id are the same row. */
  lemma SameIdSameRow(d: Db, i: nat, j: nat)
    requires Valid(d) && i < |d.articles| && j < |d.articles|
    requires d.articles[i].id == d.articles[j].id
    ensures i == j
  {
  }

  /** The elements of a list, as a set. */
  function Elems(s: seq<string>): set<string> {
    set x | x in s
  }

  lemma ElemsSnoc(s: seq<string>, x: string)
    ensures Elems(s + [x]) == Elems(s) + {x}
  {
    assert forall y :: y in s + [x] <==> y in s || y == x;
  }

  /** `INSERT OR IGNORE INTO articles (title, processed) VALUES (?, ?)`. A new
      row gets the next AUTOINCREMENT id and the given flag. SQLite draws that
      id before it checks the UNIQUE title, so an ignored insert uses it up
      too: the counter advances either way. */
  function InsertOrIgnoreArticle(d: Db, title: string, processed: bool): (r: Db)
    ensures Valid(d) ==> Valid(r)
    ensures Titles(r) == Titles(d) + {title}
    ensures d.articles <= r.articles && r.links == d.links && r.nextId == d.nextId + 1
    ensures title in Titles(d) ==> r.articles == d.articles
    ensures title !in Titles(d) ==> (|r.articles| == |d.articles| + 1 &&
      r.articles[|d.articles|].id == d.nextId && r.articles[|d.articles|].processed == processed)
  {
    if Find(d.articles, title).Some? then d.(nextId := d.nextId + 1)
    else Db(d.articles + [Article(d.nextId, title, processed)], d.links, d.nextId + 1)
  }

  /** `INSERT OR IGNORE INTO links (from_article_id, to_article_title) VALUES (?, ?)`, one
      statement per element of `tos`. The foreign key is not enforced by SQLite. */
  function InsertOrIgnoreLinks(d: Db, from: nat, tos: set<string>): (r: Db)
    ensures r.articles == d.articles && r.nextId == d.nextId
    ensures d.links <= r.links
    ensures forall to :: to in tos ==> (from, to) in r.links
    ensures forall l :: l in r.links && l !in d.links ==> l.0 == from && l.1 in tos
  {
    d.(links := d.links + Pairs(from, tos))
  }

  /** The link rows leaving `from` towards each of `tos`. */
  function Pairs(from: nat, tos: set<string>): set<Link> {
    set to | to in tos :: (from, to)
  }

  lemma InsertLinksTwice(d: Db, from: nat, a: set<string>, b: set<string>)
    ensures InsertOrIgnoreLinks(InsertOrIgnoreLinks(d, from, a), from, b) == InsertOrIgnoreLinks(d, from, a + b)
  {
    var lhs := InsertOrIgnoreLinks(InsertOrIgnoreLinks(d, from, a), from, b);
    var rhs := InsertOrIgnoreLinks(d, from, a + b);
    assert lhs.links == rhs.links;
  }

  /** `UPDATE articles SET processed = TRUE WHERE id = ?`. */
  function MarkProcessed(d: Db, id: nat): (r: Db)
    ensures |r.articles| == |d.articles| && r.links == d.links && r.nextId == d.nextId
    ensures forall i :: 0 <= i < |d.articles| ==>
      r.articles[i].id == d.articles[i].id && r.articles[i].title == d.articles[i].title &&
      r.articles[i].processed == (d.articles[i].processed || d.articles[i].id == id)
  {
    d.(articles := seq(|d.articles|, i requires 0 <= i < |d.articles| =>
      if d.articles[i].id == id then d.articles[i].(processed := true) else d.articles[i]))
  }

  /** `UPDATE articles SET processed = TRUE WHERE title = ? AND processed = FALSE`. */
  function MarkProcessedByTitle(d: Db, title: string): (r: Db)
    ensures |r.articles| == |d.articles| && r.links == d.links && r.nextId == d.nextId
    ensures forall i :: 0 <= i < |d.articles| ==>
      r.articles[i].id == d.articles[i].id && r.articles[i].title == d.articles[i].title &&
      r.articles[i].processed == (d.articles[i].processed || d.articles[i].title == title)
  {
    d.(articles := seq(|d.articles|, i requires 0 <= i < |d.articles| =>
      if d.articles[i].title == title && !d.articles[i].processed
      then d.articles[i].(processed := true) else d.articles[i]))
  }

  /** Two files whose rows carry the same ids and titles in the same order;
      only the flags may differ. */
  ghost predicate SameRows(d: Db, e: Db) {
    && |d.articles| == |e.articles|
    && forall i :: 0 <= i < |d.articles| ==>
         d.articles[i].id == e.articles[i].id && d.articles[i].title == e.articles[i].title
  }

  /** Flags play no part in which titles a file holds. */
  lemma SameRowsTitles(d: Db, e: Db)
    requires SameRows(d, e)
    ensures Titles(e) == Titles(d)
  {
    assert forall t :: t in Titles(d) ==> t in Titles(e) by {
      forall t | t in Titles(d) ensures t in Titles(e) {
        var a :| a in d.articles && a.title == t;
        var i :| 0 <= i < |d.articles| && d.articles[i] == a;
        assert e.articles[i] in e.articles;
      }
    }
    assert forall t :: t in Titles(e) ==> t in Titles(d) by {
      forall t | t in Titles(e) ensures t in Titles(d) {
        var a :| a in e.articles && a.title == t;
        var i :| 0 <= i < |e.articles| && e.articles[i] == a;
        assert d.articles[i] in d.articles;
      }
    }
  }

  lemma SameRowsValid(d: Db, e: Db)
    requires Valid(d) && SameRows(d, e) && d.nextId <= e.nextId
    ensures Valid(e) && Titles(e) == Titles(d)
  {
    SameRowsTitles(d, e);
  }

  /** On a valid file a row's flag is read off the set of processed titles. */
  lemma ProcessedFlag(d: Db, i: nat)
    requires Valid(d) && i < |d.articles|
    ensures d.articles[i].processed <==> d.articles[i].title in ProcessedTitles(d)
  {
    assert d.articles[i] in d.articles;
    if d.articles[i].title in ProcessedTitles(d) {
      var a :| a in d.articles && a.processed && a.title == d.articles[i].title;
      var j :| 0 <= j < |d.articles| && d.articles[j] == a;
      assert j == i;
    }
  }

  /** `get_stats` and the counting queries of `print_stats`. */
  datatype Stats = Stats(totalArticles: nat, processedArticles: nat, remainingArticles: int, totalLinks: nat)

  /** `SELECT COUNT(*) FROM articles WHERE processed = TRUE`. */
  function CountProcessed(rows: seq<Article>): (n: nat)
    ensures n <= |rows|
    ensures rows == [] ==> n == 0
  {
    if rows == [] then 0
    else CountProcessed(rows[..|rows| - 1]) + (if rows[|rows| - 1].processed then 1 else 0)
  }

  /** The unprocessed rows, in rowid order. */
  function Unprocessed(rows: seq<Article>): (r: seq<Article>)
    ensures forall a :: a in r <==> a in rows && !a.processed
  {
    if rows == [] then []
    else Unprocessed(rows[..|rows| - 1]) + (if rows[|rows| - 1].processed then [] else [rows[|rows| - 1]])
  }

  lemma {:induction false} NoneUnprocessed(rows: seq<Article>)
    requires forall a :: a in rows ==> a.processed
    ensures Unprocessed(rows) == []
  {
    if rows != [] {
      assert rows[|rows| - 1] in rows;
      NoneUnprocessed(rows[..|rows| - 1]);
    }
  }

  /** No row is unprocessed exactly when every row is processed. */
  lemma NoneUnprocessedIff(rows: seq<Article>)
    ensures Unprocessed(rows) == [] <==> forall a :: a in rows ==> a.processed
  {
    if forall a :: a in rows ==> a.processed {
      NoneUnprocessed(rows);
    }
  }

  /** The processed and the unprocessed rows together are all the rows. */
  lemma {:induction false} CountSplit(rows: seq<Article>)
    ensures CountProcessed(rows) + |Unprocessed(rows)| == |rows|
  {
    if rows != [] {
      CountSplit(rows[..|rows| - 1]);
    }
  }

  /** `get_stats`: the three COUNT queries and their difference. Every row is
      counted once as processed or as remaining, and all are processed
      exactly when none remains. */
  function GetStats(d: Db): (s: Stats)
    ensures s.totalArticles == |d.articles| && s.totalLinks == |d.links|
    ensures s.processedArticles == CountProcessed(d.articles) && s.processedArticles <= s.totalArticles
    ensures s.remainingArticles == s.totalArticles - s.processedArticles
    ensures s.remainingArticles == |Unprocessed(d.articles)|
    ensures s.processedArticles == s.totalArticles <==> forall a :: a in d.articles ==> a.processed
  {
    var total := |d.articles|;
    var processed := CountProcessed(d.articles);
    CountSplit(d.articles);
    NoneUnprocessedIff(d.articles);
    Stats(total, processed, total - processed, |d.links|)
  }
}
