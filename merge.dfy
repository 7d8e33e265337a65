/** `DatabaseMerger`: folding the per-machine files into one output file. Ids
    are local to each file, so rows are matched by title and every link is
    re-keyed from its input id to the output id of the same title. */
module Merge {
  import opened Tables
  import opened Persistence

  /** `merge_database` commits after every this many articles. */
  const CheckpointEvery: nat := 1000

  /** `SELECT to_article_title FROM links WHERE from_article_id = ?`. */
  function Targets(links: set<Link>, id: nat): set<string> {
    set l | l in links && l.0 == id :: l.1
  }

  /** Links from one source title to each of `tos`, at title level. */
  function TitlePairs(title: string, tos: set<string>): set<(string, string)> {
    set to | to in tos :: (title, to)
  }

  // ---------------------------------------------------------------------------
  // The article loop as functions

  /** One pass of the article loop on the output: insert-or-ignore the row
      with the input's flag, raise the flag of an existing row when the
      input's is set, then copy the input row's links under the output id of
      the title. (The input id is looked up by title too; on a valid input
      that lookup finds the row itself, `IdOfRow`.) */
  function MergeArticle(o: Db, input: Db, a: Article): Db {
    var o1 := InsertOrIgnoreArticle(o, a.title, a.processed);
    var o2 := if a.processed then MarkProcessedByTitle(o1, a.title) else o1;
    SameRowsTitles(o1, o2);
    InsertOrIgnoreLinks(o2, IdOf(o2, a.title).value, Targets(input.links, a.id))
  }

  /** The output once the article loop has handled `rows`, in order. */
  function MergeRows(o: Db, input: Db, rows: seq<Article>): Db {
    if rows == [] then o
    else MergeArticle(MergeRows(o, input, rows[..|rows| - 1]), input, rows[|rows| - 1])
  }

  /** `link_count` after `rows`: every link row read, whether inserted or ignored. */
  function VisitedLinks(input: Db, rows: seq<Article>): nat {
    if rows == [] then 0
    else VisitedLinks(input, rows[..|rows| - 1]) + |Targets(input.links, rows[|rows| - 1].id)|
  }

  lemma MergeRowsSnoc(o: Db, input: Db, rows: seq<Article>, k: nat)
    requires k < |rows|
    ensures MergeRows(o, input, rows[..k + 1]) == MergeArticle(MergeRows(o, input, rows[..k]), input, rows[k])
    ensures VisitedLinks(input, rows[..k + 1]) == VisitedLinks(input, rows[..k]) + |Targets(input.links, rows[k].id)|
  {
    assert rows[..k + 1][..k] == rows[..k];
  }

  /** How many articles are durable when an exception strikes while the
      (k+1)-th is being merged: those up to the last checkpoint commit. */
  function CommittedPrefix(k: nat): (c: nat)
    ensures c <= k && k - c < CheckpointEvery && c % CheckpointEvery == 0
  {
    (k / CheckpointEvery) * CheckpointEvery
  }

  /** The checkpoint arithmetic of the loop: the durable prefix moves up to
      the article count exactly when that count is a multiple of 1000. */
  lemma CommittedPrefixStep(i: nat)
    ensures CommittedPrefix(i + 1) == if (i + 1) % CheckpointEvery == 0 then i + 1 else CommittedPrefix(i)
  {
    var q, r := i / CheckpointEvery, i % CheckpointEvery;
    assert i == q * CheckpointEvery + r;
    if r + 1 < CheckpointEvery {
      assert i + 1 == q * CheckpointEvery + (r + 1);
      assert (i + 1) / CheckpointEvery == q;
      assert (i + 1) % CheckpointEvery == r + 1;
    } else {
      assert i + 1 == (q + 1) * CheckpointEvery;
    }
  }

  /** An exception point is either inside the article loop or at the final commit. */
  predicate FaultInRange(input: Option<Db>, fault: Option<nat>) {
    input.Some? && fault.Some? ==> fault.value <= |input.value.articles|
  }

  /** The number of input articles whose merge survives the call: all of them
      without a fault, else those committed before the fault. `fault` is
      `Some(k)` for an exception while the (k+1)-th article is merged, or
      `Some(n)` (n articles) for one at the final commit. */
  function Durable(n: nat, fault: Option<nat>): (c: nat)
    requires fault.Some? ==> fault.value <= n
    ensures c <= n
  {
    match fault
    case None => n
    case Some(k) => CommittedPrefix(k)
  }

  /** The output file after `merge_database`; `None` is an input path that does not exist. */
  function MergeOutcome(o: Db, input: Option<Db>, fault: Option<nat>): Db
    requires FaultInRange(input, fault)
  {
    match input
    case None => o
    case Some(d) => MergeRows(o, d, d.articles[..Durable(|d.articles|, fault)])
  }

  // ---------------------------------------------------------------------------
  // Views: what a file says independently of its ids

  datatype View = View(titles: set<string>, processed: set<string>, links: set<(string, string)>)

  function RowView(rows: seq<Article>, links: set<Link>): View {
    View(RowTitles(rows), RowProcessed(rows), RowLinks(rows, links))
  }

  /** A file's titles, which of them are processed, and its links by source title. */
  function ViewOf(d: Db): View {
    RowView(d.articles, d.links)
  }

  function ArticleView(a: Article, links: set<Link>): View {
    View({a.title}, if a.processed then {a.title} else {}, TitlePairs(a.title, Targets(links, a.id)))
  }

  function Union(v: View, w: View): View {
    View(v.titles + w.titles, v.processed + w.processed, v.links + w.links)
  }

  predicate Within(v: View, w: View) {
    v.titles <= w.titles && v.processed <= w.processed && v.links <= w.links
  }

  const NoView: View := View({}, {}, {})

  /** The rows of the output before the merge keep their ids and titles and
      never lose their flag; no link is removed. */
  ghost predicate Kept(o: Db, r: Db) {
    && o.links <= r.links
    && |o.articles| <= |r.articles|
    && forall i :: 0 <= i < |o.articles| ==>
         r.articles[i].id == o.articles[i].id && r.articles[i].title == o.articles[i].title &&
         (o.articles[i].processed ==> r.articles[i].processed)
  }

  lemma RowViewSnoc(rows: seq<Article>, a: Article, links: set<Link>)
    ensures RowView(rows + [a], links) == Union(RowView(rows, links), ArticleView(a, links))
  {
    assert forall b :: b in rows + [a] <==> b in rows || b == a;
    var lhs, rhs := RowLinks(rows + [a], links), RowLinks(rows, links) + TitlePairs(a.title, Targets(links, a.id));
    forall x | x in rhs ensures x in lhs {
      if x !in RowLinks(rows, links) {
        var l :| l in links && l.0 == a.id && l.1 == x.1;
      }
    }
    assert lhs == rhs;
  }

  lemma RowViewPrefix(rows: seq<Article>, k: nat, links: set<Link>)
    requires k <= |rows|
    ensures Within(RowView(rows[..k], links), RowView(rows, links))
  {
    assert forall b :: b in rows[..k] ==> b in rows;
  }

  // ---------------------------------------------------------------------------
  // One article

  /** A new row takes the next id, which no link of an anchored file uses, so
      only its title (and flag) enter the view. */
  lemma InsertArticleView(d: Db, title: string, processed: bool)
    requires Valid(d) && Anchored(d)
    ensures var r := InsertOrIgnoreArticle(d, title, processed);
      && Anchored(r) && Kept(d, r)
      && ViewOf(r) == Union(ViewOf(d),
           View({title}, if processed && title !in Titles(d) then {title} else {}, {}))
  {
    var r := InsertOrIgnoreArticle(d, title, processed);
    if title !in Titles(d) {
      var n := Article(d.nextId, title, processed);
      assert r.articles == d.articles + [n];
      RowViewSnoc(d.articles, n, d.links);
      forall l | l in d.links ensures l.0 != d.nextId {
        var i :| 0 <= i < |d.articles| && d.articles[i].id == l.0;
      }
      assert Targets(d.links, d.nextId) == {};
      forall l | l in r.links ensures HasId(r, l.0) {
        var i :| 0 <= i < |d.articles| && d.articles[i].id == l.0;
        assert r.articles[i] == d.articles[i];
      }
    }
  }

  /** Rows that differ in flags only carry the same links at title level. */
  lemma SameRowsLinks(d: Db, e: Db)
    requires SameRows(d, e) && e.links == d.links
    ensures TitleLinks(e) == TitleLinks(d)
    ensures Anchored(d) ==> Anchored(e)
  {
    forall x | x in TitleLinks(d) ensures x in TitleLinks(e) {
      var a, l :| a in d.articles && l in d.links && l.0 == a.id && x == (a.title, l.1);
      var i :| 0 <= i < |d.articles| && d.articles[i] == a;
      assert e.articles[i] in e.articles;
    }
    forall x | x in TitleLinks(e) ensures x in TitleLinks(d) {
      var a, l :| a in e.articles && l in e.links && l.0 == a.id && x == (a.title, l.1);
      var i :| 0 <= i < |e.articles| && e.articles[i] == a;
      assert d.articles[i] in d.articles;
    }
    if Anchored(d) {
      forall l | l in e.links ensures HasId(e, l.0) {
        var i :| 0 <= i < |d.articles| && d.articles[i].id == l.0;
        assert e.articles[i].id == l.0;
      }
    }
  }

  /** Raising the flag of a present title adds exactly that title to the processed set. */
  lemma MarkByTitleView(d: Db, title: string)
    requires title in Titles(d)
    ensures var r := MarkProcessedByTitle(d, title);
      && Kept(d, r) && (Anchored(d) ==> Anchored(r))
      && ViewOf(r) == Union(ViewOf(d), View({}, {title}, {}))
  {
    var r := MarkProcessedByTitle(d, title);
    SameRowsTitles(d, r);
    SameRowsLinks(d, r);
    forall t | t in ProcessedTitles(r) ensures t in ProcessedTitles(d) || t == title {
      var a :| a in r.articles && a.processed && a.title == t;
      var i :| 0 <= i < |r.articles| && r.articles[i] == a;
      assert d.articles[i] in d.articles;
    }
    forall t | t in ProcessedTitles(d) + {title} ensures t in ProcessedTitles(r) {
      var a :| a in d.articles && a.title == t && (a.processed || t == title);
      var i :| 0 <= i < |d.articles| && d.articles[i] == a;
      assert r.articles[i] in r.articles;
    }
  }

  /** Links inserted under the id of a present title appear under that title. */
  lemma AddLinksView(d: Db, title: string, tos: set<string>)
    requires Valid(d) && title in Titles(d)
    ensures var r := InsertOrIgnoreLinks(d, IdOf(d, title).value, tos);
      && Kept(d, r) && (Anchored(d) ==> Anchored(r))
      && ViewOf(r) == Union(ViewOf(d), View({}, {}, TitlePairs(title, tos)))
  {
    var k := Find(d.articles, title).value;
    AddLinksTitleLinks(d, k, tos);
    var r := InsertOrIgnoreLinks(d, d.articles[k].id, tos);
    if Anchored(d) {
      forall l | l in r.links ensures HasId(r, l.0) {
        if l !in d.links {
          assert r.articles[k].id == l.0;
        }
      }
    }
  }

  lemma AddLinksTitleLinks(d: Db, k: nat, tos: set<string>)
    requires Valid(d) && k < |d.articles|
    ensures TitleLinks(InsertOrIgnoreLinks(d, d.articles[k].id, tos)) == TitleLinks(d) + TitlePairs(d.articles[k].title, tos)
  {
    var id, title := d.articles[k].id, d.articles[k].title;
    var r := InsertOrIgnoreLinks(d, id, tos);
    forall x | x in TitleLinks(r) && x !in TitleLinks(d) ensures x in TitlePairs(title, tos) {
      var a, l :| a in d.articles && l in r.links && l.0 == a.id && x == (a.title, l.1);
      var i :| 0 <= i < |d.articles| && d.articles[i] == a;
      SameIdSameRow(d, i, k);
    }
    forall x | x in TitlePairs(title, tos) ensures x in TitleLinks(r) {
      assert d.articles[k] in d.articles && (id, x.1) in r.links;
    }
  }

  /** Merging one input row adds its title, its flag (OR-ed into an existing
      row's) and its links re-keyed to the output id, and changes nothing else. */
  lemma MergeArticleSpec(o: Db, input: Db, a: Article)
    requires Valid(o) && Anchored(o)
    ensures var r := MergeArticle(o, input, a);
      && Valid(r) && Anchored(r) && Kept(o, r)
      && ViewOf(r) == Union(ViewOf(o), ArticleView(a, input.links))
  {
    var t, p, tos := a.title, a.processed, Targets(input.links, a.id);
    var o1 := InsertOrIgnoreArticle(o, t, p);
    var o2 := if p then MarkProcessedByTitle(o1, t) else o1;
    var v1 := View({t}, if p && t !in Titles(o) then {t} else {}, {});
    var v2 := if p then View({}, {t}, {}) else NoView;
    var v3 := View({}, {}, TitlePairs(t, tos));
    InsertArticleView(o, t, p);
    if p {
      MarkByTitleView(o1, t);
      SameRowsValid(o1, o2);
    } else {
      assert Union(ViewOf(o1), NoView) == ViewOf(o1);
    }
    Chain(o, o1, o2, v1, v2);
    AddLinksView(o2, t, tos);
    Chain(o, o2, MergeArticle(o, input, a), Union(v1, v2), v3);
    ArticleViewParts(a, input.links, t !in Titles(o));
  }

  lemma ArticleViewParts(a: Article, links: set<Link>, isNew: bool)
    ensures var t, p := a.title, a.processed;
      Union(Union(View({t}, if p && isNew then {t} else {}, {}), if p then View({}, {t}, {}) else NoView),
            View({}, {}, TitlePairs(t, Targets(links, a.id))))
      == ArticleView(a, links)
  {
  }

  // ---------------------------------------------------------------------------
  // The whole input

  /** After the loop has handled `rows`, the output's view is the old view
      joined with the rows' view over the input's links; the output stays a
      valid file whose links all leave existing rows. */
  lemma {:induction false} MergeRowsSpec(o: Db, input: Db, rows: seq<Article>)
    requires Valid(o) && Anchored(o)
    ensures var r := MergeRows(o, input, rows);
      && Valid(r) && Anchored(r) && Kept(o, r)
      && ViewOf(r) == Union(ViewOf(o), RowView(rows, input.links))
  {
    if rows != [] {
      var init, last := rows[..|rows| - 1], rows[|rows| - 1];
      assert rows == init + [last];
      var prev := MergeRows(o, input, init);
      MergeRowsSpec(o, input, init);
      MergeArticleSpec(prev, input, last);
      RowViewSnoc(init, last, input.links);
      Chain(o, prev, MergeRows(o, input, rows), RowView(init, input.links), ArticleView(last, input.links));
    }
  }

  lemma Chain(o: Db, m: Db, r: Db, v: View, w: View)
    requires Kept(o, m) && Kept(m, r)
    requires ViewOf(m) == Union(ViewOf(o), v) && ViewOf(r) == Union(ViewOf(m), w)
    ensures Kept(o, r) && ViewOf(r) == Union(ViewOf(o), Union(v, w))
  {
    UnionAssoc(ViewOf(o), v, w);
  }

  lemma UnionAssoc(u: View, v: View, w: View)
    ensures Union(Union(u, v), w) == Union(u, Union(v, w))
  {
  }

  /** A completed merge: every input title is present (once: titles stay
      unique), old titles and links stay, each title's flag is the old flag OR
      the input's, and every input link whose source row exists is present
      under the output id of its source title. */
  lemma MergeDatabaseSpec(o: Db, input: Db)
    requires Valid(o) && Anchored(o)
    ensures var r := MergeRows(o, input, input.articles);
      && Valid(r) && Anchored(r) && Kept(o, r)
      && Titles(r) == Titles(o) + Titles(input)
      && TitleLinks(r) == TitleLinks(o) + TitleLinks(input)
      && (forall i :: 0 <= i < |r.articles| ==>
            (r.articles[i].processed <==> r.articles[i].title in ProcessedTitles(o) + ProcessedTitles(input)))
  {
    var r := MergeRows(o, input, input.articles);
    MergeRowsSpec(o, input, input.articles);
    forall i | 0 <= i < |r.articles|
      ensures r.articles[i].processed <==> r.articles[i].title in ProcessedTitles(o) + ProcessedTitles(input)
    {
      ProcessedFlag(r, i);
    }
  }

  /** Merging the same input twice says what merging it once says. */
  lemma MergeTwiceSameView(o: Db, input: Db)
    requires Valid(o) && Anchored(o)
    ensures var once := MergeRows(o, input, input.articles);
      ViewOf(MergeRows(once, input, input.articles)) == ViewOf(once)
  {
    var once := MergeRows(o, input, input.articles);
    MergeRowsSpec(o, input, input.articles);
    MergeRowsSpec(once, input, input.articles);
    UnionTwice(ViewOf(o), ViewOf(input));
  }

  lemma UnionTwice(u: View, v: View)
    ensures Union(Union(u, v), v) == Union(u, v)
  {
  }

  lemma UnionSwap(u: View, v: View, w: View)
    ensures Union(Union(u, v), w) == Union(Union(u, w), v)
  {
  }

  /** The order of two inputs changes only the ids of the output. */
  lemma MergeOrderIrrelevant(o: Db, a: Db, b: Db)
    requires Valid(o) && Anchored(o)
    ensures var ab := MergeRows(MergeRows(o, a, a.articles), b, b.articles);
      var ba := MergeRows(MergeRows(o, b, b.articles), a, a.articles);
      ViewOf(ab) == ViewOf(ba)
  {
    var oa, ob := MergeRows(o, a, a.articles), MergeRows(o, b, b.articles);
    MergeRowsSpec(o, a, a.articles);
    MergeRowsSpec(oa, b, b.articles);
    MergeRowsSpec(o, b, b.articles);
    MergeRowsSpec(ob, a, a.articles);
    UnionSwap(ViewOf(o), ViewOf(a), ViewOf(b));
  }

  /** Merging into a fresh output reproduces the input's view. */
  lemma MergeIntoEmpty(input: Db)
    ensures var r := MergeRows(Empty, input, input.articles);
      Valid(r) && Anchored(r) && ViewOf(r) == ViewOf(input)
  {
    MergeRowsSpec(Empty, input, input.articles);
  }

  /** A failed merge leaves the durable prefix: a multiple of 1000 articles
      fully merged, fewer than 1000 short of the fault, and nothing beyond
      the input's view. */
  lemma FailedMergeSpec(o: Db, input: Db, k: nat)
    requires Valid(o) && Anchored(o) && k <= |input.articles|
    ensures var r := MergeOutcome(o, Some(input), Some(k));
      && Valid(r) && Anchored(r) && Kept(o, r)
      && r == MergeRows(o, input, input.articles[..CommittedPrefix(k)])
      && CommittedPrefix(k) % CheckpointEvery == 0 && k - CommittedPrefix(k) < CheckpointEvery
      && Within(ViewOf(r), Union(ViewOf(o), ViewOf(input)))
  {
    MergeRowsSpec(o, input, input.articles[..CommittedPrefix(k)]);
    RowViewPrefix(input.articles, CommittedPrefix(k), input.links);
  }

  lemma PairsCard(from: nat, tos: set<string>)
    ensures |Pairs(from, tos)| == |tos|
  {
    if tos != {} {
      var t :| t in tos;
      PairsCard(from, tos - {t});
      assert Pairs(from, tos) == Pairs(from, tos - {t}) + {(from, t)};
    }
  }

  /** The link rows whose source is one of the given rows. */
  function LinksOfRows(links: set<Link>, rows: seq<Article>): set<Link> {
    set l, a | l in links && a in rows && l.0 == a.id :: l
  }

  /** The link rows of one more source row are those with its id. */
  lemma LinksOfRowsSnoc(links: set<Link>, rows: seq<Article>, a: Article)
    ensures LinksOfRows(links, rows + [a]) == LinksOfRows(links, rows) + Pairs(a.id, Targets(links, a.id))
  {
    assert forall b :: b in rows + [a] <==> b in rows || b == a;
    forall l | l in Pairs(a.id, Targets(links, a.id)) ensures l in links {
      var m :| m in links && m.0 == a.id && m.1 == l.1;
    }
  }

  lemma LinksOfOtherRows(links: set<Link>, rows: seq<Article>, a: Article)
    requires forall b :: b in rows ==> b.id != a.id
    ensures LinksOfRows(links, rows) !! Pairs(a.id, Targets(links, a.id))
  {
  }

  lemma {:induction false} VisitedLinksCount(input: Db, rows: seq<Article>)
    requires IdsAscending(rows)
    ensures VisitedLinks(input, rows) == |LinksOfRows(input.links, rows)|
  {
    if rows != [] {
      var init, last := rows[..|rows| - 1], rows[|rows| - 1];
      assert rows == init + [last];
      LastIdNew(rows);
      VisitedLinksCount(input, init);
      PairsCard(last.id, Targets(input.links, last.id));
      LinksOfRowsSnoc(input.links, init, last);
      LinksOfOtherRows(input.links, init, last);
    }
  }

  /** In ascending order the last row's id is not among the others'. */
  lemma LastIdNew(rows: seq<Article>)
    requires IdsAscending(rows) && rows != []
    ensures IdsAscending(rows[..|rows| - 1])
    ensures forall b :: b in rows[..|rows| - 1] ==> b.id != rows[|rows| - 1].id
  {
    forall b | b in rows[..|rows| - 1] ensures b.id != rows[|rows| - 1].id {
      var j :| 0 <= j < |rows| - 1 && rows[..|rows| - 1][j] == b;
    }
  }

  /** On a valid input whose links all leave existing rows, `link_count` of a
      completed merge is the number of link rows in the input. */
  lemma VisitedAllLinks(input: Db)
    requires Valid(input) && Anchored(input)
    ensures VisitedLinks(input, input.articles) == |input.links|
  {
    VisitedLinksCount(input, input.articles);
    forall l | l in input.links ensures l in LinksOfRows(input.links, input.articles) {
      var i :| 0 <= i < |input.articles| && input.articles[i].id == l.0;
      assert input.articles[i] in input.articles;
    }
    assert LinksOfRows(input.links, input.articles) == input.links;
  }

  // ---------------------------------------------------------------------------
  // The loop over input files

  /** Every input is either missing or a valid file, and every fault point is in range. */
  ghost predicate Readable(inputs: seq<Option<Db>>, faults: seq<Option<nat>>) {
    && |faults| == |inputs|
    && forall i :: 0 <= i < |inputs| ==>
         (inputs[i].Some? ==> Valid(inputs[i].value)) && FaultInRange(inputs[i], faults[i])
  }

  /** The output after `merge_multiple_databases`: the inputs in order, each
      merged or skipped according to its outcome. */
  function MergeAll(o: Db, inputs: seq<Option<Db>>, faults: seq<Option<nat>>): Db
    requires Readable(inputs, faults)
  {
    if inputs == [] then o
    else
      var n := |inputs| - 1;
      MergeOutcome(MergeAll(o, inputs[..n], faults[..n]), inputs[n], faults[n])
  }

  lemma ReadablePrefix(inputs: seq<Option<Db>>, faults: seq<Option<nat>>, k: nat)
    requires Readable(inputs, faults) && k <= |inputs|
    ensures Readable(inputs[..k], faults[..k])
  {
  }

  lemma MergeAllSnoc(o: Db, inputs: seq<Option<Db>>, faults: seq<Option<nat>>, i: nat)
    requires Readable(inputs, faults) && i < |inputs|
    ensures Readable(inputs[..i], faults[..i]) && Readable(inputs[..i + 1], faults[..i + 1])
    ensures MergeAll(o, inputs[..i + 1], faults[..i + 1]) ==
      MergeOutcome(MergeAll(o, inputs[..i], faults[..i]), inputs[i], faults[i])
    ensures Successes(inputs[..i + 1], faults[..i + 1]) ==
      Successes(inputs[..i], faults[..i]) + if inputs[i].Some? && faults[i].None? then 1 else 0
  {
    ReadablePrefix(inputs, faults, i);
    ReadablePrefix(inputs, faults, i + 1);
    assert inputs[..i + 1][..i] == inputs[..i] && faults[..i + 1][..i] == faults[..i];
  }

  /** `success_count`: the inputs that exist and merge without an exception. */
  function Successes(inputs: seq<Option<Db>>, faults: seq<Option<nat>>): nat
    requires |faults| == |inputs|
  {
    if inputs == [] then 0
    else
      var n := |inputs| - 1;
      Successes(inputs[..n], faults[..n]) + if inputs[n].Some? && faults[n].None? then 1 else 0
  }

  /** The joined view of the inputs that exist. */
  function InputsView(inputs: seq<Option<Db>>): View {
    if inputs == [] then NoView
    else
      var n := |inputs| - 1;
      Union(InputsView(inputs[..n]), InputView(inputs[n]))
  }

  /** `success_count` never exceeds the number of inputs, and equals it
      exactly when every input exists and merges. */
  lemma {:induction false} SuccessesSpec(inputs: seq<Option<Db>>, faults: seq<Option<nat>>)
    requires |faults| == |inputs|
    ensures Successes(inputs, faults) <= |inputs|
    ensures Successes(inputs, faults) == |inputs| <==>
      forall i :: 0 <= i < |inputs| ==> inputs[i].Some? && faults[i].None?
  {
    if inputs != [] {
      var n := |inputs| - 1;
      SuccessesSpec(inputs[..n], faults[..n]);
      if Successes(inputs, faults) == |inputs| {
        assert Successes(inputs[..n], faults[..n]) == n;
        forall i | 0 <= i < |inputs| ensures inputs[i].Some? && faults[i].None? {
          if i < n {
            assert inputs[..n][i] == inputs[i] && faults[..n][i] == faults[i];
          }
        }
      }
      if forall i :: 0 <= i < |inputs| ==> inputs[i].Some? && faults[i].None? {
        forall i | 0 <= i < n ensures inputs[..n][i].Some? && faults[..n][i].None? {
          assert inputs[..n][i] == inputs[i];
        }
      }
    }
  }

  /** The view one input contributes: its own when it exists, nothing otherwise. */
  function InputView(input: Option<Db>): View {
    if input.Some? then ViewOf(input.value) else NoView
  }

  /** One call of `merge_database`: the output stays valid and keeps what it
      had, gains nothing beyond the input's view, and gains all of it on success. */
  lemma MergeOutcomeSpec(o: Db, input: Option<Db>, fault: Option<nat>)
    requires Valid(o) && Anchored(o) && FaultInRange(input, fault)
    ensures var r := MergeOutcome(o, input, fault);
      && Valid(r) && Anchored(r) && Kept(o, r)
      && Within(ViewOf(r), Union(ViewOf(o), InputView(input)))
      && (input.Some? && fault.None? ==> ViewOf(r) == Union(ViewOf(o), InputView(input)))
  {
    match input
    case None =>
      assert Union(ViewOf(o), NoView) == ViewOf(o);
    case Some(d) =>
      if fault.None? {
        assert d.articles[..|d.articles|] == d.articles;
        MergeRowsSpec(o, d, d.articles);
      } else {
        FailedMergeSpec(o, d, fault.value);
      }
  }

  lemma WithinStep(o: View, prev: View, r: View, before: View, next: View)
    requires Within(prev, Union(o, before)) && Within(r, Union(prev, next))
    ensures Within(r, Union(o, Union(before, next)))
  {
  }

  /** The merged output keeps the old output, stays valid with every link
      leaving a row, says nothing beyond the old output and the inputs, and,
      when every input merged, says exactly their join. */
  lemma {:induction false} MergeAllSpec(o: Db, inputs: seq<Option<Db>>, faults: seq<Option<nat>>)
    requires Valid(o) && Anchored(o) && Readable(inputs, faults)
    ensures var r := MergeAll(o, inputs, faults);
      && Valid(r) && Anchored(r) && Kept(o, r)
      && Within(ViewOf(r), Union(ViewOf(o), InputsView(inputs)))
      && (Successes(inputs, faults) == |inputs| ==> ViewOf(r) == Union(ViewOf(o), InputsView(inputs)))
  {
    if inputs != [] {
      var n := |inputs| - 1;
      var prev := MergeAll(o, inputs[..n], faults[..n]);
      var r := MergeAll(o, inputs, faults);
      MergeAllSpec(o, inputs[..n], faults[..n]);
      MergeOutcomeSpec(prev, inputs[n], faults[n]);
      assert r == MergeOutcome(prev, inputs[n], faults[n]);
      assert InputsView(inputs) == Union(InputsView(inputs[..n]), InputView(inputs[n]));
      WithinStep(ViewOf(o), ViewOf(prev), ViewOf(r), InputsView(inputs[..n]), InputView(inputs[n]));
      SuccessesSpec(inputs[..n], faults[..n]);
      if Successes(inputs, faults) == |inputs| {
        UnionAssoc(ViewOf(o), InputsView(inputs[..n]), InputView(inputs[n]));
      }
    }
  }

  /** The inputs before any point contribute no more than all of them. */
  lemma {:induction false} InputsViewPrefix(inputs: seq<Option<Db>>, k: nat)
    requires k <= |inputs|
    ensures Within(InputsView(inputs[..k]), InputsView(inputs))
  {
    if k < |inputs| {
      var n := |inputs| - 1;
      assert inputs[..n][..k] == inputs[..k];
      InputsViewPrefix(inputs[..n], k);
    } else {
      assert inputs[..k] == inputs;
    }
  }

  /** A run cut short after the first `k` inputs still keeps the old output,
      leaves a valid, anchored file, and says nothing beyond the old output
      and the inputs. */
  lemma AbortedMergeSpec(o: Db, inputs: seq<Option<Db>>, faults: seq<Option<nat>>, k: nat)
    requires Valid(o) && Anchored(o) && Readable(inputs, faults) && k <= |inputs|
    ensures Readable(inputs[..k], faults[..k])
    ensures var r := MergeAll(o, inputs[..k], faults[..k]);
      && Valid(r) && Anchored(r) && Kept(o, r)
      && Within(ViewOf(r), Union(ViewOf(o), InputsView(inputs)))
  {
    ReadablePrefix(inputs, faults, k);
    MergeAllSpec(o, inputs[..k], faults[..k]);
    InputsViewPrefix(inputs, k);
  }

  // ---------------------------------------------------------------------------
  // The methods

  /** One pass of the article loop over the output connection; `visited` is
      how many link rows of the input it read. */
  method MergeOneArticle(output: Store, input: Db, k: nat) returns (visited: nat)
    requires output.Valid() && Valid(input) && k < |input.articles|
    modifies output
    ensures output.Valid() && output.committed == old(output.committed)
    ensures output.Snapshot() == MergeArticle(old(output.Snapshot()), input, input.articles[k])
    ensures visited == |Targets(input.links, input.articles[k].id)|
  {
    var title, processed := input.articles[k].title, input.articles[k].processed;
    output.InsertOrIgnoreArticle(title, processed);
    ghost var o1 := output.Snapshot();
    if processed {
      output.MarkProcessedByTitle(title);
    }
    ghost var o2 := output.Snapshot();
    SameRowsTitles(o1, o2);
    IdOfRow(input, k);
    var inputId := IdOf(input, title).value;
    var outputId := IdOf(output.Snapshot(), title).value;
    var tos := Targets(input.links, inputId);
    var rest := tos;
    visited := 0;
    while rest != {}
      invariant rest <= tos
      invariant output.Valid() && output.committed == old(output.committed)
      invariant output.Snapshot() == InsertOrIgnoreLinks(o2, outputId, tos - rest)
      invariant visited + |rest| == |tos|
      decreases |rest|
    {
      var to :| to in rest;
      output.InsertOrIgnoreLink(outputId, to);
      InsertLinksTwice(o2, outputId, tos - rest, {to});
      assert (tos - rest) + {to} == tos - (rest - {to});
      rest := rest - {to};
      visited := visited + 1;
    }
    assert tos - rest == tos;
  }

  /** The loop state of `merge_database` after `i` input articles: the
      connection sees them all merged, the file holds those up to the last
      checkpoint. */
  ghost predicate Progress(output: Store, o: Db, input: Db, i: nat)
    reads output
    requires i <= |input.articles|
  {
    && output.Valid()
    && output.Snapshot() == MergeRows(o, input, input.articles[..i])
    && output.committed == MergeRows(o, input, input.articles[..CommittedPrefix(i)])
  }

  /** One iteration of the article loop, checkpoint included. */
  method MergeStep(output: Store, input: Db, i: nat, ghost o: Db) returns (visited: nat)
    requires Valid(input) && i < |input.articles| && Progress(output, o, input, i)
    modifies output
    ensures Progress(output, o, input, i + 1)
    ensures visited == |Targets(input.links, input.articles[i].id)|
  {
    visited := MergeOneArticle(output, input, i);
    MergeRowsSnoc(o, input, input.articles, i);
    CommittedPrefixStep(i);
    if (i + 1) % CheckpointEvery == 0 {
      output.Commit();
    }
  }

  /** The article loop of `merge_database` over the first `stop` input
      articles: all of them, or those before the one an exception strikes. */
  method MergeArticles(output: Store, input: Db, stop: nat, ghost o: Db) returns (linkCount: nat)
    requires Valid(input) && stop <= |input.articles| && Progress(output, o, input, 0)
    modifies output
    ensures Progress(output, o, input, stop)
    ensures linkCount == VisitedLinks(input, input.articles[..stop])
  {
    linkCount := 0;
    var articleCount := 0;
    while articleCount < stop
      invariant articleCount <= stop
      invariant Progress(output, o, input, articleCount)
      invariant linkCount == VisitedLinks(input, input.articles[..articleCount])
    {
      var visited := MergeStep(output, input, articleCount, o);
      MergeRowsSnoc(o, input, input.articles, articleCount);
      linkCount := linkCount + visited;
      articleCount := articleCount + 1;
    }
  }

  /** `merge_database`. A missing input returns false and touches nothing.
      Opening the two connections comes before the `try`: when it fails
      (`connects` false) the exception leaves the call with the output
      untouched, `raised`. Otherwise each input article is merged in order
      with a commit after every 1000th; an exception inside the `try` rolls
      back to the last commit and returns false. The counters are the locals
      the source logs. */
  method MergeDatabase(output: Store, input: Option<Db>, connects: bool, fault: Option<nat>)
    returns (raised: bool, merged: bool, articleCount: nat, linkCount: nat)
    requires output.Settled()
    requires input.Some? ==> Valid(input.value)
    requires FaultInRange(input, fault)
    modifies output
    ensures output.Settled()
    ensures raised <==> input.Some? && !connects
    ensures merged <==> input.Some? && connects && fault.None?
    ensures output.Snapshot() == if raised then old(output.Snapshot()) else MergeOutcome(old(output.Snapshot()), input, fault)
    ensures merged ==> articleCount == |input.value.articles| && linkCount == VisitedLinks(input.value, input.value.articles)
  {
    if input.None? {
      return false, false, 0, 0;
    }
    if !connects {
      return true, false, 0, 0;
    }
    raised := false;
    var d := input.value;
    ghost var o := output.Snapshot();
    assert d.articles[..0] == [];
    articleCount := if fault.Some? then fault.value else |d.articles|;
    linkCount := MergeArticles(output, d, articleCount, o);
    if fault.Some? {
      output.Rollback();
      return false, false, articleCount, linkCount;
    }
    assert d.articles[..articleCount] == d.articles;
    output.Commit();
    merged := true;
  }

  /** How many inputs `merge_multiple_databases` gets to: all of them, or
      those before the one whose connection fails. */
  function Reached(n: nat, abortAt: Option<nat>): (r: nat)
    requires abortAt.Some? ==> abortAt.value < n
    ensures r <= n && (r == n <==> abortAt.None?)
  {
    if abortAt.Some? then abortAt.value else n
  }

  /** One pass of the loop of `merge_multiple_databases`: the `merge_database`
      call on the next input. Unless it raises, the output and `success_count`
      move on by that input. */
  method MergeNext(output: Store, inputs: seq<Option<Db>>, faults: seq<Option<nat>>, i: nat,
                   connects: bool, successCount: nat, ghost o: Db)
    returns (raised: bool, count: nat)
    requires Readable(inputs, faults) && i < |inputs|
    requires output.Settled() && output.Snapshot() == MergeAll(o, inputs[..i], faults[..i])
    requires successCount == Successes(inputs[..i], faults[..i])
    modifies output
    ensures output.Settled() && Readable(inputs[..i + 1], faults[..i + 1])
    ensures raised <==> inputs[i].Some? && !connects
    ensures raised ==> output.Snapshot() == MergeAll(o, inputs[..i], faults[..i]) && count == successCount
    ensures !raised ==> (output.Snapshot() == MergeAll(o, inputs[..i + 1], faults[..i + 1])
      && count == Successes(inputs[..i + 1], faults[..i + 1]))
  {
    MergeAllSnoc(o, inputs, faults, i);
    var r, merged, _, _ := MergeDatabase(output, inputs[i], connects, faults[i]);
    raised := r;
    count := if merged then successCount + 1 else successCount;
  }

  /** `merge_multiple_databases` followed by the count queries of `print_stats`:
      the inputs in order, a failing one counted out and skipped. `abortAt`
      is the first existing input whose connection fails: that exception is
      not caught, so the later inputs are never merged and `print_stats`
      never runs (`stats` is `None`). */
  method MergeMultipleDatabases(output: Store, inputs: seq<Option<Db>>, faults: seq<Option<nat>>, abortAt: Option<nat>)
    returns (completed: bool, successCount: nat, stats: Option<Stats>)
    requires output.Settled() && Readable(inputs, faults)
    requires abortAt.Some? ==> abortAt.value < |inputs| && inputs[abortAt.value].Some?
    modifies output
    ensures output.Settled()
    ensures completed <==> abortAt.None?
    ensures var r := Reached(|inputs|, abortAt);
      output.Snapshot() == MergeAll(old(output.Snapshot()), inputs[..r], faults[..r])
      && successCount == Successes(inputs[..r], faults[..r])
    ensures stats == if completed then Some(GetStats(output.Snapshot())) else None
  {
    ghost var o := output.Snapshot();
    successCount := 0;
    var i := 0;
    while i < |inputs|
      invariant 0 <= i <= |inputs|
      invariant abortAt.Some? ==> i <= abortAt.value
      invariant output.Settled()
      invariant output.Snapshot() == MergeAll(o, inputs[..i], faults[..i])
      invariant successCount == Successes(inputs[..i], faults[..i])
    {
      var aborting := abortAt == Some(i);
      assert aborting ==> inputs[i].Some?;
      var raised;
      raised, successCount := MergeNext(output, inputs, faults, i, !aborting, successCount, o);
      if raised {
        assert Reached(|inputs|, abortAt) == i;
        return false, successCount, None;
      }
      i := i + 1;
    }
    assert inputs[..i] == inputs && faults[..i] == faults;
    assert Reached(|inputs|, abortAt) == i;
    completed := true;
    stats := Some(GetStats(output.Snapshot()));
  }
}
