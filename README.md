# wiki_mapper in Dafny

A model of the wiki_mapper link crawler and its database merger. Each
crawler reads Wikipedia article titles and records the links leaving each
article. The project models the three programs' work on their shared
SQLite store:

- `main.py`: the single-machine crawler.
- `main_multi_machine.py`: the per-machine crawler, which hash-partitions the
  title namespace so that each machine crawls its own share into its own file.
- `merge_databases.py`: the merger, which folds the per-machine files into
  one.

On a file with no article, each crawler first fills the `articles` table
from the all-titles dump and then runs `batch_run`; on any other file it
runs `batch_run` alone (main.py:219-231). That loop repeatedly takes the lowest-id unprocessed titles,
fetches the links of each page, and saves them with `save_article_links`.
The merger copies every input file's rows into the output. It matches rows
by title, ORs the `processed` flags, re-keys each link from the input id to
the output id of the same title, and commits every 1000 articles.

Modules, one file each:

- `Tables` (tables.dfy): one SQLite file as a value.
  - `Db` holds the `articles` rows in rowid order, the `links` pairs and the
    next AUTOINCREMENT id. Every `INSERT OR IGNORE` into `articles` advances
    that id, including one that is ignored, as SQLite draws the id before the
    UNIQUE check. A rollback restores it with the rest of the file.
  - The SQL statements the programs issue become functions: INSERT OR IGNORE,
    the two UPDATEs, the lookup by title and the COUNT queries.
  - `Valid` is what the schema guarantees: ids ascend, titles are unique,
    and ids stay below the next id.
  - `Anchored` is the foreign key from links to articles.
- `Persistence` (store.dfy): the class `Store`, one connection to one file.
  - It holds the rows the connection sees and the state as of the last
    commit.
  - Its methods change the rows in place; `Rollback` returns to the last
    commit.
  - Every program-level operation starts and ends `Settled`: no transaction
    is left open.
- `Cleaning` (cleaning.dfy): the two string filters.
  - The link clean-up of `get_article_links`: drop a link that contains a
    namespace marker anywhere, replace `_` by a space, remove duplicates.
  - The dump-line filter of `get_all_titles`: Python's `strip()`, skip empty
    lines and `#` lines, replace `_` by a space.
- `Partition` (partition.dfy): `should_process_article`, over a hash
  function given as a parameter.
- `Crawler` (crawler.dfy): the code the two crawlers share, and the
  single-machine `main`. The shared code is `save_article_links` (with its
  rollback), the queue query, `batch_run`, the dump insert of
  `populate_articles_table` and `get_stats`.
  - `batch_run` is proved against the function `CrawlAll`: every row that
    was unprocessed when the run started, marked processed, with the links
    its fetch yields.
- `MultiMachine` (multi_machine.dfy): the per-machine populate, which keeps
  only owned titles, and the ownership invariant the crawl relies on.
  - Its `main` checks the machine id, then chooses between the initial run
    and continuing.
- `Merge` (merge.dfy): `merge_database` with its checkpoint commits and its
  rollback on an exception, `merge_multiple_databases`, and the count
  queries of `print_stats`.
  - The merge is specified by `MergeRows`.
  - Its meaning is stated on views: a file's set of titles, set of processed
    titles and set of links by source title. Ids are local to a file, so
    only these can be compared across files.

Parameters stand in for what lies outside the model:

- The page fetch is a function from titles to `FetchResult`: either the
  decoded link targets of the page, or a failure.
- The MD5 title hash is any function from titles to naturals.
- The decompressed dump is a sequence of lines.
- A merge input is `Option<Db>`, where `None` is a path that does not exist.
- Whether `sqlite3.connect` opens an existing input path is a boolean; the
  index of the first input it cannot open, if any, is `abortAt`.
- An exception inside a transaction is a fault position `Option<nat>`.

Three behaviours of the code shape the model:

- Link targets never become article rows. `save_article_links`
  (main.py:91-103) inserts only the source title, its link rows and the
  processed flag.
- There is no in-progress state, no retry and no backoff. A fetch that fails
  for any reason returns no links (main.py:80-82), and `batch_run` still
  saves the title as processed (main.py:186-194).
- `merge_multiple_databases` counts each input whose `merge_database` returns
  false and goes on with the next one (merge_databases.py:137-140). The two
  `sqlite3.connect` calls (merge_databases.py:63-64) sit outside the `try`,
  so an input path that exists but cannot be opened raises out of
  `merge_multiple_databases`: later inputs are not merged and `print_stats`
  does not run.

## Model

| member | source | states |
|---|---|---|
| Tables.IdOf | main.py:92-93 | The lookup by title finds nothing exactly when the title is absent. |
| Tables.IdOfRow | main.py:92-93 | On a valid file, the lookup by a row's title returns that row's id. |
| Tables.InsertOrIgnoreArticle | main.py:91 | The insert keeps the file valid, adds exactly the title to the title set, and keeps the existing rows and the links. When the title is present it changes no row and no link. Otherwise it appends one row with the next AUTOINCREMENT id and the given flag. Either way the AUTOINCREMENT counter advances by one: SQLite draws the id before it checks the UNIQUE title, so an ignored insert uses one up. |
| Tables.InsertOrIgnoreLinks | main.py:96-100 | The rows are unchanged and every old link is kept. Every (from, to) pair is present afterwards, and every new link leaves `from` towards one of the targets. |
| Tables.InsertLinksTwice | main.py:96-100 | Inserting one batch of links and then another equals inserting their union: repeats and order do not matter. |
| Tables.MarkProcessed | main.py:103 | The UPDATE keeps every row's id and title. It sets a flag to true exactly where the id matches, and leaves every other flag and the links unchanged. |
| Tables.MarkProcessedByTitle | merge_databases.py:86-90 | The UPDATE keeps every row's id and title, and ORs into each flag whether that row's title matches. |
| Tables.CountSplit | main.py:201-205 | The processed rows and the unprocessed rows together are all the rows. |
| Tables.GetStats | main.py:201-216 | total_articles is the row count and total_links the link count. processed_articles is the number of processed rows, and remaining_articles is total_articles minus processed_articles, which is the number of unprocessed rows. Every article is processed exactly when processed_articles equals total_articles. |
| Persistence.Store.Open | main.py:20-55 | Opening a valid file, or a fresh empty one, leaves the store settled and holding exactly that file. |
| Persistence.Store.InsertOrIgnoreArticle | main.py:91 | The connection's rows become `Tables.InsertOrIgnoreArticle` of the old rows. The committed state is unchanged. |
| Persistence.Store.InsertOrIgnoreLink | main.py:97-100 | The connection's rows gain the one link. The committed state is unchanged. |
| Persistence.Store.MarkProcessed | main.py:103 | The connection's rows become `Tables.MarkProcessed` of the old rows. The committed state is unchanged. |
| Persistence.Store.MarkProcessedByTitle | merge_databases.py:86-90 | The connection's rows become `Tables.MarkProcessedByTitle` of the old rows. The committed state is unchanged. |
| Persistence.Store.Commit | main.py:105 | The committed state becomes what the connection sees. |
| Persistence.Store.Rollback | main.py:110 | What the connection sees returns to the last committed state. |
| Cleaning.Underscores | main.py:76 | `replace('_', ' ')` keeps the length and leaves no underscore. |
| Cleaning.Dedup | main.py:78 | `list(set(...))` has the same members as its input and no duplicates. |
| Cleaning.CleanLinksMembers | main.py:72-76 | A string is in the cleaned list exactly when some link of the page without a namespace marker becomes that string once underscores are replaced. |
| Cleaning.UnderscoresKeepAbsent | main.py:75-76 | Replacing underscores by spaces cannot create a marker that holds no space, so the filter stays sound after the replacement. |
| Cleaning.ArticleLinksSpec | main.py:71-82 | The links of a fetched page have no duplicates, no underscore and no namespace marker anywhere. They are exactly the cleaned non-special links of the page. A failed fetch yields no link. |
| Cleaning.GetArticleLinks | main.py:71-78 | The cleaning loop followed by the de-duplication returns `ArticleLinks` of the fetch outcome. |
| Cleaning.TrimStartSpec | main.py:125 | Stripping the start of a line drops exactly the leading whitespace. |
| Cleaning.TrimEndSpec | main.py:125 | Stripping the end of a line drops exactly the trailing whitespace. |
| Cleaning.StripSpec | main.py:125 | `strip()` returns the middle of the line between whitespace-only ends. The result neither starts nor ends with whitespace. |
| Cleaning.DumpTitlesAppend | main.py:124-127 | The line filter works line by line: the titles of two stretches of lines are the titles of each, in order. |
| Cleaning.DumpTitlesSpec | main.py:124-127 | A line whose stripped text is non-empty and does not start with '#' contributes that text with underscores replaced. Every title comes from some line, and no title is empty, starts with '#' or holds an underscore. There are never more titles than lines. |
| Cleaning.GetAllTitles | main.py:122-130 | The reading loop returns `DumpTitles` of the lines. |
| Partition.Owner | main_multi_machine.py:71-78 | The owner of a title is a machine id below total_machines. |
| Partition.ExactlyOneOwner | main_multi_machine.py:75-78 | For total_machines > 0, each title has an owning machine in range. `should_process_article` holds exactly for that one machine id, which depends only on the title, the hash and total_machines. |
| Partition.OwnedTitles | main_multi_machine.py:160 | A machine's share is never longer than the title list. |
| Partition.OwnedTitlesMembers | main_multi_machine.py:160 | A title is in a machine's share exactly when it is in the list and that machine owns it. |
| Partition.SharesPartition | main_multi_machine.py:160 | The machines' shares of one title list are disjoint and together cover it. |
| Crawler.SaveLinksSpec | main.py:91-105 | After a committed save the file stays valid. The title is present once and processed, and each link is stored under the title's id. Every new link is one of those. No existing link and no other row's flag changes, and at most one row is added. The AUTOINCREMENT counter advances by one. |
| Crawler.SaveLinksAnchored | main.py:91-103 | A save keeps the foreign key: its links leave the saved row. |
| Crawler.SaveLinksIdempotent | main.py:91-105 | Repeating an identical save leaves every row and link as the first one left it. Only the AUTOINCREMENT counter moves on by one, used up by the ignored insert. |
| Crawler.SaveArticleLinks | main.py:84-112 | Without an exception the file becomes `SaveLinks` of the old file. An exception at any insert, the update or the commit rolls back to the file as it was. The store is left settled either way. |
| Crawler.Limit | main.py:155 | `LIMIT` returns a prefix of the rows. |
| Crawler.NextUnprocessed | main.py:151-161 | The query returns the titles of the queue rows, in the same order. |
| Crawler.NextUnprocessedSpec | main.py:151-161 | The query returns at most `batch_size` rows (any number for a negative limit), each unprocessed and in ascending id order. They are the lowest-id unprocessed rows. It returns none exactly when the limit is 0 or every row is processed. |
| Crawler.QueueAscending | main.py:154 | The queue comes in ascending id order. |
| Crawler.QueueLowest | main.py:151-156 | An unprocessed row left out of the queue comes after a full batch, and every queued id is below its id. |
| Crawler.QueueEmpty | main.py:151-161 | The queue is empty exactly when the limit is 0 or no row is unprocessed. |
| Crawler.CrawlStep | main.py:186-189 | Saving the fetched links of a row that was unprocessed when the run started extends the crawled set by that row. |
| Crawler.QueuedRow | main.py:178-189 | A queued row was unprocessed when the run started and has not been crawled since. |
| Crawler.QueueDrained | main.py:178-182 | When the queue comes back empty under a non-zero limit, every row that was unprocessed at the start has been crawled. |
| Crawler.QueuedFresh | main.py:151-156 | The j-th row of a batch was not crawled before the batch, and its id differs from those of the batch's earlier rows, since the queue's ids ascend. |
| Crawler.CrawlQueued | main.py:186-189 | Fetching and saving the j-th queued title extends the crawled set by exactly that row's id. |
| Crawler.SaveBatch | main.py:186-194 | The inner `for` loop saves every title of the batch in order, and the crawled set grows by exactly the batch's ids. |
| Crawler.CrawlBatch | main.py:186-194 | Crawling one batch saves every queued title with its fetched links. The crawled set grows by exactly the ids of the queued rows, each unprocessed at the start of the run, so the rows left to crawl strictly decrease. |
| Crawler.BatchShrinks | main.py:178-189 | The rows of a non-empty batch were all unprocessed at the start of the run, and adding them to the crawled set leaves strictly fewer rows to crawl. |
| Crawler.BatchRun | main.py:173-194 | `batch_run` ends with the file equal to `CrawlAll` of the file it started from: every row that was unprocessed, marked processed with its fetched links, and the AUTOINCREMENT counter advanced by one per save. With `batch_size` 0 it stops at once and changes nothing. |
| Crawler.CrawlAllRows | main.py:177-194 | A completed crawl keeps every row with its id and title, adds no title, and leaves no row unprocessed. |
| Crawler.CrawlAllLinks | main.py:186-189 | A completed crawl keeps every link. Each row that was unprocessed gains exactly the links its fetch yields, and rows already processed gain none. |
| Crawler.CrawlAllFailedFetch | main.py:80-103 | A title whose fetch failed ends processed with no link added: it is not retried. |
| Crawler.CrawlAllAnchored | main.py:96-103 | A completed crawl keeps the foreign key. |
| Crawler.CrawlAllIdempotent | main.py:177-182 | Once a crawl has completed, running it again changes nothing. |
| Crawler.CrawlAllLeavesNothing | main.py:177-182 | After a completed crawl, `get_stats` reports no remaining article and the queue query returns nothing. |
| Crawler.InsertAllSpec | main.py:139-140 | The insert keeps the file valid. Every given title is present, repeats in the list or in the file are ignored, and existing rows and links are kept. The added rows are unprocessed, and the AUTOINCREMENT counter advances by one per title, inserted or ignored. |
| Crawler.InsertAllAnchored | main.py:139-140 | The title insert keeps the foreign key. |
| Crawler.InsertAllPresent | main.py:139-140 | Inserting titles that are all present changes no row and no link; only the AUTOINCREMENT counter advances, by one per title. |
| Crawler.InsertAllIdempotent | main.py:139-140 | Running the insert again changes no row and no link; only the AUTOINCREMENT counter advances, by one per title. |
| Crawler.InsertTitles | main.py:136-142 | The insert loop and commit leave the file as `InsertAll` of the old file and the titles. |
| Crawler.PopulateArticlesTable | main.py:132-142 | `populate_articles_table` inserts every title of the dump. |
| Crawler.RunSingleMachine | main.py:219-231 | `main` runs the initial run exactly when the file has no article. Either way the file ends as the completed crawl, in the initial case after the dump insert. |
| MultiMachine.PopulateSpec | main_multi_machine.py:155-170 | The populate keeps the file valid. It adds exactly the dump titles this machine owns and keeps the ownership invariant. Running it again changes no row and no link; only the AUTOINCREMENT counter advances. |
| MultiMachine.SaveQueuedKeepsOwnership | main_multi_machine.py:206-217 | Saving a title returned by the queue query keeps the invariant that every title in the file is owned by this machine. |
| MultiMachine.CrawlKeepsOwnership | main_multi_machine.py:201-222 | A completed `batch_run` keeps the ownership invariant. |
| MultiMachine.InitialRunShares | main_multi_machine.py:191-199 | After the initial run on a fresh file, every title is owned by this machine and processed. A dump title is in machine m's file exactly when m owns it, so across machines the files split the dump. |
| MultiMachine.PopulateOwnedTitles | main_multi_machine.py:155-170 | The per-machine populate inserts this machine's share of the dump titles. |
| MultiMachine.RunMachine | main_multi_machine.py:264-289 | `main` goes on exactly when 0 <= machine_id < total_machines; otherwise it changes nothing. An empty file gets the owned-titles populate and `batch_run` with the default batch size. Any other file gets `batch_run(batch_size)`. |
| Merge.CommittedPrefix | merge_databases.py:113-116 | The durable prefix at a fault is a multiple of 1000, no larger than the fault position, and fewer than 1000 below it. |
| Merge.CommittedPrefixStep | merge_databases.py:113-116 | The durable prefix moves up to the article count exactly when that count is a multiple of 1000. |
| Merge.InsertArticleView | merge_databases.py:79-82 | Inserting an input row adds its title, and its flag only when the title is new. The file stays anchored and no link moves. |
| Merge.MarkByTitleView | merge_databases.py:85-90 | Raising the flag of a present title adds exactly that title to the processed set and never clears a flag. |
| Merge.AddLinksView | merge_databases.py:96-110 | Links inserted under the output id of a present title appear under that title, and nothing else changes. |
| Merge.MergeArticleSpec | merge_databases.py:77-113 | Merging one input row keeps the output valid and anchored, and keeps every row's id and title, every flag that was set and every link. It adds the row's title, its flag OR-ed in, and its links re-keyed to the output id. |
| Merge.MergeRowsSpec | merge_databases.py:77-117 | After any prefix of the input rows, the output's view is the old view joined with those rows' view. The output stays valid and anchored. |
| Merge.MergeDatabaseSpec | merge_databases.py:77-122 | After a completed merge the titles are the old titles plus the input's, each once. The title-level links are the old links plus the input's. Each flag is the old flag OR the input's. |
| Merge.MergeTwiceSameView | merge_databases.py:77-113 | Merging the same input twice yields the same titles, flags and title-level links as merging it once. |
| Merge.MergeOrderIrrelevant | merge_databases.py:138-140 | Merging A then B yields the same titles, flags and title-level links as B then A; only ids may differ. |
| Merge.MergeIntoEmpty | merge_databases.py:77-113 | Merging into a fresh output reproduces the input's titles, flags and title-level links. |
| Merge.FailedMergeSpec | merge_databases.py:115-127 | An exception at article k rolls the output back to the merge of the first articles up to the last multiple of 1000 at or below k. The output stays valid and says nothing beyond the old output and the input. |
| Merge.VisitedLinksCount | merge_databases.py:99-111 | `link_count` is the number of input link rows leaving the rows merged so far, ignored duplicates included. |
| Merge.VisitedAllLinks | merge_databases.py:99-111 | On an input whose links all leave existing rows, a completed merge's `link_count` equals the input's link count. |
| Merge.SuccessesSpec | merge_databases.py:137-142 | `success_count` never exceeds the number of inputs, and equals it exactly when every input exists and merges. |
| Merge.MergeOutcomeSpec | merge_databases.py:54-131 | Whatever happens, one `merge_database` call keeps the output valid and gains nothing beyond the input's view. It gains all of that view when the input exists and no exception strikes. An exception at the final commit after a multiple of 1000 articles also leaves the whole input durable, although `merge_database` then returns false. A missing input changes nothing. |
| Merge.MergeAllSpec | merge_databases.py:133-145 | The merged output keeps the old output and stays valid and anchored. It says nothing beyond the old output and the inputs, and when every input merged it says exactly their join. |
| Merge.MergeOneArticle | merge_databases.py:77-111 | One pass of the article loop leaves the connection at `MergeArticle` and commits nothing. It visits one link row per input link of the article. |
| Merge.MergeStep | merge_databases.py:77-117 | One iteration merges the next article and commits when the count reaches a multiple of 1000. The file then holds the merge up to the last checkpoint. |
| Merge.MergeArticles | merge_databases.py:74-117 | The article loop merges the first `stop` articles and counts their link rows. The checkpoints leave the file holding the merge up to the last multiple of 1000. |
| Merge.MergeDatabase | merge_databases.py:54-131 | Raises exactly when the input exists and cannot be opened, and then changes nothing. Returns true exactly when the input exists, opens and no exception strikes. Otherwise the output ends as `MergeOutcome`: unchanged for a missing input, rolled back to the last checkpoint on an exception, fully merged and committed on success. On success the counters are the input's article count and its visited link rows. |
| Merge.Reached | merge_databases.py:138-140 | The number of inputs the loop reaches is at most their count, and equals it exactly when no input fails to open. |
| Merge.MergeNext | merge_databases.py:138-140 | One iteration raises exactly when the input exists and fails to open, leaving the output and `success_count` as they were. Otherwise it merges the input and `success_count` counts the merged inputs so far. |
| Merge.MergeMultipleDatabases | merge_databases.py:133-145 | The inputs are merged in order, a failing one counted out and skipped. The call completes exactly when no input fails to open; otherwise it stops at the first such input, having merged only the ones before it. `success_count` is the number of inputs reached that merged, and the statistics of the final output are taken only on completion. |
| Merge.InputsViewPrefix | merge_databases.py:138-140 | The inputs before any point say nothing beyond all the inputs. |
| Merge.AbortedMergeSpec | merge_databases.py:63-64 | A merge that stops at any input keeps the old output, stays valid and anchored, and says nothing beyond the old output and all the inputs. |

## Left out

- The HTTP fetch, URL quoting, `raise_for_status`, the HTML regex and `unquote` are outside the model. The fetch is a parameter that returns the decoded link targets or a failure.
- The download and gunzip of the titles dump are outside the model. Its lines are a parameter.
- The MD5 computation is a foreign library call. The hash is a parameter `string -> nat`, and every property proved holds for any hash.
- SQLite connections, file creation and `os.path.exists` are not modelled. Each file is a `Store`, and a merge input path is `Option<Db>`.
- `time.sleep`, logging and argparse are not modelled. `--delay` carries no behaviour.
- The floating-point average of `print_stats` (merge_databases.py:170) is not modelled. It is only logged.
- The `links` table's own `id INTEGER PRIMARY KEY AUTOINCREMENT` column (main.py:38) is not modelled. No statement reads it, and `COUNT(*)` does not depend on it.
- The `progress` table and the `last_updated` column are not modelled. The schema's `DEFAULT CURRENT_TIMESTAMP` fills `last_updated`, but no statement sets or reads either of them.
- The choice of database path in the per-machine `main` (main_multi_machine.py:269-272) is not modelled. The store is given.
- The `machine_id` and `total_machines` fields that the per-machine `get_stats` echoes back are not modelled.
- BatchRun: every save is taken to commit. A save that fails rolls back and leaves its title unprocessed. The next queue query returns that title again, so a save that always fails keeps `batch_run` running forever, and no final state exists to state.
- MergeMultipleDatabases: why `sqlite3.connect` fails on an input path is not modelled. The model takes the index of the first input it cannot open, and the exception then ends the call.
- Dedup: Python's `list(set(...))` has an unspecified order. The model keeps first occurrences, and no property depends on the order.
- MergeOneArticle: the input's link rows are read in an unspecified order. The model takes them in any order; the result is the same set.
- MergeDatabase: `SELECT title, processed FROM articles` has no ORDER BY. The model reads input rows in rowid order, so output ids follow that order. The views, and so every merge property above, do not depend on ids.
- SaveArticleLinks and MergeDatabase: an exception is modelled at the granularity of one statement. A fault position says before which insert, or at the final update or commit, the exception strikes. The cause of the exception is not modelled.
