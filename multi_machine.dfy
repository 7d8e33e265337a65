/** The per-machine crawler: the same crawl loop as the single-machine one, over
    a file that holds only the titles this machine owns under the hash
    partition, and the machine-id check of its `main`. */
module MultiMachine {
  import opened Tables
  import opened Persistence
  import opened Cleaning
  import opened Partition
  import opened Crawler

  /** The check at the top of `main`: a mapper is only built for
      0 <= machine_id < total_machines (so total_machines is positive). */
  predicate ValidMachine(machineId: int, totalMachines: int) {
    0 <= machineId < totalMachines
  }

  /** The invariant the crawl relies on, since `batch_run` never re-checks
      ownership: every title in the file belongs to this machine. */
  ghost predicate OwnedOnly(d: Db, hash: string -> nat, machineId: int, totalMachines: nat)
    requires totalMachines > 0
  {
    forall t :: t in Titles(d) ==> ShouldProcess(hash, t, machineId, totalMachines)
  }

  /** The titles `populate_articles_table` inserts: this machine's share of the dump. */
  function MyTitles(hash: string -> nat, dumpLines: seq<string>, machineId: int, totalMachines: nat): seq<string>
    requires totalMachines > 0
  {
    OwnedTitles(hash, DumpTitles(dumpLines), machineId, totalMachines)
  }

  /** Populating adds exactly the dump titles this machine owns, keeps the
      ownership invariant, and adds no row when run again (its ignored inserts
      only use up ids). */
  lemma PopulateSpec(d: Db, hash: string -> nat, dumpLines: seq<string>, machineId: int, totalMachines: nat)
    requires totalMachines > 0 && Valid(d)
    ensures var r := InsertAll(d, MyTitles(hash, dumpLines, machineId, totalMachines));
      && Valid(r)
      && (forall t :: t in Titles(r) <==>
            t in Titles(d) || (t in DumpTitles(dumpLines) && ShouldProcess(hash, t, machineId, totalMachines)))
      && (OwnedOnly(d, hash, machineId, totalMachines) ==> OwnedOnly(r, hash, machineId, totalMachines))
      && InsertAll(r, MyTitles(hash, dumpLines, machineId, totalMachines))
           == r.(nextId := r.nextId + |MyTitles(hash, dumpLines, machineId, totalMachines)|)
  {
    var mine := MyTitles(hash, dumpLines, machineId, totalMachines);
    InsertAllSpec(d, mine);
    InsertAllIdempotent(d, mine);
    forall t ensures t in Elems(mine) <==> t in DumpTitles(dumpLines) && ShouldProcess(hash, t, machineId, totalMachines) {
      OwnedTitlesMembers(hash, DumpTitles(dumpLines), machineId, totalMachines, t);
    }
  }

  /** `save_article_links` on a title the queue query returned adds no title,
      so the ownership invariant survives every step of `batch_run`. */
  lemma SaveQueuedKeepsOwnership(d: Db, hash: string -> nat, machineId: int, totalMachines: nat,
                                  limit: int, j: nat, links: seq<string>)
    requires totalMachines > 0 && Valid(d) && OwnedOnly(d, hash, machineId, totalMachines)
    requires j < |NextUnprocessed(d, limit)|
    ensures OwnedOnly(SaveLinks(d, NextUnprocessed(d, limit)[j], links), hash, machineId, totalMachines)
  {
    var t := NextUnprocessed(d, limit)[j];
    NextUnprocessedSpec(d, limit);
    assert NextUnprocessedRows(d, limit)[j] in NextUnprocessedRows(d, limit);
    assert t in Titles(d);
    SaveLinksSpec(d, t, links);
  }

  /** A completed crawl adds no title, so it keeps the ownership invariant. */
  lemma CrawlKeepsOwnership(d: Db, hash: string -> nat, machineId: int, totalMachines: nat,
                            linksOf: string -> seq<string>)
    requires totalMachines > 0 && Valid(d) && OwnedOnly(d, hash, machineId, totalMachines)
    ensures OwnedOnly(CrawlAll(d, linksOf), hash, machineId, totalMachines)
  {
    CrawlAllRows(d, linksOf);
  }

  /** What the initial run leaves in a fresh file: this machine's share of the
      dump, every title processed. Across machines the shares are disjoint and
      cover the dump: a dump title is in machine m's file exactly when m is its owner. */
  lemma InitialRunShares(hash: string -> nat, dumpLines: seq<string>, machineId: int, totalMachines: nat,
                         linksOf: string -> seq<string>)
    requires ValidMachine(machineId, totalMachines)
    ensures var r := CrawlAll(InsertAll(Empty, MyTitles(hash, dumpLines, machineId, totalMachines)), linksOf);
      && OwnedOnly(r, hash, machineId, totalMachines)
      && (forall t :: t in DumpTitles(dumpLines) ==> (t in Titles(r) <==> machineId == Owner(hash, t, totalMachines)))
      && (forall a :: a in r.articles ==> a.processed)
  {
    var p := InsertAll(Empty, MyTitles(hash, dumpLines, machineId, totalMachines));
    PopulateSpec(Empty, hash, dumpLines, machineId, totalMachines);
    CrawlKeepsOwnership(p, hash, machineId, totalMachines, linksOf);
    CrawlAllRows(p, linksOf);
    forall t | t in DumpTitles(dumpLines)
      ensures t in Titles(CrawlAll(p, linksOf)) <==> machineId == Owner(hash, t, totalMachines)
    {
      ExactlyOneOwner(hash, t, totalMachines);
    }
  }

  /** The per-machine `populate_articles_table`: read the dump, keep this
      machine's titles, insert them in one transaction. */
  method PopulateOwnedTitles(store: Store, hash: string -> nat, dumpLines: seq<string>, machineId: int, totalMachines: nat)
    requires totalMachines > 0 && store.Settled()
    modifies store
    ensures store.Settled()
    ensures store.Snapshot() == InsertAll(old(store.Snapshot()), MyTitles(hash, dumpLines, machineId, totalMachines))
  {
    var allTitles := GetAllTitles(dumpLines);
    var myTitles := OwnedTitles(hash, allTitles, machineId, totalMachines);
    InsertTitles(store, myTitles);
  }

  /** The per-machine `main`. An invalid machine id returns before any file is
      opened. Otherwise an empty file gets the initial run (populate this
      machine's share, then `batch_run()` with its default batch size, whatever
      --batch-size says); any other file continues with `batch_run(batch_size)`. */
  method RunMachine(store: Store, machineId: int, totalMachines: int, hash: string -> nat,
                    dumpLines: seq<string>, fetch: string -> FetchResult, batchSize: int)
    returns (ran: bool, initial: bool)
    requires store.Settled()
    modifies store
    ensures store.Settled()
    ensures ran <==> ValidMachine(machineId, totalMachines)
    ensures !ran ==> !initial && store.Snapshot() == old(store.Snapshot())
    ensures ran ==> (initial <==> GetStats(old(store.Snapshot())).totalArticles == 0)
    ensures ran && initial ==> (store.Snapshot() ==
      CrawlAll(InsertAll(old(store.Snapshot()), MyTitles(hash, dumpLines, machineId, totalMachines)), LinksOf(fetch)))
    ensures ran && !initial ==> (store.Snapshot() ==
      if batchSize == 0 then old(store.Snapshot()) else CrawlAll(old(store.Snapshot()), LinksOf(fetch)))
  {
    if machineId < 0 || machineId >= totalMachines {
      return false, false;
    }
    ran := true;
    var stats := GetStats(store.Snapshot());
    initial := stats.totalArticles == 0;
    if initial {
      PopulateOwnedTitles(store, hash, dumpLines, machineId, totalMachines);
      BatchRun(store, fetch, DefaultBatchSize);
    } else {
      BatchRun(store, fetch, batchSize);
    }
  }
}
