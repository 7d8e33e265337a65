/** Hash partitioning of the title namespace between machines. The MD5 digest
    is a foreign library call: it is a parameter `hash`, any function from
    titles to naturals (the digest read as a base-16 integer is never negative). */
module Partition {

  /** The machine that owns a title: `hash(title) % total_machines`. */
  function Owner(hash: string -> nat, title: string, totalMachines: nat): (m: nat)
    requires totalMachines > 0
    ensures m < totalMachines
  {
    hash(title) % totalMachines
  }

  /** `should_process_article`. */
  predicate ShouldProcess(hash: string -> nat, title: string, machineId: int, totalMachines: nat)
    requires totalMachines > 0
  {
    hash(title) % totalMachines == machineId
  }

  /** Every title has exactly one owner among the machines 0 .. total_machines - 1. */
  lemma ExactlyOneOwner(hash: string -> nat, title: string, totalMachines: nat)
    requires totalMachines > 0
    ensures exists m :: 0 <= m < totalMachines && ShouldProcess(hash, title, m, totalMachines)
    ensures forall m :: ShouldProcess(hash, title, m, totalMachines) <==> m == Owner(hash, title, totalMachines)
  {
    assert ShouldProcess(hash, title, Owner(hash, title, totalMachines), totalMachines);
  }

  /** `[title for title in all_titles if self.should_process_article(title)]`. */
  function OwnedTitles(hash: string -> nat, titles: seq<string>, machineId: int, totalMachines: nat): (r: seq<string>)
    requires totalMachines > 0
    ensures |r| <= |titles|
  {
    if titles == [] then []
    else
      var init, last := titles[..|titles| - 1], titles[|titles| - 1];
      OwnedTitles(hash, init, machineId, totalMachines)
        + (if ShouldProcess(hash, last, machineId, totalMachines) then [last] else [])
  }

  /** A machine keeps exactly the titles it owns. */
  lemma {:induction false} OwnedTitlesMembers(hash: string -> nat, titles: seq<string>, machineId: int, totalMachines: nat, t: string)
    requires totalMachines > 0
    ensures t in OwnedTitles(hash, titles, machineId, totalMachines) <==>
      t in titles && ShouldProcess(hash, t, machineId, totalMachines)
  {
    if titles != [] {
      var init := titles[..|titles| - 1];
      assert titles == init + [titles[|titles| - 1]];
      OwnedTitlesMembers(hash, init, machineId, totalMachines, t);
    }
  }

  /** The machines' shares of one title list are disjoint and together cover it. */
  lemma SharesPartition(hash: string -> nat, titles: seq<string>, totalMachines: nat, t: string)
    requires totalMachines > 0
    requires t in titles
    ensures t in OwnedTitles(hash, titles, Owner(hash, t, totalMachines), totalMachines)
    ensures forall m :: t in OwnedTitles(hash, titles, m, totalMachines) ==> m == Owner(hash, t, totalMachines)
  {
    ExactlyOneOwner(hash, t, totalMachines);
    OwnedTitlesMembers(hash, titles, Owner(hash, t, totalMachines), totalMachines, t);
    forall m | t in OwnedTitles(hash, titles, m, totalMachines) ensures m == Owner(hash, t, totalMachines) {
      OwnedTitlesMembers(hash, titles, m, totalMachines, t);
    }
  }
}
