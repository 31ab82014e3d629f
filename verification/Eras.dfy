/** Which implementation a block belongs to. */
module Eras {
  import opened Prelude
  import opened Text
  import Sorting

  /** One Upgraded event. */
  datatype Upgrade = Upgrade(block: nat, logIndex: nat, implementation: string, tx: string, timestamp: nat)

  datatype Era = Era(index: nat, implementation: string, fromBlock: nat, toBlock: Option<nat>, tx: string)

  /** The order of the tuples: block, log index, implementation, hash, time. */
  predicate UpgradeLeq(a: Upgrade, b: Upgrade) {
    if a.block != b.block then a.block < b.block
    else if a.logIndex != b.logIndex then a.logIndex < b.logIndex
    else if a.implementation != b.implementation then LexLeq(a.implementation, b.implementation)
    else if a.tx != b.tx then LexLeq(a.tx, b.tx)
    else a.timestamp <= b.timestamp
  }

  lemma UpgradeOrder()
    ensures Sorting.TotalPreorder(UpgradeLeq)
  {
    hide LexLeq;
    forall x, y
      ensures UpgradeLeq(x, y) || UpgradeLeq(y, x)
    {
      LexTotal(x.implementation, y.implementation);
      LexTotal(x.tx, y.tx);
    }
    forall x, y, z | UpgradeLeq(x, y) && UpgradeLeq(y, z)
      ensures UpgradeLeq(x, z)
    {
      UpgradeTransitive(x, y, z);
    }
  }

  lemma UpgradeTransitive(x: Upgrade, y: Upgrade, z: Upgrade)
    requires UpgradeLeq(x, y) && UpgradeLeq(y, z)
    ensures UpgradeLeq(x, z)
  {
    hide LexLeq;
    LexTotal(x.implementation, y.implementation);
    LexTotal(x.tx, y.tx);
    if LexLeq(x.implementation, y.implementation) && LexLeq(y.implementation, z.implementation) {
      LexTransitive(x.implementation, y.implementation, z.implementation);
    }
    if LexLeq(x.tx, y.tx) && LexLeq(y.tx, z.tx) {
      LexTransitive(x.tx, y.tx, z.tx);
    }
  }

  /** The era an upgrade opens: up to the block before the next upgrade's, or block 0
      when that is block 0. */
  function EraOf(upgrades: seq<Upgrade>, k: nat): Era
    requires k < |upgrades|
  {
    var u := upgrades[k];
    Era(k, u.implementation, u.block,
        if k + 1 < |upgrades| then Some(if upgrades[k + 1].block > 0 then upgrades[k + 1].block - 1 else 0) else None,
        u.tx)
  }

  predicate ErasOf(eras: seq<Era>, upgrades: seq<Upgrade>) {
    |eras| == |upgrades| && forall k :: 0 <= k < |eras| ==> eras[k] == EraOf(upgrades, k)
  }

  /** Upgrades in the order of the chain; in one log by implementation, hash and time. */
  predicate UpgradesRise(upgrades: seq<Upgrade>) {
    forall i, j :: 0 <= i < j < |upgrades| ==> NotAfter(upgrades[i], upgrades[j])
  }

  predicate NotAfter(a: Upgrade, b: Upgrade) {
    && a.block <= b.block
    && (a.block == b.block ==>
          && a.logIndex <= b.logIndex
          && (a.logIndex == b.logIndex ==>
                && LexLeq(a.implementation, b.implementation)
                && (a.implementation == b.implementation ==>
                      && LexLeq(a.tx, b.tx)
                      && (a.tx == b.tx ==> a.timestamp <= b.timestamp))))
  }

  lemma SortedUpgrades(rows: seq<Upgrade>)
    ensures var upgrades := Sorting.Sort(rows, UpgradeLeq);
            multiset(upgrades) == multiset(rows) && UpgradesRise(upgrades)
  {
    hide LexLeq, Sorting.Sort;
    UpgradeOrder();
    Sorting.SortSorted(rows, UpgradeLeq);
    forall a, b | UpgradeLeq(a, b)
      ensures NotAfter(a, b)
    {
      LexSelf(a.implementation);
      LexSelf(a.tx);
    }
  }

  method BuildEras(rows: seq<Upgrade>) returns (eras: seq<Era>)
    ensures ErasOf(eras, Sorting.Sort(rows, UpgradeLeq))
    ensures exists upgrades :: multiset(upgrades) == multiset(rows) && UpgradesRise(upgrades) && ErasOf(eras, upgrades)
  {
    hide UpgradeLeq, Sorting.Sort;
    SortedUpgrades(rows);
    var upgrades := Sorting.Sort(rows, UpgradeLeq);
    eras := [];
    for index := 0 to |upgrades|
      invariant |eras| == index && forall k :: 0 <= k < index ==> eras[k] == EraOf(upgrades, k)
    {
      var u := upgrades[index];
      var next: Option<nat> := None;
      if index + 1 < |upgrades| {
        var block := upgrades[index + 1].block;
        next := Some(if block == 0 then 0 else block - 1);
      }
      eras := eras + [Era(index, u.implementation, u.block, next, u.tx)];
    }
  }

  /** The last era of the greatest start at or before the block. */
  function EraFor(eras: seq<Era>, block: nat): (era: Option<Era>)
    ensures era.Some? ==> era.value in eras && era.value.fromBlock <= block
    ensures era == None <==> forall k :: 0 <= k < |eras| ==> eras[k].fromBlock > block
  {
    if eras == [] then None
    else
      assert eras == eras[..|eras| - 1] + [eras[|eras| - 1]];
      var best, last := EraFor(eras[..|eras| - 1], block), eras[|eras| - 1];
      if last.fromBlock <= block && (best == None || best.value.fromBlock <= last.fromBlock) then Some(last) else best
  }

  /** The block is in the range the era states. */
  predicate Covers(era: Era, block: nat) {
    era.fromBlock <= block && (era.toBlock.Some? ==> block <= era.toBlock.value)
  }

  predicate Rising(eras: seq<Era>) {
    forall i, j :: 0 <= i < j < |eras| ==> eras[i].fromBlock <= eras[j].fromBlock
  }

  /** The k-th era is the last one to start at or before the block. */
  predicate Current(eras: seq<Era>, k: nat, block: nat) {
    k < |eras| && eras[k].fromBlock <= block && forall j :: k < j < |eras| ==> eras[j].fromBlock > block
  }

  lemma {:induction false} EraForCurrent(eras: seq<Era>, k: nat, block: nat)
    requires Rising(eras) && Current(eras, k, block)
    ensures EraFor(eras, block) == Some(eras[k])
  {
    var n := |eras| - 1;
    if k < n {
      EraForCurrent(eras[..n], k, block);
    }
  }

  lemma SortedRises(rows: seq<Upgrade>, eras: seq<Era>)
    requires ErasOf(eras, Sorting.Sort(rows, UpgradeLeq))
    ensures Rising(eras)
  {
    UpgradeOrder();
    Sorting.SortSorted(rows, UpgradeLeq);
  }

  /** Two upgrades in block 0: the one place where ranges overlap. */
  predicate StartsTwice(eras: seq<Era>) {
    |eras| >= 2 && eras[0].fromBlock == 0 && eras[1].fromBlock == 0
  }

  /** The stated ranges agree with the era lookup: a block is in the range of the era
      looked up for it and of no other, except block 0 when it has two upgrades. */
  lemma RangesAgree(rows: seq<Upgrade>, eras: seq<Era>, k: nat, block: nat)
    requires ErasOf(eras, Sorting.Sort(rows, UpgradeLeq)) && k < |eras|
    ensures Covers(eras[k], block)
        <==> Current(eras, k, block) || (block == 0 && k + 1 < |eras| && eras[k + 1].fromBlock == 0)
    ensures Current(eras, k, block) ==> EraFor(eras, block) == Some(eras[k])
  {
    hide UpgradeLeq, Sorting.Sort, EraFor;
    SortedRises(rows, eras);
    if Current(eras, k, block) {
      EraForCurrent(eras, k, block);
    }
    if k + 1 < |eras| {
      assert eras[k + 1] == EraOf(Sorting.Sort(rows, UpgradeLeq), k + 1);
    }
  }

  /** Every block's range is unique exactly when block 0 has no two upgrades. */
  lemma RangesDisjoint(rows: seq<Upgrade>, eras: seq<Era>)
    requires ErasOf(eras, Sorting.Sort(rows, UpgradeLeq))
    ensures (forall block: nat, i, j :: 0 <= i < j < |eras| ==> !(Covers(eras[i], block) && Covers(eras[j], block)))
        <==> !StartsTwice(eras)
  {
    hide UpgradeLeq, Sorting.Sort, EraFor, Covers, ErasOf;
    SortedRises(rows, eras);
    if StartsTwice(eras) {
      RangesAgree(rows, eras, 0, 0);
      RangesAgree(rows, eras, 1, 0);
      if Current(eras, 1, 0) {
        assert Covers(eras[0], 0) && Covers(eras[1], 0);
      } else {
        assert Covers(eras[0], 0);
        LateStart(eras);
        assert Covers(eras[1], 0);
      }
    } else {
      forall block: nat, i, j | 0 <= i < j < |eras|
        ensures !(Covers(eras[i], block) && Covers(eras[j], block))
      {
        RangesAgree(rows, eras, i, block);
        RangesAgree(rows, eras, j, block);
      }
    }
  }

  lemma LateStart(eras: seq<Era>)
    requires Rising(eras) && StartsTwice(eras) && !Current(eras, 1, 0)
    ensures |eras| > 2 && eras[2].fromBlock == 0
  {}
}
