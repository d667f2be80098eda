/** Laws of the level ranking: both cascades keep the level table well
    ranked, the push only moves the contiguous chain, re-ranking a level to
    its own rank changes nothing, and a moved level leaves its old slot empty
    where the claim cascade would close it. */
module LevelRankingLaws {
  import opened Results
  import opened Models
  import opened LevelRanking

  /** Bumping the levels ranked lo..hi keeps ranks unique and in bounds,
      provided the slot just below a non-empty range is free and the skipped
      level holds no rank in lo..hi+1. */
  lemma BumpRangeKeepsRanksWell(levels: LevelTable, skip: nat, lo: int, hi: int)
    requires LevelRanksWell(levels)
    requires lo <= hi && skip in levels && levels[skip].rank.Ranked? ==> !(lo <= levels[skip].rank.n <= hi + 1)
    requires hi < MaxRank ==> !HeldByOther(levels, skip, hi + 1)
    ensures LevelRanksWell(BumpRange(levels, skip, lo, hi))
  {
    var after := BumpRange(levels, skip, lo, hi);
    forall a, b | a in after && b in after && a != b && after[a].rank.Ranked?
      ensures after[a].rank != after[b].rank
    {
      assert hi < MaxRank && b != skip && levels[b].rank == Ranked(hi + 1) ==> HeldByOther(levels, skip, hi + 1);
      assert hi < MaxRank && a != skip && levels[a].rank == Ranked(hi + 1) ==> HeldByOther(levels, skip, hi + 1);
    }
  }

  /** Creating a level keeps the level table well ranked. */
  lemma AddLevelKeepsRanksWell(levels: LevelTable, newId: nat, name: string, rank: Option<int>)
    requires LevelRanksWell(levels)
    requires newId !in levels && AddLevel(levels, newId, name, rank).Ok?
    ensures LevelRanksWell(AddLevel(levels, newId, name, rank).value)
  {
    var shifted := if rank.Some? then BumpRange(levels, newId, rank.value, MaxRank) else levels;
    if rank.Some? {
      BumpRangeKeepsRanksWell(levels, newId, rank.value, MaxRank);
    }
    var after := AddLevel(levels, newId, name, rank).value;
    assert after == shifted[newId := UpdatePoints(Level(name, RankOf(rank), 0))];
    forall id | id in shifted && rank.Some? && shifted[id].rank.Ranked?
      ensures shifted[id].rank != Ranked(rank.value)
    {
      assert levels[id].rank.Ranked?;
    }
  }

  /** After re-ranking, a level other than the target is either a chain
      member moved one place down or untouched. */
  lemma UpdatePairDistinct(levels: LevelTable, target: nat, n: int, a: nat, b: nat)
    requires LevelRanksWell(levels)
    requires target in levels && 1 <= n <= MaxRank
    requires a in levels && b in levels && a != b
    ensures var after := UpdateLevelRank(levels, target, Some(n)).value.levels;
      after[a].rank.Ranked? ==> after[a].rank != after[b].rank
  {
    if a == target {
      UpdateKeepsTargetSlotFree(levels, target, n, b);
    } else if b == target {
      UpdateKeepsTargetSlotFree(levels, target, n, a);
    } else {
      UpdatePairOfOthers(levels, target, n, a, b);
    }
  }

  /** No other level lands on the target's new rank n: the one holding n
      starts the chain and moves down. */
  lemma UpdateKeepsTargetSlotFree(levels: LevelTable, target: nat, n: int, b: nat)
    requires RanksUnique(levels)
    requires target in levels && 1 <= n <= MaxRank
    requires b in levels && b != target
    ensures UpdateLevelRank(levels, target, Some(n)).value.levels[b].rank != Ranked(n)
  {
    assert levels[b].rank == Ranked(n) ==> HeldByOther(levels, target, n);
  }

  /** Two levels other than the target keep distinct ranks: the chain moves
      as a block into the free slot that ends it. */
  lemma UpdatePairOfOthers(levels: LevelTable, target: nat, n: int, a: nat, b: nat)
    requires RanksUnique(levels)
    requires target in levels && 1 <= n <= MaxRank
    requires a in levels && b in levels && a != b && a != target && b != target
    ensures var after := UpdateLevelRank(levels, target, Some(n)).value.levels;
      after[a].rank.Ranked? ==> after[a].rank != after[b].rank
  {
    var k := RunLength(levels, target, n);
    var after := UpdateLevelRank(levels, target, Some(n)).value.levels;
    var inA := levels[a].rank.Ranked? && n <= levels[a].rank.n < n + k;
    var inB := levels[b].rank.Ranked? && n <= levels[b].rank.n < n + k;
    if inA && !inB {
      assert after[b] == levels[b];
      assert n + k <= MaxRank && levels[b].rank == Ranked(n + k) ==> HeldByOther(levels, target, n + k);
    } else if inB && !inA {
      assert after[a] == levels[a];
      assert n + k <= MaxRank && levels[a].rank == Ranked(n + k) ==> HeldByOther(levels, target, n + k);
    }
  }

  /** Re-ranking a level keeps the level table well ranked: the chain moves
      into the free slot that ends it, and the target takes the slot the
      chain vacated. */
  lemma UpdateLevelRankKeepsRanksWell(levels: LevelTable, target: nat, rank: Option<int>)
    requires LevelRanksWell(levels)
    requires target in levels && UpdateLevelRank(levels, target, rank).Ok?
    ensures LevelRanksWell(UpdateLevelRank(levels, target, rank).value.levels)
  {
    var after := UpdateLevelRank(levels, target, rank).value.levels;
    forall a, b | a in after && b in after && a != b && after[a].rank.Ranked?
      ensures after[a].rank != after[b].rank
    {
      if rank.Some? {
        UpdatePairDistinct(levels, target, rank.value, a, b);
      }
    }
    forall id | id in after
      ensures Storable(after[id].rank) && LevelConsistent(after[id])
    {
      assert Storable(levels[id].rank) && LevelConsistent(levels[id]);
    }
  }

  /** The run only looks at levels other than the skipped one, so changing
      that level does not change it. */
  lemma {:induction false} RunLengthIgnoresSkipped(levels: LevelTable, other: LevelTable, skip: nat, n: int)
    requires other.Keys == levels.Keys
    requires forall id | id in levels && id != skip :: other[id] == levels[id]
    ensures RunLength(other, skip, n) == RunLength(levels, skip, n)
    decreases MaxRank + 1 - n
  {
    assert HeldByOther(other, skip, n) == HeldByOther(levels, skip, n) by {
      if HeldByOther(levels, skip, n) {
        var id :| id in levels && id != skip && levels[id].rank == Ranked(n);
        assert other[id].rank == Ranked(n);
      }
      if HeldByOther(other, skip, n) {
        var id :| id in other && id != skip && other[id].rank == Ranked(n);
        assert levels[id].rank == Ranked(n);
      }
    }
    if n <= MaxRank && HeldByOther(levels, skip, n) {
      RunLengthIgnoresSkipped(levels, other, skip, n + 1);
    }
  }

  /** Re-ranking a level to the rank it already holds finds an empty chain
      and leaves the whole table as it was. */
  lemma UpdateToOwnRankIsNoOp(levels: LevelTable, target: nat)
    requires LevelRanksWell(levels)
    requires target in levels && InBounds(levels[target].rank)
    ensures var r := UpdateLevelRank(levels, target, Some(levels[target].rank.n));
      r.Ok? && r.value.shifted == 0 && r.value.levels == levels
  {
    var n := levels[target].rank.n;
    forall id | id in levels && id != target
      ensures levels[id].rank != Ranked(n)
    {
    }
    var after := UpdateLevelRank(levels, target, Some(n)).value.levels;
    assert after == levels;
  }

  /** Levels past the first free slot after n never move: the push stops at
      the first gap instead of shifting the whole range n..MaxRank. */
  lemma PushStopsAtFirstGap(levels: LevelTable, target: nat, n: int, gap: int, id: nat)
    requires target in levels && 1 <= n <= gap <= MaxRank
    requires !HeldByOther(levels, target, gap)
    requires id in levels && id != target && levels[id].rank.Ranked? && levels[id].rank.n > gap
    ensures UpdateLevelRank(levels, target, Some(n)).value.levels[id] == levels[id]
  {
    var k := RunLength(levels, target, n);
    assert n <= gap < n + k ==> HeldByOther(levels, target, gap);
  }

  /** A concrete table where the two level cascades disagree: with levels at
      ranks 2 and 4 and rank 1 free (so the first flush of `add_level` goes
      through), inserting a new level at rank 1 pushes both, while re-ranking
      an unranked level to 1 finds an empty chain and pushes neither. */
  lemma ChainDiffersFromFullShift()
    ensures var levels := map[1 := Level("A", Ranked(2), 49), 2 := Level("B", Ranked(4), 47),
                              3 := Level("C", Unranked, 0)];
      && !HeldByOther(levels - {3}, 3, 1)
      && AddLevel(levels - {3}, 3, "C", Some(1)).value[1].rank == Ranked(3)
      && AddLevel(levels - {3}, 3, "C", Some(1)).value[2].rank == Ranked(5)
      && UpdateLevelRank(levels, 3, Some(1)).value.levels[1] == levels[1]
      && UpdateLevelRank(levels, 3, Some(1)).value.levels[2] == levels[2]
  {
    var levels := map[1 := Level("A", Ranked(2), 49), 2 := Level("B", Ranked(4), 47),
                      3 := Level("C", Unranked, 0)];
    assert !HeldByOther(levels, 3, 1);
    assert RunLength(levels, 3, 1) == 0;
    assert !NameInUse(levels - {3}, "C");
  }

  /** A level that moves away from rank o leaves o empty, unless it moved to
      o itself or the chain's last level landed on o: the level cascade never
      closes the gap it leaves behind. */
  lemma LevelMoveLeavesGap(levels: LevelTable, target: nat, n: int)
    requires LevelRanksWell(levels)
    requires target in levels && InBounds(levels[target].rank) && 1 <= n <= MaxRank
    requires var o := levels[target].rank.n;
      o != n && (RunLength(levels, target, n) == 0 || o != n + RunLength(levels, target, n))
    ensures var after := UpdateLevelRank(levels, target, Some(n)).value.levels;
      forall id | id in after :: after[id].rank != levels[target].rank
  {
    var o := levels[target].rank.n;
    var k := RunLength(levels, target, n);
    var after := UpdateLevelRank(levels, target, Some(n)).value.levels;
    forall id | id in after
      ensures after[id].rank != Ranked(o)
    {
      if id != target && levels[id].rank.Ranked? && n <= levels[id].rank.n < n + k {
        // o is held by the target alone, so it cannot lie inside the chain
        assert n <= o < n + k ==> HeldByOther(levels, target, o);
      }
    }
  }

  /** Clearing a level's rank also leaves its slot empty. */
  lemma LevelUnrankLeavesGap(levels: LevelTable, target: nat)
    requires LevelRanksWell(levels)
    requires target in levels && levels[target].rank.Ranked?
    ensures var after := UpdateLevelRank(levels, target, None).value.levels;
      forall id | id in after :: after[id].rank != levels[target].rank
  {
  }

  /** Deleting a level keeps the table well ranked and leaves its slot empty. */
  lemma DeleteLevelKeepsRanksWell(levels: LevelTable, claims: ClaimTable, id: nat)
    requires LevelRanksWell(levels)
    requires id in levels && DeleteLevel(levels, claims, id).Ok?
    ensures LevelRanksWell(DeleteLevel(levels, claims, id).value)
    ensures levels[id].rank.Ranked? ==>
      forall other | other in DeleteLevel(levels, claims, id).value ::
        DeleteLevel(levels, claims, id).value[other].rank != levels[id].rank
  {
  }
}
