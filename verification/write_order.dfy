/** The order in which the level cascades reach the database. The rank column
    of the level table is unique, and the database checks that constraint on
    every single-row write, so every intermediate table a procedure flushes
    must have unique ranks, not just the final one.

    Two procedures break this as written:
    - creating a level flushes the new row with its requested rank before any
      other level has moved, so the flush collides whenever that rank is held;
      and even when it is free, the loop then bumps the displaced levels
      lowest rank first, so the first level moved onto a rank another level
      still holds (two consecutive held ranks at or above the requested one)
      collides;
    - re-ranking a level that sits just past the chain (a level moved up into
      a fully occupied block, the simplest case being a swap with its upper
      neighbour) needs a cyclic permutation of ranks, and whichever changed
      row is written first duplicates a rank.
    The corrected procedures first take the moving level off the list, then
    push the displaced levels from the bottom of the block upwards one row at
    a time, and only then give the moving level its rank. Every state they
    pass through is well ranked and they end in exactly the tables the model
    of the two operations computes. */
module WriteOrder {
  import opened Results
  import opened Models
  import opened LevelRanking
  import opened LevelRankingLaws

  /** Row `id` of `t` is new or differs from that row of `s`. */
  predicate Differs(s: LevelTable, t: LevelTable, id: nat) {
    id in t && (id !in s || s[id] != t[id])
  }

  /** `t` results from `s` by writing (updating or inserting) at most one row. */
  predicate OneRowWrite(s: LevelTable, t: LevelTable) {
    && s.Keys <= t.Keys
    && forall a, b | a in t && b in t && Differs(s, t, a) && Differs(s, t, b) :: a == b
  }

  /** A sequence of states each one row apart, each well ranked. */
  predicate SafeTrace(trace: seq<LevelTable>) {
    && (forall i | 0 <= i < |trace| :: LevelRanksWell(trace[i]))
    && (forall i | 0 < i < |trace| :: OneRowWrite(trace[i - 1], trace[i]))
  }

  // --------------------------------------------------------- bottom-up push

  /** The states of a push of the block lo..lo+k-1 written one row at a time
      from the bottom: state i has the last i ranks of the block bumped. */
  function PushStates(levels: LevelTable, skip: nat, lo: int, k: nat): (states: seq<LevelTable>)
    ensures |states| == k + 1
    ensures states[0] == levels
    ensures states[k] == BumpRange(levels, skip, lo, lo + k - 1)
  {
    EmptyBump(levels, skip, lo + k, lo + k - 1);
    seq(k + 1, i requires 0 <= i < k + 1 => BumpRange(levels, skip, lo + k - i, lo + k - 1))
  }

  /** An empty range bumps nothing. */
  lemma EmptyBump(levels: LevelTable, skip: nat, lo: int, hi: int)
    requires lo > hi
    ensures BumpRange(levels, skip, lo, hi) == levels
  {
  }

  /** One more level down the range changes at most the single level holding
      that rank. */
  lemma BumpOneMoreRow(levels: LevelTable, skip: nat, lo: int, hi: int)
    requires RanksUnique(levels)
    ensures OneRowWrite(BumpRange(levels, skip, lo + 1, hi), BumpRange(levels, skip, lo, hi))
  {
    var s, t := BumpRange(levels, skip, lo + 1, hi), BumpRange(levels, skip, lo, hi);
    forall a, b | a in t && b in t && Differs(s, t, a) && Differs(s, t, b)
      ensures a == b
    {
      assert levels[a].rank == Ranked(lo) && levels[b].rank == Ranked(lo);
    }
  }

  /** State i of the push is the block with its last i ranks bumped, that
      is the range a..hi with a = lo + k - i and hi = lo + k - 1. */
  lemma PushStateAt(levels: LevelTable, skip: nat, lo: int, k: nat, i: nat, a: int, hi: int)
    requires i <= k && a == lo + k - i && hi == lo + k - 1
    ensures PushStates(levels, skip, lo, k)[i] == BumpRange(levels, skip, a, hi)
  {
  }

  /** State i of the bottom-up push is well ranked. */
  lemma PushStateWell(levels: LevelTable, skip: nat, lo: int, k: nat, i: nat, a: int, hi: int)
    requires LevelRanksWell(levels)
    requires k > 0 && skip in levels && levels[skip].rank.Ranked? ==> !(lo <= levels[skip].rank.n <= lo + k)
    requires lo + k <= MaxRank ==> !HeldByOther(levels, skip, lo + k)
    requires i <= k && a == lo + k - i && hi == lo + k - 1
    ensures LevelRanksWell(PushStates(levels, skip, lo, k)[i])
  {
    BumpRangeKeepsRanksWell(levels, skip, a, hi);
    PushStateAt(levels, skip, lo, k, i, a, hi);
  }

  /** Every state of the bottom-up push is well ranked. */
  lemma PushStatesWell(levels: LevelTable, skip: nat, lo: int, k: nat)
    requires LevelRanksWell(levels)
    requires k > 0 && skip in levels && levels[skip].rank.Ranked? ==> !(lo <= levels[skip].rank.n <= lo + k)
    requires lo + k <= MaxRank ==> !HeldByOther(levels, skip, lo + k)
    ensures forall i | 0 <= i < k + 1 :: LevelRanksWell(PushStates(levels, skip, lo, k)[i])
  {
    forall i | 0 <= i < k + 1
      ensures LevelRanksWell(PushStates(levels, skip, lo, k)[i])
    {
      PushStateWell(levels, skip, lo, k, i, lo + k - i, lo + k - 1);
    }
  }

  /** Each step of the bottom-up push writes one row. */
  lemma PushStatesStepByRow(levels: LevelTable, skip: nat, lo: int, k: nat)
    requires RanksUnique(levels)
    ensures forall i | 0 < i < k + 1 ::
      OneRowWrite(PushStates(levels, skip, lo, k)[i - 1], PushStates(levels, skip, lo, k)[i])
  {
    forall i | 0 < i < k + 1
      ensures OneRowWrite(PushStates(levels, skip, lo, k)[i - 1], PushStates(levels, skip, lo, k)[i])
    {
      PushStateAt(levels, skip, lo, k, i - 1, lo + k - i + 1, lo + k - 1);
      PushStateAt(levels, skip, lo, k, i, lo + k - i, lo + k - 1);
      BumpOneMoreRow(levels, skip, lo + k - i, lo + k - 1);
    }
  }

  /** Pushing a block into the free slot below it from the bottom up is a
      safe trace: every state is well ranked and each step writes one row,
      as long as the skipped level does not sit in the block or that slot. */
  lemma PushStatesAreSafe(levels: LevelTable, skip: nat, lo: int, k: nat)
    requires LevelRanksWell(levels)
    requires k > 0 && skip in levels && levels[skip].rank.Ranked? ==> !(lo <= levels[skip].rank.n <= lo + k)
    requires lo + k <= MaxRank ==> !HeldByOther(levels, skip, lo + k)
    ensures SafeTrace(PushStates(levels, skip, lo, k))
  {
    PushStatesWell(levels, skip, lo, k);
    PushStatesStepByRow(levels, skip, lo, k);
  }

  /** A safe trace followed by one more safe step is safe. */
  lemma SafeTraceFraming(first: LevelTable, middle: seq<LevelTable>, k: nat, last: LevelTable)
    requires |middle| == k + 1 && SafeTrace(middle)
    requires LevelRanksWell(first) && LevelRanksWell(last)
    requires OneRowWrite(first, middle[0]) && OneRowWrite(middle[k], last)
    ensures SafeTrace([first] + middle + [last])
  {
    var trace := [first] + middle + [last];
    assert |trace| == k + 3;
    forall i | 0 <= i < |trace|
      ensures LevelRanksWell(trace[i])
    {
      if 0 < i < k + 2 {
        assert trace[i] == middle[i - 1];
      }
    }
    forall i | 0 < i < |trace|
      ensures OneRowWrite(trace[i - 1], trace[i])
    {
      if i == 1 {
        assert trace[0] == first && trace[1] == middle[0];
      } else if i == k + 2 {
        assert trace[k + 1] == middle[k] && trace[k + 2] == last;
      } else {
        assert trace[i - 1] == middle[i - 2] && trace[i] == middle[i - 1];
      }
    }
  }

  /** Writing one row, by update or insertion, is a one-row write. */
  lemma SetIsOneRowWrite(levels: LevelTable, id: nat, row: Level)
    ensures OneRowWrite(levels, levels[id := row])
  {
  }

  // ------------------------------------------------------------- creation

  /** The row `add_level` flushes to obtain the new id: the requested rank,
      and the column default of 0 points (they are computed only later). */
  function AddLevelFirstFlush(levels: LevelTable, newId: nat, name: string, r: int): LevelTable {
    levels[newId := Level(name, Ranked(r), 0)]
  }

  /** The first flush of `add_level` keeps ranks unique exactly when no level
      already holds the requested rank: adding a level at an occupied rank,
      the case the shifting exists for, is refused by the database. */
  lemma AddLevelFlushCollides(levels: LevelTable, newId: nat, name: string, r: int)
    requires RanksUnique(levels) && newId !in levels
    ensures RanksUnique(AddLevelFirstFlush(levels, newId, name, r)) <==> !HeldByOther(levels, newId, r)
  {
    var flushed := AddLevelFirstFlush(levels, newId, name, r);
    if HeldByOther(levels, newId, r) {
      var id :| id in levels && id != newId && levels[id].rank == Ranked(r);
      assert flushed[id].rank == flushed[newId].rank;
    }
  }

  /** A concrete instance: with one level at rank 1, creating another level
      at rank 1 flushes two rows at rank 1. */
  lemma AddLevelAtOccupiedRank()
    ensures var levels := map[1 := Level("A", Ranked(1), 50)];
      && AddLevel(levels, 2, "B", Some(1)).Ok?
      && !RanksUnique(AddLevelFirstFlush(levels, 2, "B", 1))
  {
    var levels := map[1 := Level("A", Ranked(1), 50)];
    assert !NameInUse(levels, "B");
    var flushed := AddLevelFirstFlush(levels, 2, "B", 1);
    assert flushed[1].rank == Ranked(1) && flushed[2].rank == Ranked(1);
  }

  /** The table after the loop of `add_level` as written has bumped, in
      ascending rank order, every other level ranked r..j: the levels from
      j + 1 on still hold their old ranks. */
  function AscendingShiftState(levels: LevelTable, newId: nat, name: string, r: int, j: int): LevelTable {
    BumpRange(AddLevelFirstFlush(levels, newId, name, r), newId, r, j)
  }

  /** Bumping the lowest levels first collides as soon as the level at j is
      moved onto a rank j + 1 that another level still holds, even when the
      requested rank itself was free. */
  lemma AscendingShiftStepCollides(levels: LevelTable, newId: nat, name: string, r: int, j: int)
    requires newId !in levels && 1 <= r <= j < MaxRank
    requires HeldByOther(levels, newId, j) && HeldByOther(levels, newId, j + 1)
    ensures !RanksUnique(AscendingShiftState(levels, newId, name, r, j))
  {
    var a :| a in levels && a != newId && levels[a].rank == Ranked(j);
    var b :| b in levels && b != newId && levels[b].rank == Ranked(j + 1);
    var state := AscendingShiftState(levels, newId, name, r, j);
    assert state[a] == Bumped(levels[a]);
    assert state[b] == levels[b];
  }

  /** The two levels of the concrete instance below. */
  function AscendingWitness(): LevelTable {
    map[1 := Level("X", Ranked(2), 49), 2 := Level("Y", Ranked(3), 48)]
  }

  /** A concrete instance with the requested rank free: with X (id 1) at 2
      and Y (id 2) at 3, creating a level at rank 1 flushes without a clash,
      but the first bump, X to 3, duplicates Y's rank. X is first both in
      the loop's rank order and in id order. */
  lemma AddLevelAscendingShiftCollides()
    ensures var levels := AscendingWitness();
      && AddLevel(levels, 3, "N", Some(1)).Ok?
      && RanksUnique(AddLevelFirstFlush(levels, 3, "N", 1))
      && AscendingShiftState(levels, 3, "N", 1, 2) == AddLevelFirstFlush(levels, 3, "N", 1)[1 := Bumped(levels[1])]
      && !RanksUnique(AscendingShiftState(levels, 3, "N", 1, 2))
  {
    var levels := AscendingWitness();
    AscendingWitnessFlush();
    AscendingWitnessFirstBump();
    assert levels[1].rank == Ranked(2) && levels[2].rank == Ranked(3);
    AscendingShiftStepCollides(levels, 3, "N", 1, 2);
  }

  /** The instance is a valid creation whose first flush is clash-free. */
  lemma AscendingWitnessFlush()
    ensures AddLevel(AscendingWitness(), 3, "N", Some(1)).Ok?
    ensures RanksUnique(AddLevelFirstFlush(AscendingWitness(), 3, "N", 1))
  {
    var levels := AscendingWitness();
    assert !NameInUse(levels, "N");
    assert !HeldByOther(levels, 3, 1);
    AddLevelFlushCollides(levels, 3, "N", 1);
  }

  /** After the loop's first step only X has moved. */
  lemma AscendingWitnessFirstBump()
    ensures var levels := AscendingWitness();
      AscendingShiftState(levels, 3, "N", 1, 2) == AddLevelFirstFlush(levels, 3, "N", 1)[1 := Bumped(levels[1])]
  {
    var levels := AscendingWitness();
    var flushed := AddLevelFirstFlush(levels, 3, "N", 1);
    var state := AscendingShiftState(levels, 3, "N", 1, 2);
    assert state.Keys == flushed[1 := Bumped(levels[1])].Keys;
    assert state[2] == flushed[2] && state[3] == flushed[3];
  }

  /** The table with the new level inserted unranked, the first state written. */
  function Inserted(levels: LevelTable, newId: nat, name: string): (t: LevelTable)
    requires newId !in levels
    ensures t.Keys == levels.Keys + {newId} && t[newId].rank == Unranked
    ensures forall id | id in levels :: t[id] == levels[id]
  {
    levels[newId := Level(name, Unranked, 0)]
  }

  /** The corrected creation: insert the level unranked, push the levels at
      MaxRank, MaxRank-1, ..., r one place down in that order, then give the
      new level rank r. */
  function AddLevelWrites(levels: LevelTable, newId: nat, name: string, r: int): (trace: seq<LevelTable>)
    requires newId !in levels && 1 <= r <= MaxRank
    ensures |trace| == MaxRank - r + 4
  {
    var inserted := Inserted(levels, newId, name);
    var pushed := BumpRange(inserted, newId, r, MaxRank);
    [levels] + PushStates(inserted, newId, r, MaxRank + 1 - r)
    + [pushed[newId := UpdatePoints(Level(name, Ranked(r), 0))]]
  }

  /** Inserting a level beside the bumped range changes nothing for the
      levels that were there. */
  lemma InsertedBumpAgrees(levels: LevelTable, newId: nat, name: string, final: Level, r: int)
    requires newId !in levels
    ensures BumpRange(Inserted(levels, newId, name), newId, r, MaxRank)[newId := final]
         == BumpRange(levels, newId, r, MaxRank)[newId := final]
  {
  }

  /** The last state of the corrected creation is well ranked. */
  lemma AddLevelLastWell(levels: LevelTable, newId: nat, name: string, r: int)
    requires LevelRanksWell(levels) && newId !in levels && 1 <= r <= MaxRank
    requires name != [] && !NameInUse(levels, name)
    ensures var row := UpdatePoints(Level(name, Ranked(r), 0));
      LevelRanksWell(BumpRange(Inserted(levels, newId, name), newId, r, MaxRank)[newId := row])
  {
    var row := UpdatePoints(Level(name, Ranked(r), 0));
    InsertedBumpAgrees(levels, newId, name, row, r);
    AddLevelKeepsRanksWell(levels, newId, name, Some(r));
  }

  /** The push after the insertion is safe. */
  lemma InsertedPushIsSafe(levels: LevelTable, newId: nat, name: string, r: int)
    requires LevelRanksWell(levels) && newId !in levels && 1 <= r <= MaxRank
    ensures SafeTrace(PushStates(Inserted(levels, newId, name), newId, r, MaxRank + 1 - r))
  {
    var inserted := Inserted(levels, newId, name);
    assert LevelRanksWell(inserted);
    PushStatesAreSafe(inserted, newId, r, MaxRank + 1 - r);
  }

  /** The corrected creation passes only through well ranked tables, writes
      one row per step, and ends in the table `add_level` is meant to leave. */
  lemma AddLevelWritesAreSafe(levels: LevelTable, newId: nat, name: string, r: int)
    requires LevelRanksWell(levels) && newId !in levels && 1 <= r <= MaxRank
    requires name != [] && !NameInUse(levels, name)
    ensures var trace := AddLevelWrites(levels, newId, name, r);
      && trace[0] == levels
      && trace[|trace| - 1] == AddLevel(levels, newId, name, Some(r)).value
      && SafeTrace(trace)
  {
    var inserted := Inserted(levels, newId, name);
    var k := MaxRank + 1 - r;
    var middle := PushStates(inserted, newId, r, k);
    var row := UpdatePoints(Level(name, Ranked(r), 0));
    var final: LevelTable := middle[k][newId := row];
    assert AddLevelWrites(levels, newId, name, r) == [levels] + middle + [final];
    assert final == AddLevel(levels, newId, name, Some(r)).value by {
      InsertedBumpAgrees(levels, newId, name, row, r);
    }
    AddLevelTraceSafe(levels, newId, name, r, k, middle, row, final);
  }

  /** The states of the corrected creation, framed by the table before and
      after, form a safe trace. */
  lemma AddLevelTraceSafe(levels: LevelTable, newId: nat, name: string, r: int, k: nat,
                          middle: seq<LevelTable>, row: Level, final: LevelTable)
    requires LevelRanksWell(levels) && newId !in levels && 1 <= r <= MaxRank
    requires name != [] && !NameInUse(levels, name)
    requires k == MaxRank + 1 - r && middle == PushStates(Inserted(levels, newId, name), newId, r, k)
    requires row == UpdatePoints(Level(name, Ranked(r), 0)) && final == middle[k][newId := row]
    ensures SafeTrace([levels] + middle + [final])
  {
    assert r + k - 1 == MaxRank;
    assert middle[k] == BumpRange(Inserted(levels, newId, name), newId, r, MaxRank);
    AddLevelLastWell(levels, newId, name, r);
    InsertedPushIsSafe(levels, newId, name, r);
    SetIsOneRowWrite(levels, newId, Level(name, Unranked, 0));
    SetIsOneRowWrite(middle[k], newId, row);
    SafeTraceFraming(levels, middle, k, final);
  }

  // ------------------------------------------------------------ re-ranking

  /** Re-ranking a level that sits right past the chain: every row the
      operation changes, written first on its own, duplicates a rank, so no
      order of single-row writes gets from the old table to the new one. */
  lemma CyclicPushCollides(levels: LevelTable, target: nat, n: int)
    requires LevelRanksWell(levels)
    requires target in levels && 1 <= n <= MaxRank
    requires RunLength(levels, target, n) >= 1
    requires levels[target].rank == Ranked(n + RunLength(levels, target, n))
    ensures var final := UpdateLevelRank(levels, target, Some(n)).value.levels;
      && final[target] != levels[target]
      && forall id | id in levels && final[id] != levels[id] ::
           !RanksUnique(levels[id := final[id]])
  {
    var k := RunLength(levels, target, n);
    var final := UpdateLevelRank(levels, target, Some(n)).value.levels;
    forall id | id in levels && final[id] != levels[id]
      ensures !RanksUnique(levels[id := final[id]])
    {
      CyclicWriteCollides(levels, target, n, k, final, id);
    }
  }

  /** One changed row of the cyclic case, written first, duplicates a rank:
      the target's new rank n is held by the chain's first level, and a chain
      level moved to x + 1 meets the level at x + 1, which is the next chain
      level or, for the last one, the target. */
  lemma CyclicWriteCollides(levels: LevelTable, target: nat, n: int, k: nat, final: LevelTable, id: nat)
    requires LevelRanksWell(levels)
    requires target in levels && 1 <= n <= MaxRank
    requires k == RunLength(levels, target, n) && k >= 1
    requires levels[target].rank == Ranked(n + k)
    requires final == UpdateLevelRank(levels, target, Some(n)).value.levels
    requires id in levels && final[id] != levels[id]
    ensures !RanksUnique(levels[id := final[id]])
  {
    if id == target {
      assert HeldByOther(levels, target, n);
      var other :| other in levels && other != target && levels[other].rank == Ranked(n);
      WriteCollides(levels, id, final[id], other);
    } else {
      var x := levels[id].rank.n;
      if x + 1 == n + k {
        WriteCollides(levels, id, final[id], target);
      } else {
        assert HeldByOther(levels, target, x + 1);
        var other :| other in levels && other != target && levels[other].rank == Ranked(x + 1);
        WriteCollides(levels, id, final[id], other);
      }
    }
  }

  /** Writing a row whose rank another row already holds breaks uniqueness. */
  lemma WriteCollides(levels: LevelTable, id: nat, row: Level, other: nat)
    requires other in levels && other != id && row.rank.Ranked? && levels[other].rank == row.rank
    ensures !RanksUnique(levels[id := row])
  {
    var written := levels[id := row];
    assert written[other].rank == written[id].rank;
  }

  /** `update_level_rank` as written: the chain is pushed from its last
      level to its first while the target still holds its old rank; the
      target's own write then yields the table the operation computes. The
      trace takes the rows to reach the database in program order; the
      source does not flush between the assignments, so the commit may
      write them in another order. */
  function ReversedChainWrites(levels: LevelTable, target: nat, n: int): (trace: seq<LevelTable>)
    requires target in levels && 1 <= n <= MaxRank
    ensures |trace| == RunLength(levels, target, n) + 2
  {
    PushStates(levels, target, n, RunLength(levels, target, n))
    + [UpdateLevelRank(levels, target, Some(n)).value.levels]
  }

  /** In the cyclic case the first write of the source's order already
      puts the chain's last level on the target's rank. */
  lemma ReversedChainCollides(levels: LevelTable, target: nat, n: int)
    requires LevelRanksWell(levels)
    requires target in levels && 1 <= n <= MaxRank
    requires RunLength(levels, target, n) >= 1
    requires levels[target].rank == Ranked(n + RunLength(levels, target, n))
    ensures !RanksUnique(ReversedChainWrites(levels, target, n)[1])
  {
    var k := RunLength(levels, target, n);
    assert Storable(levels[target].rank);
    ReversedChainCollidesAt(levels, target, n, k, n + k - 1);
  }

  /** The same, with the chain's last rank j named. */
  lemma ReversedChainCollidesAt(levels: LevelTable, target: nat, n: int, k: nat, j: int)
    requires target in levels && 1 <= n <= MaxRank
    requires k == RunLength(levels, target, n) && k >= 1 && j == n + k - 1 && j < MaxRank
    requires levels[target].rank == Ranked(j + 1)
    ensures !RanksUnique(ReversedChainWrites(levels, target, n)[1])
  {
    ReversedChainFirstWrite(levels, target, n, k, j);
    FirstBumpCollides(levels, target, j);
  }

  /** Bumping the level at j onto the target's rank j + 1 duplicates it. */
  lemma FirstBumpCollides(levels: LevelTable, target: nat, j: int)
    requires target in levels && 1 <= j < MaxRank
    requires HeldByOther(levels, target, j) && levels[target].rank == Ranked(j + 1)
    ensures !RanksUnique(BumpRange(levels, target, j, j))
  {
    var last :| last in levels && last != target && levels[last].rank == Ranked(j);
    var bumped := BumpRange(levels, target, j, j);
    assert bumped[last].rank == bumped[target].rank;
  }

  /** The first write of the source's order moves the chain's last level. */
  lemma ReversedChainFirstWrite(levels: LevelTable, target: nat, n: int, k: nat, j: int)
    requires target in levels && 1 <= n <= MaxRank
    requires k == RunLength(levels, target, n) && k >= 1 && j == n + k - 1
    ensures ReversedChainWrites(levels, target, n)[1] == BumpRange(levels, target, j, j)
  {
    PushStateAt(levels, target, n, k, 1, j, j);
  }

  /** Appending a well ranked table to a sequence of well ranked tables. */
  lemma AllWellAppend(states: seq<LevelTable>, last: LevelTable)
    requires forall i | 0 <= i < |states| :: LevelRanksWell(states[i])
    requires LevelRanksWell(last)
    ensures forall i | 0 <= i < |states| + 1 :: LevelRanksWell((states + [last])[i])
  {
    forall i | 0 <= i < |states| + 1
      ensures LevelRanksWell((states + [last])[i])
    {
      if i < |states| {
        assert (states + [last])[i] == states[i];
      }
    }
  }

  /** The chain and the target's old rank satisfy what the bottom-up push
      needs: the target sits neither inside the chain nor right after it, and
      the slot after the chain is free. */
  lemma ChainPushApplies(levels: LevelTable, target: nat, n: int, k: nat)
    requires LevelRanksWell(levels)
    requires target in levels && 1 <= n <= MaxRank
    requires k == RunLength(levels, target, n)
    requires k == 0 || levels[target].rank != Ranked(n + k)
    ensures k > 0 && levels[target].rank.Ranked? ==> !(n <= levels[target].rank.n <= n + k)
    ensures n + k <= MaxRank ==> !HeldByOther(levels, target, n + k)
  {
    var o := levels[target].rank;
    forall id | id in levels && id != target
      ensures o.Ranked? ==> levels[id].rank != o
    {
    }
    assert o.Ranked? ==> !HeldByOther(levels, target, o.n);
  }

  /** Otherwise every state of the source's order is well ranked. */
  lemma ReversedChainSafe(levels: LevelTable, target: nat, n: int)
    requires LevelRanksWell(levels)
    requires target in levels && 1 <= n <= MaxRank
    requires RunLength(levels, target, n) == 0
      || levels[target].rank != Ranked(n + RunLength(levels, target, n))
    ensures forall i | 0 <= i < RunLength(levels, target, n) + 2 ::
      LevelRanksWell(ReversedChainWrites(levels, target, n)[i])
  {
    var k := RunLength(levels, target, n);
    ChainPushApplies(levels, target, n, k);
    PushStatesWell(levels, target, n, k);
    UpdateLevelRankKeepsRanksWell(levels, target, Some(n));
    AllWellAppend(PushStates(levels, target, n, k), UpdateLevelRank(levels, target, Some(n)).value.levels);
  }

  /** The highest-first order of the source keeps every intermediate state
      well ranked exactly when the target does not sit right past the chain,
      provided the rows are written in program order; in another order even a
      chain that is not cyclic can duplicate a rank. */
  lemma ReversedChainSafeUnlessCyclic(levels: LevelTable, target: nat, n: int)
    requires LevelRanksWell(levels)
    requires target in levels && 1 <= n <= MaxRank
    ensures var k := RunLength(levels, target, n);
      (forall i | 0 <= i < k + 2 :: LevelRanksWell(ReversedChainWrites(levels, target, n)[i]))
      <==> !(k >= 1 && levels[target].rank == Ranked(n + k))
  {
    var k := RunLength(levels, target, n);
    if k >= 1 && levels[target].rank == Ranked(n + k) {
      ReversedChainCollides(levels, target, n);
    } else {
      ReversedChainSafe(levels, target, n);
    }
  }

  /** The smallest instance: levels at ranks 1 and 2, the second moved to 1.
      The operation swaps the two ranks, and either row written first on its
      own duplicates a rank. */
  lemma SwapCollides()
    ensures var levels := map[1 := Level("A", Ranked(1), 50), 2 := Level("B", Ranked(2), 49)];
      && UpdateLevelRank(levels, 2, Some(1)).value.levels
           == map[1 := Level("A", Ranked(2), 49), 2 := Level("B", Ranked(1), 50)]
      && !RanksUnique(levels[1 := Level("A", Ranked(2), 49)])
      && !RanksUnique(levels[2 := Level("B", Ranked(1), 50)])
  {
    var levels := map[1 := Level("A", Ranked(1), 50), 2 := Level("B", Ranked(2), 49)];
    SwapResult(levels);
    var a := levels[1 := Level("A", Ranked(2), 49)];
    var b := levels[2 := Level("B", Ranked(1), 50)];
    assert a[1].rank == a[2].rank;
    assert b[1].rank == b[2].rank;
  }

  /** The swap itself: the chain at rank 1 is the single level holding it. */
  lemma SwapResult(levels: LevelTable)
    requires levels == map[1 := Level("A", Ranked(1), 50), 2 := Level("B", Ranked(2), 49)]
    ensures UpdateLevelRank(levels, 2, Some(1)).value.levels
         == map[1 := Level("A", Ranked(2), 49), 2 := Level("B", Ranked(1), 50)]
  {
    assert levels[1].rank == Ranked(1);
    assert HeldByOther(levels, 2, 1);
    assert RunLength(levels, 2, 2) == 0;
    var row := UpdatePoints(levels[2].(rank := Ranked(1)));
    UpdateLevelRankIsPush(levels, 2, 1, 1, row);
    var pushed := BumpRange(levels, 2, 1, 1);
    assert pushed[1] == Level("A", Ranked(2), 49);
    assert pushed[2 := row] == map[1 := Level("A", Ranked(2), 49), 2 := Level("B", Ranked(1), 50)];
  }

  /** The table with the target's rank cleared, the first state written. */
  function Cleared(levels: LevelTable, target: nat): (c: LevelTable)
    requires target in levels
    ensures c.Keys == levels.Keys && c[target].rank == Unranked && c[target].points == 0
    ensures forall id | id in levels && id != target :: c[id] == levels[id]
  {
    levels[target := UpdatePoints(levels[target].(rank := Unranked))]
  }

  /** The corrected re-ranking: clear the target's rank, push the chain from
      its last level up to its first one row at a time, then give the target
      rank n, which yields the table the operation computes. */
  function UpdateLevelRankWrites(levels: LevelTable, target: nat, n: int): (trace: seq<LevelTable>)
    requires target in levels && 1 <= n <= MaxRank
    ensures |trace| == RunLength(levels, target, n) + 3
  {
    [levels] + PushStates(Cleared(levels, target), target, n, RunLength(levels, target, n))
    + [UpdateLevelRank(levels, target, Some(n)).value.levels]
  }

  /** Bumping skips the target, so clearing it first makes no difference once
      its row is overwritten. */
  lemma ClearedBumpAgrees(levels: LevelTable, target: nat, lo: int, hi: int, row: Level)
    requires target in levels
    ensures BumpRange(Cleared(levels, target), target, lo, hi)[target := row]
         == BumpRange(levels, target, lo, hi)[target := row]
  {
  }

  /** Giving the target rank n after the push is the table the operation
      computes. */
  lemma UpdateLevelRankLastWrite(levels: LevelTable, target: nat, n: int, hi: int, row: Level,
                                 pushed: LevelTable, final: LevelTable)
    requires target in levels && 1 <= n <= MaxRank
    requires hi == n + RunLength(levels, target, n) - 1
    requires row == UpdatePoints(levels[target].(rank := Ranked(n)))
    requires pushed == BumpRange(Cleared(levels, target), target, n, hi)
    requires final == UpdateLevelRank(levels, target, Some(n)).value.levels
    ensures pushed[target := row] == final
  {
    ClearedBumpAgrees(levels, target, n, hi, row);
    UpdateLevelRankIsPush(levels, target, n, hi, row);
  }

  /** The operation's result is the pushed table with the target's row set. */
  lemma UpdateLevelRankIsPush(levels: LevelTable, target: nat, n: int, hi: int, row: Level)
    requires target in levels && 1 <= n <= MaxRank
    requires hi == n + RunLength(levels, target, n) - 1
    requires row == UpdatePoints(levels[target].(rank := Ranked(n)))
    ensures UpdateLevelRank(levels, target, Some(n)).value.levels == BumpRange(levels, target, n, hi)[target := row]
  {
  }

  /** The push after clearing the target is safe. */
  lemma ClearedPushIsSafe(levels: LevelTable, target: nat, n: int)
    requires LevelRanksWell(levels)
    requires target in levels && 1 <= n <= MaxRank
    ensures SafeTrace(PushStates(Cleared(levels, target), target, n, RunLength(levels, target, n)))
  {
    var cleared := Cleared(levels, target);
    RunLengthIgnoresSkipped(levels, cleared, target, n);
    assert LevelRanksWell(cleared);
    PushStatesAreSafe(cleared, target, n, RunLength(levels, target, n));
  }

  /** The clearing write and the target's final write each change one row. */
  lemma UpdateLevelRankEndWrites(levels: LevelTable, target: nat, n: int, k: nat,
                                 middle: seq<LevelTable>, final: LevelTable)
    requires target in levels && 1 <= n <= MaxRank
    requires k == RunLength(levels, target, n)
    requires middle == PushStates(Cleared(levels, target), target, n, k)
    requires final == UpdateLevelRank(levels, target, Some(n)).value.levels
    ensures |middle| == k + 1
    ensures OneRowWrite(levels, middle[0]) && OneRowWrite(middle[k], final)
  {
    var row := UpdatePoints(levels[target].(rank := Ranked(n)));
    var pushed := middle[k];
    SetIsOneRowWrite(levels, target, UpdatePoints(levels[target].(rank := Unranked)));
    SetIsOneRowWrite(pushed, target, row);
    UpdateLevelRankLastWrite(levels, target, n, n + k - 1, row, pushed, final);
  }

  /** Every state of the corrected re-ranking is well ranked, and each step
      writes one row. */
  lemma UpdateLevelRankWritesSafeCore(levels: LevelTable, target: nat, n: int,
                                      middle: seq<LevelTable>, final: LevelTable, trace: seq<LevelTable>)
    requires LevelRanksWell(levels)
    requires target in levels && 1 <= n <= MaxRank
    requires middle == PushStates(Cleared(levels, target), target, n, RunLength(levels, target, n))
    requires final == UpdateLevelRank(levels, target, Some(n)).value.levels
    requires trace == [levels] + middle + [final]
    ensures SafeTrace(trace)
  {
    UpdateLevelRankKeepsRanksWell(levels, target, Some(n));
    ClearedPushIsSafe(levels, target, n);
    UpdateLevelRankEndWrites(levels, target, n, RunLength(levels, target, n), middle, final);
    SafeTraceFraming(levels, middle, RunLength(levels, target, n), final);
  }

  /** The corrected re-ranking passes only through well ranked tables, writes
      one row per step, and ends in the table `update_level_rank` computes. */
  lemma UpdateLevelRankWritesAreSafe(levels: LevelTable, target: nat, n: int)
    requires LevelRanksWell(levels)
    requires target in levels && 1 <= n <= MaxRank
    ensures var trace := UpdateLevelRankWrites(levels, target, n);
      && trace[0] == levels
      && trace[|trace| - 1] == UpdateLevelRank(levels, target, Some(n)).value.levels
      && SafeTrace(trace)
  {
    UpdateLevelRankWritesSafeCore(levels, target, n,
      PushStates(Cleared(levels, target), target, n, RunLength(levels, target, n)),
      UpdateLevelRank(levels, target, Some(n)).value.levels,
      UpdateLevelRankWrites(levels, target, n));
  }
}
