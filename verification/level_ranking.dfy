/** The global ranking of levels: creating a level at a rank, changing a
    level's rank with the contiguous push, and deleting a level. Level ranks
    are unique across the whole table (the unique constraint on the column). */
module LevelRanking {
  import opened Results
  import opened Models

  /** The rank a level gets from an optional integer. */
  function RankOf(rank: Option<int>): Rank {
    if rank.Some? then Ranked(rank.value) else Unranked
  }

  /** One place worse: rank + 1, or off the list past MaxRank; points follow. */
  function Bumped(l: Level): (b: Level)
    requires l.rank.Ranked?
    ensures b.name == l.name && LevelConsistent(b)
    ensures 1 <= l.rank.n < MaxRank ==> b.rank == Ranked(l.rank.n + 1)
    ensures l.rank.n >= MaxRank ==> b.rank == Unranked && b.points == 0
  {
    var r := l.rank.n + 1;
    if r > MaxRank then UpdatePoints(l.(rank := Unranked))
    else UpdatePoints(l.(rank := Ranked(r)))
  }

  /** Bump every level other than `skip` whose rank lies in lo..hi. */
  function BumpRange(levels: LevelTable, skip: nat, lo: int, hi: int): LevelTable {
    map id | id in levels ::
      if id != skip && levels[id].rank.Ranked? && lo <= levels[id].rank.n <= hi
      then Bumped(levels[id]) else levels[id]
  }

  /** Whether a level name is already taken. */
  predicate NameInUse(levels: LevelTable, name: string) {
    exists id | id in levels :: levels[id].name == name
  }

  /** `add_level`: refuse an empty or taken name and a rank outside
      1..MaxRank; otherwise create the level (under the fresh id the database
      hands out) and, when it has a rank, push every level from that rank on
      one place down. */
  function AddLevel(levels: LevelTable, newId: nat, name: string, rank: Option<int>): (r: Result<LevelTable>)
    requires newId !in levels
    ensures name == [] ==> r == Err(NameRequired)
    ensures name != [] && NameInUse(levels, name) ==> r == Err(NameTaken)
    ensures r.Err? && name != [] && !NameInUse(levels, name) ==> r.failure == InvalidRank
    ensures r.Err? <==> name == [] || NameInUse(levels, name) || (rank.Some? && !(1 <= rank.value <= MaxRank))
    ensures r.Ok? ==> r.value.Keys == levels.Keys + {newId}
    ensures r.Ok? ==> r.value[newId].name == name && r.value[newId].rank == RankOf(rank)
                      && LevelConsistent(r.value[newId])
    ensures r.Ok? ==> forall id | id in levels ::
      if rank.Some? && levels[id].rank.Ranked? && rank.value <= levels[id].rank.n <= MaxRank
      then r.value[id] == Bumped(levels[id])
      else r.value[id] == levels[id]
  {
    if name == [] then Err(NameRequired)
    else if NameInUse(levels, name) then Err(NameTaken)
    else if rank.Some? && (rank.value < 1 || rank.value > MaxRank) then Err(InvalidRank)
    else
      var shifted := if rank.Some? && rank.value != 0 then BumpRange(levels, newId, rank.value, MaxRank) else levels;
      Ok(shifted[newId := UpdatePoints(Level(name, RankOf(rank), 0))])
  }

  // ------------------------------------------------------------- the chain

  /** The length of the run of consecutive ranks n, n+1, ... (up to MaxRank)
      each held by a level other than `target`: the chain the push displaces. */
  function RunLength(levels: LevelTable, target: nat, n: int): (k: nat)
    ensures k == 0 || n + k - 1 <= MaxRank
    ensures forall r | n <= r < n + k :: HeldByOther(levels, target, r)
    ensures n + k <= MaxRank ==> !HeldByOther(levels, target, n + k)
    decreases MaxRank + 1 - n
  {
    if n > MaxRank || !HeldByOther(levels, target, n) then 0
    else 1 + RunLength(levels, target, n + 1)
  }

  /** The loop that collects the chain: starting at rank n, take the level
      (other than the target) holding the current rank, until a rank is free
      or MaxRank is passed. */
  method BuildChain(levels: LevelTable, target: nat, n: int) returns (chain: seq<nat>)
    ensures |chain| == RunLength(levels, target, n)
    ensures forall i | 0 <= i < |chain| ::
      chain[i] in levels && chain[i] != target && levels[chain[i]].rank == Ranked(n + i)
    ensures RanksUnique(levels) ==> forall id | id in levels ::
      (id in chain <==> id != target && levels[id].rank.Ranked? && n <= levels[id].rank.n < n + |chain|)
  {
    chain := [];
    var current := n;
    while current <= MaxRank
      invariant current == n + |chain|
      invariant forall i | 0 <= i < |chain| ::
        chain[i] in levels && chain[i] != target && levels[chain[i]].rank == Ranked(n + i)
      invariant RunLength(levels, target, n) == |chain| + RunLength(levels, target, current)
      decreases MaxRank + 1 - current
    {
      if HeldByOther(levels, target, current) {
        var displaced :| displaced in levels && displaced != target && levels[displaced].rank == Ranked(current);
        chain := chain + [displaced];
        current := current + 1;
      } else {
        break;
      }
    }
    if RanksUnique(levels) {
      forall id | id in levels && id != target && levels[id].rank.Ranked? && n <= levels[id].rank.n < n + |chain|
        ensures id in chain
      {
        var i := levels[id].rank.n - n;
        assert levels[chain[i]].rank == levels[id].rank;
      }
    }
  }

  datatype RankChange = RankChange(levels: LevelTable, shifted: nat)

  /** `update_level_rank`: None clears the target's rank and nothing else;
      a rank n pushes the chain at n, n+1, ... one place down (the last one
      off the list past MaxRank), then gives the target rank n. The count is
      the chain length. */
  function UpdateLevelRank(levels: LevelTable, target: nat, rank: Option<int>): (r: Result<RankChange>)
    requires target in levels
    ensures r.Err? <==> rank.Some? && !(1 <= rank.value <= MaxRank)
    ensures r.Err? ==> r.failure == InvalidRank
    ensures r.Ok? ==> r.value.levels.Keys == levels.Keys
    ensures r.Ok? ==> r.value.levels[target] == UpdatePoints(levels[target].(rank := RankOf(rank)))
    ensures r.Ok? && rank.None? ==>
      && r.value.shifted == 0
      && forall id | id in levels && id != target :: r.value.levels[id] == levels[id]
    ensures r.Ok? && rank.Some? ==> r.value.shifted == RunLength(levels, target, rank.value)
    ensures r.Ok? && rank.Some? ==> forall id | id in levels && id != target ::
      if levels[id].rank.Ranked? && rank.value <= levels[id].rank.n < rank.value + r.value.shifted
      then r.value.levels[id] == Bumped(levels[id])
      else r.value.levels[id] == levels[id]
  {
    if rank.None? then
      Ok(RankChange(levels[target := UpdatePoints(levels[target].(rank := Unranked))], 0))
    else if !(1 <= rank.value <= MaxRank) then Err(InvalidRank)
    else
      var n := rank.value;
      var k := RunLength(levels, target, n);
      var pushed := BumpRange(levels, target, n, n + k - 1);
      Ok(RankChange(pushed[target := UpdatePoints(levels[target].(rank := Ranked(n)))], k))
  }

  /** `delete_level`: a level that still has claims is kept; otherwise it is
      removed and nothing else moves. */
  function DeleteLevel(levels: LevelTable, claims: ClaimTable, id: nat): (r: Result<LevelTable>)
    requires id in levels
    ensures r.Err? <==> exists c | c in claims :: claims[c].levelId == id
    ensures r.Err? ==> r.failure == HasClaims
    ensures r.Ok? ==> r.value.Keys == levels.Keys - {id}
    ensures r.Ok? ==> forall other | other in r.value :: r.value[other] == levels[other]
  {
    if exists c | c in claims :: claims[c].levelId == id then Err(HasClaims)
    else Ok(map other | other in levels && other != id :: levels[other])
  }
}
