/** The read-only rank distribution of a level and the points recalculation
    over its approved claims. */
module ClaimQueries {
  import opened Results
  import opened Models

  /** The distinct ranks in 1..MaxRank held by approved claims of `level`. */
  function OccupiedRanks(claims: ClaimTable, level: nat): set<int> {
    set id | id in claims && InPopulation(claims[id], level)
               && Truthy(claims[id].rank) && 1 <= claims[id].rank.n <= MaxRank
      :: claims[id].rank.n
  }

  /** The ranks of `occupied` that lie in lo..MaxRank. */
  function OccupiedFrom(occupied: set<int>, lo: int): set<int> {
    set r | r in occupied && lo <= r <= MaxRank
  }

  /** The free ranks of lo..MaxRank in ascending order. */
  function GapsFrom(occupied: set<int>, lo: int): (g: seq<int>)
    requires 1 <= lo <= MaxRank + 1
    ensures forall i | 0 <= i < |g| :: lo <= g[i] <= MaxRank && g[i] !in occupied
    ensures forall r {:trigger r in g} | lo <= r <= MaxRank && r !in occupied :: r in g
    ensures forall i, j | 0 <= i < j < |g| :: g[i] < g[j]
    decreases MaxRank + 1 - lo
  {
    if lo > MaxRank then []
    else (if lo in occupied then [] else [lo]) + GapsFrom(occupied, lo + 1)
  }

  /** The gaps and the occupied ranks of lo..MaxRank together cover it. */
  lemma {:induction false} GapsFromCount(occupied: set<int>, lo: int)
    requires 1 <= lo <= MaxRank + 1
    ensures |GapsFrom(occupied, lo)| + |OccupiedFrom(occupied, lo)| == MaxRank + 1 - lo
    decreases MaxRank + 1 - lo
  {
    if lo > MaxRank {
      OccupiedFromPastEnd(occupied, lo);
    } else {
      GapsFromCount(occupied, lo + 1);
      OccupiedFromStep(occupied, lo);
    }
  }

  /** Past MaxRank nothing is occupied. */
  lemma OccupiedFromPastEnd(occupied: set<int>, lo: int)
    requires lo > MaxRank
    ensures OccupiedFrom(occupied, lo) == {}
  {
  }

  /** Starting one rank lower adds that rank when it is occupied. */
  lemma OccupiedFromStep(occupied: set<int>, lo: int)
    ensures |OccupiedFrom(occupied, lo)| == |OccupiedFrom(occupied, lo + 1)| + (if lo in occupied && lo <= MaxRank then 1 else 0)
  {
    var here := if lo in occupied && lo <= MaxRank then {lo} else {};
    assert OccupiedFrom(occupied, lo) == OccupiedFrom(occupied, lo + 1) + here;
    assert lo !in OccupiedFrom(occupied, lo + 1);
  }

  datatype Distribution = Distribution(
    rankedCount: nat,
    unrankedCount: nat,
    nextAvailable: Option<int>,
    gaps: seq<int>)

  /** The distribution over a set of occupied ranks within 1..MaxRank. */
  function DistributionOf(occupied: set<int>, unranked: nat): (d: Distribution)
    requires forall r | r in occupied :: MinRank <= r <= MaxRank
    ensures forall i | 0 <= i < |d.gaps| :: 1 <= d.gaps[i] <= MaxRank && d.gaps[i] !in occupied
    ensures forall r {:trigger r in d.gaps} | 1 <= r <= MaxRank && r !in occupied :: r in d.gaps
    ensures forall i, j | 0 <= i < j < |d.gaps| :: d.gaps[i] < d.gaps[j]
    ensures d.nextAvailable == if d.gaps == [] then None else Some(d.gaps[0])
    ensures d.rankedCount == |occupied|
    ensures d.unrankedCount == unranked
  {
    var gaps := GapsFrom(occupied, MinRank);
    GapsFacts(occupied, gaps);
    Distribution(|occupied|, unranked, if gaps == [] then None else Some(gaps[0]), gaps)
  }

  /** `get_level_rank_distribution`: how many distinct ranks are taken, how
      many approved claims are unranked, the free ranks in ascending order and
      the lowest of them. */
  function RankDistribution(claims: ClaimTable, level: nat): (d: Distribution)
    ensures forall i | 0 <= i < |d.gaps| ::
      1 <= d.gaps[i] <= MaxRank && d.gaps[i] !in OccupiedRanks(claims, level)
    ensures forall r {:trigger r in d.gaps} | 1 <= r <= MaxRank && r !in OccupiedRanks(claims, level) :: r in d.gaps
    ensures forall i, j | 0 <= i < j < |d.gaps| :: d.gaps[i] < d.gaps[j]
    ensures d.nextAvailable == if d.gaps == [] then None else Some(d.gaps[0])
    ensures d.rankedCount + |d.gaps| == MaxRank
    ensures d.unrankedCount == |set id | id in claims && InPopulation(claims[id], level) && claims[id].rank.Unranked?|
  {
    var occupied := OccupiedRanks(claims, level);
    OccupiedWithinBounds(claims, level);
    var d := DistributionOf(occupied,
                            |set id | id in claims && InPopulation(claims[id], level) && claims[id].rank.Unranked?|);
    GapsCount(occupied, d.gaps);
    d
  }

  lemma OccupiedWithinBounds(claims: ClaimTable, level: nat)
    ensures forall r | r in OccupiedRanks(claims, level) :: MinRank <= r <= MaxRank
  {
  }

  /** The gaps from the lowest rank are free, complete and ascending. */
  lemma GapsFacts(occupied: set<int>, g: seq<int>)
    requires g == GapsFrom(occupied, MinRank)
    ensures forall i | 0 <= i < |g| :: 1 <= g[i] <= MaxRank && g[i] !in occupied
    ensures forall r {:trigger r in g} | 1 <= r <= MaxRank && r !in occupied :: r in g
    ensures forall i, j | 0 <= i < j < |g| :: g[i] < g[j]
  {
  }

  /** Over ranks within bounds, gaps and occupied ranks split 1..MaxRank. */
  lemma GapsCount(occupied: set<int>, g: seq<int>)
    requires forall r | r in occupied :: MinRank <= r <= MaxRank
    requires g == GapsFrom(occupied, MinRank)
    ensures |g| + |occupied| == MaxRank
  {
    GapsFromCount(occupied, MinRank);
    assert OccupiedFrom(occupied, MinRank) == occupied;
  }

  /** The head of the ascending gap list is the lowest free rank. */
  lemma LowestGap(occupied: set<int>, lo: int)
    requires 1 <= lo <= MaxRank + 1
    ensures var gaps := GapsFrom(occupied, lo);
      gaps == [] <==> forall r | lo <= r <= MaxRank :: r in occupied
    ensures var gaps := GapsFrom(occupied, lo);
      gaps != [] ==> forall r | lo <= r < gaps[0] :: r in occupied
  {
    var gaps := GapsFrom(occupied, lo);
    if gaps == [] {
      forall r | lo <= r <= MaxRank
        ensures r in occupied
      {
        assert r !in occupied ==> r in gaps;
      }
    } else {
      assert lo <= gaps[0] <= MaxRank && gaps[0] !in occupied;
      forall r | lo <= r < gaps[0]
        ensures r in occupied
      {
        assert r !in occupied ==> r in gaps;
      }
    }
  }

  /** The next available rank is the lowest free rank, and there is none
      exactly when every rank is taken. */
  lemma NextAvailableIsLowestFree(claims: ClaimTable, level: nat)
    ensures var d := RankDistribution(claims, level);
      d.nextAvailable.None? <==> forall r | 1 <= r <= MaxRank :: r in OccupiedRanks(claims, level)
    ensures var d := RankDistribution(claims, level);
      d.nextAvailable.Some? ==>
        && 1 <= d.nextAvailable.value <= MaxRank
        && d.nextAvailable.value !in OccupiedRanks(claims, level)
        && forall r | 1 <= r < d.nextAvailable.value :: r in OccupiedRanks(claims, level)
  {
    LowestGap(OccupiedRanks(claims, level), MinRank);
  }

  /** A level is full exactly when no rank is free. */
  lemma FullIffNoGaps(claims: ClaimTable, level: nat)
    ensures RankDistribution(claims, level).rankedCount == MaxRank
        <==> RankDistribution(claims, level).nextAvailable.None?
  {
  }

  datatype Recalculated = Recalculated(claims: ClaimTable, updated: nat)

  /** `recalculate_points_for_level`: every approved claim of the level gets
      the points its rank is worth; the count is the number of those claims. */
  function RecalculatePointsForLevel(claims: ClaimTable, level: nat): (r: Recalculated)
    ensures r.claims.Keys == claims.Keys
    ensures forall id | id in claims :: r.claims[id].(points := claims[id].points) == claims[id]
    ensures forall id | id in claims && InPopulation(claims[id], level) ::
      r.claims[id].points == Points(claims[id].rank)
    ensures forall id | id in claims && !InPopulation(claims[id], level) :: r.claims[id] == claims[id]
    ensures r.updated == |set id | id in claims && InPopulation(claims[id], level)|
  {
    var recalculated := map id | id in claims ::
      if InPopulation(claims[id], level)
      then claims[id].(points := if Truthy(claims[id].rank) && 1 <= claims[id].rank.n <= MaxRank
                                 then MaxRank + 1 - claims[id].rank.n else 0)
      else claims[id];
    Recalculated(recalculated, |set id | id in claims && InPopulation(claims[id], level)|)
  }

  /** On a well-ranked table the recalculation changes nothing, and running it
      twice is the same as running it once. */
  lemma RecalculateIsIdentityWhenWellRanked(claims: ClaimTable, level: nat)
    requires ClaimRanksWell(claims)
    ensures RecalculatePointsForLevel(claims, level).claims == claims
  {
    var r := RecalculatePointsForLevel(claims, level).claims;
    forall id | id in claims
      ensures r[id] == claims[id]
    {
    }
  }

  lemma RecalculateIdempotent(claims: ClaimTable, level: nat)
    ensures var once := RecalculatePointsForLevel(claims, level);
      RecalculatePointsForLevel(once.claims, level) == once
  {
    var once := RecalculatePointsForLevel(claims, level);
    var twice := RecalculatePointsForLevel(once.claims, level);
    forall id | id in once.claims
      ensures twice.claims[id] == once.claims[id]
    {
    }
    assert (set id | id in once.claims && InPopulation(once.claims[id], level))
        == (set id | id in claims && InPopulation(claims[id], level));
  }
}
