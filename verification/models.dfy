/** The stored records of the demon list: levels with a global rank, claims
    with a rank inside their level, the points derived from a rank, and the
    per-user total built from those points. */
module Models {

  /** Ranks run from 1 (hardest) to MaxRank; a rank earns MaxRank + 1 - rank points. */
  const MaxRank: int := 50

  /** The best rank. */
  const MinRank: int := 1

  /** A stored rank column: NULL, or whatever integer was written. The
      integer is not restricted here because the ranking code itself tests
      for values outside 1..MaxRank; the invariants below keep it in range. */
  datatype Rank = Unranked | Ranked(n: int)

  /** Python truthiness of the rank column: NULL and 0 are false. */
  predicate Truthy(r: Rank) {
    r.Ranked? && r.n != 0
  }

  predicate InBounds(r: Rank) {
    r.Ranked? && 1 <= r.n <= MaxRank
  }

  /** The ranks the invariants allow: absent, or within 1..MaxRank. */
  predicate Storable(r: Rank) {
    r.Unranked? || InBounds(r)
  }

  /** The points deriver: MaxRank + 1 - rank for a rank in 1..MaxRank, else 0. */
  function Points(r: Rank): (p: int)
    ensures 0 <= p <= MaxRank
    ensures p == 0 <==> !InBounds(r)
  {
    if Truthy(r) && 1 <= r.n <= MaxRank then MaxRank + 1 - r.n else 0
  }

  /** Every positive points value comes from exactly one rank, and a rank is
      recovered from its points. */
  lemma PointsRoundTrip(r: Rank, p: int)
    requires InBounds(r)
    requires 1 <= p <= MaxRank
    ensures Points(Ranked(MaxRank + 1 - p)) == p
    ensures Points(r) == p <==> r.n == MaxRank + 1 - p
  {
  }

  /** A better (smaller) rank is always worth strictly more points. */
  lemma PointsStrictlyDecreasing(a: int, b: int)
    requires 1 <= a < b <= MaxRank
    ensures Points(Ranked(a)) > Points(Ranked(b)) > 0
  {
  }

  // ---------------------------------------------------------------- levels

  datatype Level = Level(name: string, rank: Rank, points: int)

  predicate LevelConsistent(l: Level) {
    l.points == Points(l.rank)
  }

  /** `Level.update_points`: recompute the points column from the rank. */
  function UpdatePoints(l: Level): (l': Level)
    ensures l'.name == l.name && l'.rank == l.rank
    ensures LevelConsistent(l')
    ensures LevelConsistent(l) <==> l' == l
  {
    l.(points := Points(l.rank))
  }

  lemma UpdatePointsIdempotent(l: Level)
    ensures UpdatePoints(UpdatePoints(l)) == UpdatePoints(l)
    ensures 0 <= UpdatePoints(l).points <= MaxRank
  {
  }

  type LevelTable = map<nat, Level>

  /** The unique constraint on the level rank column: no two levels share a
      present rank. */
  predicate RanksUnique(levels: LevelTable) {
    forall a, b | a in levels && b in levels && a != b && levels[a].rank.Ranked? ::
      levels[a].rank != levels[b].rank
  }

  /** The level table invariant: unique ranks, each within bounds, and the
      points column agreeing with the rank. */
  predicate LevelRanksWell(levels: LevelTable) {
    && RanksUnique(levels)
    && (forall id | id in levels :: Storable(levels[id].rank) && LevelConsistent(levels[id]))
  }

  /** Whether some level other than `skip` holds rank `r`. */
  predicate HeldByOther(levels: LevelTable, skip: nat, r: int) {
    exists id | id in levels :: id != skip && levels[id].rank == Ranked(r)
  }

  // ---------------------------------------------------------------- claims

  datatype Status = Pending | Approved | Rejected

  datatype Claim = Claim(
    userId: nat,
    levelId: nat,
    status: Status,
    rank: Rank,
    points: int,
    firstVictor: bool)

  type ClaimTable = map<nat, Claim>

  /** A claim belongs to the ranked population of `level` when it is an
      approved claim of that level. */
  predicate InPopulation(c: Claim, level: nat) {
    c.status == Approved && c.levelId == level
  }

  /** The claim table invariant: approved claims carry a storable rank with
      matching points and no two approved claims of one level share a rank;
      pending and rejected claims are unranked with no points. */
  predicate ClaimRanksWell(claims: ClaimTable) {
    && (forall id | id in claims ::
          if claims[id].status == Approved
          then Storable(claims[id].rank) && claims[id].points == Points(claims[id].rank)
          else claims[id].rank == Unranked && claims[id].points == 0)
    && (forall a, b | a in claims && b in claims && a != b
          && InPopulation(claims[a], claims[b].levelId) && claims[b].status == Approved
          && claims[a].rank.Ranked? ::
          claims[a].rank != claims[b].rank)
  }

  // ---------------------------------------------------------- user totals

  /** The levels a user has completed: those with an approved claim of theirs. */
  function CompletedLevels(claims: ClaimTable, user: nat): set<nat> {
    set id | id in claims && claims[id].userId == user && claims[id].status == Approved :: claims[id].levelId
  }

  /** Points of the level with id `lid`; an id with no level row adds nothing. */
  function LevelPoints(levels: LevelTable, lid: nat): int {
    if lid in levels then levels[lid].points else 0
  }

  /** The sum of the points of a set of level ids, each id counted once. */
  ghost function SumPoints(levels: LevelTable, ids: set<nat>): int
    decreases ids
  {
    if ids == {} then 0
    else
      var x :| x in ids;
      LevelPoints(levels, x) + SumPoints(levels, ids - {x})
  }

  /** The sum does not depend on which id is taken out first. */
  lemma {:induction false} SumPointsSplit(levels: LevelTable, ids: set<nat>, y: nat)
    requires y in ids
    ensures SumPoints(levels, ids) == LevelPoints(levels, y) + SumPoints(levels, ids - {y})
    decreases ids
  {
    var x :| x in ids && SumPoints(levels, ids) == LevelPoints(levels, x) + SumPoints(levels, ids - {x});
    if x != y {
      SumPointsSplit(levels, ids - {x}, y);
      SumPointsSplit(levels, ids - {y}, x);
      assert ids - {x} - {y} == ids - {y} - {x};
    }
  }

  /** On a well-ranked level table each completed level adds 0..MaxRank points. */
  lemma {:induction false} SumPointsBounded(levels: LevelTable, ids: set<nat>)
    requires LevelRanksWell(levels)
    ensures 0 <= SumPoints(levels, ids) <= MaxRank * |ids|
    decreases ids
  {
    if ids != {} {
      var y :| y in ids;
      SumPointsSplit(levels, ids, y);
      SumPointsBounded(levels, ids - {y});
    }
  }

  /** `User.get_total_points`: the points of the distinct levels the user has
      an approved claim for; 0 when there are none. */
  method TotalPoints(claims: ClaimTable, levels: LevelTable, user: nat) returns (total: int)
    ensures total == SumPoints(levels, CompletedLevels(claims, user))
    ensures CompletedLevels(claims, user) == {} ==> total == 0
  {
    var ids := set id | id in claims && claims[id].userId == user && claims[id].status == Approved :: claims[id].levelId;
    if ids == {} {
      return 0;
    }
    total := 0;
    var rest := ids;
    while rest != {}
      invariant rest <= ids
      invariant total + SumPoints(levels, rest) == SumPoints(levels, ids)
      decreases |rest|
    {
      var lid :| lid in rest;
      SumPointsSplit(levels, rest, lid);
      if lid in levels {
        total := total + levels[lid].points;
      }
      rest := rest - {lid};
    }
  }

  /** A second approved claim on an already completed level adds nothing. */
  lemma RepeatLevelCountsOnce(claims: ClaimTable, levels: LevelTable, id: nat, c: Claim)
    requires id !in claims
    requires c.status == Approved
    requires c.levelId in CompletedLevels(claims, c.userId)
    ensures SumPoints(levels, CompletedLevels(claims[id := c], c.userId))
         == SumPoints(levels, CompletedLevels(claims, c.userId))
  {
    var after := CompletedLevels(claims[id := c], c.userId);
    var before := CompletedLevels(claims, c.userId);
    forall lid | lid in after
      ensures lid in before
    {
      var w :| w in claims[id := c] && claims[id := c][w].userId == c.userId
        && claims[id := c][w].status == Approved && claims[id := c][w].levelId == lid;
      if w != id {
        assert w in claims && claims[w].levelId == lid;
      }
    }
    forall lid | lid in before
      ensures lid in after
    {
      var w :| w in claims && claims[w].userId == c.userId && claims[w].status == Approved && claims[w].levelId == lid;
      assert w in claims[id := c] && claims[id := c][w] == claims[w];
    }
    assert after == before;
  }

  /** An approved claim on a new level adds exactly that level's points. */
  lemma NewLevelAddsItsPoints(claims: ClaimTable, levels: LevelTable, id: nat, c: Claim)
    requires id !in claims
    requires c.status == Approved
    requires c.levelId !in CompletedLevels(claims, c.userId)
    ensures SumPoints(levels, CompletedLevels(claims[id := c], c.userId))
         == SumPoints(levels, CompletedLevels(claims, c.userId)) + LevelPoints(levels, c.levelId)
  {
    var after := CompletedLevels(claims[id := c], c.userId);
    var before := CompletedLevels(claims, c.userId);
    forall lid | lid in after
      ensures lid in before + {c.levelId}
    {
      var w :| w in claims[id := c] && claims[id := c][w].userId == c.userId
        && claims[id := c][w].status == Approved && claims[id := c][w].levelId == lid;
      if w != id {
        assert w in claims && claims[w].levelId == lid;
      }
    }
    forall lid | lid in before
      ensures lid in after
    {
      var w :| w in claims && claims[w].userId == c.userId && claims[w].status == Approved && claims[w].levelId == lid;
      assert w in claims[id := c] && claims[id := c][w] == claims[w];
    }
    assert id in claims[id := c];
    assert c.levelId in after;
    assert after == before + {c.levelId};
    SumPointsSplit(levels, after, c.levelId);
    assert after - {c.levelId} == before;
  }
}
