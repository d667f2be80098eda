/** Ranking of the approved claims of one level (`assign_rank_to_claim` and
    its read-only helpers). The population of a level is its approved claims;
    a cascade never touches a claim of another level or another status. */
module ClaimRanking {
  import opened Results
  import opened Models

  /** The rank argument as it reaches the engine: None, an integer, or some
      other value that is not an integer. */
  datatype RankArg = NoRank | IntRank(n: int) | NotAnInt

  /** The rank a successful call gives the target. */
  function Requested(arg: RankArg): Rank {
    if arg.IntRank? then Ranked(arg.n) else Unranked
  }

  /** A claim matched by a shift query: approved, in `level`, rank in lo..hi. */
  predicate Selected(c: Claim, level: nat, lo: int, hi: int) {
    InPopulation(c, level) && c.rank.Ranked? && lo <= c.rank.n <= hi
  }

  /** One place better: rank - 1, with points recomputed inline. */
  function MovedUp(c: Claim): Claim
    requires c.rank.Ranked?
  {
    var r := c.rank.n - 1;
    c.(rank := Ranked(r), points := MaxRank + 1 - r)
  }

  /** One place worse: rank + 1, falling off the list past MaxRank. */
  function MovedDown(c: Claim): Claim
    requires c.rank.Ranked?
  {
    var r := c.rank.n + 1;
    if r > MaxRank then c.(rank := Unranked, points := 0)
    else c.(rank := Ranked(r), points := MaxRank + 1 - r)
  }

  /** Move every other claim of the target's population ranked in lo..hi one place up. */
  function ShiftUp(claims: ClaimTable, target: nat, lo: int, hi: int): ClaimTable
    requires target in claims
  {
    map id | id in claims ::
      if id != target && Selected(claims[id], claims[target].levelId, lo, hi)
      then MovedUp(claims[id]) else claims[id]
  }

  /** Move every other claim of the target's population ranked in lo..hi one place down. */
  function ShiftDown(claims: ClaimTable, target: nat, lo: int, hi: int): ClaimTable
    requires target in claims
  {
    map id | id in claims ::
      if id != target && Selected(claims[id], claims[target].levelId, lo, hi)
      then MovedDown(claims[id]) else claims[id]
  }

  /** The unranking branch: clear the target, then close the gap it leaves. */
  function Unrank(claims: ClaimTable, target: nat): (r: ClaimTable)
    requires target in claims
    ensures r.Keys == claims.Keys
  {
    var c := claims[target];
    var shifted :=
      if Truthy(c.rank) && 1 <= c.rank.n <= MaxRank
      then ShiftUp(claims, target, c.rank.n + 1, MaxRank)
      else claims;
    shifted[target := c.(rank := Unranked, points := 0)]
  }

  /** The ranking branch: cascade according to where the target comes from,
      then give it rank n. */
  function Place(claims: ClaimTable, target: nat, n: int): (r: ClaimTable)
    requires target in claims
    requires 1 <= n <= MaxRank
    ensures r.Keys == claims.Keys
  {
    var prev := claims[target].rank;
    var shifted :=
      if Truthy(prev) && 1 <= prev.n <= MaxRank && prev.n != n then
        if prev.n < n then ShiftUp(claims, target, prev.n + 1, n)
        else ShiftDown(claims, target, n, prev.n - 1)
      else if !Truthy(prev) || prev.n > MaxRank then ShiftDown(claims, target, n, MaxRank)
      else claims;
    shifted[target := claims[target].(rank := Ranked(n), points := MaxRank + 1 - n)]
  }

  /** `assign_rank_to_claim`: refuse claims that are not approved and ranks
      outside 1..MaxRank; otherwise unrank or place the target. */
  function AssignRankToClaim(claims: ClaimTable, target: nat, arg: RankArg): (r: Result<ClaimTable>)
    requires target in claims
    ensures claims[target].status != Approved ==> r == Err(NotApproved)
    ensures claims[target].status == Approved ==>
      (r.Ok? <==> arg.NoRank? || (arg.IntRank? && 1 <= arg.n <= MaxRank))
    ensures r.Err? && claims[target].status == Approved ==> r.failure == InvalidRank
    ensures r.Ok? ==> r.value.Keys == claims.Keys
    ensures r.Ok? ==> r.value[target] == claims[target].(rank := Requested(arg), points := Points(Requested(arg)))
    ensures r.Ok? ==> forall id | id in claims && !InPopulation(claims[id], claims[target].levelId) ::
      r.value[id] == claims[id]
    ensures r.Ok? ==> forall id | id in claims && claims[id].rank.Unranked? && id != target ::
      r.value[id] == claims[id]
  {
    if claims[target].status != Approved then Err(NotApproved)
    else match arg
      case NotAnInt => Err(InvalidRank)
      case IntRank(n) =>
        if n < 1 || n > MaxRank then Err(InvalidRank) else Ok(Place(claims, target, n))
      case NoRank => Ok(Unrank(claims, target))
  }

  /** A call changes ranks and points only: owner, level, status and flag of
      every claim stay as they were. */
  lemma AssignTouchesOnlyRanks(claims: ClaimTable, target: nat, arg: RankArg, id: nat)
    requires target in claims && AssignRankToClaim(claims, target, arg).Ok?
    requires id in claims
    ensures var c := AssignRankToClaim(claims, target, arg).value[id];
      c.(rank := claims[id].rank, points := claims[id].points) == claims[id]
  {
  }

  // ------------------------------------------------------- reference cascade

  /** Where a cascade sends another member of the population ranked at x when
      the target goes from rank `prev` to rank `next`, stated on ranks alone:
      clearing closes the gap above `prev`, a fresh placement pushes everything
      from `next` on down one place (the last one off the list), and a move
      translates the ranks between the two slots by one towards `prev`. */
  function Cascade(prev: Rank, next: Rank, x: int): Rank
    requires Storable(prev) && Storable(next)
  {
    match (prev, next)
    case (Unranked, Unranked) => Ranked(x)
    case (Ranked(o), Unranked) => if x > o then Ranked(x - 1) else Ranked(x)
    case (Unranked, Ranked(m)) =>
      if x < m then Ranked(x) else if x + 1 > MaxRank then Unranked else Ranked(x + 1)
    case (Ranked(o), Ranked(m)) =>
      if o < x <= m then Ranked(x - 1)
      else if m <= x < o then Ranked(x + 1)
      else Ranked(x)
  }

  /** The cascade keeps ranks in bounds, leaves the target's new slot free,
      preserves the order of the members it keeps ranked, and only a fresh
      placement ever pushes a member off the list. */
  lemma CascadeFacts(prev: Rank, next: Rank, x: int, y: int)
    requires Storable(prev) && Storable(next)
    requires 1 <= x <= MaxRank && 1 <= y <= MaxRank
    requires prev.Ranked? ==> x != prev.n && y != prev.n
    ensures Storable(Cascade(prev, next, x))
    ensures next.Ranked? ==> Cascade(prev, next, x) != next
    ensures Cascade(prev, next, x).Ranked? && Cascade(prev, next, y).Ranked? ==>
      (x < y <==> Cascade(prev, next, x).n < Cascade(prev, next, y).n)
    ensures Cascade(prev, next, x).Unranked? <==> prev.Unranked? && next.Ranked? && x == MaxRank
  {
  }

  /** A successful call moves each other ranked member of the target's
      population exactly as the reference cascade says, with its points
      following its rank. */
  lemma AssignFollowsCascade(claims: ClaimTable, target: nat, arg: RankArg, id: nat)
    requires ClaimRanksWell(claims)
    requires target in claims && AssignRankToClaim(claims, target, arg).Ok?
    requires id in claims && id != target
    requires InPopulation(claims[id], claims[target].levelId) && claims[id].rank.Ranked?
    ensures Storable(claims[target].rank) && Storable(Requested(arg))
    ensures var moved := Cascade(claims[target].rank, Requested(arg), claims[id].rank.n);
      AssignRankToClaim(claims, target, arg).value[id] == claims[id].(rank := moved, points := Points(moved))
  {
    assert claims[target].status == Approved;
    assert Storable(claims[id].rank) && claims[id].points == Points(claims[id].rank);
    assert claims[id].rank != claims[target].rank;
    if arg.IntRank? {
      PlaceFollowsCascade(claims, target, arg.n, id);
    } else {
      UnrankFollowsCascade(claims, target, id);
    }
  }

  /** The unranking branch moves another ranked member as the reference
      cascade for clearing says. */
  lemma UnrankFollowsCascade(claims: ClaimTable, target: nat, id: nat)
    requires target in claims && Storable(claims[target].rank)
    requires id in claims && id != target && InPopulation(claims[id], claims[target].levelId)
    requires InBounds(claims[id].rank) && claims[id].points == Points(claims[id].rank)
    requires claims[id].rank != claims[target].rank
    ensures var moved := Cascade(claims[target].rank, Unranked, claims[id].rank.n);
      Unrank(claims, target)[id] == claims[id].(rank := moved, points := Points(moved))
  {
  }

  /** The ranking branch moves another ranked member as the reference
      cascade for a move or a fresh placement says. */
  lemma PlaceFollowsCascade(claims: ClaimTable, target: nat, n: int, id: nat)
    requires target in claims && Storable(claims[target].rank) && 1 <= n <= MaxRank
    requires id in claims && id != target && InPopulation(claims[id], claims[target].levelId)
    requires InBounds(claims[id].rank) && claims[id].points == Points(claims[id].rank)
    requires claims[id].rank != claims[target].rank
    ensures var moved := Cascade(claims[target].rank, Ranked(n), claims[id].rank.n);
      Place(claims, target, n)[id] == claims[id].(rank := moved, points := Points(moved))
  {
  }

  /** After a successful call every claim still has a storable rank and
      matching points, and non-approved claims stay unranked. */
  lemma AssignKeepsEntryWell(claims: ClaimTable, target: nat, arg: RankArg, id: nat)
    requires ClaimRanksWell(claims)
    requires target in claims && AssignRankToClaim(claims, target, arg).Ok?
    requires id in claims
    ensures var r := AssignRankToClaim(claims, target, arg).value;
      if r[id].status == Approved
      then Storable(r[id].rank) && r[id].points == Points(r[id].rank)
      else r[id].rank == Unranked && r[id].points == 0
  {
    assert claims[target].status == Approved;
    if id != target && InPopulation(claims[id], claims[target].levelId) && claims[id].rank.Ranked? {
      AssignFollowsCascade(claims, target, arg, id);
      CascadeFacts(claims[target].rank, Requested(arg), claims[id].rank.n, claims[id].rank.n);
    }
  }

  /** Two ranked members other than the target stay apart: the cascade
      preserves their order. */
  lemma AssignPairOfMembers(claims: ClaimTable, target: nat, arg: RankArg, a: nat, b: nat)
    requires ClaimRanksWell(claims)
    requires target in claims && AssignRankToClaim(claims, target, arg).Ok?
    requires a in claims && b in claims && a != b && a != target && b != target
    requires InPopulation(claims[a], claims[target].levelId) && InPopulation(claims[b], claims[target].levelId)
    requires claims[a].rank.Ranked? && claims[b].rank.Ranked?
    ensures var r := AssignRankToClaim(claims, target, arg).value;
      r[a].rank.Ranked? ==> r[a].rank != r[b].rank
  {
    AssignFollowsCascade(claims, target, arg, a);
    AssignFollowsCascade(claims, target, arg, b);
    CascadeFacts(claims[target].rank, Requested(arg), claims[a].rank.n, claims[b].rank.n);
  }

  /** A ranked member never lands on the target's new rank. */
  lemma AssignPairWithTarget(claims: ClaimTable, target: nat, arg: RankArg, b: nat)
    requires ClaimRanksWell(claims)
    requires target in claims && AssignRankToClaim(claims, target, arg).Ok?
    requires b in claims && b != target
    requires InPopulation(claims[b], claims[target].levelId) && claims[b].rank.Ranked?
    ensures var r := AssignRankToClaim(claims, target, arg).value;
      r[target].rank.Ranked? ==> r[target].rank != r[b].rank
  {
    AssignFollowsCascade(claims, target, arg, b);
    CascadeFacts(claims[target].rank, Requested(arg), claims[b].rank.n, claims[b].rank.n);
  }

  /** After a successful call two approved claims of one level never share a rank. */
  lemma AssignKeepsPairDistinct(claims: ClaimTable, target: nat, arg: RankArg, a: nat, b: nat)
    requires ClaimRanksWell(claims)
    requires target in claims && AssignRankToClaim(claims, target, arg).Ok?
    requires a in claims && b in claims && a != b
    ensures var r := AssignRankToClaim(claims, target, arg).value;
      InPopulation(r[a], r[b].levelId) && r[b].status == Approved && r[a].rank.Ranked? ==>
      r[a].rank != r[b].rank
  {
    var L := claims[target].levelId;
    assert claims[target].status == Approved;
    AssignTouchesOnlyRanks(claims, target, arg, a);
    AssignTouchesOnlyRanks(claims, target, arg, b);
    if InPopulation(claims[a], L) && InPopulation(claims[b], L) {
      if a != target && b != target {
        if claims[a].rank.Ranked? && claims[b].rank.Ranked? {
          AssignPairOfMembers(claims, target, arg, a, b);
        }
      } else if a == target && claims[b].rank.Ranked? {
        AssignPairWithTarget(claims, target, arg, b);
      } else if b == target && claims[a].rank.Ranked? {
        AssignPairWithTarget(claims, target, arg, a);
      }
    }
  }

  /** Ranking a claim keeps the claim table well ranked: ranks stay within
      bounds and unique per level, and points keep following ranks. */
  lemma AssignKeepsRanksWell(claims: ClaimTable, target: nat, arg: RankArg)
    requires ClaimRanksWell(claims)
    requires target in claims && AssignRankToClaim(claims, target, arg).Ok?
    ensures ClaimRanksWell(AssignRankToClaim(claims, target, arg).value)
  {
    var r := AssignRankToClaim(claims, target, arg).value;
    forall id | id in r
      ensures if r[id].status == Approved
              then Storable(r[id].rank) && r[id].points == Points(r[id].rank)
              else r[id].rank == Unranked && r[id].points == 0
    {
      AssignKeepsEntryWell(claims, target, arg, id);
    }
    forall a, b | a in r && b in r && a != b && InPopulation(r[a], r[b].levelId)
      && r[b].status == Approved && r[a].rank.Ranked?
      ensures r[a].rank != r[b].rank
    {
      AssignKeepsPairDistinct(claims, target, arg, a, b);
    }
  }
}
