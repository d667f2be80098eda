/** Laws relating the claim cascades to each other: a move is a clear followed
    by a fresh placement, moves and placements undo, and a move keeps the
    order of everyone else. */
module ClaimRankingLaws {
  import opened Models
  import opened ClaimRanking

  // ------------------------------------------------------ rank arithmetic

  /** Clearing a ranked target and placing it afresh at m moves every other
      rank exactly as a direct move to m does. */
  lemma CascadeMoveIsClearThenPlace(o: int, m: int, x: int)
    requires 1 <= o <= MaxRank && 1 <= m <= MaxRank && 1 <= x <= MaxRank && x != o
    ensures Cascade(Ranked(o), Unranked, x).Ranked?
    ensures Cascade(Unranked, Ranked(m), Cascade(Ranked(o), Unranked, x).n) == Cascade(Ranked(o), Ranked(m), x)
  {
  }

  /** A fresh placement at m followed by clearing m restores every rank below MaxRank. */
  lemma CascadePlaceThenClear(m: int, x: int)
    requires 1 <= m <= MaxRank && 1 <= x < MaxRank
    ensures Cascade(Unranked, Ranked(m), x).Ranked?
    ensures Cascade(Ranked(m), Unranked, Cascade(Unranked, Ranked(m), x).n) == Ranked(x)
  {
  }

  /** Moving from a to b and back from b to a restores every other rank. */
  lemma CascadeMoveBack(a: int, b: int, x: int)
    requires 1 <= a <= MaxRank && 1 <= b <= MaxRank && 1 <= x <= MaxRank && x != a
    ensures Cascade(Ranked(a), Ranked(b), x).Ranked?
    ensures Cascade(Ranked(b), Ranked(a), Cascade(Ranked(a), Ranked(b), x).n) == Ranked(x)
  {
  }

  // ------------------------------------------------------------ table laws

  /** Moving an already ranked claim to n gives exactly the table obtained by
      unranking it (closing its gap) and then placing it afresh at n. */
  lemma MoveIsUnrankThenPlace(claims: ClaimTable, t: nat, n: int)
    requires ClaimRanksWell(claims)
    requires t in claims && claims[t].status == Approved && claims[t].rank.Ranked?
    requires 1 <= n <= MaxRank
    ensures Place(Unrank(claims, t), t, n) == Place(claims, t, n)
  {
    var direct := Place(claims, t, n);
    var composed := Place(Unrank(claims, t), t, n);
    forall id | id in claims
      ensures composed[id] == direct[id]
    {
      if id != t && InPopulation(claims[id], claims[t].levelId) && claims[id].rank.Ranked? {
        assert InBounds(claims[id].rank) && claims[id].points == Points(claims[id].rank);
        assert claims[id].rank != claims[t].rank;
      }
      MoveIsUnrankThenPlaceAt(claims, t, n, id);
    }
    TablesEqual(composed, direct);
  }

  /** Two claim tables with the same keys and the same entries are equal. */
  lemma TablesEqual(a: ClaimTable, b: ClaimTable)
    requires a.Keys == b.Keys
    requires forall id | id in a :: a[id] == b[id]
    ensures a == b
  {
  }

  /** The move law for one claim of the table. */
  lemma MoveIsUnrankThenPlaceAt(claims: ClaimTable, t: nat, n: int, id: nat)
    requires t in claims && InBounds(claims[t].rank) && 1 <= n <= MaxRank
    requires id in claims
    requires id != t && InPopulation(claims[id], claims[t].levelId) && claims[id].rank.Ranked? ==>
      && InBounds(claims[id].rank) && claims[id].points == Points(claims[id].rank)
      && claims[id].rank != claims[t].rank
    ensures Place(Unrank(claims, t), t, n)[id] == Place(claims, t, n)[id]
  {
    if id != t && InPopulation(claims[id], claims[t].levelId) && claims[id].rank.Ranked? {
      var mid := Unrank(claims, t);
      UnrankFollowsCascade(claims, t, id);
      CascadeMoveIsClearThenPlace(claims[t].rank.n, n, claims[id].rank.n);
      PlaceFollowsCascade(mid, t, n, id);
      PlaceFollowsCascade(claims, t, n, id);
    }
  }

  /** A first-time placement at n followed by unranking the claim again gives
      back the original table, provided nobody was pushed off rank MaxRank. */
  lemma PlaceThenUnrankRoundTrip(claims: ClaimTable, t: nat, n: int)
    requires ClaimRanksWell(claims)
    requires t in claims && claims[t].status == Approved && claims[t].rank.Unranked?
    requires 1 <= n <= MaxRank
    requires forall id | id in claims && InPopulation(claims[id], claims[t].levelId) ::
      claims[id].rank != Ranked(MaxRank)
    ensures Unrank(Place(claims, t, n), t) == claims
  {
    var back := Unrank(Place(claims, t, n), t);
    forall id | id in claims
      ensures back[id] == claims[id]
    {
      if id != t && InPopulation(claims[id], claims[t].levelId) && claims[id].rank.Ranked? {
        assert InBounds(claims[id].rank) && claims[id].points == Points(claims[id].rank);
      }
      PlaceThenUnrankAt(claims, t, n, id);
    }
    TablesEqual(back, claims);
  }

  /** The round trip for one claim of the table. */
  lemma PlaceThenUnrankAt(claims: ClaimTable, t: nat, n: int, id: nat)
    requires t in claims && claims[t].rank.Unranked? && claims[t].points == 0 && 1 <= n <= MaxRank
    requires id in claims
    requires id != t && InPopulation(claims[id], claims[t].levelId) && claims[id].rank.Ranked? ==>
      && InBounds(claims[id].rank) && claims[id].points == Points(claims[id].rank)
      && claims[id].rank != Ranked(MaxRank)
    ensures Unrank(Place(claims, t, n), t)[id] == claims[id]
  {
    if id != t && InPopulation(claims[id], claims[t].levelId) && claims[id].rank.Ranked? {
      var mid := Place(claims, t, n);
      PlaceFollowsCascade(claims, t, n, id);
      CascadePlaceThenClear(n, claims[id].rank.n);
      CascadeFacts(Unranked, Ranked(n), claims[id].rank.n, claims[id].rank.n);
      UnrankFollowsCascade(mid, t, id);
    }
  }

  /** The round trip fails exactly at the bottom of the list: a first-time
      placement pushes the member at rank MaxRank off the list for good. */
  lemma PlaceEvictsLast(claims: ClaimTable, t: nat, n: int, last: nat)
    requires ClaimRanksWell(claims)
    requires t in claims && claims[t].status == Approved && claims[t].rank.Unranked?
    requires 1 <= n <= MaxRank
    requires last in claims && last != t && InPopulation(claims[last], claims[t].levelId)
    requires claims[last].rank == Ranked(MaxRank)
    ensures Place(claims, t, n)[last].rank == Unranked && Place(claims, t, n)[last].points == 0
    ensures Unrank(Place(claims, t, n), t)[last].rank == Unranked
  {
    assert claims[last].points == Points(claims[last].rank);
    PlaceFollowsCascade(claims, t, n, last);
    var mid := Place(claims, t, n);
    assert mid[last].rank == Unranked;
    assert Unrank(mid, t)[last] == mid[last];
  }

  /** Moving a claim from a to b and then back to a gives back the original table. */
  lemma MoveRoundTrip(claims: ClaimTable, t: nat, b: int)
    requires ClaimRanksWell(claims)
    requires t in claims && claims[t].status == Approved && claims[t].rank.Ranked?
    requires 1 <= b <= MaxRank
    ensures Place(Place(claims, t, b), t, claims[t].rank.n) == claims
  {
    var back := Place(Place(claims, t, b), t, claims[t].rank.n);
    forall id | id in claims
      ensures back[id] == claims[id]
    {
      if id != t && InPopulation(claims[id], claims[t].levelId) && claims[id].rank.Ranked? {
        assert InBounds(claims[id].rank) && claims[id].points == Points(claims[id].rank);
        assert claims[id].rank != claims[t].rank;
      }
      MoveRoundTripAt(claims, t, b, id);
    }
    TablesEqual(back, claims);
  }

  /** The move round trip for one claim of the table. */
  lemma MoveRoundTripAt(claims: ClaimTable, t: nat, b: int, id: nat)
    requires t in claims && InBounds(claims[t].rank) && claims[t].points == Points(claims[t].rank)
    requires 1 <= b <= MaxRank
    requires id in claims
    requires id != t && InPopulation(claims[id], claims[t].levelId) && claims[id].rank.Ranked? ==>
      && InBounds(claims[id].rank) && claims[id].points == Points(claims[id].rank)
      && claims[id].rank != claims[t].rank
    ensures Place(Place(claims, t, b), t, claims[t].rank.n)[id] == claims[id]
  {
    if id != t && InPopulation(claims[id], claims[t].levelId) && claims[id].rank.Ranked? {
      var a := claims[t].rank.n;
      var x := claims[id].rank.n;
      var mid := Place(claims, t, b);
      PlaceFollowsCascade(claims, t, b, id);
      CascadeMoveBack(a, b, x);
      CascadeFacts(Ranked(a), Ranked(b), x, x);
      PlaceFollowsCascade(mid, t, a, id);
    }
  }

  /** Assigning a claim the rank it already holds changes nothing at all. */
  lemma SameRankIsNoOp(claims: ClaimTable, t: nat)
    requires ClaimRanksWell(claims)
    requires t in claims && claims[t].status == Approved && claims[t].rank.Ranked?
    ensures Place(claims, t, claims[t].rank.n) == claims
  {
    var n := claims[t].rank.n;
    forall id | id in claims
      ensures Place(claims, t, n)[id] == claims[id]
    {
    }
  }

  /** A cascade never reorders the rest of the population: among the other
      members that are ranked before and after, the order is unchanged. */
  lemma AssignKeepsOrder(claims: ClaimTable, t: nat, arg: RankArg, a: nat, b: nat)
    requires ClaimRanksWell(claims)
    requires t in claims && AssignRankToClaim(claims, t, arg).Ok?
    requires a in claims && b in claims && a != t && b != t
    requires InPopulation(claims[a], claims[t].levelId) && InPopulation(claims[b], claims[t].levelId)
    requires claims[a].rank.Ranked? && claims[b].rank.Ranked?
    ensures var r := AssignRankToClaim(claims, t, arg).value;
      r[a].rank.Ranked? && r[b].rank.Ranked? ==>
      (r[a].rank.n < r[b].rank.n <==> claims[a].rank.n < claims[b].rank.n)
  {
    AssignFollowsCascade(claims, t, arg, a);
    AssignFollowsCascade(claims, t, arg, b);
    assert claims[t].status == Approved;
    CascadeFacts(claims[t].rank, Requested(arg), claims[a].rank.n, claims[b].rank.n);
  }
}
