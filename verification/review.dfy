/** The admin review of a claim (approve or reject) and the First Victor flag,
    of which each level has at most one holder. */
module Review {
  import opened Results
  import opened Models
  import opened ClaimRanking
  import opened ClaimQueries

  // --------------------------------------------------------- first victor

  /** The claims of `level` that carry the First Victor flag. */
  function Victors(claims: ClaimTable, level: nat): set<nat> {
    set id | id in claims && claims[id].levelId == level && claims[id].firstVictor
  }

  /** No level has two flagged claims. */
  predicate AtMostOneVictor(claims: ClaimTable) {
    forall a, b | a in claims && b in claims && claims[a].firstVictor && claims[b].firstVictor
      && claims[a].levelId == claims[b].levelId :: a == b
  }

  /** `t` differs from `claims` at most in the First Victor flags. */
  predicate OnlyFlagsDiffer(claims: ClaimTable, t: ClaimTable) {
    && t.Keys == claims.Keys
    && forall id | id in claims :: t[id].(firstVictor := claims[id].firstVictor) == claims[id]
  }

  /** Flag `target`: every other flagged claim of its level loses the flag,
      then the target gets it. */
  function MarkFirstVictor(claims: ClaimTable, target: nat): (r: ClaimTable)
    requires target in claims
    ensures OnlyFlagsDiffer(claims, r)
    ensures Victors(r, claims[target].levelId) == {target}
    ensures forall id | id in claims && claims[id].levelId != claims[target].levelId :: r[id] == claims[id]
  {
    var level := claims[target].levelId;
    var r := map id | id in claims ::
      if id == target then claims[id].(firstVictor := true)
      else if claims[id].levelId == level && claims[id].firstVictor then claims[id].(firstVictor := false)
      else claims[id];
    assert target in Victors(r, level);
    r
  }

  /** Remove the flag from `target` alone. */
  function UnmarkFirstVictor(claims: ClaimTable, target: nat): (r: ClaimTable)
    requires target in claims
    ensures OnlyFlagsDiffer(claims, r)
    ensures !r[target].firstVictor
    ensures Victors(r, claims[target].levelId) == Victors(claims, claims[target].levelId) - {target}
    ensures forall id | id in claims && id != target :: r[id] == claims[id]
  {
    claims[target := claims[target].(firstVictor := false)]
  }

  /** `toggle_first_victor`: only an approved claim can be flagged or
      unflagged; flagging makes it the level's only First Victor. */
  function ToggleFirstVictor(claims: ClaimTable, target: nat, flag: bool): (r: Result<ClaimTable>)
    requires target in claims
    ensures r.Err? <==> claims[target].status != Approved
    ensures r.Err? ==> r.failure == NotApproved
    ensures r.Ok? ==> OnlyFlagsDiffer(claims, r.value) && r.value[target].firstVictor == flag
    ensures r.Ok? && flag ==> Victors(r.value, claims[target].levelId) == {target}
    ensures r.Ok? && !flag ==> forall id | id in claims && id != target :: r.value[id] == claims[id]
    ensures r.Ok? ==> forall id | id in claims && claims[id].levelId != claims[target].levelId ::
      r.value[id] == claims[id]
  {
    if claims[target].status != Approved then Err(NotApproved)
    else if flag then Ok(MarkFirstVictor(claims, target))
    else Ok(UnmarkFirstVictor(claims, target))
  }

  /** Changing flags alone never disturbs ranks or points. */
  lemma FlagsKeepRanksWell(claims: ClaimTable, t: ClaimTable)
    requires ClaimRanksWell(claims) && OnlyFlagsDiffer(claims, t)
    ensures ClaimRanksWell(t)
  {
    forall id | id in t
      ensures t[id].status == claims[id].status && t[id].rank == claims[id].rank
        && t[id].points == claims[id].points && t[id].levelId == claims[id].levelId
    {
      assert t[id].(firstVictor := claims[id].firstVictor) == claims[id];
    }
  }

  /** Flagging and unflagging keep at most one First Victor per level. */
  lemma ToggleKeepsAtMostOneVictor(claims: ClaimTable, target: nat, flag: bool)
    requires AtMostOneVictor(claims)
    requires target in claims && ToggleFirstVictor(claims, target, flag).Ok?
    ensures AtMostOneVictor(ToggleFirstVictor(claims, target, flag).value)
  {
    var r := ToggleFirstVictor(claims, target, flag).value;
    var level := claims[target].levelId;
    forall a, b | a in r && b in r && r[a].firstVictor && r[b].firstVictor && r[a].levelId == r[b].levelId
      ensures a == b
    {
      assert r[a].(firstVictor := claims[a].firstVictor) == claims[a];
      assert r[b].(firstVictor := claims[b].firstVictor) == claims[b];
      if flag && r[a].levelId == level {
        assert a in Victors(r, level) && b in Victors(r, level);
      }
    }
  }

  /** Flagging and unflagging keep the claim table well ranked and at most
      one approved claim per user and level: only flags change. */
  lemma ToggleKeepsClaimInvariants(claims: ClaimTable, target: nat, flag: bool)
    requires target in claims && ToggleFirstVictor(claims, target, flag).Ok?
    ensures ClaimRanksWell(claims) ==> ClaimRanksWell(ToggleFirstVictor(claims, target, flag).value)
    ensures OneApprovedPerLevel(claims) ==> OneApprovedPerLevel(ToggleFirstVictor(claims, target, flag).value)
  {
    var r := ToggleFirstVictor(claims, target, flag).value;
    if ClaimRanksWell(claims) {
      FlagsKeepRanksWell(claims, r);
    }
    forall id | id in r
      ensures r[id].status == claims[id].status && r[id].userId == claims[id].userId
        && r[id].levelId == claims[id].levelId
    {
      assert r[id].(firstVictor := claims[id].firstVictor) == claims[id];
    }
  }

  // --------------------------------------------------------------- review

  /** Another claim of the same user for the same level is already approved. */
  predicate HasOtherApproved(claims: ClaimTable, target: nat)
    requires target in claims
  {
    exists id | id in claims :: id != target && claims[id].userId == claims[target].userId
      && claims[id].levelId == claims[target].levelId && claims[id].status == Approved
  }

  /** Each user has at most one approved claim per level. */
  predicate OneApprovedPerLevel(claims: ClaimTable) {
    forall a, b | a in claims && b in claims && claims[a].status == Approved && claims[b].status == Approved
      && claims[a].userId == claims[b].userId && claims[a].levelId == claims[b].levelId :: a == b
  }

  /** Approving in `review_claim`: refuse a second approved claim of the same
      user for the level; otherwise mark the claim approved, rank it (a
      refused rank discards the whole review), then set or clear its First
      Victor flag. */
  function Approve(claims: ClaimTable, target: nat, arg: RankArg, victor: bool): (r: Result<ClaimTable>)
    requires target in claims
    ensures HasOtherApproved(claims, target) ==> r == Err(AlreadyApproved)
    ensures !HasOtherApproved(claims, target) ==>
      (r.Ok? <==> arg.NoRank? || (arg.IntRank? && 1 <= arg.n <= MaxRank))
    ensures r.Err? && !HasOtherApproved(claims, target) ==> r.failure == InvalidRank
    ensures r.Ok? ==> r.value.Keys == claims.Keys
    ensures r.Ok? ==> r.value[target] == claims[target].(status := Approved, rank := Requested(arg),
                                                        points := Points(Requested(arg)), firstVictor := victor)
    ensures r.Ok? && victor ==> Victors(r.value, claims[target].levelId) == {target}
    ensures r.Ok? ==> forall id | id in claims && claims[id].levelId != claims[target].levelId ::
      r.value[id] == claims[id]
    ensures r.Ok? && !victor ==> forall id | id in claims && id != target ::
      r.value[id].firstVictor == claims[id].firstVictor
  {
    if HasOtherApproved(claims, target) then Err(AlreadyApproved)
    else
      var approved := claims[target := claims[target].(status := Approved)];
      match AssignRankToClaim(approved, target, arg)
      case Err(f) => Err(f)
      case Ok(ranked) =>
        assert forall id | id in ranked :: ranked[id].firstVictor == approved[id].firstVictor by {
          forall id | id in ranked ensures ranked[id].firstVictor == approved[id].firstVictor {
            AssignTouchesOnlyRanks(approved, target, arg, id);
          }
        }
        Ok(if victor then MarkFirstVictor(ranked, target) else UnmarkFirstVictor(ranked, target))
  }

  /** Rejecting in `review_claim`: the claim becomes rejected, unranked, with
      no points and no flag; no other claim moves, so the slot it held stays
      empty. */
  function Reject(claims: ClaimTable, target: nat): (r: ClaimTable)
    requires target in claims
    ensures r.Keys == claims.Keys
    ensures r[target].status == Rejected && r[target].rank == Unranked
    ensures r[target].points == 0 && !r[target].firstVictor
    ensures r[target].userId == claims[target].userId && r[target].levelId == claims[target].levelId
    ensures forall id | id in claims && id != target :: r[id] == claims[id]
  {
    claims[target := claims[target].(status := Rejected, firstVictor := false, rank := Unranked, points := 0)]
  }

  // ----------------------------------------------------------------- laws

  /** Marking a claim approved keeps a well-ranked table well ranked: a
      pending or rejected claim carries no rank and no points. */
  lemma SetApprovedKeepsRanksWell(claims: ClaimTable, target: nat)
    requires ClaimRanksWell(claims) && target in claims
    ensures ClaimRanksWell(claims[target := claims[target].(status := Approved)])
  {
  }

  /** Approving keeps the claim table well ranked. */
  lemma ApproveKeepsRanksWell(claims: ClaimTable, target: nat, arg: RankArg, victor: bool)
    requires ClaimRanksWell(claims)
    requires target in claims && Approve(claims, target, arg, victor).Ok?
    ensures ClaimRanksWell(Approve(claims, target, arg, victor).value)
  {
    var approved := claims[target := claims[target].(status := Approved)];
    SetApprovedKeepsRanksWell(claims, target);
    AssignKeepsRanksWell(approved, target, arg);
    var ranked := AssignRankToClaim(approved, target, arg).value;
    if victor {
      FlagsKeepRanksWell(ranked, MarkFirstVictor(ranked, target));
    } else {
      FlagsKeepRanksWell(ranked, UnmarkFirstVictor(ranked, target));
    }
  }

  /** Approving moves every other ranked member of the target's population
      as the reference cascade says, from the target's old rank to the
      requested one; apart from that only its flag may change. */
  lemma ApproveFollowsCascade(claims: ClaimTable, target: nat, arg: RankArg, victor: bool, id: nat)
    requires ClaimRanksWell(claims)
    requires target in claims && Approve(claims, target, arg, victor).Ok?
    requires id in claims && id != target
    requires InPopulation(claims[id], claims[target].levelId) && claims[id].rank.Ranked?
    ensures Storable(claims[target].rank) && Storable(Requested(arg))
    ensures var moved := Cascade(claims[target].rank, Requested(arg), claims[id].rank.n);
      var c := Approve(claims, target, arg, victor).value[id];
      c.(firstVictor := claims[id].firstVictor) == claims[id].(rank := moved, points := Points(moved))
  {
    var approved := claims[target := claims[target].(status := Approved)];
    SetApprovedKeepsRanksWell(claims, target);
    AssignFollowsCascade(approved, target, arg, id);
  }

  /** Every other claim of the level that is unranked or outside the
      population keeps its rank and points: approving changes at most its
      flag. */
  lemma ApproveLeavesOthersInPlace(claims: ClaimTable, target: nat, arg: RankArg, victor: bool, id: nat)
    requires target in claims && Approve(claims, target, arg, victor).Ok?
    requires id in claims && id != target
    requires !(InPopulation(claims[id], claims[target].levelId) && claims[id].rank.Ranked?)
    ensures var c := Approve(claims, target, arg, victor).value[id];
      c.(firstVictor := claims[id].firstVictor) == claims[id]
  {
    var approved := claims[target := claims[target].(status := Approved)];
    assert approved[id] == claims[id];
  }

  /** Approving changes the status of the target alone and never the owner
      or level of any claim. */
  lemma ApproveKeepsOwnership(claims: ClaimTable, target: nat, arg: RankArg, victor: bool, id: nat)
    requires target in claims && Approve(claims, target, arg, victor).Ok?
    requires id in claims
    ensures var c := Approve(claims, target, arg, victor).value[id];
      && c.userId == claims[id].userId && c.levelId == claims[id].levelId
      && c.status == (if id == target then Approved else claims[id].status)
  {
    var approved := claims[target := claims[target].(status := Approved)];
    AssignTouchesOnlyRanks(approved, target, arg, id);
  }

  /** Approving only ever clears the flag of another claim, never sets it. */
  lemma ApproveOnlyClearsOtherFlags(claims: ClaimTable, target: nat, arg: RankArg, victor: bool, id: nat)
    requires target in claims && Approve(claims, target, arg, victor).Ok?
    requires id in claims && id != target
    ensures Approve(claims, target, arg, victor).value[id].firstVictor ==> claims[id].firstVictor
  {
    var approved := claims[target := claims[target].(status := Approved)];
    AssignTouchesOnlyRanks(approved, target, arg, id);
  }

  /** Approving never gives a user two approved claims for one level. */
  lemma ApproveKeepsOneApprovedPerLevel(claims: ClaimTable, target: nat, arg: RankArg, victor: bool)
    requires OneApprovedPerLevel(claims)
    requires target in claims && Approve(claims, target, arg, victor).Ok?
    ensures OneApprovedPerLevel(Approve(claims, target, arg, victor).value)
  {
    var r := Approve(claims, target, arg, victor).value;
    forall a, b | a in r && b in r && r[a].status == Approved && r[b].status == Approved
      && r[a].userId == r[b].userId && r[a].levelId == r[b].levelId
      ensures a == b
    {
      ApproveKeepsOwnership(claims, target, arg, victor, a);
      ApproveKeepsOwnership(claims, target, arg, victor, b);
      if a != b && a == target {
        assert HasOtherApproved(claims, target);
      } else if a != b && b == target {
        assert HasOtherApproved(claims, target);
      }
    }
  }

  /** Approving keeps at most one First Victor per level. */
  lemma ApproveKeepsAtMostOneVictor(claims: ClaimTable, target: nat, arg: RankArg, victor: bool)
    requires AtMostOneVictor(claims)
    requires target in claims && Approve(claims, target, arg, victor).Ok?
    ensures AtMostOneVictor(Approve(claims, target, arg, victor).value)
  {
    var r := Approve(claims, target, arg, victor).value;
    var level := claims[target].levelId;
    forall a, b | a in r && b in r && r[a].firstVictor && r[b].firstVictor && r[a].levelId == r[b].levelId
      ensures a == b
    {
      ApproveKeepsOwnership(claims, target, arg, victor, a);
      ApproveKeepsOwnership(claims, target, arg, victor, b);
      if a == target || b == target {
        assert a in Victors(r, level) && b in Victors(r, level);
      } else {
        ApproveOnlyClearsOtherFlags(claims, target, arg, victor, a);
        ApproveOnlyClearsOtherFlags(claims, target, arg, victor, b);
      }
    }
  }

  /** Rejecting keeps the claim table well ranked, at most one approved claim
      per user and level, and at most one First Victor per level. */
  lemma RejectKeepsInvariants(claims: ClaimTable, target: nat)
    requires target in claims
    ensures ClaimRanksWell(claims) ==> ClaimRanksWell(Reject(claims, target))
    ensures OneApprovedPerLevel(claims) ==> OneApprovedPerLevel(Reject(claims, target))
    ensures AtMostOneVictor(claims) ==> AtMostOneVictor(Reject(claims, target))
  {
  }

  /** Rejecting a ranked approved claim frees exactly its rank in the level's
      distribution, while every other claim keeps its rank: the slot is left
      empty, where unranking the claim would close it. */
  lemma RejectFreesItsRank(claims: ClaimTable, target: nat)
    requires ClaimRanksWell(claims)
    requires target in claims && claims[target].status == Approved && InBounds(claims[target].rank)
    ensures var level := claims[target].levelId;
      OccupiedRanks(Reject(claims, target), level) == OccupiedRanks(claims, level) - {claims[target].rank.n}
  {
    var level := claims[target].levelId;
    var o := claims[target].rank.n;
    var after := Reject(claims, target);
    forall x | x in OccupiedRanks(claims, level) && x != o
      ensures x in OccupiedRanks(after, level)
    {
      var id :| id in claims && InPopulation(claims[id], level)
        && Truthy(claims[id].rank) && 1 <= claims[id].rank.n <= MaxRank && claims[id].rank.n == x;
      assert id != target;
      assert after[id] == claims[id];
    }
    forall x | x in OccupiedRanks(after, level)
      ensures x in OccupiedRanks(claims, level) && x != o
    {
      var id :| id in after && InPopulation(after[id], level)
        && Truthy(after[id].rank) && 1 <= after[id].rank.n <= MaxRank && after[id].rank.n == x;
      assert id != target;
    }
  }

  /** The contrast with the claim cascade: a member ranked below the rejected
      claim keeps its rank, while unranking the same claim moves it up. */
  lemma RejectDoesNotCloseGap(claims: ClaimTable, target: nat, id: nat)
    requires ClaimRanksWell(claims)
    requires target in claims && claims[target].status == Approved && InBounds(claims[target].rank)
    requires id in claims && id != target && InPopulation(claims[id], claims[target].levelId)
    requires claims[id].rank.Ranked? && claims[id].rank.n > claims[target].rank.n
    ensures Reject(claims, target)[id].rank == claims[id].rank
    ensures Unrank(claims, target)[id].rank == Ranked(claims[id].rank.n - 1)
  {
  }
}
