/**
 Split and range-move plans, and the catalogs each of them goes through:
 transition, cutover, rollback.
 */
module Planner {
  import opened Wrappers
  import opened Ring
  import opened Tokens
  import opened Catalogs

  const MAX_SHARD_ID: int := 0x1_0000_0000

  datatype Operation = SplitOp | RangeMoveOp | MoveOp | DrainOp | DecommissionOp | OtherOp(name: string)

  datatype Plan = Plan(
    operation: Operation, beforeEpoch: nat, before: Catalog, after: Catalog,
    requiresDataCopy: bool, requiresRestart: bool, applySupported: bool)

  // ---- catalog edits ---------------------------------------------------------

  function LeaderHintForShard(voters: seq<string>, id: nat): string {
    if voters == [] then "" else voters[id % |voters|]
  }

  /** Source enters `state`, a new Creating shard lists the pending range. */
  function Transition(cat: Catalog, src: nat, state: ShardState, rng: TokenRange, voters: seq<string>): Catalog
    requires src < |cat.shards|
  {
    var epoch := cat.epoch + 1;
    var id := |cat.shards|;
    cat.(epoch := epoch,
         shards := cat.shards[src := cat.shards[src].(state := state, epoch := epoch)]
                   + [Shard(id, [rng], Creating, epoch, voters, [], LeaderHintForShard(voters, id))])
  }

  /** Cutover: the source keeps `kept` (and retires when that is nothing), the target serves. */
  function Cutover(cat: Catalog, src: nat, dst: nat, kept: seq<TokenRange>): Catalog
    requires src < |cat.shards| && dst < |cat.shards|
  {
    var epoch := cat.epoch + 1;
    var s := cat.shards[src].(ranges := kept, state := if kept == [] then Decommissioned else Active, epoch := epoch);
    var shards := cat.shards[src := s];
    cat.(epoch := epoch, shards := shards[dst := shards[dst].(state := Active, epoch := epoch)])
  }

  /** Rollback of a split: the parent serves as before, the child retires with no range. */
  function RolledBack(cat: Catalog, parent: nat, child: nat): Catalog
    requires parent < |cat.shards| && child < |cat.shards|
  {
    var epoch := cat.epoch + 1;
    var shards := cat.shards[parent := cat.shards[parent].(state := Active, epoch := epoch)];
    cat.(epoch := epoch, shards := shards[child := shards[child].(state := Decommissioned, ranges := [], epoch := epoch)])
  }

  /** `kept` is what `SubtractTokenRanges` leaves of the source's ranges. */
  ghost predicate Keeps(ranges: seq<TokenRange>, rng: TokenRange, kept: seq<TokenRange>) {
    && (forall t: Token :: rng.Contains(t) ==> Owners(ranges, t) > 0)
    && (forall t: Token :: Owners(kept, t) == if rng.Contains(t) then 0 else Owners(ranges, t))
  }

  /** The two sides of a split are such a subtraction. */
  lemma SplitKeeps(r: TokenRange, token: Token)
    requires TokenStrictlyInside(r, token)
    ensures Keeps([r], SplitRange(r, token).1, [SplitRange(r, token).0])
  {
    var (left, right) := SplitRange(r, token);
    forall t: Token
      ensures Owners([r], t) == if r.Contains(t) then 1 else 0
      ensures Owners([left], t) == if left.Contains(t) then 1 else 0
    {
      assert [r][..0] == [] && [left][..0] == [];
    }
  }

  // ---- what an edit has to do, whatever computes it ------------------------------

  /** One epoch on, same nodes, and no existing shard but `i` and `j` is different. */
  ghost predicate OthersAlone(cat: Catalog, after: Catalog, i: nat, j: nat) {
    && after.version == cat.version && after.strategy == cat.strategy && after.nodes == cat.nodes
    && after.epoch == cat.epoch + 1 && |after.shards| >= |cat.shards|
    && forall k :: 0 <= k < |cat.shards| && k != i && k != j ==> after.shards[k] == cat.shards[k]
  }

  /** The shard `sh` at a later epoch, with the members it had. */
  ghost predicate Restated(sh: Shard, sh': Shard, epoch: nat) {
    && sh'.id == sh.id && sh'.epoch == epoch
    && sh'.voters == sh.voters && sh'.nonVoters == sh.nonVoters && sh'.leaderHint == sh.leaderHint
  }

  /** Both catalogs are in service and route every token alike. */
  ghost predicate RoutesAlike(cat: Catalog, after: Catalog) {
    InService(cat) && InService(after) && forall t: Token :: Owner(after, t) == Owner(cat, t)
  }

  /** The source is marked, still serving all it served; a new shard with these voters waits for the range. */
  ghost predicate Announced(cat: Catalog, after: Catalog, src: nat, state: ShardState, rng: TokenRange, voters: seq<string>) {
    && RoutesAlike(cat, after) && src < |cat.shards| && |after.shards| == |cat.shards| + 1
    && OthersAlone(cat, after, src, src)
    && var source, added := after.shards[src], after.shards[|cat.shards|];
       && Restated(cat.shards[src], source, after.epoch)
       && source.state == state && source.ranges == cat.shards[src].ranges
       && added.id == |cat.shards| && added.state.Creating? && added.ranges == [rng] && added.epoch == after.epoch
       && added.voters == voters && added.nonVoters == []
       && (if voters == [] then added.leaderHint == "" else added.leaderHint == voters[added.id % |voters|])
  }

  /** Exactly the tokens of `rng` go from `src` to `dst`; a source left with nothing retires. */
  ghost predicate HandedOver(cat: Catalog, after: Catalog, src: nat, dst: nat, rng: TokenRange) {
    && InService(cat) && InService(after) && src < |cat.shards| && dst < |cat.shards| == |after.shards|
    && OthersAlone(cat, after, src, dst)
    && (forall t: Token :: Owner(after, t) == if rng.Contains(t) then dst else Owner(cat, t))
    && (forall t: Token :: rng.Contains(t) ==> Owner(cat, t) == src)
    && Restated(cat.shards[dst], after.shards[dst], after.epoch)
    && after.shards[dst].state.Active? && after.shards[dst].ranges == [rng]
    && LeftWith(cat, src, after.shards[src], after.epoch, rng)
  }

  /** What the source is after that. */
  ghost predicate LeftWith(cat: Catalog, src: nat, source: Shard, epoch: nat, rng: TokenRange)
    requires InService(cat) && src < |cat.shards|
  {
    && Restated(cat.shards[src], source, epoch)
    && (forall t: Token :: Owners(source.ranges, t) == if rng.Contains(t) then 0 else Owners(cat.shards[src].ranges, t))
    && (if source.ranges == [] then source.state.Decommissioned? else source.state.Active?)
    && (source.ranges == [] <==> forall t: Token :: Owner(cat, t) == src ==> rng.Contains(t))
  }

  /** The parent serves its old ranges again, and the child is retired with none. */
  ghost predicate Undone(cat: Catalog, after: Catalog, parent: nat, child: nat) {
    && RoutesAlike(cat, after) && parent < |cat.shards| && child < |cat.shards| == |after.shards|
    && OthersAlone(cat, after, parent, child)
    && Restated(cat.shards[parent], after.shards[parent], after.epoch)
    && after.shards[parent].state.Active? && after.shards[parent].ranges == cat.shards[parent].ranges
    && Restated(cat.shards[child], after.shards[child], after.epoch)
    && after.shards[child].state.Decommissioned? && after.shards[child].ranges == []
  }

  // ---- routing is the same before and during a transition ----------------------

  lemma TransitionOwners(cat: Catalog, src: nat, state: ShardState, rng: TokenRange, voters: seq<string>, t: Token)
    requires src < |cat.shards| && cat.shards[src].state.Routable() && state.Routable()
    ensures ShardOwners(Transition(cat, src, state, rng, voters).shards, t) == ShardOwners(cat.shards, t)
  {
    var after := Transition(cat, src, state, rng, voters);
    var n := |cat.shards|;
    ShardOwnersUpdate(cat.shards, src, after.shards[src], t);
    assert after.shards[..n] == cat.shards[src := after.shards[src]];
  }

  /** From a valid catalog the transition catalog is valid and routes every token as before. */
  lemma TransitionInService(cat: Catalog, src: nat, state: ShardState, rng: TokenRange, voters: seq<string>)
    requires InService(cat) && src < |cat.shards|
    requires cat.shards[src].state.Routable() && state.Routable()
    ensures var after := Transition(cat, src, state, rng, voters);
            InService(after) && forall t: Token :: Owner(after, t) == Owner(cat, t)
  {
    var after := Transition(cat, src, state, rng, voters);
    forall t: Token ensures ShardOwners(after.shards, t) == 1 {
      TransitionOwners(cat, src, state, rng, voters, t);
    }
    InServiceParts(after);
    forall t: Token ensures Owner(after, t) == Owner(cat, t) {
      SameServing(cat, after, t);
    }
  }

  /** If the shard that owned a token still serves it, it still owns it. */
  lemma SameServing(cat: Catalog, after: Catalog, t: Token)
    requires InService(cat) && InService(after) && |after.shards| >= |cat.shards|
    requires Serves(after.shards[Owner(cat, t)], t)
    ensures Owner(after, t) == Owner(cat, t)
  {
    OwnerUnique(after.shards, t, Owner(cat, t));
  }

  // ---- cutover moves exactly the pending range ----------------------------------

  ghost predicate CutoverReady(cat: Catalog, src: nat, dst: nat, rng: TokenRange, kept: seq<TokenRange>) {
    && InService(cat) && src < |cat.shards| && dst < |cat.shards|
    && cat.shards[src].state.Routable()
    && cat.shards[dst].state.Creating? && cat.shards[dst].ranges == [rng]
    && Keeps(cat.shards[src].ranges, rng, kept)
  }

  lemma CutoverCount(cat: Catalog, src: nat, dst: nat, rng: TokenRange, kept: seq<TokenRange>, t: Token)
    requires CutoverReady(cat, src, dst, rng, kept)
    ensures ShardOwners(Cutover(cat, src, dst, kept).shards, t) == 1
  {
    var after := Cutover(cat, src, dst, kept).shards;
    var mid := cat.shards[src := after[src]];
    ShardOwnersUpdate(cat.shards, src, after[src], t);
    ShardOwnersUpdate(mid, dst, after[dst], t);
    assert [rng][..0] == [];
    assert Owners([rng], t) == if rng.Contains(t) then 1 else 0;
    OwnersAddUp(cat.shards, src, src, t);
    assert OwnersIn(after[src], t) == Owners(kept, t);
  }

  lemma CutoverInService(cat: Catalog, src: nat, dst: nat, rng: TokenRange, kept: seq<TokenRange>)
    requires CutoverReady(cat, src, dst, rng, kept)
    ensures var after := Cutover(cat, src, dst, kept);
            && InService(after)
            && forall t: Token :: Owner(after, t) == if rng.Contains(t) then dst else Owner(cat, t)
    ensures forall t: Token :: rng.Contains(t) ==> Owner(cat, t) == src
  {
    var after := Cutover(cat, src, dst, kept);
    forall t: Token ensures ShardOwners(after.shards, t) == 1 {
      CutoverCount(cat, src, dst, rng, kept, t);
    }
    InServiceParts(after);
    forall t: Token
      ensures Owner(after, t) == if rng.Contains(t) then dst else Owner(cat, t)
      ensures rng.Contains(t) ==> Owner(cat, t) == src
    {
      CutoverOwner(cat, src, dst, rng, kept, t);
    }
  }

  lemma CutoverOwner(cat: Catalog, src: nat, dst: nat, rng: TokenRange, kept: seq<TokenRange>, t: Token)
    requires CutoverReady(cat, src, dst, rng, kept) && InService(Cutover(cat, src, dst, kept))
    ensures Owner(Cutover(cat, src, dst, kept), t) == if rng.Contains(t) then dst else Owner(cat, t)
    ensures rng.Contains(t) ==> Owner(cat, t) == src
  {
    var after := Cutover(cat, src, dst, kept);
    var o := Owner(cat, t);
    if rng.Contains(t) {
      ServesIffCounted(cat.shards[src], t);
      OwnerUnique(cat.shards, t, src);
      assert after.shards[dst].ranges[0].Contains(t);
      OwnerUnique(after.shards, t, dst);
    } else {
      if o == src {
        ServesIffCounted(cat.shards[src], t);
        assert Owners(kept, t) > 0;
        ServesIffCounted(after.shards[src], t);
      }
      assert o != dst;
      assert Serves(after.shards[o], t);
      SameServing(cat, after, t);
    }
  }

  lemma NothingLeft(cat: Catalog, src: nat, dst: nat, rng: TokenRange, kept: seq<TokenRange>)
    requires CutoverReady(cat, src, dst, rng, kept)
    ensures kept == [] <==> forall t: Token :: Owner(cat, t) == src ==> rng.Contains(t)
  {
    if kept != [] {
      var t := kept[0].start;
      RangeNonEmpty(kept[0]);
      OwnersAtLeast(kept, 0, 0, t);
      ServesIffCounted(cat.shards[src], t);
      OwnerUnique(cat.shards, t, src);
      assert Owner(cat, t) == src && !rng.Contains(t);
    } else {
      forall t: Token | Owner(cat, t) == src ensures rng.Contains(t) {
        ServesIffCounted(cat.shards[src], t);
        assert Owners(kept, t) == 0;
      }
    }
  }

  /** The cutover does what it has to. */
  lemma CutoverHandsOver(cat: Catalog, src: nat, dst: nat, rng: TokenRange, kept: seq<TokenRange>)
    requires CutoverReady(cat, src, dst, rng, kept)
    ensures HandedOver(cat, Cutover(cat, src, dst, kept), src, dst, rng)
  {
    CutoverInService(cat, src, dst, rng, kept);
    NothingLeft(cat, src, dst, rng, kept);
    assert LeftWith(cat, src, Cutover(cat, src, dst, kept).shards[src], cat.epoch + 1, rng);
  }

  /**
   Cutover keeps every token's owning shard id from decreasing exactly when the
   target's id is above the source's.
   */
  lemma CutoverRaisesOwners(cat: Catalog, src: nat, dst: nat, rng: TokenRange, kept: seq<TokenRange>)
    requires CutoverReady(cat, src, dst, rng, kept)
    ensures InService(Cutover(cat, src, dst, kept))
    ensures (forall t: Token :: Owner(cat, t) <= Owner(Cutover(cat, src, dst, kept), t)) <==> src < dst
  {
    CutoverInService(cat, src, dst, rng, kept);
    RangeNonEmpty(rng);
    assert Owner(cat, rng.start) == src && Owner(Cutover(cat, src, dst, kept), rng.start) == dst;
  }

  lemma RollbackInService(cat: Catalog, parent: nat, child: nat)
    requires InService(cat) && parent < |cat.shards| && child < |cat.shards|
    requires cat.shards[parent].state.Routable() && cat.shards[child].state.Creating?
    ensures var after := RolledBack(cat, parent, child);
            InService(after) && forall t: Token :: Owner(after, t) == Owner(cat, t)
  {
    var after := RolledBack(cat, parent, child);
    var mid := cat.shards[parent := after.shards[parent]];
    forall t: Token ensures ShardOwners(after.shards, t) == 1 {
      ShardOwnersUpdate(cat.shards, parent, after.shards[parent], t);
      ShardOwnersUpdate(mid, child, after.shards[child], t);
    }
    InServiceParts(after);
    forall t: Token ensures Owner(after, t) == Owner(cat, t) {
      assert Owner(cat, t) != child;
      SameServing(cat, after, t);
    }
  }

  /** The rollback does what it has to. */
  lemma RollbackUndoes(cat: Catalog, parent: nat, child: nat)
    requires InService(cat) && parent < |cat.shards| && child < |cat.shards|
    requires cat.shards[parent].state.Routable() && cat.shards[child].state.Creating?
    ensures Undone(cat, RolledBack(cat, parent, child), parent, child)
  {
    RollbackInService(cat, parent, child);
  }

  // ---- plans -------------------------------------------------------------------

  ghost predicate SplitPossible(cat: Catalog, shardID: nat, token: Option<Token>, newShardID: Option<nat>) {
    && cat.strategy.TokenRangeV1?
    && shardID < |cat.shards|
    && cat.shards[shardID].state.Routable()
    && |cat.shards[shardID].ranges| == 1
    && |cat.shards| < MAX_SHARD_ID
    && (newShardID.Some? ==> newShardID.value == |cat.shards|)
    && (match token
        case None => Width(cat.shards[shardID].ranges[0]) >= 2
        case Some(t) => TokenStrictlyInside(cat.shards[shardID].ranges[0], t))
  }

  /** The default id of a new shard: the shard count as a 32-bit number, refused if it wrapped. */
  function NextShardId(count: nat, requested: Option<nat>): (r: Option<nat>)
    requires requested.Some? ==> requested.value < MAX_SHARD_ID
    ensures r.Some? <==> count < MAX_SHARD_ID && (requested.Some? ==> requested.value == count)
    ensures r.Some? ==> r.value == count
  {
    var id := if requested.Some? then requested.value else count % MAX_SHARD_ID;
    if id != count then None else Some(id)
  }

  /**
   `planSplit` after `BuildPlacementPlan` has validated the catalog. It refuses
   exactly the requests that cannot be split; its own validation of the
   transition catalog never fails.
   */
  method PlanSplit(cat: Catalog, shardID: nat, token: Option<Token>, newShardID: Option<nat>, voters: seq<string>)
      returns (r: Result<Plan>)
    requires ValidPlacement(cat) && InIdOrder(cat.shards)
    requires newShardID.Some? ==> newShardID.value < MAX_SHARD_ID
    ensures r.Ok? <==> SplitPossible(cat, shardID, token, newShardID)
    ensures r.Ok? ==>
              var rng := cat.shards[shardID].ranges[0];
              var split := if token.Some? then token.value else MidpointToken(rng);
              && TokenStrictlyInside(rng, split)
              && r.value == Plan(SplitOp, cat.epoch, cat,
                                 Transition(cat, shardID, Splitting, TokenRange(split, rng.end), voters),
                                 true, false, true)
              && Announced(cat, r.value.after, shardID, Splitting, TokenRange(split, rng.end), voters)
              && (token.None? ==> Halves(rng, split))
  {
    if !cat.strategy.TokenRangeV1? {
      return Err("split requires token-range placement");
    }
    if shardID >= |cat.shards| {
      return Err("shard does not exist");
    }
    var shard := cat.shards[shardID];
    if !shard.state.Routable() || |shard.ranges| != 1 {
      return Err("shard cannot be split");
    }
    var id := NextShardId(|cat.shards|, newShardID);
    if id.None? {
      return Err("new shard id must keep placement ids contiguous");
    }
    var split := if token.Some? then token.value else MidpointToken(shard.ranges[0]);
    if !TokenStrictlyInside(shard.ranges[0], split) {
      return Err("split token outside the shard range");
    }
    var childRange := SplitRange(shard.ranges[0], split).1;
    var after := Transition(cat, shardID, Splitting, childRange, voters);
    TransitionInService(cat, shardID, Splitting, childRange, voters);
    var ok := ValidatePlacement(after);
    if !ok {
      return Err("invalid placement");
    }
    return Ok(Plan(SplitOp, cat.epoch, cat, after, true, false, true));
  }

  ghost predicate RangeMovePossible(
    cat: Catalog, shardID: nat, rng: TokenRange, targetShardID: Option<nat>, voters: seq<string>)
  {
    && cat.strategy.TokenRangeV1?
    && shardID < |cat.shards|
    && cat.shards[shardID].state.Active?
    && (forall t: Token :: rng.Contains(t) ==> Owners(cat.shards[shardID].ranges, t) > 0)
    && |cat.shards| < MAX_SHARD_ID
    && (targetShardID.Some? ==> targetShardID.value == |cat.shards|)
    && voters != []
  }

  /**
   `planRangeMove`. The check that the subtraction changed something never
   rejects, and neither does the validation of the transition catalog.
   */
  method PlanRangeMove(cat: Catalog, shardID: nat, rng: TokenRange, targetShardID: Option<nat>, voters: seq<string>)
      returns (r: Result<Plan>)
    requires ValidPlacement(cat) && InIdOrder(cat.shards)
    requires targetShardID.Some? ==> targetShardID.value < MAX_SHARD_ID
    ensures r.Ok? <==> RangeMovePossible(cat, shardID, rng, targetShardID, voters)
    ensures r.Ok? ==>
              && r.value == Plan(RangeMoveOp, cat.epoch, cat,
                                 Transition(cat, shardID, Moving, rng, voters), true, false, true)
              && Announced(cat, r.value.after, shardID, Moving, rng, voters)
  {
    if !cat.strategy.TokenRangeV1? {
      return Err("range move requires token-range placement");
    }
    if shardID >= |cat.shards| {
      return Err("shard does not exist");
    }
    var source := cat.shards[shardID];
    if !source.state.Active? {
      return Err("source shard must be active");
    }
    var kept := SubtractTokenRanges(source.ranges, rng);
    if kept.None? {
      return Err("range is not fully owned");
    }
    RangeNonEmpty(rng);
    assert Owners(kept.value, rng.start) == 0 < Owners(source.ranges, rng.start);
    if kept.value == source.ranges {
      return Err("range is not owned by source shard");
    }
    var id := NextShardId(|cat.shards|, targetShardID);
    if id.None? {
      return Err("target shard id must keep placement ids contiguous");
    }
    if voters == [] {
      return Err("target shard needs at least one voter");
    }
    var after := Transition(cat, shardID, Moving, rng, voters);
    TransitionInService(cat, shardID, Moving, rng, voters);
    var ok := ValidatePlacement(after);
    if !ok {
      return Err("invalid placement");
    }
    return Ok(Plan(RangeMoveOp, cat.epoch, cat, after, true, false, true));
  }

  // ---- plans that change membership only ------------------------------------------------------

  /**
   Same shards and ranges; each state is kept or set to Active, which is what the
   planner does to the shards it touches.
   */
  ghost predicate MembershipEdit(cat: Catalog, after: Catalog) {
    && after.version == cat.version && after.strategy == cat.strategy
    && after.epoch > cat.epoch
    && |after.shards| == |cat.shards|
    && forall i :: 0 <= i < |cat.shards| ==>
         && after.shards[i].id == cat.shards[i].id
         && after.shards[i].ranges == cat.shards[i].ranges
         && (after.shards[i].state == cat.shards[i].state || after.shards[i].state.Active?)
  }

  /** Making one more shard routable raises the count of every token it lists. */
  lemma {:induction false} CountsDominate(a: seq<Shard>, b: seq<Shard>, i: nat, t: Token)
    requires |a| == |b| && i < |a|
    requires forall k :: 0 <= k < |a| ==> OwnersIn(a[k], t) <= OwnersIn(b[k], t)
    ensures ShardOwners(a, t) + OwnersIn(b[i], t) <= ShardOwners(b, t) + OwnersIn(a[i], t)
    decreases |a|
  {
    var n := |a| - 1;
    if i < n {
      CountsDominate(a[..n], b[..n], i, t);
    } else if n > 0 {
      CountsDominate(a[..n], b[..n], 0, t);
    }
  }

  /** A membership edit that validates makes no shard routable that was not. */
  lemma NoNewRoutableShard(cat: Catalog, after: Catalog, i: nat)
    requires InService(cat) && MembershipEdit(cat, after) && ValidPlacement(after)
    requires i < |cat.shards|
    ensures after.shards[i].state.Routable() == cat.shards[i].state.Routable()
  {
    if after.shards[i].state.Routable() && !cat.shards[i].state.Routable() {
      var t := after.shards[i].ranges[0].start;
      OwnersAtLeast(after.shards[i].ranges, 0, 0, t);
      CountsDominate(cat.shards, after.shards, i, t);
    }
  }

  /** Membership plans leave routing alone, and a shard being created stays so. */
  lemma MembershipKeepsRouting(cat: Catalog, after: Catalog)
    requires InService(cat) && MembershipEdit(cat, after) && ValidPlacement(after)
    ensures InService(after)
    ensures forall t: Token :: Owner(after, t) == Owner(cat, t)
    ensures forall i :: 0 <= i < |cat.shards| ==> (after.shards[i].state.Creating? <==> cat.shards[i].state.Creating?)
  {
    forall i | 0 <= i < |cat.shards|
      ensures after.shards[i].state.Routable() == cat.shards[i].state.Routable()
    {
      NoNewRoutableShard(cat, after, i);
    }
    forall t: Token ensures Owner(after, t) == Owner(cat, t) {
      assert Serves(after.shards[Owner(cat, t)], t);
      SameServing(cat, after, t);
    }
  }
}
