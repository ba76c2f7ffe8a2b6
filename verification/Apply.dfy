/**
 The gate in front of every placement change: which plans `ApplyPlacement`
 accepts, and that it accepts what the planner builds.
 */
module Apply {
  import opened Wrappers
  import opened Ring
  import opened Tokens
  import opened Catalogs
  import opened Planner
  import opened Drain

  /** Both catalogs encode, and encode alike. */
  ghost predicate SamePlacement(a: Catalog, b: Catalog) {
    ValidPlacement(a) && ValidPlacement(b) && a == b
  }

  ghost predicate OnlyOneIn(shards: seq<Shard>, n: nat, state: ShardState, p: nat) {
    && p < n <= |shards| && shards[p].state == state
    && forall q :: 0 <= q < n && shards[q].state == state ==> q == p
  }

  /** Finds the one existing shard that enters `state`, if ids are stable and there is exactly one. */
  method FindTransitioning(current: seq<Shard>, after: seq<Shard>, state: ShardState) returns (p: Option<nat>)
    requires |after| >= |current|
    ensures p.Some? <==>
              && (forall i :: 0 <= i < |current| ==> current[i].id == after[i].id)
              && (exists q :: OnlyOneIn(after, |current|, state, q))
    ensures p.Some? ==> OnlyOneIn(after, |current|, state, p.value)
  {
    p := None;
    for i := 0 to |current|
      invariant forall k :: 0 <= k < i ==> current[k].id == after[k].id
      invariant p.Some? ==> OnlyOneIn(after, i, state, p.value)
      invariant p.None? ==> forall k :: 0 <= k < i ==> after[k].state != state
    {
      if current[i].id != after[i].id {
        return None;
      }
      if after[i].state == state {
        if p.Some? {
          assert after[p.value].state == state && after[i].state == state && p.value != i;
          return None;
        }
        p := Some(i);
      }
    }
  }

  // ---- split ---------------------------------------------------------------------

  ghost predicate SplitAccepted(current: Catalog, after: Catalog, p: nat) {
    && |after.shards| == |current.shards| + 1
    && (forall i :: 0 <= i < |current.shards| ==> current.shards[i].id == after.shards[i].id)
    && OnlyOneIn(after.shards, |current.shards|, Splitting, p)
    && ValidPlacement(after)
    && var child := after.shards[|current.shards|];
       && child.id == |current.shards| % MAX_SHARD_ID && child.state.Creating?
       && |current.shards[p].ranges| == 1 && after.shards[p].ranges == current.shards[p].ranges
       && |child.ranges| == 1
       && child.ranges[0].end == current.shards[p].ranges[0].end
       && TokenStrictlyInside(current.shards[p].ranges[0], child.ranges[0].start)
  }

  method ValidateSplitApplyRequest(current: Catalog, plan: Plan) returns (ok: bool)
    ensures ok <==> plan.requiresDataCopy && exists p :: SplitAccepted(current, plan.after, p)
  {
    var after := plan.after;
    if !plan.requiresDataCopy || |after.shards| != |current.shards| + 1 {
      return false;
    }
    var p := FindTransitioning(current.shards, after.shards, Splitting);
    if p.None? {
      return false;
    }
    var child := after.shards[|after.shards| - 1];
    var before, now := current.shards[p.value], after.shards[p.value];
    if child.id != |current.shards| % MAX_SHARD_ID || !child.state.Creating? {
      return false;
    }
    if |before.ranges| != 1 || |now.ranges| != 1 || |child.ranges| != 1 || before.ranges[0] != now.ranges[0] {
      return false;
    }
    if child.ranges[0].end != before.ranges[0].end || !TokenStrictlyInside(before.ranges[0], child.ranges[0].start) {
      return false;
    }
    ok := ValidatePlacement(after);
    if ok {
      assert SplitAccepted(current, after, p.value);
    }
  }

  // ---- range move ------------------------------------------------------------------

  ghost predicate RangeMoveAccepted(current: Catalog, after: Catalog, p: nat) {
    && |after.shards| == |current.shards| + 1
    && (forall i :: 0 <= i < |current.shards| ==> current.shards[i].id == after.shards[i].id)
    && OnlyOneIn(after.shards, |current.shards|, Moving, p)
    && ValidPlacement(after)
    && var target := after.shards[|current.shards|];
       && target.id == |current.shards| % MAX_SHARD_ID && target.state.Creating?
       && after.shards[p].ranges == current.shards[p].ranges
       && |target.ranges| == 1
       && (forall t: Token :: target.ranges[0].Contains(t) ==> Owners(current.shards[p].ranges, t) > 0)
  }

  method ValidateRangeMoveApplyRequest(current: Catalog, plan: Plan) returns (ok: bool)
    ensures ok <==> plan.requiresDataCopy && exists p :: RangeMoveAccepted(current, plan.after, p)
  {
    var after := plan.after;
    if !plan.requiresDataCopy || |after.shards| != |current.shards| + 1 {
      return false;
    }
    var p := FindTransitioning(current.shards, after.shards, Moving);
    if p.None? {
      return false;
    }
    var target := after.shards[|after.shards| - 1];
    if target.id != |current.shards| % MAX_SHARD_ID || current.shards[p.value].ranges != after.shards[p.value].ranges {
      return false;
    }
    if !target.state.Creating? || |target.ranges| != 1 {
      return false;
    }
    var kept := SubtractTokenRanges(current.shards[p.value].ranges, target.ranges[0]);
    if kept.None? {
      return false;
    }
    ok := ValidatePlacement(after);
    if ok {
      assert RangeMoveAccepted(current, after, p.value);
    }
  }

  lemma LoneMovePasses(cat: Catalog, p: nat, rng: TokenRange, voters: seq<string>)
    requires InService(cat) && p < |cat.shards| < MAX_SHARD_ID && cat.shards[p].state.Active?
    requires forall t: Token :: rng.Contains(t) ==> Owners(cat.shards[p].ranges, t) > 0
    requires NoOther(cat.shards, p, Moving)
    ensures RangeMoveAccepted(cat, Transition(cat, p, Moving, rng, voters), p)
  {
    TransitionInService(cat, p, Moving, rng, voters);
  }

  lemma PassedMoveIsAlone(cat: Catalog, p: nat, rng: TokenRange, voters: seq<string>, q: nat)
    requires p < |cat.shards| && RangeMoveAccepted(cat, Transition(cat, p, Moving, rng, voters), q)
    ensures NoOther(cat.shards, p, Moving)
  {
    var after := Transition(cat, p, Moving, rng, voters);
    assert after.shards[p].state == Moving;
    forall k | 0 <= k < |cat.shards| && k != p ensures cat.shards[k].state != Moving {
      assert after.shards[k] == cat.shards[k];
    }
  }

  // ---- decommission ---------------------------------------------------------------------

  /** `sameStringSet` and the comparisons around it: the shard is as before, lists in any order. */
  predicate SameShard(a: Shard, b: Shard) {
    && a.id == b.id && a.state == b.state && a.epoch == b.epoch && a.leaderHint == b.leaderHint && a.ranges == b.ranges
    && multiset(a.voters) == multiset(b.voters) && multiset(a.nonVoters) == multiset(b.nonVoters)
  }

  /** `node` is the only one whose state differs, and it goes from draining to decommissioned. */
  ghost predicate OnlyRetires(current: map<string, Node>, after: map<string, Node>, node: string) {
    && after.Keys == current.Keys && node in current
    && current[node].state.NodeDraining? && after[node].state.NodeDecommissioned?
    && forall id :: id in current && id != node ==> after[id].state == current[id].state
  }

  ghost predicate DecommissionAccepted(current: Catalog, after: Catalog, node: string) {
    && |after.shards| == |current.shards| && ValidPlacement(after)
    && OnlyRetires(current.nodes, after.nodes, node) && Decommissionable(current, node)
    && forall i :: 0 <= i < |current.shards| ==> SameShard(current.shards[i], after.shards[i])
  }

  lemma RetiresOne(current: map<string, Node>, after: map<string, Node>, a: string, b: string)
    requires OnlyRetires(current, after, a) && OnlyRetires(current, after, b)
    ensures a == b
  {
  }

  /** The loop over the nodes: the one that changes, if it changes as it should and alone; "" if not. */
  method FindRetired(current: map<string, Node>, after: map<string, Node>) returns (node: string)
    ensures "" !in current && node != "" ==> OnlyRetires(current, after, node)
    ensures "" !in current && node == "" ==> forall n :: !OnlyRetires(current, after, n)
  {
    node := "";
    var left := current.Keys;
    while left != {}
      invariant left <= current.Keys
      invariant forall id :: id in current && id !in left ==> id in after
      invariant "" !in current ==>
                  forall id :: id in current && id !in left && id != node ==> after[id].state == current[id].state
      invariant node != "" ==> node in current && node !in left
      invariant node != "" ==> current[node].state.NodeDraining? && after[node].state.NodeDecommissioned?
      decreases left
    {
      var id :| id in left;
      left := left - {id};
      if id !in after {
        return "";
      }
      if current[id].state == after[id].state {
        continue;
      }
      if node != "" || !current[id].state.NodeDraining? || !after[id].state.NodeDecommissioned? {
        return "";
      }
      node := id;
    }
    if !(after.Keys <= current.Keys) {
      return "";
    }
    assert after.Keys == current.Keys;
  }

  /** `validateDecommissionApplyRequest`. */
  method ValidateDecommissionApplyRequest(current: Catalog, plan: Plan) returns (ok: bool)
    ensures "" !in current.nodes ==>
              (ok <==> !plan.requiresDataCopy && exists node :: DecommissionAccepted(current, plan.after, node))
  {
    var after := plan.after;
    if plan.requiresDataCopy || |after.shards| != |current.shards| {
      return false;
    }
    var valid := ValidatePlacement(after);
    if !valid {
      return false;
    }
    var node := FindRetired(current.nodes, after.nodes);
    if !ValidNodeId(node) {
      NotAccepted(current, after, node);
      return false;
    }
    for n := 0 to |current.shards|
      invariant forall i :: 0 <= i < n ==> SameShard(current.shards[i], after.shards[i])
      invariant forall i :: 0 <= i < n && !current.shards[i].state.Decommissioned? ==> !Refers(current.shards[i], node)
    {
      if !current.shards[n].state.Decommissioned? && Refers(current.shards[n], node) {
        NotAccepted(current, after, node);
        return false;
      }
      if !SameShard(current.shards[n], after.shards[n]) {
        return false;
      }
    }
    if "" !in current.nodes {
      assert DecommissionAccepted(current, after, node);
    }
    return true;
  }

  /** If the node that changes may not be decommissioned, no node makes the request acceptable. */
  lemma NotAccepted(current: Catalog, after: Catalog, node: string)
    requires "" !in current.nodes && node != "" ==> OnlyRetires(current.nodes, after.nodes, node)
    requires "" !in current.nodes && node == "" ==> forall n :: !OnlyRetires(current.nodes, after.nodes, n)
    requires !Decommissionable(current, node)
    ensures "" !in current.nodes ==> forall n :: !DecommissionAccepted(current, after, n)
  {
    if "" !in current.nodes {
      forall n ensures !DecommissionAccepted(current, after, n) {
        if OnlyRetires(current.nodes, after.nodes, n) {
          RetiresOne(current.nodes, after.nodes, n, node);
        }
      }
    }
  }

  // ---- the whole gate ----------------------------------------------------------------

  /** What `validateApplyRequest` asks of a request. */
  ghost predicate ApplyAccepted(current: Catalog, plan: Plan, expectedEpoch: nat) {
    && !plan.requiresRestart && plan.applySupported
    && (plan.requiresDataCopy <==> plan.operation.SplitOp? || plan.operation.RangeMoveOp?)
    && (expectedEpoch == 0 || expectedEpoch == current.epoch)
    && plan.beforeEpoch == current.epoch
    && SamePlacement(current, plan.before)
    && plan.after.epoch > current.epoch
    && match plan.operation
       case SplitOp => exists p :: SplitAccepted(current, plan.after, p)
       case RangeMoveOp => exists p :: RangeMoveAccepted(current, plan.after, p)
       case DecommissionOp => exists node :: DecommissionAccepted(current, plan.after, node)
       case OtherOp(_) => false
       case _ => |plan.after.shards| == |current.shards| && ValidPlacement(plan.after)
  }

  /** `validateApplyRequest`. */
  method ValidateApplyRequest(current: Catalog, plan: Plan, expectedEpoch: nat) returns (ok: bool)
    requires ValidPlacement(current)
    ensures "" !in current.nodes || !plan.operation.DecommissionOp? ==>
              (ok <==> ApplyAccepted(current, plan, expectedEpoch))
  {
    if plan.operation.OtherOp? || plan.requiresRestart {
      return false;
    }
    if plan.requiresDataCopy && !plan.operation.SplitOp? && !plan.operation.RangeMoveOp? {
      return false;
    }
    if !plan.applySupported {
      return false;
    }
    if expectedEpoch != 0 && expectedEpoch != current.epoch {
      return false;
    }
    if plan.beforeEpoch != current.epoch || plan.before.epoch != current.epoch {
      return false;
    }
    if current != plan.before {
      return false;
    }
    if plan.after.epoch <= current.epoch {
      return false;
    }
    match plan.operation
    case SplitOp => ok := ValidateSplitApplyRequest(current, plan);
    case RangeMoveOp => ok := ValidateRangeMoveApplyRequest(current, plan);
    case DecommissionOp => ok := ValidateDecommissionApplyRequest(current, plan);
    case _ =>
      if |plan.after.shards| != |current.shards| {
        return false;
      }
      ok := ValidatePlacement(plan.after);
  }

  // ---- what the planner builds passes ---------------------------------------------------

  ghost predicate NoOther(shards: seq<Shard>, p: nat, state: ShardState) {
    forall q :: 0 <= q < |shards| && q != p ==> shards[q].state != state
  }

  /** The plan of a split at `split`. */
  ghost function SplitPlan(cat: Catalog, p: nat, split: Token, voters: seq<string>): Plan
    requires p < |cat.shards| && |cat.shards[p].ranges| == 1
  {
    var rng := TokenRange(split, cat.shards[p].ranges[0].end);
    Plan(SplitOp, cat.epoch, cat, Transition(cat, p, Splitting, rng, voters), true, false, true)
  }

  lemma LoneSplitPasses(cat: Catalog, p: nat, split: Token, voters: seq<string>)
    requires InService(cat) && p < |cat.shards| < MAX_SHARD_ID && cat.shards[p].state.Routable()
    requires |cat.shards[p].ranges| == 1 && TokenStrictlyInside(cat.shards[p].ranges[0], split)
    requires NoOther(cat.shards, p, Splitting)
    ensures SplitAccepted(cat, SplitPlan(cat, p, split, voters).after, p)
  {
    TransitionInService(cat, p, Splitting, TokenRange(split, cat.shards[p].ranges[0].end), voters);
  }

  /** The planner's split passes the whole gate exactly when the epoch is right and no other shard is splitting. */
  lemma PlannedSplitPasses(cat: Catalog, p: nat, split: Token, voters: seq<string>, expectedEpoch: nat)
    requires InService(cat) && p < |cat.shards| < MAX_SHARD_ID && cat.shards[p].state.Routable()
    requires |cat.shards[p].ranges| == 1 && TokenStrictlyInside(cat.shards[p].ranges[0], split)
    ensures ApplyAccepted(cat, SplitPlan(cat, p, split, voters), expectedEpoch) <==>
            (expectedEpoch == 0 || expectedEpoch == cat.epoch) && NoOther(cat.shards, p, Splitting)
  {
    var after := SplitPlan(cat, p, split, voters).after;
    if NoOther(cat.shards, p, Splitting) {
      LoneSplitPasses(cat, p, split, voters);
    }
    if q :| SplitAccepted(cat, after, q) {
      assert after.shards[p].state == Splitting;
      forall k | 0 <= k < |cat.shards| && k != p ensures cat.shards[k].state != Splitting {
        assert after.shards[k] == cat.shards[k];
      }
    }
  }

  ghost function RangeMovePlan(cat: Catalog, p: nat, rng: TokenRange, voters: seq<string>): Plan
    requires p < |cat.shards|
  {
    Plan(RangeMoveOp, cat.epoch, cat, Transition(cat, p, Moving, rng, voters), true, false, true)
  }

  /** The same for a range move: no other shard may be moving. */
  lemma PlannedRangeMovePasses(cat: Catalog, p: nat, rng: TokenRange, voters: seq<string>, expectedEpoch: nat)
    requires InService(cat) && p < |cat.shards| < MAX_SHARD_ID && cat.shards[p].state.Active?
    requires forall t: Token :: rng.Contains(t) ==> Owners(cat.shards[p].ranges, t) > 0
    ensures ApplyAccepted(cat, RangeMovePlan(cat, p, rng, voters), expectedEpoch) <==>
            (expectedEpoch == 0 || expectedEpoch == cat.epoch) && NoOther(cat.shards, p, Moving)
  {
    if NoOther(cat.shards, p, Moving) {
      LoneMovePasses(cat, p, rng, voters);
    }
    if q :| RangeMoveAccepted(cat, RangeMovePlan(cat, p, rng, voters).after, q) {
      PassedMoveIsAlone(cat, p, rng, voters, q);
    }
  }

  /** After a rollback the parent can be split again, if there is an id left, and no other shard is splitting. */
  lemma SplitAgain(cat: Catalog, after: Catalog, parent: nat, child: nat, split: Token, voters: seq<string>, expectedEpoch: nat)
    requires Undone(cat, after, parent, child) && cat.shards[child].state.Creating?
    requires |cat.shards[parent].ranges| == 1 && TokenStrictlyInside(cat.shards[parent].ranges[0], split)
    ensures SplitPossible(after, parent, Some(split), None) <==> |cat.shards| < MAX_SHARD_ID
    ensures |cat.shards| < MAX_SHARD_ID ==>
              (ApplyAccepted(after, SplitPlan(after, parent, split, voters), expectedEpoch) <==>
               (expectedEpoch == 0 || expectedEpoch == after.epoch) && NoOther(cat.shards, parent, Splitting))
  {
    if |cat.shards| < MAX_SHARD_ID {
      PlannedSplitPasses(after, parent, split, voters, expectedEpoch);
      assert NoOther(after.shards, parent, Splitting) <==> NoOther(cat.shards, parent, Splitting);
    }
  }

  /** A drain or move plan that validates passes at the right epoch. */
  lemma PlannedMembershipPasses(cat: Catalog, after: Catalog, operation: Operation, expectedEpoch: nat)
    requires ValidPlacement(cat) && ValidPlacement(after) && MembershipEdit(cat, after)
    requires operation.DrainOp? || operation.MoveOp?
    ensures ApplyAccepted(cat, Plan(operation, cat.epoch, cat, after, false, false, true), expectedEpoch) <==>
            expectedEpoch == 0 || expectedEpoch == cat.epoch
  {
  }

  /** The planner's decommission passes whenever it is planned, at the right epoch. */
  lemma PlannedDecommissionPasses(cat: Catalog, after: Catalog, node: string, expectedEpoch: nat)
    requires ValidPlacement(cat) && Decommissionable(cat, node)
    requires ValidPlacement(after) && after.shards == cat.shards && after.epoch == cat.epoch + 1
    requires after.nodes == cat.nodes[node := cat.nodes[node].(state := NodeDecommissioned)]
    ensures DecommissionAccepted(cat, after, node)
    ensures ApplyAccepted(cat, Plan(DecommissionOp, cat.epoch, cat, after, false, false, true), expectedEpoch) <==>
            expectedEpoch == 0 || expectedEpoch == cat.epoch
  {
    assert DecommissionAccepted(cat, after, node);
  }
}
