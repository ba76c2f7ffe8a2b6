/**
 Draining a node out of every shard, and decommissioning it afterwards.
 */
module Drain {
  import opened Wrappers
  import opened Sets
  import opened Ring
  import opened Catalogs
  import opened Planner
  import opened Policy

  // ---- references --------------------------------------------------------------------

  /** `drainShardReferences`. */
  predicate Refers(sh: Shard, node: string) {
    node in sh.voters || node in sh.nonVoters || sh.leaderHint == node
  }

  /** `RemoveString`. */
  function Without(ids: seq<string>, id: string): (out: seq<string>)
    ensures forall x :: x in out <==> x in ids && x != id
  {
    if ids == [] then []
    else
      var n := |ids| - 1;
      Without(ids[..n], id) + if ids[n] == id then [] else [ids[n]]
  }

  lemma NamedWithout(ids: seq<string>, id: string)
    ensures Named(Without(ids, id)) == Named(ids) - {id}
    ensures |Named(Without(ids, id))| <= |Named(ids)|
  {
    SubsetSize(Named(Without(ids, id)), Named(ids));
  }

  // ---- picking voters --------------------------------------------------------------------

  function AtLeastOne(n: int): nat {
    if n < 1 then 1 else n
  }

  /** `targetVoterCount`: as many voters as before, or the minimum if that is more. */
  ghost function VoterCount(min: int, voters: seq<string>): nat {
    var count := AtLeastOne(|Named(voters)|);
    if min > count then min else count
  }

  /** The survivors followed by the targets that are not among them. */
  function Joined(voters: seq<string>, targets: seq<string>): (out: seq<string>)
    ensures forall x :: x in out <==> x in voters || x in targets
  {
    if targets == [] then voters
    else
      var n := |targets| - 1;
      var most := Joined(voters, targets[..n]);
      if targets[n] in most then most else most + [targets[n]]
  }

  /** A new voter set can be found for the shard. */
  ghost predicate Drainable(nodes: map<string, Node>, sh: Shard, node: string, targets: seq<string>, min: int) {
    if targets != [] then |Joined(Without(sh.voters, node), targets)| >= AtLeastOne(min)
    else Selectable(nodes, VoterCount(min, sh.voters), Without(sh.voters, node))
  }

  /** What a drained shard's voters are. */
  ghost predicate Replaces(nodes: map<string, Node>, sh: Shard, node: string, targets: seq<string>, min: int, voters: seq<string>) {
    && node !in voters
    && (forall id :: id in sh.voters && id != "" && id != node ==> id in voters)
    && |voters| >= AtLeastOne(min)
    && (targets == [] ==> Distinct(voters) && |voters| == VoterCount(min, sh.voters) && SetOf(voters) <= ActiveNodes(nodes))
    && (targets == [] ==> |voters| >= min && |voters| >= |Named(sh.voters)|)
    && (targets == [] ==> Spread(nodes, ActiveNodes(nodes), Named(sh.voters) - {node}, voters))
    && (targets != [] ==> SetOf(voters) == SetOf(Without(sh.voters, node)) + SetOf(targets))
  }

  /** `drainPickVoters`. */
  method PickVoters(nodes: map<string, Node>, order: seq<string>, sh: Shard, node: string, targets: seq<string>, min: int)
      returns (r: Result<seq<string>>)
    requires Ranking(nodes, order) && !IsActive(nodes, node) && node !in targets
    ensures r.Ok? <==> Drainable(nodes, sh, node, targets, min)
    ensures r.Ok? ==> Replaces(nodes, sh, node, targets, min, r.value)
  {
    var remaining := Without(sh.voters, node);
    if |targets| > 0 {
      var voters := Joined(remaining, targets);
      if |voters| < AtLeastOne(min) {
        return Err("too few voters");
      }
      return Ok(voters);
    }
    var old' := Unique(sh.voters);
    var count := AtLeastOne(|old'|);
    if min > count {
      count := min;
    }
    NamedWithout(sh.voters, node);
    assert count == VoterCount(min, sh.voters) && Wanted(count, |Named(remaining)|) == count;
    r := SelectVoters(nodes, order, count, remaining);
    if r.Ok? {
      PolicyReplaces(nodes, sh, node, min, r.value);
    }
  }

  lemma PolicyReplaces(nodes: map<string, Node>, sh: Shard, node: string, min: int, voters: seq<string>)
    requires !IsActive(nodes, node) && Distinct(voters) && |voters| == VoterCount(min, sh.voters)
    requires Named(Without(sh.voters, node)) <= SetOf(voters) <= ActiveNodes(nodes)
    requires Spread(nodes, ActiveNodes(nodes), Named(Without(sh.voters, node)), voters)
    ensures Replaces(nodes, sh, node, [], min, voters)
  {
    NamedWithout(sh.voters, node);
    assert node !in ActiveNodes(nodes);
    assert node in voters ==> node in SetOf(voters);
    forall id | id in sh.voters && id != "" && id != node ensures id in voters {
      assert id in Named(Without(sh.voters, node));
      assert id in SetOf(voters);
    }
  }

  // ---- the shards ------------------------------------------------------------------------------

  function Drained(sh: Shard, node: string, voters: seq<string>, epoch: nat): Shard {
    sh.(voters := voters, nonVoters := Without(sh.nonVoters, node),
        leaderHint := if sh.leaderHint == node || sh.leaderHint !in voters then "" else sh.leaderHint,
        state := Active, epoch := epoch)
  }

  datatype ShardSteps = ShardSteps(shard: nat, steps: seq<MemberStep>)

  /** Carried out one by one, the steps never leave fewer than the old or the new voters. */
  ghost predicate Safe(old': seq<string>, new': seq<string>, steps: seq<MemberStep>) {
    && VotersAfter(SetOf(old'), steps) == SetOf(new')
    && (exists n: nat :: AddsThenRemoves(steps, n, SetOf(new')) && CatchesUp(steps, n, old', new'))
    && forall k :: 0 <= k <= |steps| ==>
         SetOf(old') <= VotersAfter(SetOf(old'), steps[..k]) || SetOf(new') <= VotersAfter(SetOf(old'), steps[..k])
  }

  /** A drained shard: its new voters, and everything else about it. */
  ghost predicate DrainedWell(nodes: map<string, Node>, sh: Shard, sh': Shard, node: string, targets: seq<string>, min: int, epoch: nat) {
    && Replaces(nodes, sh, node, targets, min, sh'.voters)
    && sh'.id == sh.id && sh'.ranges == sh.ranges && sh'.state.Active? && sh'.epoch == epoch
    && (forall x :: x in sh'.nonVoters <==> x in sh.nonVoters && x != node)
    && sh'.leaderHint == (if sh.leaderHint in sh'.voters && sh.leaderHint != node then sh.leaderHint else "")
  }

  /** One shard's turn in `drainShards`. */
  method DrainShard(nodes: map<string, Node>, order: seq<string>, sh: Shard, node: string, targets: seq<string>, min: int, epoch: nat)
      returns (r: Result<Shard>, steps: seq<MemberStep>)
    requires Ranking(nodes, order) && !IsActive(nodes, node) && node !in targets
    ensures r.Ok? <==> Drainable(nodes, sh, node, targets, min)
    ensures r.Ok? ==> DrainedWell(nodes, sh, r.value, node, targets, min, epoch) && Safe(sh.voters, r.value.voters, steps)
  {
    steps := [];
    var voters := PickVoters(nodes, order, sh, node, targets, min);
    if voters.Err? {
      return Err(voters.reason), steps;
    }
    ghost var adds;
    steps, adds := MembershipDiffSteps(sh.voters, voters.value);
    forall k | 0 <= k <= |steps|
      ensures SetOf(sh.voters) <= VotersAfter(SetOf(sh.voters), steps[..k])
           || SetOf(voters.value) <= VotersAfter(SetOf(sh.voters), steps[..k])
    {
      NeverShort(SetOf(sh.voters), SetOf(voters.value), steps, adds, k);
    }
    return Ok(Drained(sh, node, voters.value, epoch)), steps;
  }

  /** What the walk makes of one shard. */
  ghost predicate Visited(nodes: map<string, Node>, sh: Shard, sh': Shard, node: string, targets: seq<string>, min: int, epoch: nat) {
    if Refers(sh, node) then DrainedWell(nodes, sh, sh', node, targets, min, epoch) else sh' == sh
  }

  ghost predicate AllVisited(nodes: map<string, Node>, shards: seq<Shard>, shards': seq<Shard>, node: string,
                             targets: seq<string>, min: int, epoch: nat) {
    |shards'| == |shards|
    && forall i :: 0 <= i < |shards| ==> Visited(nodes, shards[i], shards'[i], node, targets, min, epoch)
  }

  ghost predicate AllSafe(shards: seq<Shard>, shards': seq<Shard>, steps: seq<ShardSteps>) {
    |shards'| == |shards| && forall k :: 0 <= k < |steps| ==> StepsSafe(shards, shards', steps[k])
  }

  ghost predicate StepsSafe(shards: seq<Shard>, shards': seq<Shard>, one: ShardSteps)
    requires |shards'| == |shards|
  {
    one.shard < |shards| && Safe(shards[one.shard].voters, shards'[one.shard].voters, one.steps)
  }

  lemma SafeSnoc(shards: seq<Shard>, shards': seq<Shard>, steps: seq<ShardSteps>, sh: Shard, sh': Shard)
    requires AllSafe(shards, shards', steps)
    ensures AllSafe(shards + [sh], shards' + [sh'], steps)
  {
    forall k | 0 <= k < |steps| ensures StepsSafe(shards + [sh], shards' + [sh'], steps[k]) {
      assert StepsSafe(shards, shards', steps[k]);
    }
  }

  lemma SafeMore(shards: seq<Shard>, shards': seq<Shard>, steps: seq<ShardSteps>, sh: Shard, sh': Shard, ms: seq<MemberStep>)
    requires AllSafe(shards, shards', steps) && Safe(sh.voters, sh'.voters, ms)
    ensures AllSafe(shards + [sh], shards' + [sh'], steps + [ShardSteps(|shards|, ms)])
  {
    SafeSnoc(shards, shards', steps, sh, sh');
    var all, all' := shards + [sh], shards' + [sh'];
    assert all[|shards|] == sh && all'[|shards|] == sh';
    assert StepsSafe(all, all', ShardSteps(|shards|, ms));
  }

  lemma VisitedSnoc(nodes: map<string, Node>, shards: seq<Shard>, shards': seq<Shard>, sh: Shard, sh': Shard, node: string,
                    targets: seq<string>, min: int, epoch: nat)
    requires AllVisited(nodes, shards, shards', node, targets, min, epoch)
    requires Visited(nodes, sh, sh', node, targets, min, epoch)
    ensures AllVisited(nodes, shards + [sh], shards' + [sh'], node, targets, min, epoch)
  {
  }

  ghost predicate AllDrainable(nodes: map<string, Node>, shards: seq<Shard>, node: string, targets: seq<string>, min: int) {
    forall i :: 0 <= i < |shards| && Refers(shards[i], node) ==> Drainable(nodes, shards[i], node, targets, min)
  }

  ghost predicate Unreferenced(shards: seq<Shard>, node: string) {
    forall i :: 0 <= i < |shards| ==> !Refers(shards[i], node)
  }

  /** The walk so far: the shards seen, what became of them, and their steps. */
  ghost predicate Walked(nodes: map<string, Node>, shards: seq<Shard>, shards': seq<Shard>, steps: seq<ShardSteps>, node: string,
                         targets: seq<string>, min: int, epoch: nat) {
    && AllDrainable(nodes, shards, node, targets, min)
    && AllVisited(nodes, shards, shards', node, targets, min, epoch) && AllSafe(shards, shards', steps)
    && Listed(shards, steps, node)
  }

  /** The shards that refer to the node, each once and in order, and no others. */
  ghost predicate Listed(shards: seq<Shard>, steps: seq<ShardSteps>, node: string) {
    && (forall i :: 0 <= i < |shards| ==> (Refers(shards[i], node) <==> Lists(steps, i)))
    && (forall k :: 0 <= k < |steps| ==> steps[k].shard < |shards|)
    && (forall j, k :: 0 <= j < k < |steps| ==> steps[j].shard < steps[k].shard)
  }

  ghost predicate Lists(steps: seq<ShardSteps>, i: int) {
    exists k :: 0 <= k < |steps| && steps[k].shard == i
  }

  lemma ListedSame(shards: seq<Shard>, steps: seq<ShardSteps>, sh: Shard, node: string)
    requires Listed(shards, steps, node) && !Refers(sh, node)
    ensures Listed(shards + [sh], steps, node)
  {
    var all := shards + [sh];
    forall i | 0 <= i < |all| ensures Refers(all[i], node) <==> Lists(steps, i) {
      if i < |shards| {
        assert all[i] == shards[i];
      }
    }
  }

  lemma ListedMore(shards: seq<Shard>, steps: seq<ShardSteps>, sh: Shard, ms: seq<MemberStep>, node: string)
    requires Listed(shards, steps, node) && Refers(sh, node)
    ensures Listed(shards + [sh], steps + [ShardSteps(|shards|, ms)], node)
  {
    var all, more := shards + [sh], steps + [ShardSteps(|shards|, ms)];
    forall i | 0 <= i < |all| ensures Refers(all[i], node) <==> Lists(more, i) {
      if i < |shards| {
        assert all[i] == shards[i];
        if Lists(steps, i) {
          var k :| 0 <= k < |steps| && steps[k].shard == i;
          assert more[k].shard == i;
        }
        if Lists(more, i) {
          var k :| 0 <= k < |more| && more[k].shard == i;
          assert k < |steps| && steps[k].shard == i;
        }
      } else {
        assert more[|steps|].shard == i;
      }
    }
  }

  lemma NoneListed(shards: seq<Shard>, steps: seq<ShardSteps>, node: string)
    requires Listed(shards, steps, node)
    ensures steps == [] <==> Unreferenced(shards, node)
  {
    if steps != [] {
      assert Lists(steps, steps[0].shard);
    }
  }

  /** One more shard of the walk. */
  method DrainNext(nodes: map<string, Node>, order: seq<string>, ghost seen: seq<Shard>, n: nat, out: seq<Shard>,
                   steps: seq<ShardSteps>, sh: Shard, node: string, targets: seq<string>, min: int, epoch: nat)
      returns (r: Result<seq<Shard>>, steps': seq<ShardSteps>)
    requires Ranking(nodes, order) && !IsActive(nodes, node) && node !in targets
    requires n == |seen| && Walked(nodes, seen, out, steps, node, targets, min, epoch)
    ensures r.Ok? ==> Walked(nodes, seen + [sh], r.value, steps', node, targets, min, epoch)
    ensures r.Err? ==> Refers(sh, node) && !Drainable(nodes, sh, node, targets, min)
  {
    if !Refers(sh, node) {
      ListedSame(seen, steps, sh, node);
      SafeSnoc(seen, out, steps, sh, sh);
      VisitedSnoc(nodes, seen, out, sh, sh, node, targets, min, epoch);
      return Ok(out + [sh]), steps;
    }
    var one, ms := DrainShard(nodes, order, sh, node, targets, min, epoch);
    if one.Err? {
      return Err(one.reason), steps;
    }
    VisitedSnoc(nodes, seen, out, sh, one.value, node, targets, min, epoch);
    SafeMore(seen, out, steps, sh, one.value, ms);
    ListedMore(seen, steps, sh, ms, node);
    return Ok(out + [one.value]), steps + [ShardSteps(n, ms)];
  }

  /** `drainShards`: every shard that refers to the node gets new voters. */
  method DrainShards(nodes: map<string, Node>, orders: nat -> seq<string>, shards: seq<Shard>, node: string,
                     targets: seq<string>, min: int, epoch: nat)
      returns (r: Result<seq<Shard>>, steps: seq<ShardSteps>)
    requires (forall i :: Ranking(nodes, orders(i))) && !IsActive(nodes, node) && node !in targets
    ensures r.Ok? <==> AllDrainable(nodes, shards, node, targets, min)
    ensures r.Ok? ==> Walked(nodes, shards, r.value, steps, node, targets, min, epoch)
  {
    steps := [];
    var out: seq<Shard> := [];
    ghost var seen: seq<Shard> := [];
    for n := 0 to |shards|
      invariant seen == shards[..n] && Walked(nodes, seen, out, steps, node, targets, min, epoch)
    {
      var order := orders(n);
      var next;
      var sh := shards[n];
      next, steps := DrainNext(nodes, order, seen, n, out, steps, sh, node, targets, min, epoch);
      if next.Err? {
        return Err(next.reason), steps;
      }
      assert seen + [sh] == shards[..n + 1];
      out, seen := next.value, seen + [sh];
    }
    assert seen == shards;
    return Ok(out), steps;
  }

  // ---- the plans ---------------------------------------------------------------------------------

  /** The drained catalog leaves every state and range alone, except that touched shards become Active. */
  lemma DrainIsMembershipEdit(cat: Catalog, after: Catalog, node: string, targets: seq<string>, min: int)
    requires after.version == cat.version && after.strategy == cat.strategy && after.epoch > cat.epoch
    requires AllVisited(after.nodes, cat.shards, after.shards, node, targets, min, after.epoch)
    ensures MembershipEdit(cat, after)
    ensures Unreferenced(after.shards, node) || node == ""
  {
    forall i | 0 <= i < |cat.shards|
      ensures after.shards[i].id == cat.shards[i].id && after.shards[i].ranges == cat.shards[i].ranges
      ensures after.shards[i].state == cat.shards[i].state || after.shards[i].state.Active?
      ensures !Refers(after.shards[i], node) || node == ""
    {
      assert Visited(after.nodes, cat.shards[i], after.shards[i], node, targets, min, after.epoch);
    }
  }

  /** Every shard the walk touches was already routable. */
  ghost predicate TouchesRoutable(shards: seq<Shard>, node: string) {
    forall i :: 0 <= i < |shards| && Refers(shards[i], node) ==> shards[i].state.Routable()
  }

  /** Under token ranges every touched shard must have been routable; modulo routing does not care. */
  ghost predicate Drains(cat: Catalog, node: string) {
    cat.strategy.TokenRangeV1? ==> TouchesRoutable(cat.shards, node)
  }

  /** The plan validates exactly when the node is listed by routable shards only. */
  lemma DrainValidIff(cat: Catalog, after: Catalog, node: string, targets: seq<string>, min: int)
    requires ValidPlacement(cat) && InIdOrder(cat.shards)
    requires after.version == cat.version && after.strategy == cat.strategy && after.epoch > cat.epoch
    requires AllVisited(after.nodes, cat.shards, after.shards, node, targets, min, after.epoch)
    ensures InIdOrder(after.shards) && (ValidPlacement(after) <==> Drains(cat, node))
  {
    DrainIsMembershipEdit(cat, after, node, targets, min);
    forall i | 0 <= i < |cat.shards| ensures !after.shards[i].state.Unknown? {
      assert Visited(after.nodes, cat.shards[i], after.shards[i], node, targets, min, after.epoch);
      assert ShardAccepted(cat.strategy, cat.shards[i]);
    }
    if cat.strategy.TokenRangeV1? {
      RangesDrainValidIff(cat, after, node, targets, min);
    } else {
      InOrderIsContiguous(after.shards);
      assert |after.shards| == |cat.shards| > 0;
    }
  }

  lemma RangesDrainValidIff(cat: Catalog, after: Catalog, node: string, targets: seq<string>, min: int)
    requires InService(cat) && MembershipEdit(cat, after)
    requires AllVisited(after.nodes, cat.shards, after.shards, node, targets, min, after.epoch)
    ensures ValidPlacement(after) <==> TouchesRoutable(cat.shards, node)
  {
    if ValidPlacement(after) {
      forall i | 0 <= i < |cat.shards| && Refers(cat.shards[i], node) ensures cat.shards[i].state.Routable() {
        assert Visited(after.nodes, cat.shards[i], after.shards[i], node, targets, min, after.epoch);
        NoNewRoutableShard(cat, after, i);
      }
    }
    if TouchesRoutable(cat.shards, node) {
      forall i | 0 <= i < |cat.shards|
        ensures after.shards[i].state.Routable() == cat.shards[i].state.Routable()
        ensures ShardAccepted(after.strategy, after.shards[i])
      {
        assert Visited(after.nodes, cat.shards[i], after.shards[i], node, targets, min, after.epoch);
        assert ShardAccepted(cat.strategy, cat.shards[i]);
      }
      forall t: Token ensures ShardOwners(after.shards, t) == 1 {
        SameCounts(cat.shards, after.shards, t);
      }
      InServiceParts(after);
    }
  }

  lemma {:induction false} SameCounts(a: seq<Shard>, b: seq<Shard>, t: Token)
    requires |a| == |b|
    requires forall i :: 0 <= i < |a| ==> a[i].ranges == b[i].ranges && a[i].state.Routable() == b[i].state.Routable()
    ensures ShardOwners(a, t) == ShardOwners(b, t)
  {
    if a != [] {
      SameCounts(a[..|a| - 1], b[..|b| - 1], t);
    }
  }

  datatype Request = Request(node: string, targets: seq<string>, minVoters: int)

  const SPACES := {' ', '\t', '\n', '\r'}

  /** `model.NewNodeID`: not empty, no space at either end. */
  predicate ValidNodeId(id: string) {
    id != "" && id[0] !in SPACES && id[|id| - 1] !in SPACES
  }

  /** `drainTargets`: preferred replacements must be active and may not include the node itself. */
  ghost predicate TargetsOk(cat: Catalog, req: Request) {
    Named(req.targets) <= ActiveNodes(cat.nodes) && req.node !in Named(req.targets)
  }

  ghost function MarkedDraining(cat: Catalog, node: string): map<string, Node>
    requires node in cat.nodes
  {
    cat.nodes[node := cat.nodes[node].(state := NodeDraining)]
  }

  /** A drain of the node can be planned. */
  ghost predicate DrainPossible(cat: Catalog, req: Request, targets: seq<string>) {
    && ValidNodeId(req.node) && req.node in cat.nodes && TargetsOk(cat, req)
    && !Unreferenced(cat.shards, req.node)
    && AllDrainable(MarkedDraining(cat, req.node), cat.shards, req.node, targets, req.minVoters)
    && Drains(cat, req.node)
  }

  // ---- catalogs that block a drain ------------------------------------------------------------------

  /** A shard outside routing that lists the node blocks every request to drain it. */
  lemma ListedOutsideRouting(cat: Catalog, i: nat, req: Request, targets: seq<string>)
    requires cat.strategy.TokenRangeV1? && i < |cat.shards|
    requires Refers(cat.shards[i], req.node) && !cat.shards[i].state.Routable()
    ensures !DrainPossible(cat, req, targets)
  {
  }

  /** After a rollback no node the retired child lists can be drained. */
  lemma RolledBackChildBlocks(cat: Catalog, parent: nat, child: nat, req: Request, targets: seq<string>)
    requires InService(cat) && parent < |cat.shards| && child < |cat.shards| && parent != child
    requires Refers(cat.shards[child], req.node)
    ensures !DrainPossible(RolledBack(cat, parent, child), req, targets)
  {
    ListedOutsideRouting(RolledBack(cat, parent, child), child, req, targets);
  }

  /** Nor, after a move of all its ranges, one that the retired source lists. */
  lemma RetiredSourceBlocks(cat: Catalog, src: nat, dst: nat, req: Request, targets: seq<string>)
    requires InService(cat) && src < |cat.shards| && dst < |cat.shards| && src != dst
    requires Refers(cat.shards[src], req.node)
    ensures !DrainPossible(Cutover(cat, src, dst, []), req, targets)
  {
    ListedOutsideRouting(Cutover(cat, src, dst, []), src, req, targets);
  }

  /** Nor, while a split or range move is under way, a voter of the shard being created. */
  lemma PendingShardBlocks(
    cat: Catalog, src: nat, state: ShardState, rng: TokenRange, voters: seq<string>, req: Request, targets: seq<string>)
    requires InService(cat) && src < |cat.shards| && req.node in voters
    ensures !DrainPossible(Transition(cat, src, state, rng, voters), req, targets)
  {
    ListedOutsideRouting(Transition(cat, src, state, rng, voters), |cat.shards|, req, targets);
  }

  /** `planDrain`: the catalog after the drain, and the membership steps of each shard. */
  method PlanDrain(cat: Catalog, req: Request, orders: nat -> seq<string>)
      returns (r: Result<Catalog>, steps: seq<ShardSteps>, targets: seq<string>)
    requires ValidPlacement(cat) && InIdOrder(cat.shards)
    requires req.node in cat.nodes ==> forall i :: Ranking(MarkedDraining(cat, req.node), orders(i))
    ensures SetOf(targets) == Named(req.targets)
    ensures r.Ok? <==> DrainPossible(cat, req, targets)
    ensures r.Ok? ==>
              var after := r.value;
              && ValidPlacement(after) && InIdOrder(after.shards) && MembershipEdit(cat, after)
              && after.epoch == cat.epoch + 1 && after.nodes == MarkedDraining(cat, req.node)
              && after.nodes[req.node].state.NodeDraining? && after.nodes[req.node].zone == cat.nodes[req.node].zone
              && (forall id :: id != req.node ==> (id in after.nodes <==> id in cat.nodes)
                                                  && (id in after.nodes ==> after.nodes[id] == cat.nodes[id]))
              && Unreferenced(after.shards, req.node) && Listed(cat.shards, steps, req.node)
              && AllVisited(after.nodes, cat.shards, after.shards, req.node, targets, req.minVoters, after.epoch)
              && AllSafe(cat.shards, after.shards, steps)
  {
    steps := [];
    targets := Unique(req.targets);
    if !ValidNodeId(req.node) || req.node !in cat.nodes {
      return Err("node does not exist"), steps, targets;
    }
    var active := AllActive(cat.nodes, targets);
    if !active || req.node in targets {
      assert req.node in targets ==> req.node in SetOf(targets);
      return Err("bad target nodes"), steps, targets;
    }
    assert req.node !in SetOf(targets);
    var nodes := cat.nodes[req.node := cat.nodes[req.node].(state := NodeDraining)];
    var epoch := cat.epoch + 1;
    var shards;
    shards, steps := DrainShards(nodes, orders, cat.shards, req.node, targets, req.minVoters, epoch);
    if shards.Err? {
      return Err(shards.reason), steps, targets;
    }
    NoneListed(cat.shards, steps, req.node);
    if steps == [] {
      return Err("node is not in any shard"), steps, targets;
    }
    var after := cat.(epoch := epoch, nodes := nodes, shards := shards.value);
    DrainIsMembershipEdit(cat, after, req.node, targets, req.minVoters);
    DrainValidIff(cat, after, req.node, targets, req.minVoters);
    var ok := ValidatePlacement(after);
    if !ok {
      return Err("invalid placement"), steps, targets;
    }
    return Ok(after), steps, targets;
  }

  // ---- decommission ----------------------------------------------------------------------------------

  /** Nothing but decommissioned shards refers to the node, and it is draining. */
  ghost predicate Decommissionable(cat: Catalog, node: string) {
    && ValidNodeId(node) && node in cat.nodes && cat.nodes[node].state.NodeDraining?
    && forall i :: 0 <= i < |cat.shards| && !cat.shards[i].state.Decommissioned? ==> !Refers(cat.shards[i], node)
  }

  /** `planDecommission`. */
  method PlanDecommission(cat: Catalog, node: string) returns (r: Result<Catalog>)
    requires ValidPlacement(cat) && InIdOrder(cat.shards)
    ensures r.Ok? <==> Decommissionable(cat, node)
    ensures r.Ok? ==>
              && ValidPlacement(r.value) && r.value.shards == cat.shards && r.value.strategy == cat.strategy
              && r.value.version == cat.version && r.value.epoch == cat.epoch + 1
              && r.value.nodes == cat.nodes[node := cat.nodes[node].(state := NodeDecommissioned)]
  {
    if !ValidNodeId(node) || node !in cat.nodes || !cat.nodes[node].state.NodeDraining? {
      return Err("node is not draining");
    }
    for n := 0 to |cat.shards|
      invariant forall i :: 0 <= i < n && !cat.shards[i].state.Decommissioned? ==> !Refers(cat.shards[i], node)
    {
      if !cat.shards[n].state.Decommissioned? && Refers(cat.shards[n], node) {
        return Err("node is still referenced");
      }
    }
    var after := cat.(epoch := cat.epoch + 1, nodes := cat.nodes[node := cat.nodes[node].(state := NodeDecommissioned)]);
    var ok := ValidatePlacement(after);
    return if ok then Ok(after) else Err("invalid placement");
  }

  /** A successful drain always opens the way for the decommission that follows. */
  method DrainThenDecommission(cat: Catalog, req: Request, orders: nat -> seq<string>)
      returns (done: Option<Catalog>, ghost targets: seq<string>)
    requires ValidPlacement(cat) && InIdOrder(cat.shards)
    requires req.node in cat.nodes ==> forall i :: Ranking(MarkedDraining(cat, req.node), orders(i))
    ensures done.Some? ==>
              && ValidPlacement(done.value) && Unreferenced(done.value.shards, req.node)
              && req.node in done.value.nodes && done.value.nodes[req.node].state.NodeDecommissioned?
    ensures done.Some? && cat.strategy.TokenRangeV1? ==>
              InService(done.value) && forall t: Token :: Owner(done.value, t) == Owner(cat, t)
    ensures SetOf(targets) == Named(req.targets) && (done.Some? <==> DrainPossible(cat, req, targets))
  {
    var drained, steps;
    drained, steps, targets := PlanDrain(cat, req, orders);
    if drained.Err? {
      return None, targets;
    }
    if cat.strategy.TokenRangeV1? {
      MembershipKeepsRouting(cat, drained.value);
    }
    var last := PlanDecommission(drained.value, req.node);
    return Some(last.value), targets;
  }
}
