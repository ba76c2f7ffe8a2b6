/**
 The placement policy: which active nodes become a shard's voters, and the
 membership steps that take one voter set to another.
 */
module Policy {
  import opened Wrappers
  import opened Sets
  import opened Catalogs

  // ---- lists of node ids --------------------------------------------------------------

  ghost predicate Distinct(ids: seq<string>) {
    forall i, j :: 0 <= i < j < |ids| ==> ids[i] != ids[j]
  }

  ghost function SetOf(ids: seq<string>): set<string> {
    set id | id in ids
  }

  lemma {:induction false} DistinctSize(ids: seq<string>)
    requires Distinct(ids)
    ensures |SetOf(ids)| == |ids|
  {
    if ids != [] {
      var n := |ids| - 1;
      DistinctSize(ids[..n]);
      assert ids == ids[..n] + [ids[n]];
      assert SetOf(ids) == SetOf(ids[..n]) + {ids[n]};
    }
  }

  /** `sortedUnique`, as a set: the distinct ids without the empty one. */
  ghost function Named(ids: seq<string>): set<string> {
    set id | id in ids && id != ""
  }

  method Unique(ids: seq<string>) returns (out: seq<string>)
    ensures Distinct(out) && SetOf(out) == Named(ids) && |out| == |Named(ids)|
  {
    out := [];
    for n := 0 to |ids|
      invariant Distinct(out) && forall id :: id in out <==> id in ids[..n] && id != ""
    {
      assert ids[..n + 1] == ids[..n] + [ids[n]];
      if ids[n] == "" || ids[n] in out {
        continue;
      }
      out := out + [ids[n]];
    }
    assert ids[..|ids|] == ids;
    assert SetOf(out) == Named(ids);
    DistinctSize(out);
  }

  // ---- candidates -----------------------------------------------------------------------

  predicate IsActive(nodes: map<string, Node>, id: string) {
    id in nodes && nodes[id].state.NodeActive?
  }

  ghost function ActiveNodes(nodes: map<string, Node>): set<string> {
    set id | id in nodes && nodes[id].state.NodeActive?
  }

  /** The active nodes, best score first: any arrangement of them. */
  ghost predicate Ranking(nodes: map<string, Node>, order: seq<string>) {
    Distinct(order) && SetOf(order) == ActiveNodes(nodes)
  }

  /** Nodes without a zone count as zones of their own. */
  datatype ZoneKey = Zone(name: string) | Lone(id: string)

  function KeyOf(nodes: map<string, Node>, id: string): ZoneKey {
    if id in nodes && nodes[id].zone != "" then Zone(nodes[id].zone) else Lone(id)
  }

  /** Two nodes clash exactly when they are in the same named zone; a node without a zone clashes with none. */
  lemma SameZoneIff(nodes: map<string, Node>, a: string, b: string)
    requires a != b
    ensures KeyOf(nodes, a) == KeyOf(nodes, b) <==>
            HasZone(nodes, a) && HasZone(nodes, b) && nodes[a].zone == nodes[b].zone
  {
  }

  predicate HasZone(nodes: map<string, Node>, id: string) {
    id in nodes && nodes[id].zone != ""
  }

  function Zones(nodes: map<string, Node>, ids: seq<string>): set<ZoneKey> {
    set id | id in ids && HasZone(nodes, id) :: KeyOf(nodes, id)
  }

  ghost function Keys(nodes: map<string, Node>, ids: seq<string>): set<ZoneKey> {
    set id | id in ids :: KeyOf(nodes, id)
  }

  ghost predicate ZonesDiffer(nodes: map<string, Node>, ids: seq<string>) {
    FreshFrom(nodes, ids, 0)
  }

  /** Every id from the `n`th on has a zone that none before it has. */
  ghost predicate FreshFrom(nodes: map<string, Node>, ids: seq<string>, n: nat) {
    forall i, j :: 0 <= i < j < |ids| && n <= j ==> KeyOf(nodes, ids[i]) != KeyOf(nodes, ids[j])
  }

  /** Every candidate is taken, or its zone is. */
  ghost predicate NoZoneLeft(nodes: map<string, Node>, candidates: set<string>, ids: seq<string>) {
    forall id :: id in candidates ==> id in ids || KeyOf(nodes, id) in Keys(nodes, ids)
  }

  /** A voter that is not required shares its zone with another only when no candidate is left in a fresh zone. */
  ghost predicate Spread(nodes: map<string, Node>, candidates: set<string>, required: set<string>, ids: seq<string>) {
    forall u, v :: u in ids && v in ids && u != v && v !in required && KeyOf(nodes, u) == KeyOf(nodes, v) ==>
                     NoZoneLeft(nodes, candidates, ids)
  }

  lemma FreshIsSpread(nodes: map<string, Node>, candidates: set<string>, must: seq<string>, ids: seq<string>)
    requires must <= ids && FreshFrom(nodes, ids, |must|)
    ensures Spread(nodes, candidates, SetOf(must), ids)
  {
    forall u, v | u in ids && v in ids && u != v && v !in SetOf(must) ensures KeyOf(nodes, u) != KeyOf(nodes, v) {
      var i :| 0 <= i < |ids| && ids[i] == u;
      var j :| 0 <= j < |ids| && ids[j] == v;
      assert if i < j then KeyOf(nodes, ids[i]) != KeyOf(nodes, ids[j]) else KeyOf(nodes, ids[j]) != KeyOf(nodes, ids[i]);
    }
  }

  lemma MoreTaken(nodes: map<string, Node>, candidates: set<string>, ids: seq<string>, more: seq<string>)
    requires ids <= more && NoZoneLeft(nodes, candidates, ids)
    ensures NoZoneLeft(nodes, candidates, more)
  {
    forall id | id in candidates ensures id in more || KeyOf(nodes, id) in Keys(nodes, more) {
      if id in ids {
        var i :| 0 <= i < |ids| && ids[i] == id;
        assert more[i] == id;
      } else {
        var x :| x in ids && KeyOf(nodes, x) == KeyOf(nodes, id);
        var i :| 0 <= i < |ids| && ids[i] == x;
        assert more[i] == x;
      }
    }
  }

  lemma KeysSnoc(nodes: map<string, Node>, ids: seq<string>, id: string)
    ensures Keys(nodes, ids + [id]) == Keys(nodes, ids) + {KeyOf(nodes, id)}
  {
    var more := ids + [id];
    assert forall x :: x in more <==> x in ids || x == id;
  }

  lemma FreshKey(nodes: map<string, Node>, ids: seq<string>, id: string)
    requires ZonesDiffer(nodes, ids + [id])
    ensures ZonesDiffer(nodes, ids) && KeyOf(nodes, id) !in Keys(nodes, ids)
  {
    var more := ids + [id];
    forall i, j | 0 <= i < j < |ids| ensures KeyOf(nodes, ids[i]) != KeyOf(nodes, ids[j]) {
      assert KeyOf(nodes, more[i]) != KeyOf(nodes, more[j]);
    }
    forall x | x in ids ensures KeyOf(nodes, x) != KeyOf(nodes, id) {
      var i :| 0 <= i < |ids| && ids[i] == x;
      assert KeyOf(nodes, more[i]) != KeyOf(nodes, more[|ids|]);
    }
  }

  lemma {:induction false} KeysSize(nodes: map<string, Node>, ids: seq<string>)
    requires ZonesDiffer(nodes, ids)
    ensures |Keys(nodes, ids)| == |ids|
  {
    if ids != [] {
      var most, last := ids[..|ids| - 1], ids[|ids| - 1];
      assert ids == most + [last];
      FreshKey(nodes, most, last);
      KeysSize(nodes, most);
      KeysSnoc(nodes, most, last);
    }
  }

  // ---- selection --------------------------------------------------------------------------

  /** Candidates are taken in order; a pass may ask for a zone, and for one not used yet. */
  ghost predicate Chosen(order: seq<string>, nodes: map<string, Node>, selected: seq<string>, used: set<ZoneKey>) {
    Distinct(selected) && SetOf(selected) <= SetOf(order) && used == Keys(nodes, selected)
  }

  /** What a finished pass has to say of a candidate it left out. */
  ghost predicate Skipped(nodes: map<string, Node>, id: string, needZone: bool, freshZone: bool, used: set<ZoneKey>) {
    (needZone && !HasZone(nodes, id)) || (freshZone && KeyOf(nodes, id) in used)
  }

  /** The pass went down the ranking: whoever is above one it took was taken, or skipped for a reason. */
  ghost predicate InRank(nodes: map<string, Node>, order: seq<string>, start: seq<string>, selected: seq<string>,
                         needZone: bool, freshZone: bool, used: set<ZoneKey>) {
    forall i, j :: 0 <= i < j < |order| && order[j] in selected && order[j] !in start ==>
                     order[i] in selected || Skipped(nodes, order[i], needZone, freshZone, used)
  }

  /**
   Best first: a candidate ranked above a voter that was not required is a voter
   too, unless its zone is taken, or it has none and there are zones enough.
   */
  ghost predicate Ranked(nodes: map<string, Node>, order: seq<string>, required: set<string>, ids: seq<string>, zoned: bool) {
    forall i, j :: 0 <= i < j < |order| && order[j] in ids && order[j] !in required ==>
                     order[i] in ids || KeyOf(nodes, order[i]) in Keys(nodes, ids) || (zoned && !HasZone(nodes, order[i]))
  }

  lemma RankedOn(nodes: map<string, Node>, order: seq<string>, required: set<string>, ids: seq<string>, more: seq<string>,
                 needZone: bool, freshZone: bool, used: set<ZoneKey>, zoned: bool)
    requires Ranked(nodes, order, required, ids, zoned) && ids <= more && used == Keys(nodes, more)
    requires InRank(nodes, order, ids, more, needZone, freshZone, used) && (needZone ==> zoned)
    ensures Ranked(nodes, order, required, more, zoned)
  {
    forall id | id in ids ensures id in more {
      var i :| 0 <= i < |ids| && ids[i] == id;
      assert more[i] == id;
    }
    forall i, j | 0 <= i < j < |order| && order[j] in more && order[j] !in required
      ensures order[i] in more || KeyOf(nodes, order[i]) in Keys(nodes, more) || (zoned && !HasZone(nodes, order[i]))
    {
      if order[j] in ids && KeyOf(nodes, order[i]) in Keys(nodes, ids) {
        var x :| x in ids && KeyOf(nodes, x) == KeyOf(nodes, order[i]);
      }
    }
  }

  method Pass(nodes: map<string, Node>, order: seq<string>, want: nat, needZone: bool, freshZone: bool,
              start: seq<string>, startUsed: set<ZoneKey>, ghost from: nat)
      returns (selected: seq<string>, used: set<ZoneKey>)
    requires Distinct(order) && Chosen(order, nodes, start, startUsed) && |start| <= want
    ensures Chosen(order, nodes, selected, used) && |selected| <= want && start <= selected
    ensures |selected| == want || forall id :: id in order ==> id in selected || Skipped(nodes, id, needZone, freshZone, used)
    ensures freshZone && FreshFrom(nodes, start, from) ==> FreshFrom(nodes, selected, from)
    ensures InRank(nodes, order, start, selected, needZone, freshZone, used)
    ensures needZone && (forall id :: id in start ==> HasZone(nodes, id)) ==> forall id :: id in selected ==> HasZone(nodes, id)
  {
    selected, used := start, startUsed;
    for n := 0 to |order|
      invariant Chosen(order, nodes, selected, used) && |selected| <= want && start <= selected
      invariant forall i :: 0 <= i < n ==> order[i] in selected || Skipped(nodes, order[i], needZone, freshZone, used)
      invariant freshZone && FreshFrom(nodes, start, from) ==> FreshFrom(nodes, selected, from)
      invariant forall j :: 0 <= j < |order| && order[j] in selected && order[j] !in start ==> j < n
      invariant needZone && (forall id :: id in start ==> HasZone(nodes, id)) ==> forall id :: id in selected ==> HasZone(nodes, id)
    {
      if |selected| == want {
        return;
      }
      var id := order[n];
      if needZone && !HasZone(nodes, id) {
        continue;
      }
      if id in selected {
        continue;
      }
      if freshZone && KeyOf(nodes, id) in used {
        continue;
      }
      TakeOne(order, nodes, selected, used, id, from);
      selected, used := selected + [id], used + {KeyOf(nodes, id)};
    }
  }

  lemma TakeOne(order: seq<string>, nodes: map<string, Node>, selected: seq<string>, used: set<ZoneKey>, id: string,
                from: nat)
    requires Chosen(order, nodes, selected, used) && id in order && id !in selected
    ensures Chosen(order, nodes, selected + [id], used + {KeyOf(nodes, id)})
    ensures KeyOf(nodes, id) !in used && FreshFrom(nodes, selected, from) ==> FreshFrom(nodes, selected + [id], from)
  {
    var more := selected + [id];
    KeysSnoc(nodes, selected, id);
    if KeyOf(nodes, id) !in used && FreshFrom(nodes, selected, from) {
      forall i, j | 0 <= i < j < |more| && from <= j ensures KeyOf(nodes, more[i]) != KeyOf(nodes, more[j]) {
        if j == |selected| {
          assert selected[i] in selected && KeyOf(nodes, selected[i]) in used;
        }
      }
    }
  }

  /** An unrestricted pass stops short only when it has taken every candidate. */
  lemma AllTaken(nodes: map<string, Node>, order: seq<string>, selected: seq<string>, want: nat)
    requires Distinct(order) && Distinct(selected) && want <= |order|
    requires |selected| <= want && forall id :: id in order ==> id in selected
    ensures |selected| == want
  {
    DistinctSize(order);
    DistinctSize(selected);
    SubsetSize(SetOf(order), SetOf(selected));
  }

  /** A pass over zoned candidates stops short only when every zone is in use. */
  lemma ZonesSuffice(nodes: map<string, Node>, order: seq<string>, selected: seq<string>, used: set<ZoneKey>, want: nat)
    requires Chosen(order, nodes, selected, used) && ZonesDiffer(nodes, selected) && |selected| <= want
    requires |Zones(nodes, order)| >= want
    requires forall id :: id in order ==> id in selected || Skipped(nodes, id, true, true, used)
    ensures |selected| == want
  {
    forall key | key in Zones(nodes, order) ensures key in used {
      var id :| id in order && HasZone(nodes, id) && KeyOf(nodes, id) == key;
    }
    SubsetSize(Zones(nodes, order), used);
    KeysSize(nodes, selected);
  }

  /** How many voters a selection is for. */
  function Wanted(count: int, required: nat): nat {
    var floor := if count < 1 then 1 else count;
    if required > floor then required else floor
  }

  /** The three passes: zoned candidates in fresh zones, any in fresh zones, any at all. */
  method FillVoters(nodes: map<string, Node>, order: seq<string>, want: nat, must: seq<string>)
      returns (selected: seq<string>)
    requires Distinct(order) && Distinct(must) && SetOf(must) <= SetOf(order) && |must| <= want <= |order|
    ensures Distinct(selected) && |selected| == want && must <= selected && SetOf(selected) <= SetOf(order)
    ensures must == [] && |Zones(nodes, order)| >= want ==>
              ZonesDiffer(nodes, selected) && forall id :: id in selected ==> HasZone(nodes, id)
    ensures Spread(nodes, SetOf(order), SetOf(must), selected)
    ensures Ranked(nodes, order, SetOf(must), selected, |Zones(nodes, order)| >= want)
  {
    ghost var zoned := |Zones(nodes, order)| >= want;
    var used := set id | id in must :: KeyOf(nodes, id);
    selected := must;
    if |Zones(nodes, order)| >= want {
      selected, used := Pass(nodes, order, want, true, true, selected, used, |must|);
      RankedOn(nodes, order, SetOf(must), must, selected, true, true, used, zoned);
      if must == [] && |selected| != want {
        ZonesSuffice(nodes, order, selected, used, want);
      }
    }
    ghost var first := selected;
    selected, used := Pass(nodes, order, want, false, true, selected, used, |must|);
    RankedOn(nodes, order, SetOf(must), first, selected, false, true, used, zoned);
    ghost var second := selected;
    FreshIsSpread(nodes, SetOf(order), must, second);
    selected, used := Pass(nodes, order, want, false, false, selected, used, |must|);
    RankedOn(nodes, order, SetOf(must), second, selected, false, false, used, zoned);
    if |second| < want {
      MoreTaken(nodes, SetOf(order), second, selected);
    } else {
      assert selected == second;
    }
    if |selected| != want {
      AllTaken(nodes, order, selected, want);
    }
  }

  /** `validateNodeSet` on a list without repeats. */
  method AllActive(nodes: map<string, Node>, ids: seq<string>) returns (ok: bool)
    ensures ok <==> SetOf(ids) <= ActiveNodes(nodes)
  {
    for n := 0 to |ids|
      invariant forall i :: 0 <= i < n ==> ids[i] in ActiveNodes(nodes)
    {
      if !IsActive(nodes, ids[n]) {
        assert ids[n] in SetOf(ids);
        return false;
      }
    }
    return true;
  }

  /** A selection is possible: the required nodes are active, and there are enough nodes. */
  ghost predicate Selectable(nodes: map<string, Node>, count: int, required: seq<string>) {
    Named(required) <= ActiveNodes(nodes) && Wanted(count, |Named(required)|) <= |ActiveNodes(nodes)|
  }

  /** `selectPlacementVoters`; the order of the result is left open. */
  method SelectVoters(nodes: map<string, Node>, order: seq<string>, count: int, required: seq<string>)
      returns (r: Result<seq<string>>)
    requires Ranking(nodes, order)
    ensures r.Ok? <==> Selectable(nodes, count, required)
    ensures r.Ok? ==>
              && Distinct(r.value) && |r.value| == Wanted(count, |Named(required)|)
              && Named(required) <= SetOf(r.value) <= ActiveNodes(nodes)
    ensures r.Ok? && Named(required) == {} && |Zones(nodes, order)| >= |r.value| ==>
              ZonesDiffer(nodes, r.value) && forall id :: id in r.value ==> HasZone(nodes, id)
    ensures r.Ok? ==> Spread(nodes, ActiveNodes(nodes), Named(required), r.value)
    ensures r.Ok? ==> Ranked(nodes, order, Named(required), r.value, |Zones(nodes, order)| >= |r.value|)
  {
    var must := Unique(required);
    var active := AllActive(nodes, must);
    if !active {
      return Err("required node is not active");
    }
    var want := Wanted(count, |must|);
    DistinctSize(order);
    if |order| < want {
      return Err("not enough active nodes");
    }
    var selected := FillVoters(nodes, order, want, must);
    return Ok(selected);
  }

  // ---- membership steps -------------------------------------------------------------------

  datatype MemberStep = AddVoter(id: string) | WaitCatchup(id: string) | RemoveVoter(id: string)

  /** The voter set once the steps have been carried out. */
  ghost function VotersAfter(start: set<string>, steps: seq<MemberStep>): set<string> {
    if steps == [] then start
    else
      var before := VotersAfter(start, steps[..|steps| - 1]);
      match steps[|steps| - 1]
      case AddVoter(id) => before + {id}
      case WaitCatchup(_) => before
      case RemoveVoter(id) => before - {id}
  }

  /** Adds come first, removes of nodes that are to go come last. */
  ghost predicate AddsThenRemoves(steps: seq<MemberStep>, n: nat, target: set<string>) {
    && n <= |steps|
    && (forall i :: 0 <= i < n ==> !steps[i].RemoveVoter?)
    && (forall i :: n <= i < |steps| ==> steps[i].RemoveVoter? && steps[i].id !in target)
  }

  /** The steps add exactly the new voters, and wait for each of them before the first remove. */
  ghost predicate CatchesUp(steps: seq<MemberStep>, n: nat, current: seq<string>, target: seq<string>)
    requires n <= |steps|
  {
    && (forall i :: 0 <= i < |steps| && steps[i].AddVoter? ==> steps[i].id in target && steps[i].id !in current)
    && (forall id :: id in target && id !in current ==> exists i, j :: 0 <= i < j < n && AddsAndWaits(steps, i, j, id))
    && (forall i :: 0 <= i < |steps| && steps[i].RemoveVoter? ==> steps[i].id in current)
  }

  ghost predicate AddsAndWaits(steps: seq<MemberStep>, i: int, j: int, id: string)
    requires 0 <= i < j < |steps|
  {
    steps[i] == AddVoter(id) && steps[j] == WaitCatchup(id)
  }

  /** The old voters are all there until the new ones are. */
  lemma {:induction false} NeverShort(start: set<string>, target: set<string>, steps: seq<MemberStep>, n: nat, k: nat)
    requires AddsThenRemoves(steps, n, target) && k <= |steps|
    requires target <= VotersAfter(start, steps[..n])
    ensures k <= n ==> start <= VotersAfter(start, steps[..k])
    ensures k >= n ==> target <= VotersAfter(start, steps[..k])
  {
    if k == 0 {
      assert steps[..0] == [];
    } else {
      NeverShort(start, target, steps, n, k - 1);
      assert steps[..k][..k - 1] == steps[..k - 1];
    }
  }

  // ---- the three loops of `membershipDiffSteps` -------------------------------------------

  /** Exactly the new voters, each with the step. */
  ghost predicate ForNew(steps: seq<MemberStep>, current: seq<string>, target: seq<string>, wait: bool) {
    && (forall step :: step in steps ==>
          (if wait then step.WaitCatchup? else step.AddVoter?) && step.id in target && step.id !in current)
    && (forall id :: id in target && id !in current ==> (if wait then WaitCatchup(id) else AddVoter(id)) in steps)
  }

  method StepsForNew(current: seq<string>, target: seq<string>, wait: bool) returns (steps: seq<MemberStep>)
    ensures ForNew(steps, current, target, wait)
  {
    steps := [];
    for n := 0 to |target|
      invariant forall step :: step in steps ==>
                  (if wait then step.WaitCatchup? else step.AddVoter?) && step.id in target && step.id !in current
      invariant forall id :: id in target[..n] && id !in current ==> (if wait then WaitCatchup(id) else AddVoter(id)) in steps
    {
      var id := target[n];
      assert target[..n + 1] == target[..n] + [id];
      if id !in current {
        steps := steps + [if wait then WaitCatchup(id) else AddVoter(id)];
      }
    }
    assert target[..|target|] == target;
  }

  /** Exactly the old voters that are not to stay. */
  ghost predicate ForOld(steps: seq<MemberStep>, current: seq<string>, target: seq<string>) {
    && (forall step :: step in steps ==> step.RemoveVoter? && step.id in current && step.id !in target)
    && (forall id :: id in current && id !in target ==> RemoveVoter(id) in steps)
  }

  method StepsForOld(current: seq<string>, target: seq<string>) returns (steps: seq<MemberStep>)
    ensures ForOld(steps, current, target)
  {
    steps := [];
    for n := 0 to |current|
      invariant forall step :: step in steps ==> step.RemoveVoter? && step.id in current && step.id !in target
      invariant forall id :: id in current[..n] && id !in target ==> RemoveVoter(id) in steps
    {
      var id := current[n];
      assert current[..n + 1] == current[..n] + [id];
      if id !in target {
        steps := steps + [RemoveVoter(id)];
      }
    }
    assert current[..|current|] == current;
  }

  lemma {:induction false} AfterConcat(start: set<string>, a: seq<MemberStep>, b: seq<MemberStep>)
    ensures VotersAfter(start, a + b) == VotersAfter(VotersAfter(start, a), b)
  {
    if b == [] {
      assert a + b == a;
    } else {
      AfterConcat(start, a, b[..|b| - 1]);
      assert (a + b)[..|a + b| - 1] == a + b[..|b| - 1];
    }
  }

  /** A voter is there afterwards if it was or is added, unless it is removed; not both in one list. */
  lemma {:induction false} AfterMember(start: set<string>, steps: seq<MemberStep>, id: string)
    requires AddVoter(id) !in steps || RemoveVoter(id) !in steps
    ensures id in VotersAfter(start, steps) <==> AddVoter(id) in steps || (id in start && RemoveVoter(id) !in steps)
  {
    if steps != [] {
      var most, last := steps[..|steps| - 1], steps[|steps| - 1];
      assert steps == most + [last];
      AfterMember(start, most, id);
    }
  }

  lemma AfterJoins(start: set<string>, adds: seq<MemberStep>, waits: seq<MemberStep>, current: seq<string>, target: seq<string>)
    requires ForNew(adds, current, target, false) && ForNew(waits, current, target, true) && start == SetOf(current)
    ensures VotersAfter(start, adds + waits) == SetOf(current) + SetOf(target)
  {
    var steps := adds + waits;
    forall id ensures id in VotersAfter(start, steps) <==> id in SetOf(current) + SetOf(target) {
      assert forall step :: step in steps <==> step in adds || step in waits;
      AfterMember(start, steps, id);
    }
  }

  lemma AfterLeaves(start: set<string>, removes: seq<MemberStep>, current: seq<string>, target: seq<string>)
    requires ForOld(removes, current, target) && start == SetOf(current) + SetOf(target)
    ensures VotersAfter(start, removes) == SetOf(target)
  {
    forall id ensures id in VotersAfter(start, removes) <==> id in SetOf(target) {
      AfterMember(start, removes, id);
    }
  }

  lemma CaughtUp(adds: seq<MemberStep>, waits: seq<MemberStep>, removes: seq<MemberStep>, current: seq<string>, target: seq<string>)
    requires ForNew(adds, current, target, false) && ForNew(waits, current, target, true) && ForOld(removes, current, target)
    ensures AddsThenRemoves(adds + waits + removes, |adds| + |waits|, SetOf(target))
    ensures CatchesUp(adds + waits + removes, |adds| + |waits|, current, target)
  {
    var steps := adds + waits + removes;
    forall i | 0 <= i < |steps|
      ensures i < |adds| ==> steps[i] in adds
      ensures |adds| <= i < |adds| + |waits| ==> steps[i] in waits
      ensures |adds| + |waits| <= i ==> steps[i] in removes
    {
    }
    forall id | id in target && id !in current
      ensures exists i, j :: 0 <= i < j < |adds| + |waits| && AddsAndWaits(steps, i, j, id)
    {
      var i :| 0 <= i < |adds| && adds[i] == AddVoter(id);
      var k :| 0 <= k < |waits| && waits[k] == WaitCatchup(id);
      assert AddsAndWaits(steps, i, |adds| + k, id);
    }
  }

  /** `membershipDiffSteps`: add, wait for catch-up, then remove. */
  method MembershipDiffSteps(current: seq<string>, target: seq<string>) returns (steps: seq<MemberStep>, ghost adds: nat)
    ensures AddsThenRemoves(steps, adds, SetOf(target)) && CatchesUp(steps, adds, current, target)
    ensures VotersAfter(SetOf(current), steps[..adds]) == SetOf(current) + SetOf(target)
    ensures VotersAfter(SetOf(current), steps) == SetOf(target)
  {
    var joins := StepsForNew(current, target, false);
    var waits := StepsForNew(current, target, true);
    var leaves := StepsForOld(current, target);
    steps, adds := joins + waits + leaves, |joins| + |waits|;
    CaughtUp(joins, waits, leaves, current, target);
    AfterJoins(SetOf(current), joins, waits, current, target);
    AfterLeaves(SetOf(current) + SetOf(target), leaves, current, target);
    AfterConcat(SetOf(current), joins + waits, leaves);
    assert steps[..adds] == joins + waits;
  }
}
