/**
 What the manager checks and looks up before a resharding operation or a routed write
 touches any row.
 */
module Requests {
  import opened Wrappers
  import opened Ring
  import opened Tokens
  import opened Catalogs
  import opened Routing
  import opened Rows
  import opened Reshard

  // ---- request validation ------------------------------------------------------------

  /** `validateFinalizeSplit`: what the parent keeps, if the request is in order. */
  method ValidateFinalizeSplit(cat: Catalog, parent: nat, child: nat, expected: nat) returns (r: Option<TokenRange>)
    ensures r.Some? ==> FinalizeAccepted(cat, SplitKind, parent, child, expected, [r.value])
    ensures r.None? ==> forall kept :: !FinalizeAccepted(cat, SplitKind, parent, child, expected, kept)
  {
    if !cat.strategy.TokenRangeV1? || (expected != 0 && expected != cat.epoch) {
      return None;
    }
    if parent >= |cat.shards| || child >= |cat.shards| {
      return None;
    }
    var p, c := cat.shards[parent], cat.shards[child];
    if !p.state.Splitting? || !c.state.Creating? || |p.ranges| != 1 || |c.ranges| != 1 {
      return None;
    }
    var parentRange, childRange := p.ranges[0], c.ranges[0];
    if childRange.end != parentRange.end || !TokenStrictlyInside(parentRange, childRange.start) {
      return None;
    }
    var (kept, expectedChild) := SplitRange(parentRange, childRange.start);
    if expectedChild != childRange {
      return None;
    }
    return Some(kept);
  }

  /** `validateFinalizeRangeMove`: what the source keeps, if the request is in order. */
  method ValidateFinalizeRangeMove(cat: Catalog, src: nat, dst: nat, expected: nat)
      returns (r: Option<seq<TokenRange>>)
    ensures r.Some? ==> FinalizeAccepted(cat, MoveKind, src, dst, expected, r.value)
    ensures r.None? ==> forall kept :: !FinalizeAccepted(cat, MoveKind, src, dst, expected, kept)
  {
    if !cat.strategy.TokenRangeV1? || (expected != 0 && expected != cat.epoch) {
      return None;
    }
    if src >= |cat.shards| || dst >= |cat.shards| || src == dst {
      return None;
    }
    var source, target := cat.shards[src], cat.shards[dst];
    if !source.state.Moving? || !target.state.Creating? || |target.ranges| != 1 {
      return None;
    }
    r := SubtractTokenRanges(source.ranges, target.ranges[0]);
  }

  /** `validatePublishedSplitPlacement` and `validatePublishedRangeMovePlacement`. */
  method ValidatePublished(cat: Catalog, rec: Record) returns (ok: bool)
    ensures ok <==> ResumeAccepted(cat, rec)
  {
    if !cat.strategy.TokenRangeV1? || rec.src >= |cat.shards| || rec.dst >= |cat.shards| {
      return false;
    }
    var source, target := cat.shards[rec.src], cat.shards[rec.dst];
    if !source.state.Active? && !(rec.kind.MoveKind? && source.state.Decommissioned?) {
      return false;
    }
    if !target.state.Active? || source.ranges != rec.kept {
      return false;
    }
    return |target.ranges| == 1 && target.ranges[0] == rec.rng;
  }

  // ---- write targets --------------------------------------------------------------------

  /** The inner loop of `writeTargetsForPKLocked`: does the shard list the token. */
  method ListsToken(sh: Shard, t: Token) returns (b: bool)
    ensures b <==> Lists(sh, t)
  {
    for j := 0 to |sh.ranges|
      invariant forall k :: 0 <= k < j ==> !sh.ranges[k].Contains(t)
    {
      if sh.ranges[j].Contains(t) {
        return true;
      }
    }
    return false;
  }

  /** Where a token is routed: to its owner, or under modulo placement by its remainder. */
  ghost function RoutedTo(cat: Catalog, t: Token): nat
    requires ValidPlacement(cat) && InIdOrder(cat.shards)
  {
    if cat.strategy.TokenRangeV1? then Owner(cat, t) else t % |cat.shards|
  }

  /** The shard is being created for the token while its owner is splitting or moving. */
  ghost predicate Mirrors(cat: Catalog, primary: nat, m: nat, t: Token) {
    && cat.strategy.TokenRangeV1? && primary < |cat.shards| && m < |cat.shards|
    && (cat.shards[primary].state.Splitting? || cat.shards[primary].state.Moving?)
    && cat.shards[m].state.Creating? && Lists(cat.shards[m], t)
  }

  /** `writeTargetsForPKLocked`: the routed shard, and the mirrors a transition needs. */
  method WriteTargetsForPK(router: Router, t: Token, epoch: nat) returns (r: Result<(nat, seq<nat>)>)
    requires Built(router)
    ensures var cat := router.catalog;
            && (r.Ok? <==> EpochOk(cat, epoch) && cat.shards[RoutedTo(cat, t)].state.Routable())
            && (cat.strategy.TokenRangeV1? ==> cat.shards[RoutedTo(cat, t)].state.Routable())
            && (r.Ok? ==> r.value.0 == RoutedTo(cat, t))
            && (r.Ok? ==> r.value.1 == if cat.strategy.TokenRangeV1? then MirrorsFor(cat.shards, r.value.0, t) else [])
    ensures r.Ok? ==> forall m: nat :: m in r.value.1 <==> Mirrors(router.catalog, r.value.0, m, t)
    ensures r.Ok? ==> forall i, j :: 0 <= i < j < |r.value.1| ==> r.value.1[i] < r.value.1[j]
  {
    var shards := router.catalog.shards;
    if epoch != 0 && epoch != router.catalog.epoch {
      return Err("stale routing epoch");
    }
    var routed := ShardForUint64(router, t);
    var primary := routed.value;
    if !shards[primary].state.Routable() {
      return Err("routed to non-routable shard");
    }
    if (!shards[primary].state.Splitting? && !shards[primary].state.Moving?) || !router.catalog.strategy.TokenRangeV1? {
      return Ok((primary, []));
    }
    var mirrors: seq<nat> := [];
    for n := 0 to |shards|
      invariant mirrors == CreatingFor(shards[..n], t)
    {
      assert shards[..n + 1][..n] == shards[..n];
      if !shards[n].state.Creating? {
        continue;
      }
      var lists := ListsToken(shards[n], t);
      if lists {
        mirrors := mirrors + [n];
      }
    }
    assert shards[..|shards|] == shards;
    CreatingForAreCreating(shards, t);
    return Ok((primary, mirrors));
  }

  // ---- row selection ------------------------------------------------------------------------

  /** The keys of the selected rows, table by table (`primaryItemsInRange`). */
  method SelectedKeys(tables: seq<string>, db: Store, rng: TokenRange) returns (keys: seq<Key>)
    requires forall i, j :: 0 <= i < j < |tables| ==> tables[i] != tables[j]
    ensures forall k :: k in keys <==> k in RowsIn(db, TableSet(tables), rng)
    ensures forall i, j :: 0 <= i < j < |keys| ==> keys[i] != keys[j]
  {
    keys := [];
    for n := 0 to |tables|
      invariant forall k :: k in keys <==> k in db && k.table in tables[..n] && rng.Contains(k.token)
      invariant forall i, j :: 0 <= i < j < |keys| ==> keys[i] != keys[j]
    {
      var all := Iterate(db, tables[n]);
      assert tables[..n + 1] == tables[..n] + [tables[n]];
      ghost var before := keys;
      for i := 0 to |all|
        invariant forall k :: k in keys <==> k in before || (k in all[..i] && rng.Contains(k.token))
        invariant forall i, j :: 0 <= i < j < |keys| ==> keys[i] != keys[j]
      {
        assert all[..i + 1] == all[..i] + [all[i]];
        if rng.Contains(all[i].token) {
          assert all[i] in all && all[i] !in before && all[i] !in all[..i];
          keys := keys + [all[i]];
        }
      }
      assert all[..|all|] == all;
    }
    assert tables[..|tables|] == tables;
  }
}
