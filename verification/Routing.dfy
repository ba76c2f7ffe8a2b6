/**
 The partition router: a binary search over the well-ordered ranges sorted by
 their end, then a scan of the wrapping and full-ring ones.
 */
module Routing {
  import opened Wrappers
  import opened Ring
  import opened Sorting
  import opened Catalogs

  datatype RouteRange = RouteRange(shardID: nat, rng: TokenRange)

  datatype Router = Router(catalog: Catalog, normalRanges: seq<RouteRange>, specialRanges: seq<RouteRange>)

  function RangeEnd(rr: RouteRange): int {
    rr.rng.end
  }

  ghost predicate ListedAt(shards: seq<Shard>, rr: RouteRange, i: int, j: int) {
    && 0 <= i < |shards| && shards[i].state.Routable()
    && 0 <= j < |shards[i].ranges|
    && rr == RouteRange(shards[i].id, shards[i].ranges[j])
  }

  /** `rr` is a range of a routable shard. */
  ghost predicate Listed(shards: seq<Shard>, rr: RouteRange) {
    exists i, j :: ListedAt(shards, rr, i, j)
  }

  /** The two tables hold exactly the routable ranges, split by whether they wrap. */
  ghost predicate Tables(shards: seq<Shard>, normal: seq<RouteRange>, special: seq<RouteRange>) {
    && (forall rr :: rr in normal ==> Listed(shards, rr) && rr.rng.start < rr.rng.end)
    && (forall rr :: rr in special ==> Listed(shards, rr) && rr.rng.start >= rr.rng.end)
    && (forall rr :: Listed(shards, rr) ==> rr in normal || rr in special)
  }

  /** The ranges of the routable shards, one after the other. */
  ghost function RouteRanges(shards: seq<Shard>): seq<RouteRange> {
    if shards == [] then []
    else
      var sh := shards[|shards| - 1];
      RouteRanges(shards[..|shards| - 1]) + if sh.state.Routable() then RangesOf(sh, |sh.ranges|) else []
  }

  ghost function RangesOf(sh: Shard, m: nat): seq<RouteRange>
    requires m <= |sh.ranges|
  {
    seq(m, j requires 0 <= j < m => RouteRange(sh.id, sh.ranges[j]))
  }

  /** Each of them is in one table, as often as it is listed. */
  ghost predicate ListedOnce(ranges: seq<RouteRange>, normal: seq<RouteRange>, special: seq<RouteRange>) {
    multiset(normal) + multiset(special) == multiset(ranges)
  }

  /** What the constructor guarantees about a router. */
  ghost predicate Built(r: Router) {
    && InIdOrder(r.catalog.shards) && ValidPlacement(r.catalog)
    && (r.catalog.strategy.TokenRangeV1? ==>
          && Tables(r.catalog.shards, r.normalRanges, r.specialRanges)
          && SortedBy(r.normalRanges, RangeEnd))
  }

  /** Ranges seen so far: all of the first `n` shards and the first `m` ranges of shard `n`. */
  ghost predicate SeenAt(shards: seq<Shard>, rr: RouteRange, n: nat, m: nat) {
    exists i, j :: ListedAt(shards, rr, i, j) && (i < n || (i == n && j < m))
  }

  ghost predicate TablesSoFar(
    shards: seq<Shard>, n: nat, m: nat, normal: seq<RouteRange>, special: seq<RouteRange>)
  {
    && (forall rr :: rr in normal ==> Listed(shards, rr) && rr.rng.start < rr.rng.end)
    && (forall rr :: rr in special ==> Listed(shards, rr) && rr.rng.start >= rr.rng.end)
    && (forall rr :: SeenAt(shards, rr, n, m) ==> rr in normal || rr in special)
  }

  /** The collecting loop over one shard's ranges. */
  method CollectShard(shards: seq<Shard>, n: nat, normal0: seq<RouteRange>, special0: seq<RouteRange>)
      returns (normal: seq<RouteRange>, special: seq<RouteRange>)
    requires n < |shards| && shards[n].state.Routable()
    requires TablesSoFar(shards, n, 0, normal0, special0)
    ensures TablesSoFar(shards, n + 1, 0, normal, special)
    ensures multiset(normal) + multiset(special)
         == multiset(normal0) + multiset(special0) + multiset(RangesOf(shards[n], |shards[n].ranges|))
  {
    normal, special := normal0, special0;
    var sh := shards[n];
    for m := 0 to |sh.ranges|
      invariant TablesSoFar(shards, n, m, normal, special)
      invariant multiset(normal) + multiset(special)
             == multiset(normal0) + multiset(special0) + multiset(RangesOf(sh, m))
    {
      var rr := RouteRange(sh.id, sh.ranges[m]);
      assert ListedAt(shards, rr, n, m);
      assert RangesOf(sh, m + 1) == RangesOf(sh, m) + [rr];
      if rr.rng.start == rr.rng.end {
        CountOneMore(normal, special, special + [rr], rr);
        special := special + [rr];
      } else if rr.rng.start < rr.rng.end {
        CountOneMore(special, normal, normal + [rr], rr);
        normal := normal + [rr];
      } else {
        CountOneMore(normal, special, special + [rr], rr);
        special := special + [rr];
      }
    }
  }

  lemma CountOneMore(other: seq<RouteRange>, table: seq<RouteRange>, more: seq<RouteRange>, rr: RouteRange)
    requires more == table + [rr]
    ensures multiset(other) + multiset(more) == multiset(other) + multiset(table) + multiset{rr}
    ensures multiset(more) + multiset(other) == multiset(table) + multiset(other) + multiset{rr}
  {
  }

  method CollectRanges(shards: seq<Shard>) returns (normal: seq<RouteRange>, special: seq<RouteRange>)
    ensures Tables(shards, normal, special) && ListedOnce(RouteRanges(shards), normal, special)
  {
    normal, special := [], [];
    for n := 0 to |shards|
      invariant TablesSoFar(shards, n, 0, normal, special)
      invariant ListedOnce(RouteRanges(shards[..n]), normal, special)
    {
      assert shards[..n + 1][..n] == shards[..n];
      if shards[n].state.Routable() {
        normal, special := CollectShard(shards, n, normal, special);
      }
    }
    assert shards[..|shards|] == shards;
    forall rr | Listed(shards, rr) ensures rr in normal || rr in special {
      var i, j :| ListedAt(shards, rr, i, j);
      assert SeenAt(shards, rr, |shards|, 0);
    }
  }

  /** Builds a router exactly for the catalogs that validate. */
  method NewRouterFromCatalog(cat: Catalog) returns (r: Result<Router>)
    ensures r.Ok? <==> ValidPlacement(cat)
    ensures r.Ok? ==> Built(r.value) && r.value.catalog == cat.(shards := r.value.catalog.shards)
    ensures r.Ok? ==> multiset(r.value.catalog.shards) == multiset(cat.shards)
    ensures r.Ok? && cat.strategy.TokenRangeV1? ==>
              ListedOnce(RouteRanges(r.value.catalog.shards), r.value.normalRanges, r.value.specialRanges)
  {
    var ok := ValidatePlacement(cat);
    if !ok {
      return Err("invalid placement");
    }
    var shards := Sort(cat.shards, ShardId);
    var c := cat.(shards := shards);
    SortedCatalogIsValid(cat, c);
    if !cat.strategy.TokenRangeV1? {
      return Ok(Router(c, [], []));
    }
    var normal, special := CollectRanges(shards);
    var sorted := Sort(normal, RangeEnd);
    SameElements(sorted, normal);
    return Ok(Router(c, sorted, special));
  }

  lemma SortedCatalogIsValid(cat: Catalog, c: Catalog)
    requires ValidPlacement(cat) && c == cat.(shards := c.shards)
    requires multiset(c.shards) == multiset(cat.shards) && SortedBy(c.shards, ShardId)
    ensures InIdOrder(c.shards) && ValidPlacement(c)
  {
    var p :| multiset(p) == multiset(cat.shards) && InIdOrder(p);
    SortedIsInOrder(p, c.shards);
    SameElements(c.shards, cat.shards);
    forall i | 0 <= i < |c.shards| ensures ShardAccepted(c.strategy, c.shards[i]) {
      assert c.shards[i] in cat.shards;
    }
    forall t: Token ensures ShardOwners(c.shards, t) == ShardOwners(cat.shards, t) {
      ShardOwnersPermute(c.shards, cat.shards, t);
    }
  }

  /** Go's sort.Search: on ends in order, the first one past `h`. */
  method FirstEndPast(ranges: seq<RouteRange>, h: Token) returns (idx: nat)
    ensures idx <= |ranges|
    ensures SortedBy(ranges, RangeEnd) ==>
              && (forall k :: 0 <= k < idx ==> RangeEnd(ranges[k]) <= h)
              && (forall k :: idx <= k < |ranges| ==> RangeEnd(ranges[k]) > h)
  {
    var lo, hi := 0, |ranges|;
    while lo < hi
      invariant 0 <= lo <= hi <= |ranges|
      invariant SortedBy(ranges, RangeEnd) ==>
                  && (forall k :: 0 <= k < lo ==> RangeEnd(ranges[k]) <= h)
                  && (forall k :: hi <= k < |ranges| ==> RangeEnd(ranges[k]) > h)
    {
      var mid := (lo + hi) / 2;
      if RangeEnd(ranges[mid]) > h {
        hi := mid;
      } else {
        lo := mid + 1;
      }
    }
    return lo;
  }

  /** A listed range holding the token names the token's owner. */
  lemma ListedNamesOwner(cat: Catalog, rr: RouteRange, h: Token)
    requires InService(cat) && Listed(cat.shards, rr) && rr.rng.Contains(h)
    ensures rr.shardID == Owner(cat, h)
  {
    var i, j :| ListedAt(cat.shards, rr, i, j);
    assert Serves(cat.shards[i], h);
    OwnerUnique(cat.shards, h, i);
  }

  /** Under an exact cover two different listed ranges share no token. */
  lemma ListedDisjoint(shards: seq<Shard>, a: RouteRange, b: RouteRange, t: Token)
    requires ExactCover(shards) && Listed(shards, a) && Listed(shards, b)
    requires a.rng.Contains(t) && b.rng.Contains(t)
    ensures a == b
  {
    var i, j :| ListedAt(shards, a, i, j);
    var k, l :| ListedAt(shards, b, k, l);
    OwnersAtLeast(shards[i].ranges, j, j, t);
    OwnersAtLeast(shards[k].ranges, l, l, t);
    if i < k {
      OwnersAddUp(shards, i, k, t);
    } else if k < i {
      OwnersAddUp(shards, k, i, t);
    } else {
      OwnersAddUp(shards, i, i, t);
      if j < l {
        OwnersAtLeast(shards[i].ranges, j, l, t);
      } else if l < j {
        OwnersAtLeast(shards[i].ranges, l, j, t);
      }
    }
  }

  /** If the candidate starts past the token, no well-ordered range holds it. */
  lemma CandidateDecides(r: Router, idx: nat, h: Token, rr: RouteRange)
    requires Built(r) && r.catalog.strategy.TokenRangeV1?
    requires idx <= |r.normalRanges|
    requires forall k :: 0 <= k < idx ==> RangeEnd(r.normalRanges[k]) <= h
    requires idx < |r.normalRanges| ==> r.normalRanges[idx].rng.start > h
    requires rr in r.normalRanges
    ensures !rr.rng.Contains(h)
  {
    if rr.rng.Contains(h) {
      var k :| 0 <= k < |r.normalRanges| && r.normalRanges[k] == rr;
      var c := r.normalRanges[idx];
      assert c in r.normalRanges && idx < k ==> RangeEnd(c) <= RangeEnd(rr);
      ListedDisjoint(r.catalog.shards, c, rr, c.rng.start);
    }
  }

  /**
   Routes a token. On a router built from a token-range catalog the answer is
   always the one shard that serves the token, never "no shard".
   */
  method ShardForUint64(r: Router, h: Token) returns (res: Result<nat>)
    ensures Built(r) && r.catalog.strategy.TokenRangeV1? ==> res == Ok(Owner(r.catalog, h))
    ensures Built(r) && r.catalog.strategy.LegacyModuloV1? ==> res == Ok(h % |r.catalog.shards|)
    ensures r.catalog.shards == [] ==> res == Ok(0)
  {
    if r.catalog.shards == [] {
      return Ok(0);
    }
    if r.catalog.strategy.LegacyModuloV1? {
      if |r.catalog.shards| == 1 {
        return Ok(0);
      }
      return Ok(h % |r.catalog.shards|);
    }
    ghost var ready := Built(r) && r.catalog.strategy.TokenRangeV1?;
    var idx := FirstEndPast(r.normalRanges, h);
    if idx < |r.normalRanges| {
      var rr := r.normalRanges[idx];
      if h >= rr.rng.start {
        if ready {
          assert rr in r.normalRanges && RangeEnd(rr) > h;
          ListedNamesOwner(r.catalog, rr, h);
        }
        return Ok(rr.shardID);
      }
    }
    for n := 0 to |r.specialRanges|
      invariant forall k :: 0 <= k < n ==> !r.specialRanges[k].rng.Contains(h)
    {
      var rr := r.specialRanges[n];
      if rr.rng.Contains(h) {
        if ready {
          assert rr in r.specialRanges;
          ListedNamesOwner(r.catalog, rr, h);
        }
        return Ok(rr.shardID);
      }
    }
    if ready {
      var i := Owner(r.catalog, h);
      var j :| 0 <= j < |r.catalog.shards[i].ranges| && r.catalog.shards[i].ranges[j].Contains(h);
      var rr := RouteRange(i, r.catalog.shards[i].ranges[j]);
      assert ListedAt(r.catalog.shards, rr, i, j);
      if rr in r.normalRanges {
        CandidateDecides(r, idx, h, rr);
      }
      assert false;
    }
    return Err("no shard owns token under active placement");
  }
}
