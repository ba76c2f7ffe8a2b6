/**
 The placement catalog and its validation: which catalogs can drive routing.
 */
module Catalogs {
  import opened Ring
  import opened Sorting
  import opened Tokens

  const PLACEMENT_VERSION: nat := 1

  datatype ShardState =
    | Creating | Active | Splitting | Moving | Draining | ReadOnly | Decommissioned
    | Unknown(name: string)
  {
    predicate Routable() {
      Active? || Splitting? || Moving? || ReadOnly?
    }
  }

  datatype Strategy = TokenRangeV1 | LegacyModuloV1 | OtherStrategy(name: string)

  datatype NodeState = NodeActive | NodeDraining | NodeDecommissioned

  datatype Node = Node(state: NodeState, zone: string)

  datatype Shard = Shard(
    id: nat, ranges: seq<TokenRange>, state: ShardState, epoch: nat,
    voters: seq<string>, nonVoters: seq<string>, leaderHint: string)

  datatype Catalog = Catalog(
    version: nat, epoch: nat, strategy: Strategy, shards: seq<Shard>, nodes: map<string, Node>)

  // ---- who owns a token ---------------------------------------------------

  /** The plain definition of ownership: a routable shard lists a range holding the token. */
  ghost predicate Serves(sh: Shard, t: Token) {
    sh.state.Routable() && exists j :: 0 <= j < |sh.ranges| && sh.ranges[j].Contains(t)
  }

  ghost function OwnersIn(sh: Shard, t: Token): nat {
    if sh.state.Routable() then Owners(sh.ranges, t) else 0
  }

  /** How many routable ranges of the catalog contain `t`. */
  ghost function ShardOwners(shards: seq<Shard>, t: Token): nat {
    if shards == [] then 0
    else ShardOwners(shards[..|shards| - 1], t) + OwnersIn(shards[|shards| - 1], t)
  }

  /** Every one of the 2^64 tokens is in exactly one range of the routable shards. */
  ghost predicate ExactCover(shards: seq<Shard>) {
    forall t: Token :: ShardOwners(shards, t) == 1
  }

  /** Position of the shard that serves `t`. */
  ghost function OwnerOf(shards: seq<Shard>, t: Token): (i: nat)
    requires ExactCover(shards)
    ensures i < |shards| && Serves(shards[i], t)
  {
    OwnerExists(shards, t);
    var i :| 0 <= i < |shards| && Serves(shards[i], t);
    i
  }

  lemma ServesIffCounted(sh: Shard, t: Token)
    ensures Serves(sh, t) <==> OwnersIn(sh, t) > 0
  {
    if sh.state.Routable() && Owners(sh.ranges, t) > 0 {
      var j := OwnersWitness(sh.ranges, t);
    }
    if Serves(sh, t) {
      var j :| 0 <= j < |sh.ranges| && sh.ranges[j].Contains(t);
      OwnersAtLeast(sh.ranges, j, j, t);
    }
  }

  lemma {:induction false} OwnerExists(shards: seq<Shard>, t: Token)
    requires ShardOwners(shards, t) > 0
    ensures exists i :: 0 <= i < |shards| && Serves(shards[i], t)
  {
    var n := |shards| - 1;
    ServesIffCounted(shards[n], t);
    if OwnersIn(shards[n], t) == 0 {
      OwnerExists(shards[..n], t);
      var i :| 0 <= i < |shards[..n]| && Serves(shards[..n][i], t);
      assert Serves(shards[i], t);
    }
  }

  lemma {:induction false} OwnersAddUp(shards: seq<Shard>, i: nat, j: nat, t: Token)
    requires i <= j < |shards|
    ensures ShardOwners(shards, t) >= OwnersIn(shards[j], t) + if i < j then OwnersIn(shards[i], t) else 0
  {
    var n := |shards| - 1;
    if j < n {
      OwnersAddUp(shards[..n], i, j, t);
    } else if i < j {
      OwnersAddUp(shards[..n], i, i, t);
    }
  }

  /** Under an exact cover no two shards serve the same token. */
  lemma OwnerUnique(shards: seq<Shard>, t: Token, i: nat)
    requires ExactCover(shards) && i < |shards| && Serves(shards[i], t)
    ensures OwnerOf(shards, t) == i
  {
    var o := OwnerOf(shards, t);
    ServesIffCounted(shards[i], t);
    ServesIffCounted(shards[o], t);
    if i < o {
      OwnersAddUp(shards, i, o, t);
    } else if o < i {
      OwnersAddUp(shards, o, i, t);
    }
  }

  lemma {:induction false} ShardOwnersConcat(a: seq<Shard>, b: seq<Shard>, t: Token)
    ensures ShardOwners(a + b, t) == ShardOwners(a, t) + ShardOwners(b, t)
  {
    if b == [] {
      assert a + b == a;
    } else {
      var n := |b| - 1;
      assert (a + b)[..|a + b| - 1] == a + b[..n];
      ShardOwnersConcat(a, b[..n], t);
    }
  }

  /** Replacing one shard changes the count by exactly that shard's part. */
  lemma ShardOwnersUpdate(shards: seq<Shard>, i: nat, sh: Shard, t: Token)
    requires i < |shards|
    ensures ShardOwners(shards[i := sh], t) == ShardOwners(shards, t) - OwnersIn(shards[i], t) + OwnersIn(sh, t)
  {
    var a, b := shards[..i], shards[i + 1..];
    assert shards == a + [shards[i]] + b;
    assert shards[i := sh] == a + [sh] + b;
    ShardOwnersConcat(a + [shards[i]], b, t);
    ShardOwnersConcat(a + [sh], b, t);
    ShardOwnersConcat(a, [shards[i]], t);
    ShardOwnersConcat(a, [sh], t);
    assert [sh][..0] == [] && [shards[i]][..0] == [];
  }

  ghost function OwnersAt(t: Token): Shard -> nat {
    (sh: Shard) => OwnersIn(sh, t)
  }

  lemma {:induction false} ShardOwnersIsSum(shards: seq<Shard>, t: Token)
    ensures ShardOwners(shards, t) == Sum(shards, OwnersAt(t))
  {
    if shards != [] {
      ShardOwnersIsSum(shards[..|shards| - 1], t);
    }
  }

  lemma ShardOwnersPermute(a: seq<Shard>, b: seq<Shard>, t: Token)
    requires multiset(a) == multiset(b)
    ensures ShardOwners(a, t) == ShardOwners(b, t)
  {
    ShardOwnersIsSum(a, t);
    ShardOwnersIsSum(b, t);
    SumPermute(a, b, OwnersAt(t));
  }

  // ---- token coverage -----------------------------------------------------

  /** The segments of every routable range. */
  method RoutableSegments(shards: seq<Shard>) returns (segs: seq<Segment>)
    ensures AllValid(segs)
    ensures forall t: Token :: Cover(segs, t) == ShardOwners(shards, t)
  {
    segs := [];
    for n := 0 to |shards|
      invariant AllValid(segs)
      invariant forall t: Token :: Cover(segs, t) == ShardOwners(shards[..n], t)
    {
      assert shards[..n + 1][..n] == shards[..n];
      if !shards[n].state.Routable() {
        continue;
      }
      var more := CollectSegments(shards[n].ranges);
      forall t: Token ensures Cover(segs + more, t) == ShardOwners(shards[..n + 1], t) {
        CoverConcat(segs, more, t);
      }
      segs := segs + more;
    }
    assert shards[..|shards|] == shards;
  }

  /** Segments that start past `t` do not count it. */
  lemma LaterSegments(segs: seq<Segment>, n: nat, t: int)
    requires SortedBy(segs, Start) && n < |segs| && t < segs[n].lo
    ensures Cover(segs, t) == Cover(segs[..n], t)
  {
    assert segs == segs[..n] + segs[n..];
    CoverConcat(segs[..n], segs[n..], t);
    forall i | 0 <= i < |segs[n..]| ensures !segs[n..][i].Has(t) {
      assert i > 0 ==> Start(segs[n]) <= Start(segs[n + i]);
    }
    CoverNone(segs[n..], t);
  }

  /** The first `n` segments fill [0, end) once each: the invariant of the sweep. */
  ghost predicate FilledTo(segs: seq<Segment>, n: nat, end: int)
    requires n <= |segs|
  {
    forall t :: Cover(segs[..n], t) == if 0 <= t < end then 1 else 0
  }

  lemma FillStep(segs: seq<Segment>, n: nat, end: int)
    requires AllValid(segs) && n < |segs| && FilledTo(segs, n, end) && segs[n].lo == end
    ensures FilledTo(segs, n + 1, segs[n].hi)
  {
    var filled := segs[..n + 1];
    assert filled == segs[..n] + [segs[n]];
    forall t ensures Cover(filled, t) == if 0 <= t < segs[n].hi then 1 else 0 {
      CoverSnoc(segs[..n], segs[n], t);
    }
  }

  /** A segment that does not start where the last ended leaves a token at count 0 or 2. */
  lemma BrokenStep(segs: seq<Segment>, n: nat, end: int)
    requires AllValid(segs) && SortedBy(segs, Start) && n < |segs|
    requires 0 <= end && FilledTo(segs, n, end) && segs[n].lo != end
    ensures exists t: Token :: Cover(segs, t) != 1
  {
    if segs[n].lo > end {
      LaterSegments(segs, n, end);
      assert Cover(segs, end) == 0;
    } else {
      CoverAround(segs, n, segs[n].lo);
      assert Cover(segs, segs[n].lo) >= 2;
    }
  }

  lemma CoverAround(segs: seq<Segment>, n: nat, t: int)
    requires n < |segs|
    ensures Cover(segs, t) == Cover(segs[..n], t) + (if segs[n].Has(t) then 1 else 0) + Cover(segs[n + 1..], t)
  {
    var a, b := segs[..n], segs[n + 1..];
    assert segs == a + [segs[n]] + b;
    CoverConcat(a + [segs[n]], b, t);
    CoverSnoc(a, segs[n], t);
  }

  /** The sweep of `validateTokenCoverage`. */
  method SweepExact(segs: seq<Segment>) returns (ok: bool)
    requires AllValid(segs) && SortedBy(segs, Start) && segs != []
    ensures ok <==> forall t: Token :: Cover(segs, t) == 1
  {
    if segs[0].lo != 0 {
      BrokenStep(segs, 0, 0);
      return false;
    }
    var prevEnd := segs[0].hi;
    FillStep(segs, 0, 0);
    for n := 1 to |segs|
      invariant FilledTo(segs, n, prevEnd) && 0 < prevEnd <= SPACE
    {
      if segs[n].lo != prevEnd {
        BrokenStep(segs, n, prevEnd);
        return false;
      }
      FillStep(segs, n, prevEnd);
      prevEnd := segs[n].hi;
    }
    assert segs[..|segs|] == segs;
    assert forall t :: Cover(segs, t) == if 0 <= t < prevEnd then 1 else 0;
    if prevEnd < SPACE {
      assert Cover(segs, prevEnd as Token) != 1;
    }
    return prevEnd == SPACE;
  }

  /** Accepts exactly the shard lists in which every token has exactly one routable range. */
  method ValidateTokenCoverage(shards: seq<Shard>) returns (ok: bool)
    ensures ok <==> ExactCover(shards)
  {
    var segs := RoutableSegments(shards);
    if segs == [] {
      assert Cover(segs, 0) == 0;
      assert ShardOwners(shards, 0) == 0;
      return false;
    }
    segs := SortSegments(segs);
    ok := SweepExact(segs);
    assert forall t: Token :: Cover(segs, t) == ShardOwners(shards, t);
    if ok {
      forall t: Token ensures ShardOwners(shards, t) == 1 {
        assert Cover(segs, t) == 1;
      }
    } else {
      ghost var t: Token :| Cover(segs, t) != 1;
      assert ShardOwners(shards, t) != 1;
    }
  }

  // ---- whole-catalog validation -------------------------------------------

  function ShardId(sh: Shard): int {
    sh.id
  }

  ghost predicate InIdOrder(shards: seq<Shard>) {
    forall i :: 0 <= i < |shards| ==> shards[i].id == i
  }

  /** Some arrangement of the shards lists the ids 0, 1, 2, ... */
  ghost predicate ContiguousIds(shards: seq<Shard>) {
    exists p: seq<Shard> :: multiset(p) == multiset(shards) && InIdOrder(p)
  }

  lemma InOrderIsContiguous(shards: seq<Shard>)
    requires InIdOrder(shards)
    ensures ContiguousIds(shards)
  {
    assert multiset(shards) == multiset(shards);
  }

  ghost predicate ShardAccepted(strategy: Strategy, sh: Shard) {
    !sh.state.Unknown? && (strategy.TokenRangeV1? && sh.state.Routable() ==> sh.ranges != [])
  }

  ghost predicate ValidPlacement(cat: Catalog) {
    && cat.version == PLACEMENT_VERSION
    && !cat.strategy.OtherStrategy?
    && cat.shards != []
    && ContiguousIds(cat.shards)
    && (forall i :: 0 <= i < |cat.shards| ==> ShardAccepted(cat.strategy, cat.shards[i]))
    && (cat.strategy.TokenRangeV1? ==> ExactCover(cat.shards))
  }

  /** Sorting by id finds the contiguous arrangement whenever there is one. */
  lemma {:induction false} SortedIsInOrder(p: seq<Shard>, r: seq<Shard>)
    requires multiset(p) == multiset(r) && InIdOrder(p) && SortedBy(r, ShardId)
    ensures InIdOrder(r)
  {
    if p == [] {
      assert |multiset(r)| == 0;
    } else {
      var n := |p| - 1;
      LastAgrees(p, r);
      DropLast(p);
      DropLast(r);
      var p', r' := p[..n], r[..n];
      SortedIsInOrder(p', r');
      forall i | 0 <= i < |r| ensures r[i].id == i {
        assert i < n ==> r'[i] == r[i];
      }
    }
  }

  /** The arrangement in id order is unique. */
  lemma InOrderUnique(p: seq<Shard>, r: seq<Shard>)
    requires multiset(p) == multiset(r) && InIdOrder(p) && InIdOrder(r)
    ensures p == r
  {
    SameElements(p, r);
    forall i | 0 <= i < |p| ensures p[i] == r[i] {
      assert p[i] in r;
      var k :| 0 <= k < |r| && r[k] == p[i];
      assert k == i;
    }
  }

  lemma LastAgrees(p: seq<Shard>, r: seq<Shard>)
    requires multiset(p) == multiset(r) && InIdOrder(p) && SortedBy(r, ShardId) && p != []
    ensures |r| == |p| && r[|r| - 1] == p[|p| - 1]
  {
    SameElements(p, r);
    var n := |p| - 1;
    assert p[n] in r && r[n] in p;
    var k :| 0 <= k < |r| && r[k] == p[n];
    assert k < n ==> ShardId(r[k]) <= ShardId(r[n]);
    var m :| 0 <= m < |p| && p[m] == r[n];
  }

  /** Rejects the catalogs that cannot drive deterministic routing, and no others. */
  method ValidatePlacement(cat: Catalog) returns (ok: bool)
    ensures ok <==> ValidPlacement(cat)
  {
    if cat.version != PLACEMENT_VERSION || cat.strategy.OtherStrategy? || cat.shards == [] {
      return false;
    }
    var shards := Sort(cat.shards, ShardId);
    SameElements(shards, cat.shards);
    for i := 0 to |shards|
      invariant forall k :: 0 <= k < i ==> shards[k].id == k && ShardAccepted(cat.strategy, shards[k])
    {
      var sh := shards[i];
      if sh.id != i {
        if p: seq<Shard> :| multiset(p) == multiset(cat.shards) && InIdOrder(p) {
          SortedIsInOrder(p, shards);
        }
        return false;
      }
      if sh.state.Decommissioned? {
        continue;
      }
      if (!sh.state.Routable() && !sh.state.Draining? && !sh.state.Creating?)
         || (cat.strategy.TokenRangeV1? && sh.state.Routable() && sh.ranges == []) {
        assert !ShardAccepted(cat.strategy, sh) && sh in cat.shards;
        return false;
      }
    }
    assert InIdOrder(shards) && ContiguousIds(cat.shards);
    forall i | 0 <= i < |cat.shards| ensures ShardAccepted(cat.strategy, cat.shards[i]) {
      assert cat.shards[i] in shards;
    }
    ok := true;
    if cat.strategy.TokenRangeV1? {
      ok := ValidateTokenCoverage(shards);
      forall t: Token ensures ShardOwners(shards, t) == ShardOwners(cat.shards, t) {
        ShardOwnersPermute(shards, cat.shards, t);
      }
    }
  }

  // ---- catalogs in service ------------------------------------------------

  /** A catalog as the manager holds it: validated token-range placement, shards in id order. */
  ghost predicate InService(cat: Catalog) {
    cat.strategy.TokenRangeV1? && InIdOrder(cat.shards) && ValidPlacement(cat)
  }

  lemma InServiceParts(cat: Catalog)
    requires cat.version == PLACEMENT_VERSION && cat.strategy.TokenRangeV1?
    requires cat.shards != [] && InIdOrder(cat.shards) && ExactCover(cat.shards)
    requires forall i :: 0 <= i < |cat.shards| ==> ShardAccepted(cat.strategy, cat.shards[i])
    ensures InService(cat)
  {
    InOrderIsContiguous(cat.shards);
  }

  ghost function Owner(cat: Catalog, t: Token): (i: nat)
    requires InService(cat)
    ensures i < |cat.shards| && Serves(cat.shards[i], t)
  {
    OwnerOf(cat.shards, t)
  }
}
