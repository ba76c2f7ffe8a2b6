/**
 Floor-division tilings of the ring: the default shard ranges and the hotspot
 buckets, both cut at floor(2^64 * i / n).
 */
module Tiling {
  import opened Wrappers
  import opened Ring
  import opened Sorting
  import opened Tokens
  import opened Catalogs
  import opened Routing

  const MAX_SHARDS: int := 0x1_0000_0000

  // ---- division ------------------------------------------------------------

  lemma Multiple(n: int, d: int)
    requires n > 0
    ensures d >= 1 ==> n * d >= n
    ensures d <= -1 ==> n * d <= -n
  {
  }

  lemma DivIs(x: int, q: int, r: int, n: int)
    requires n > 0 && x == q * n + r && 0 <= r < n
    ensures x / n == q && x % n == r
  {
    var d := x / n - q;
    assert x == n * (x / n) + x % n;
    assert n * d == r - x % n;
    Multiple(n, d);
  }

  /** Floors of a sum exceed the sum of floors by at most one. */
  lemma DivAdd(a: int, b: int, n: int)
    requires n > 0
    ensures a / n + b / n <= (a + b) / n <= a / n + b / n + 1
  {
    var q, r := a / n + b / n, a % n + b % n;
    assert a == n * (a / n) + a % n && b == n * (b / n) + b % n;
    assert a + b == q * n + r by {
      assert q * n == n * (a / n) + n * (b / n);
    }
    if r < n {
      DivIs(a + b, q, r, n);
    } else {
      assert (q + 1) * n == q * n + n;
      DivIs(a + b, q + 1, r - n, n);
    }
  }

  /** floor(x / n) compared with a whole number. */
  lemma DivCompare(x: int, n: int, t: int)
    requires n > 0
    ensures x / n <= t <==> x < (t + 1) * n
    ensures t <= x / n <==> t * n <= x
  {
    var q, r := x / n, x % n;
    assert x == q * n + r;
    if q <= t {
      assert q * n <= t * n;
      assert (t + 1) * n == t * n + n;
    } else {
      assert (t + 1) * n <= q * n;
    }
    if t <= q {
      assert t * n <= q * n;
    } else {
      assert (q + 1) * n <= t * n;
      assert (q + 1) * n == q * n + n;
    }
  }

  // ---- default shard ranges --------------------------------------------------

  /** The cut between tile i - 1 and tile i. */
  function Cut(i: int, n: int): int
    requires n > 0
  {
    SPACE * i / n
  }

  /** Neighbouring cuts are floor(2^64 / n) or one more apart. */
  lemma CutWidth(i: int, n: int)
    requires n > 0
    ensures SPACE / n <= Cut(i + 1, n) - Cut(i, n) <= SPACE / n + 1
  {
    DivAdd(SPACE * i, SPACE, n);
    assert SPACE * (i + 1) == SPACE * i + SPACE;
  }

  lemma CutEnds(n: int)
    requires n > 0
    ensures Cut(0, n) == 0 && Cut(n, n) == SPACE
  {
    DivIs(0, 0, 0, n);
    DivIs(SPACE * n, SPACE, 0, n);
  }

  lemma {:induction false} CutOrder(i: int, j: int, n: int)
    requires 0 < n <= SPACE && i <= j
    ensures Cut(i, n) + (j - i) <= Cut(j, n)
    decreases j - i
  {
    if i < j {
      CutOrder(i, j - 1, n);
      CutWidth(j - 1, n);
      DivCompare(SPACE, n, 1);
    }
  }

  /** `splitTokenRanges`: n ranges that tile the ring, widths differing by at most one. */
  method SplitTokenRanges(n: int) returns (out: seq<TokenRange>)
    requires n <= SPACE
    ensures |out| == if n <= 1 then 1 else n
    ensures forall t: Token :: Owners(out, t) == 1
    ensures forall i, j :: 0 <= i < |out| && 0 <= j < |out| ==> Width(out[i]) <= Width(out[j]) + 1
    ensures out[0].start == 0 && forall i, j :: 0 <= i < j < |out| ==> out[i].start < out[j].start
  {
    if n <= 1 {
      out := [TokenRange(0, 0)];
      forall t: Token ensures Owners(out, t) == 1 {
        assert out[..0] == [];
      }
      return;
    }
    out := [];
    CutEnds(n);
    for i := 0 to n
      invariant |out| == i
      invariant forall t: Token :: Owners(out, t) == if t < Cut(i, n) then 1 else 0
      invariant forall k :: 0 <= k < i ==> SPACE / n <= Width(out[k]) <= SPACE / n + 1
      invariant forall k :: 0 <= k < i ==> out[k].start < Cut(i, n)
      invariant (i > 0 ==> out[0].start == 0) && forall j, k :: 0 <= j < k < i ==> out[j].start < out[k].start
    {
      var start, end := Cut(i, n), Cut(i + 1, n);
      CutOrder(0, i, n);
      CutOrder(i, i + 1, n);
      CutOrder(i + 1, n, n);
      CutWidth(i, n);
      var r := TokenRange(start, if end == SPACE then 0 else end);
      assert Width(r) == end - start;
      ghost var was := out;
      out := out + [r];
      forall t: Token ensures Owners(out, t) == if t < end then 1 else 0 {
        assert out[..i] == was;
      }
    }
  }

  /** The shards of `DefaultPlacement`: the id is truncated to 32 bits. */
  method DefaultShards(n: int) returns (shards: seq<Shard>)
    requires n <= SPACE
    ensures |shards| == if n <= 1 then 1 else n
    ensures forall i :: 0 <= i < |shards| ==> shards[i].id == i % MAX_SHARDS
    ensures forall i :: 0 <= i < |shards| ==> shards[i].state.Active? && |shards[i].ranges| == 1
    ensures ExactCover(shards)
    ensures forall i, j :: 0 <= i < j < |shards| ==> shards[i].ranges[0].start < shards[j].ranges[0].start
    ensures forall i, j :: 0 <= i < |shards| && 0 <= j < |shards| ==>
                             Width(shards[i].ranges[0]) <= Width(shards[j].ranges[0]) + 1
  {
    var count := if n <= 0 then 1 else n;
    var ranges := SplitTokenRanges(count);
    shards := [];
    for i := 0 to count
      invariant |shards| == i
      invariant forall k :: 0 <= k < i ==>
                  shards[k] == Shard(k % MAX_SHARDS, [ranges[k]], Active, 1, [], [], "")
      invariant forall t: Token :: ShardOwners(shards, t) == Owners(ranges[..i], t)
    {
      ghost var was := shards;
      var sh := Shard(i % MAX_SHARDS, [ranges[i]], Active, 1, [], [], "");
      shards := shards + [sh];
      forall t: Token ensures ShardOwners(shards, t) == Owners(ranges[..i + 1], t) {
        assert shards[..i] == was && ranges[..i + 1][..i] == ranges[..i];
        assert sh.ranges[..0] == [];
        assert Owners(sh.ranges, t) == if ranges[i].Contains(t) then 1 else 0;
      }
    }
    assert ranges[..|ranges|] == ranges;
  }

  /** Past 2^32 shards two ids coincide and the default placement stops validating. */
  lemma WrappedIdsAreNotContiguous(shards: seq<Shard>)
    requires |shards| > MAX_SHARDS
    requires forall i :: 0 <= i < |shards| ==> shards[i].id == i % MAX_SHARDS
    ensures !ContiguousIds(shards)
  {
    forall p: seq<Shard> | multiset(p) == multiset(shards) ensures !InIdOrder(p) {
      SameElements(p, shards);
      var last := p[|p| - 1];
      assert last in shards;
      var k :| 0 <= k < |shards| && shards[k] == last;
      assert last.id == k % MAX_SHARDS < MAX_SHARDS;
    }
  }

  /** `NewRouter`: the panic is reached exactly when the ids no longer fit in 32 bits. */
  method NewRouter(n: int) returns (r: Result<Router>)
    requires n < 0x8000_0000_0000_0000
    ensures r.Ok? <==> n <= MAX_SHARDS
    ensures r.Ok? ==> Built(r.value) && |r.value.catalog.shards| == if n <= 1 then 1 else n
  {
    var shards := DefaultShards(n);
    var cat := Catalog(PLACEMENT_VERSION, 1, TokenRangeV1, shards, map[]);
    if n <= MAX_SHARDS {
      assert InIdOrder(shards);
      InServiceParts(cat);
    } else {
      WrappedIdsAreNotContiguous(shards);
    }
    r := NewRouterFromCatalog(cat);
    if r.Ok? {
      SameElements(r.value.catalog.shards, shards);
    }
  }

  // ---- hotspot buckets -------------------------------------------------------

  /** The high word of the 128-bit product token * buckets. */
  function BucketForToken(token: Token, buckets: int): (b: int)
    ensures 0 <= b && (buckets <= 1 ==> b == 0)
  {
    if buckets <= 1 then 0
    else
      DivCompare(token * buckets, SPACE, 0);
      token * buckets / SPACE
  }

  /** The reported bounds of a bucket; the last one ends at 0. */
  function BucketBounds(bucket: int, buckets: int): (int, int) {
    if buckets <= 1 then (0, 0)
    else if bucket >= buckets - 1 then (Cut(bucket, buckets), 0)
    else (Cut(bucket, buckets), Cut(bucket + 1, buckets))
  }

  /** The token lies where the bucket's reported bounds say. */
  predicate Reported(bucket: int, buckets: int, token: Token) {
    var (start, end) := BucketBounds(bucket, buckets);
    start <= token && (token < end || end == 0)
  }

  lemma BucketInBounds(token: Token, buckets: int)
    requires buckets >= 1
    ensures 0 <= BucketForToken(token, buckets) < buckets
  {
    if buckets > 1 {
      assert token * buckets < SPACE * buckets;
      DivCompare(token * buckets, SPACE, buckets - 1);
    }
  }

  lemma BucketMonotone(a: Token, b: Token, buckets: int)
    requires a <= b
    ensures BucketForToken(a, buckets) <= BucketForToken(b, buckets)
  {
    if buckets > 1 {
      assert a * buckets <= b * buckets;
      DivCompare(b * buckets, SPACE, a * buckets / SPACE);
      DivCompare(a * buckets, SPACE, a * buckets / SPACE);
    }
  }

  /**
   A token's bucket reports bounds around it, except that it may equal the
   reported end; and that needs a cut that is not a whole number.
   */
  lemma BucketMatchesBounds(token: Token, buckets: int)
    requires 1 <= buckets <= SPACE
    ensures var b := BucketForToken(token, buckets);
            Reported(b, buckets, token) <==> !(buckets > 1 && b < buckets - 1 && token == Cut(b + 1, buckets))
    ensures var b := BucketForToken(token, buckets);
            !Reported(b, buckets, token) ==> SPACE * (b + 1) % buckets != 0
  {
    if buckets > 1 {
      var b := BucketForToken(token, buckets);
      BucketInBounds(token, buckets);
      DivCompare(token * buckets, SPACE, b);
      assert b * SPACE <= token * buckets < (b + 1) * SPACE;
      DivCompare(SPACE * b, buckets, token);
      assert Cut(b, buckets) <= token by {
        assert SPACE * b < (token + 1) * buckets;
      }
      DivCompare(SPACE * (b + 1), buckets, token);
      assert token <= Cut(b + 1, buckets);
      CutOrder(0, b + 1, buckets);
      assert SPACE * (b + 1) == Cut(b + 1, buckets) * buckets + SPACE * (b + 1) % buckets;
    }
  }

  ghost function Pow2(k: nat): int {
    if k == 0 then 1 else 2 * Pow2(k - 1)
  }

  lemma {:induction false} Pow2Divides(k: nat, m: nat)
    requires k <= m
    ensures Pow2(k) >= 1 && exists q :: Pow2(m) == q * Pow2(k)
    decreases m
  {
    if k == m {
      if k > 0 {
        Pow2Divides(k - 1, k - 1);
      }
      assert Pow2(m) == 1 * Pow2(k);
    } else {
      Pow2Divides(k, m - 1);
      var q :| Pow2(m - 1) == q * Pow2(k);
      assert Pow2(m) == (2 * q) * Pow2(k);
    }
  }

  lemma SpaceIsPow2()
    ensures Pow2(64) == SPACE
  {
    assert Pow2(8) == 0x100;
    assert Pow2(16) == 0x1_0000;
    assert Pow2(24) == 0x100_0000;
    assert Pow2(32) == 0x1_0000_0000;
    assert Pow2(40) == 0x100_0000_0000;
    assert Pow2(48) == 0x1_0000_0000_0000;
    assert Pow2(56) == 0x100_0000_0000_0000;
  }

  lemma DividingBucketsAreExact(token: Token, n: int, q: int)
    requires 1 <= n <= SPACE && SPACE == q * n
    ensures Reported(BucketForToken(token, n), n, token)
  {
    BucketMatchesBounds(token, n);
    var b := BucketForToken(token, n);
    assert SPACE * (b + 1) == (q * (b + 1)) * n;
    DivIs(SPACE * (b + 1), q * (b + 1), 0, n);
  }

  /** With a power-of-two number of buckets the reported bounds are exact. */
  lemma PowerOfTwoBucketsAreExact(token: Token, k: nat)
    requires k <= 64
    ensures Reported(BucketForToken(token, Pow2(k)), Pow2(k), token)
  {
    Pow2Divides(k, 64);
    SpaceIsPow2();
    var n, q: int :| n == Pow2(k) && SPACE == q * n;
    QuotientBound(q, n);
    DividingBucketsAreExact(token, n, q);
  }

  lemma QuotientBound(q: int, n: int)
    requires n >= 1 && q * n > 0
    ensures n <= q * n
  {
    assert q <= 0 ==> q * n <= 0;
  }
}
