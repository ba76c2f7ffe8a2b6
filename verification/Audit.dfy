/**
 The placement audit: one sweep that reports the gaps and overlaps of the ring
 into a collector with a cap.
 */
module Audit {
  import opened Ring
  import opened Sorting
  import opened Tokens
  import opened Catalogs

  const DEFAULT_MAX_ISSUES: int := 200

  datatype Issue =
    | Gap(rng: TokenRange)
    | Overlap(rng: TokenRange, shardID: nat, owners: seq<nat>)

  class Collector {
    var max: int
    var issues: seq<Issue>
    var truncated: bool

    constructor (max: int)
      ensures this.max == max && issues == [] && !truncated
    {
      this.max := max;
      issues := [];
      truncated := false;
    }

    ghost predicate Valid()
      reads this
    {
      truncated ==> issues != []
    }

    /** Appends unless the cap is reached; a refusal is recorded in `truncated`. */
    method Add(issue: Issue) returns (ok: bool)
      requires Valid()
      modifies this
      ensures Valid() && max == if old(max) <= 0 then DEFAULT_MAX_ISSUES else old(max)
      ensures ok <==> |old(issues)| < max
      ensures ok ==> issues == old(issues) + [issue] && truncated == old(truncated)
      ensures !ok ==> issues == old(issues) && truncated
    {
      if max <= 0 {
        max := DEFAULT_MAX_ISSUES;
      }
      if |issues| >= max {
        truncated := true;
        return false;
      }
      issues := issues + [issue];
      return true;
    }
  }

  datatype OwnedSegment = OwnedSegment(seg: Segment, shardID: nat)

  // ---- what the reports mean ----------------------------------------------

  ghost predicate InGap(issues: seq<Issue>, t: Token) {
    exists k :: 0 <= k < |issues| && issues[k].Gap? && issues[k].rng.Contains(t)
  }

  ghost predicate InOverlap(issues: seq<Issue>, t: Token) {
    exists k :: 0 <= k < |issues| && issues[k].Overlap? && issues[k].rng.Contains(t)
  }

  /** Nothing is reported that is not so. */
  ghost predicate Sound(shards: seq<Shard>, issues: seq<Issue>) {
    && (forall t: Token :: InGap(issues, t) ==> ShardOwners(shards, t) == 0)
    && (forall t: Token :: InOverlap(issues, t) ==> ShardOwners(shards, t) >= 2)
    && AllNamed(shards, issues)
  }

  ghost predicate AllNamed(shards: seq<Shard>, issues: seq<Issue>) {
    forall k :: 0 <= k < |issues| && issues[k].Overlap? ==> NamesOwners(shards, issues[k])
  }

  /** Nothing that is so goes unreported. */
  ghost predicate Complete(shards: seq<Shard>, issues: seq<Issue>) {
    && (forall t: Token :: ShardOwners(shards, t) == 0 ==> InGap(issues, t))
    && (forall t: Token :: ShardOwners(shards, t) >= 2 ==> InOverlap(issues, t))
  }

  ghost predicate ServesRange(shards: seq<Shard>, id: nat, rng: TokenRange) {
    exists i :: 0 <= i < |shards| && shards[i].id == id && forall t: Token :: rng.Contains(t) ==> Serves(shards[i], t)
  }

  ghost predicate ServesToken(shards: seq<Shard>, id: nat, t: Token) {
    exists i :: 0 <= i < |shards| && shards[i].id == id && Serves(shards[i], t)
  }

  /** The named shard owns the whole overlap; the owner list is right for a token inside it. */
  ghost predicate NamesOwners(shards: seq<Shard>, issue: Issue)
    requires issue.Overlap?
  {
    && ServesRange(shards, issue.shardID, issue.rng)
    && exists t: Token :: issue.rng.Contains(t) && forall id :: id in issue.owners <==> ServesToken(shards, id, t)
  }

  // ---- collecting ----------------------------------------------------------

  function SegsOf(os: seq<OwnedSegment>): (segs: seq<Segment>)
    ensures |segs| == |os|
    ensures forall i :: 0 <= i < |os| ==> segs[i] == os[i].seg
  {
    if os == [] then [] else SegsOf(os[..|os| - 1]) + [os[|os| - 1].seg]
  }

  function OwnedHas(t: int): OwnedSegment -> nat {
    (os: OwnedSegment) => if os.seg.Has(t) then 1 else 0
  }

  lemma {:induction false} OwnedCoverIsSum(os: seq<OwnedSegment>, t: int)
    ensures Cover(SegsOf(os), t) == Sum(os, OwnedHas(t))
  {
    if os != [] {
      var n := |os| - 1;
      OwnedCoverIsSum(os[..n], t);
      CoverSnoc(SegsOf(os[..n]), os[n].seg, t);
    }
  }

  /** Every collected segment belongs to a routable range of the shard it names. */
  ghost predicate Attributed(shards: seq<Shard>, os: OwnedSegment) {
    os.seg.Valid() &&
    exists i :: 0 <= i < |shards| && shards[i].id == os.shardID &&
                forall t: Token :: os.seg.Has(t) ==> Serves(shards[i], t)
  }

  ghost predicate AllAttributed(shards: seq<Shard>, os: seq<OwnedSegment>) {
    forall k :: 0 <= k < |os| ==> Attributed(shards, os[k])
  }

  method CollectRange(shards: seq<Shard>, i: nat, j: nat) returns (os: seq<OwnedSegment>)
    requires i < |shards| && shards[i].state.Routable() && j < |shards[i].ranges|
    ensures AllAttributed(shards, os)
    ensures forall t: Token :: Cover(SegsOf(os), t) == if shards[i].ranges[j].Contains(t) then 1 else 0
  {
    var segs := RangeSegments(shards[i].ranges[j]);
    os := [];
    for k := 0 to |segs|
      invariant |os| == k
      invariant forall m :: 0 <= m < k ==> os[m] == OwnedSegment(segs[m], shards[i].id)
    {
      os := os + [OwnedSegment(segs[k], shards[i].id)];
    }
    forall m | 0 <= m < |os| ensures Attributed(shards, os[m]) {
      forall t: Token | segs[m].Has(t) ensures Serves(shards[i], t) {
        CoverAtLeast(segs, m, m, t);
        assert shards[i].ranges[j].Contains(t);
      }
    }
    assert SegsOf(os) == segs;
  }

  lemma JoinOwned(shards: seq<Shard>, a: seq<OwnedSegment>, b: seq<OwnedSegment>)
    requires AllAttributed(shards, a) && AllAttributed(shards, b)
    ensures AllAttributed(shards, a + b)
    ensures forall t :: Cover(SegsOf(a + b), t) == Cover(SegsOf(a), t) + Cover(SegsOf(b), t)
  {
    assert SegsOf(a + b) == SegsOf(a) + SegsOf(b);
    forall t ensures Cover(SegsOf(a + b), t) == Cover(SegsOf(a), t) + Cover(SegsOf(b), t) {
      CoverConcat(SegsOf(a), SegsOf(b), t);
    }
    forall k | 0 <= k < |a + b| ensures Attributed(shards, (a + b)[k]) {
      assert (a + b)[k] == if k < |a| then a[k] else b[k - |a|];
    }
  }

  method CollectShard(shards: seq<Shard>, i: nat) returns (os: seq<OwnedSegment>)
    requires i < |shards| && shards[i].state.Routable()
    ensures AllAttributed(shards, os)
    ensures forall t: Token :: Cover(SegsOf(os), t) == Owners(shards[i].ranges, t)
  {
    os := [];
    var ranges := shards[i].ranges;
    for j := 0 to |ranges|
      invariant AllAttributed(shards, os)
      invariant forall t: Token :: Cover(SegsOf(os), t) == Owners(ranges[..j], t)
    {
      var more := CollectRange(shards, i, j);
      JoinOwned(shards, os, more);
      assert ranges[..j + 1][..j] == ranges[..j];
      os := os + more;
    }
    assert ranges[..|ranges|] == ranges;
  }

  method CollectOwned(shards: seq<Shard>) returns (os: seq<OwnedSegment>)
    ensures AllAttributed(shards, os)
    ensures forall t: Token :: Cover(SegsOf(os), t) == ShardOwners(shards, t)
  {
    os := [];
    for n := 0 to |shards|
      invariant AllAttributed(shards, os)
      invariant forall t: Token :: Cover(SegsOf(os), t) == ShardOwners(shards[..n], t)
    {
      assert shards[..n + 1][..n] == shards[..n];
      if shards[n].state.Routable() {
        var more := CollectShard(shards, n);
        JoinOwned(shards, os, more);
        os := os + more;
      }
    }
    assert shards[..|shards|] == shards;
  }

  /** Orders by start, then by end. */
  function SweepKey(os: OwnedSegment): int {
    os.seg.lo * 0x2_0000_0000_0000_0000 + os.seg.hi
  }

  method SortOwned(shards: seq<Shard>, os: seq<OwnedSegment>) returns (r: seq<OwnedSegment>)
    requires AllAttributed(shards, os)
    ensures AllAttributed(shards, r) && |r| == |os|
    ensures SortedBy(SegsOf(r), Start) && AllValid(SegsOf(r))
    ensures forall t :: Cover(SegsOf(r), t) == Cover(SegsOf(os), t)
  {
    r := Sort(os, SweepKey);
    SameElements(r, os);
    forall k | 0 <= k < |r| ensures Attributed(shards, r[k]) {
      assert r[k] in os;
    }
    forall i, j | 0 <= i < j < |r| ensures Start(SegsOf(r)[i]) <= Start(SegsOf(r)[j]) {
      assert SweepKey(r[i]) <= SweepKey(r[j]);
      assert r[i].seg.Valid() && r[j].seg.Valid();
    }
    forall t ensures Cover(SegsOf(r), t) == Cover(SegsOf(os), t) {
      OwnedCoverIsSum(r, t);
      OwnedCoverIsSum(os, t);
      SumPermute(r, os, OwnedHas(t));
    }
  }

  /** `activeOwnersForToken`: the shards serving a token, in id order. */
  method ActiveOwnersForToken(shards: seq<Shard>, t: Token) returns (owners: seq<nat>)
    ensures forall id :: id in owners <==> ServesToken(shards, id, t)
    ensures SortedBy(owners, (id: nat) => id)
  {
    var found: seq<nat> := [];
    for n := 0 to |shards|
      invariant forall id :: id in found <==> ServesToken(shards[..n], id, t)
    {
      var sh := shards[n];
      var owns := false;
      if sh.state.Routable() {
        for j := 0 to |sh.ranges|
          invariant owns <==> exists k :: 0 <= k < j && sh.ranges[k].Contains(t)
        {
          if sh.ranges[j].Contains(t) {
            owns := true;
          }
        }
      }
      assert owns <==> Serves(sh, t);
      if owns {
        found := found + [sh.id];
      }
      ServesTokenStep(shards, n, t);
    }
    assert shards[..|shards|] == shards;
    owners := Sort(found, (id: nat) => id);
    SameElements(owners, found);
  }

  lemma ServesTokenStep(shards: seq<Shard>, n: nat, t: Token)
    requires n < |shards|
    ensures forall id :: ServesToken(shards[..n + 1], id, t) <==>
                         ServesToken(shards[..n], id, t) || (Serves(shards[n], t) && id == shards[n].id)
  {
    var a, b := shards[..n], shards[..n + 1];
    forall id ensures ServesToken(b, id, t) <==> ServesToken(a, id, t) || (Serves(shards[n], t) && id == shards[n].id) {
      if ServesToken(a, id, t) {
        var i :| 0 <= i < |a| && a[i].id == id && Serves(a[i], t);
        assert b[i] == a[i];
      }
      if ServesToken(b, id, t) {
        var i :| 0 <= i < |b| && b[i].id == id && Serves(b[i], t);
        assert i < n ==> a[i] == b[i];
      }
      assert b[n] == shards[n];
    }
  }

  // ---- the sweep ------------------------------------------------------------

  /** The issues so far describe the first `n` segments exactly, up to `cursor`. */
  ghost predicate SweptTo(segs: seq<Segment>, n: nat, cursor: int, issues: seq<Issue>)
    requires n <= |segs|
  {
    && 0 <= cursor <= SPACE
    && (forall i :: 0 <= i < n ==> segs[i].hi <= cursor)
    && (forall t: Token :: t < cursor && Cover(segs[..n], t) == 0 ==> n > 0 && t < segs[n - 1].lo)
    && (forall t: Token :: InGap(issues, t) <==> t < cursor && Cover(segs[..n], t) == 0)
    && (forall t: Token :: InOverlap(issues, t) <==> Cover(segs[..n], t) >= 2)
  }

  lemma IssueAdded(issues: seq<Issue>, x: Issue)
    ensures forall t: Token :: InGap(issues + [x], t) <==> InGap(issues, t) || (x.Gap? && x.rng.Contains(t))
    ensures forall t: Token :: InOverlap(issues + [x], t) <==> InOverlap(issues, t) || (x.Overlap? && x.rng.Contains(t))
  {
    var more := issues + [x];
    assert more[|issues|] == x;
    assert forall k :: 0 <= k < |issues| ==> more[k] == issues[k];
  }

  /** Past the cursor nothing has been seen. */
  lemma NothingPastCursor(segs: seq<Segment>, n: nat, cursor: int, issues: seq<Issue>, t: Token)
    requires n <= |segs| && SweptTo(segs, n, cursor, issues) && t >= cursor
    ensures Cover(segs[..n], t) == 0
  {
    CoverNone(segs[..n], t);
  }

  lemma GapStep(segs: seq<Segment>, n: nat, cursor: int, issues: seq<Issue>)
    requires AllValid(segs) && SortedBy(segs, Start) && n < |segs|
    requires SweptTo(segs, n, cursor, issues) && segs[n].lo > cursor
    ensures SweptTo(segs, n + 1, segs[n].hi, issues + [Gap(SegmentRange(Segment(cursor, segs[n].lo)))])
  {
    var x := Gap(SegmentRange(Segment(cursor, segs[n].lo)));
    var seen := segs[..n + 1];
    IssueAdded(issues, x);
    assert seen == segs[..n] + [segs[n]];
    forall t: Token
      ensures Cover(seen, t) == Cover(segs[..n], t) + if segs[n].Has(t) then 1 else 0
      ensures t >= cursor ==> Cover(segs[..n], t) == 0
    {
      CoverSnoc(segs[..n], segs[n], t);
      if t >= cursor {
        NothingPastCursor(segs, n, cursor, issues, t);
      }
    }
  }

  /** A segment that starts at or before the cursor; it overlaps unless it starts there. */
  lemma TouchStep(segs: seq<Segment>, n: nat, cursor: int, issues: seq<Issue>, more: seq<Issue>)
    requires AllValid(segs) && SortedBy(segs, Start) && n < |segs|
    requires SweptTo(segs, n, cursor, issues) && segs[n].lo <= cursor
    requires forall t: Token :: InGap(more, t) <==> InGap(issues, t)
    requires forall t: Token :: InOverlap(more, t) <==> InOverlap(issues, t) || (segs[n].Has(t) && t < cursor)
    ensures SweptTo(segs, n + 1, Max(cursor, segs[n].hi), more)
  {
    var seen := segs[..n + 1];
    assert seen == segs[..n] + [segs[n]];
    assert n > 0 ==> Start(segs[n - 1]) <= Start(segs[n]);
    forall t: Token
      ensures Cover(seen, t) == Cover(segs[..n], t) + if segs[n].Has(t) then 1 else 0
      ensures t >= cursor ==> Cover(segs[..n], t) == 0
    {
      CoverSnoc(segs[..n], segs[n], t);
      if t >= cursor {
        NothingPastCursor(segs, n, cursor, issues, t);
      }
    }
  }

  /** What is known after the first `n` segments stays true of the whole ring. */
  lemma PrefixCounts(segs: seq<Segment>, n: nat, cursor: int, issues: seq<Issue>, t: Token)
    requires AllValid(segs) && SortedBy(segs, Start) && n <= |segs| && SweptTo(segs, n, cursor, issues)
    ensures InGap(issues, t) ==> Cover(segs, t) == 0
    ensures InOverlap(issues, t) ==> Cover(segs, t) >= 2
  {
    assert segs == segs[..n] + segs[n..];
    CoverConcat(segs[..n], segs[n..], t);
    if InGap(issues, t) {
      forall i | 0 <= i < |segs[n..]| ensures !segs[n..][i].Has(t) {
        assert Start(segs[n - 1]) <= Start(segs[n + i]);
      }
      CoverNone(segs[n..], t);
    }
  }

  lemma PrefixIsSound(shards: seq<Shard>, segs: seq<Segment>, n: nat, cursor: int, issues: seq<Issue>)
    requires AllValid(segs) && SortedBy(segs, Start) && n <= |segs| && SweptTo(segs, n, cursor, issues)
    requires forall t: Token :: Cover(segs, t) == ShardOwners(shards, t)
    requires AllNamed(shards, issues)
    ensures Sound(shards, issues)
    ensures n == |segs| && cursor == SPACE ==> Complete(shards, issues)
  {
    forall t: Token
      ensures InGap(issues, t) ==> ShardOwners(shards, t) == 0
      ensures InOverlap(issues, t) ==> ShardOwners(shards, t) >= 2
    {
      PrefixCounts(segs, n, cursor, issues, t);
    }
    if n == |segs| {
      assert segs[..n] == segs;
    }
  }

  /** The sweep over the sorted segments. */
  method Sweep(shards: seq<Shard>, os: seq<OwnedSegment>, collector: Collector)
    requires AllAttributed(shards, os) && os != []
    requires SortedBy(SegsOf(os), Start) && AllValid(SegsOf(os))
    requires forall t: Token :: Cover(SegsOf(os), t) == ShardOwners(shards, t)
    requires collector.Valid() && collector.issues == [] && !collector.truncated
    modifies collector
    ensures collector.Valid() && Sound(shards, collector.issues)
    ensures !collector.truncated ==> Complete(shards, collector.issues)
  {
    ghost var segs := SegsOf(os);
    var cursor := 0;
    for n := 0 to |os|
      invariant collector.Valid() && !collector.truncated
      invariant SweptTo(segs, n, cursor, collector.issues)
      invariant AllNamed(shards, collector.issues)
    {
      var seg := os[n].seg;
      assert segs[n] == seg && seg.Valid();
      ghost var issues := collector.issues;
      PrefixIsSound(shards, segs, n, cursor, issues);
      if seg.lo > cursor {
        GapStep(segs, n, cursor, issues);
        var ok := collector.Add(Gap(SegmentRange(Segment(cursor, seg.lo))));
        if !ok {
          return;
        }
        cursor := seg.hi;
        continue;
      }
      if seg.lo < cursor {
        var issue := OverlapIssue(shards, os[n], cursor);
        IssueAdded(issues, issue);
        var ok := collector.Add(issue);
        if !ok {
          return;
        }
      }
      TouchStep(segs, n, cursor, issues, collector.issues);
      if seg.hi > cursor {
        cursor := seg.hi;
      }
    }
    PrefixIsSound(shards, segs, |segs|, cursor, collector.issues);
    if cursor < SPACE {
      var rest := Gap(SegmentRange(Segment(cursor, SPACE)));
      LastGap(shards, segs, cursor, collector.issues, rest);
      var ok := collector.Add(rest);
    }
  }

  /** The overlap of a segment with what lies before the cursor, and who owns its midpoint. */
  method OverlapIssue(shards: seq<Shard>, os: OwnedSegment, cursor: int) returns (issue: Issue)
    requires Attributed(shards, os) && os.seg.lo < cursor <= SPACE
    ensures issue.Overlap? && NamesOwners(shards, issue)
    ensures forall t: Token :: issue.rng.Contains(t) <==> os.seg.Has(t) && t < cursor
  {
    var overlap := Segment(os.seg.lo, Min(cursor, os.seg.hi));
    var mid := (overlap.lo + overlap.hi) / 2;
    var owners := ActiveOwnersForToken(shards, mid);
    issue := Overlap(SegmentRange(overlap), os.shardID, owners);
    OverlapIsNamed(shards, os, issue, mid, overlap);
  }

  lemma OverlapIsNamed(shards: seq<Shard>, os: OwnedSegment, issue: Issue, mid: Token, overlap: Segment)
    requires Attributed(shards, os) && issue.Overlap? && issue.shardID == os.shardID
    requires overlap.Valid() && overlap.Has(mid) && os.seg.lo <= overlap.lo && overlap.hi <= os.seg.hi
    requires issue.rng == SegmentRange(overlap)
    requires forall id :: id in issue.owners <==> ServesToken(shards, id, mid)
    ensures NamesOwners(shards, issue)
  {
    var i :| 0 <= i < |shards| && shards[i].id == os.shardID &&
             forall t: Token :: os.seg.Has(t) ==> Serves(shards[i], t);
    assert forall t: Token :: issue.rng.Contains(t) ==> Serves(shards[i], t);
    assert ServesRange(shards, issue.shardID, issue.rng);
  }

  lemma LastGap(shards: seq<Shard>, segs: seq<Segment>, cursor: int, issues: seq<Issue>, rest: Issue)
    requires SweptTo(segs, |segs|, cursor, issues) && cursor < SPACE
    requires rest == Gap(SegmentRange(Segment(cursor, SPACE)))
    requires forall t: Token :: Cover(segs, t) == ShardOwners(shards, t)
    requires Sound(shards, issues)
    ensures Sound(shards, issues + [rest]) && Complete(shards, issues + [rest])
  {
    assert segs[..|segs|] == segs;
    IssueAdded(issues, rest);
    forall t: Token | rest.rng.Contains(t) ensures ShardOwners(shards, t) == 0 {
      NothingPastCursor(segs, |segs|, cursor, issues, t);
    }
  }

  /** `auditTokenCoverage`. */
  method AuditTokenCoverage(shards: seq<Shard>, collector: Collector)
    requires collector.Valid() && collector.issues == [] && !collector.truncated
    modifies collector
    ensures collector.Valid() && Sound(shards, collector.issues)
    ensures !collector.truncated ==> Complete(shards, collector.issues)
  {
    var os := CollectOwned(shards);
    if os == [] {
      assert forall t: Token :: ShardOwners(shards, t) == 0 by {
        forall t: Token ensures ShardOwners(shards, t) == 0 {
          assert Cover(SegsOf(os), t) == 0;
        }
      }
      var whole := Gap(TokenRange(0, 0));
      IssueAdded([], whole);
      assert [] + [whole] == [whole];
      var ok := collector.Add(whole);
      return;
    }
    os := SortOwned(shards, os);
    Sweep(shards, os, collector);
  }

  /** A catalog of another strategy gets one warning in place of an audit. */
  datatype Report = UnsupportedStrategy | Audited(issues: seq<Issue>, truncated: bool)

  /**
   The audit of a catalog. Of a token-range catalog what it reports is right;
   unless the cap cut it short it reports everything; and it reports nothing
   exactly when token coverage validates.
   */
  method AuditPlacementCatalog(cat: Catalog, maxIssues: int) returns (report: Report)
    ensures report.Audited? <==> cat.strategy.TokenRangeV1?
    ensures report.Audited? ==> Sound(cat.shards, report.issues)
    ensures report.Audited? && !report.truncated ==> Complete(cat.shards, report.issues)
    ensures report.Audited? ==> (report.issues == [] <==> ExactCover(cat.shards))
  {
    if !cat.strategy.TokenRangeV1? {
      return UnsupportedStrategy;
    }
    var collector := new Collector(if maxIssues <= 0 then DEFAULT_MAX_ISSUES else maxIssues);
    AuditTokenCoverage(cat.shards, collector);
    report := Audited(collector.issues, collector.truncated);
    QuietMeansExact(cat.shards, collector.issues, collector.truncated);
  }

  lemma QuietMeansExact(shards: seq<Shard>, issues: seq<Issue>, truncated: bool)
    requires Sound(shards, issues) && (!truncated ==> Complete(shards, issues))
    requires truncated ==> issues != []
    ensures issues == [] <==> ExactCover(shards)
  {
    if issues != [] {
      var t := issues[0].rng.start;
      assert issues[0].rng.Contains(t);
      assert InGap(issues, t) || InOverlap(issues, t);
    } else {
      forall t: Token ensures ShardOwners(shards, t) == 1 {
        assert !InGap(issues, t) && !InOverlap(issues, t);
      }
    }
  }
}
