/**
 Token-range arithmetic of the planner: midpoint, split, and the subtraction
 that decides what a source shard keeps when a range moves away.
 */
module Tokens {
  import opened Wrappers
  import opened Ring
  import opened Sorting

  // ---- midpoint and split ------------------------------------------------

  /** How many tokens a range holds. */
  function Width(r: TokenRange): (w: int)
    ensures 1 <= w <= SPACE
  {
    if r.start < r.end then r.end - r.start else r.end + SPACE - r.start
  }

  predicate TokenStrictlyInside(r: TokenRange, token: Token) {
    token != r.start && token != r.end && r.Contains(token)
  }

  /** The two sides of the token are as wide as each other, or the right one is wider by one. */
  predicate Halves(r: TokenRange, token: Token) {
    var left, right := Width(TokenRange(r.start, token)), Width(TokenRange(token, r.end));
    left <= right <= left + 1
  }

  /** The default split token: inside exactly when there is anything to split, and then in the middle. */
  function MidpointToken(r: TokenRange): (mid: Token)
    ensures TokenStrictlyInside(r, mid) <==> Width(r) >= 2
    ensures Width(r) >= 2 ==> Halves(r, mid)
  {
    var end := if r.start == r.end || r.start > r.end then r.end + SPACE else r.end;
    var m := (r.start + end) / 2;
    if m >= SPACE then m - SPACE else m
  }

  /** The two sides of a split; strictly inside, they partition the range. */
  function SplitRange(r: TokenRange, token: Token): (parts: (TokenRange, TokenRange))
    ensures TokenStrictlyInside(r, token) ==>
              && Width(parts.0) + Width(parts.1) == Width(r)
              && (forall t: Token ::
                    (if parts.0.Contains(t) then 1 else 0) + (if parts.1.Contains(t) then 1 else 0)
                    == if r.Contains(t) then 1 else 0)
  {
    (TokenRange(r.start, token), TokenRange(token, r.end))
  }

  // ---- subtraction -------------------------------------------------------

  function Start(seg: Segment): int {
    seg.lo
  }

  /** `sortTokenSegments`. */
  method SortSegments(segs: seq<Segment>) returns (r: seq<Segment>)
    requires AllValid(segs)
    ensures AllValid(r) && SortedBy(r, Start)
    ensures |r| == |segs|
    ensures forall t :: Cover(r, t) == Cover(segs, t)
  {
    r := Sort(segs, Start);
    SameElements(r, segs);
    forall i | 0 <= i < |r| ensures r[i].Valid() {
      assert r[i] in segs;
    }
    forall t ensures Cover(r, t) == Cover(segs, t) {
      CoverPermute(r, segs, t);
    }
  }

  function SubtractSegment(seg: Segment, remove: Segment): (out: seq<Segment>)
    requires seg.Valid() && remove.Valid()
    ensures AllValid(out)
    ensures forall t :: Cover(out, t) == if seg.Has(t) && !remove.Has(t) then 1 else 0
  {
    if remove.hi <= seg.lo || remove.lo >= seg.hi then
      [seg]
    else
      var left := Segment(seg.lo, Min(remove.lo, seg.hi));
      var right := Segment(Max(remove.hi, seg.lo), seg.hi);
      CoverPair(left, right);
      if remove.lo > seg.lo && remove.hi < seg.hi then [left, right]
      else if remove.lo > seg.lo then [left]
      else if remove.hi < seg.hi then [right]
      else []
  }

  function Min(a: int, b: int): int {
    if a <= b then a else b
  }

  function Max(a: int, b: int): int {
    if a >= b then a else b
  }

  /** One sweep over sorted owners decides whether they cover all of `seg`. */
  method SegmentCoveredBySegments(seg: Segment, owners: seq<Segment>) returns (covered: bool)
    requires seg.Valid() && AllValid(owners) && SortedBy(owners, Start)
    ensures covered <==> forall t :: seg.Has(t) ==> Cover(owners, t) > 0
  {
    var coveredUntil := seg.lo;
    for n := 0 to |owners|
      invariant seg.lo <= coveredUntil < seg.hi
      invariant forall i :: 0 <= i < n ==> owners[i].hi <= coveredUntil
      invariant forall t :: seg.lo <= t < coveredUntil ==> Cover(owners, t) > 0
    {
      var owner := owners[n];
      if owner.hi <= coveredUntil {
        continue;
      }
      if owner.lo > coveredUntil {
        forall i | 0 <= i < |owners| ensures !owners[i].Has(coveredUntil) {
          assert i > n ==> Start(owners[n]) <= Start(owners[i]);
        }
        CoverNone(owners, coveredUntil);
        return false;
      }
      forall t | owner.Has(t) ensures Cover(owners, t) > 0 {
        CoverAtLeast(owners, n, n, t);
      }
      if owner.hi >= seg.hi {
        return true;
      }
      coveredUntil := owner.hi;
    }
    CoverNone(owners, coveredUntil);
    return false;
  }

  /** Takes one segment out of all the remaining ones, keeping every multiplicity. */
  method RemoveSegment(segs: seq<Segment>, rm: Segment) returns (next: seq<Segment>)
    requires AllValid(segs) && rm.Valid()
    ensures AllValid(next)
    ensures forall t :: Cover(next, t) == if rm.Has(t) then 0 else Cover(segs, t)
  {
    next := [];
    for n := 0 to |segs|
      invariant AllValid(next)
      invariant forall t :: Cover(next, t) == if rm.Has(t) then 0 else Cover(segs[..n], t)
    {
      var piece := SubtractSegment(segs[n], rm);
      forall t ensures Cover(next + piece, t) == if rm.Has(t) then 0 else Cover(segs[..n + 1], t) {
        CoverConcat(next, piece, t);
        assert segs[..n + 1][..n] == segs[..n];
      }
      next := next + piece;
    }
    assert segs[..|segs|] == segs;
  }

  /** Each segment ends before any later one begins. */
  ghost predicate Increasing(segs: seq<Segment>) {
    forall i, j :: 0 <= i < j < |segs| ==> segs[i].hi <= segs[j].lo
  }

  /** The same, with something missing in between. */
  ghost predicate Gapped(segs: seq<Segment>) {
    forall i, j :: 0 <= i < j < |segs| ==> segs[i].hi < segs[j].lo
  }

  method MergeAdjacentSegments(segs: seq<Segment>) returns (out: seq<Segment>)
    requires AllValid(segs)
    ensures AllValid(out)
    ensures Increasing(segs) ==> Gapped(out)
    ensures forall t :: Cover(out, t) == Cover(segs, t)
  {
    if |segs| <= 1 {
      return segs;
    }
    out := [];
    var current := segs[0];
    assert out + [current] == segs[..1];
    for n := 1 to |segs|
      invariant AllValid(out + [current]) && current.Valid()
      invariant current.hi == segs[n - 1].hi
      invariant Increasing(segs) ==> Gapped(out + [current])
      invariant forall t :: Cover(out + [current], t) == Cover(segs[..n], t)
    {
      var seg := segs[n];
      assert segs[..n + 1] == segs[..n] + [seg];
      if current.hi == seg.lo {
        CoverJoin(out, current, seg);
        LastChanged(out, current, Segment(current.lo, seg.hi));
        current := Segment(current.lo, seg.hi);
      } else {
        LastAdded(out + [current], seg);
        out := out + [current];
        current := seg;
      }
      forall t ensures Cover(out + [current], t) == Cover(segs[..n + 1], t) {
        CoverSnoc(segs[..n], seg, t);
      }
    }
    out := out + [current];
    assert segs[..|segs|] == segs;
  }

  /** Two touching segments count like the one that spans both. */
  lemma CoverJoin(out: seq<Segment>, a: Segment, b: Segment)
    requires a.Valid() && b.Valid() && a.hi == b.lo
    ensures forall t :: Cover(out + [Segment(a.lo, b.hi)], t) == Cover(out + [a], t) + if b.Has(t) then 1 else 0
  {
    forall t ensures Cover(out + [Segment(a.lo, b.hi)], t) == Cover(out + [a], t) + if b.Has(t) then 1 else 0 {
      CoverSnoc(out, a, t);
      CoverSnoc(out, Segment(a.lo, b.hi), t);
    }
  }

  lemma LastChanged(out: seq<Segment>, was: Segment, now: Segment)
    requires now.Valid() && now.lo == was.lo
    ensures AllValid(out + [was]) ==> AllValid(out + [now])
    ensures Gapped(out + [was]) ==> Gapped(out + [now])
  {
    var a, b := out + [was], out + [now];
    assert forall i :: 0 <= i < |b| ==> b[i].lo == a[i].lo && (i < |out| ==> b[i] == a[i]);
  }

  lemma LastAdded(segs: seq<Segment>, x: Segment)
    requires x.Valid() && AllValid(segs) && segs != []
    ensures AllValid(segs + [x])
    ensures Gapped(segs) && segs[|segs| - 1].hi < x.lo ==> Gapped(segs + [x])
    ensures forall t :: Cover(segs + [x], t) == Cover(segs, t) + if x.Has(t) then 1 else 0
  {
    forall t ensures Cover(segs + [x], t) == Cover(segs, t) + if x.Has(t) then 1 else 0 {
      CoverSnoc(segs, x, t);
    }
  }

  /** `tokenSegmentsToRanges`: 2^64 is written 0, so no segment turns into another range. */
  method SegmentsToRanges(segs: seq<Segment>) returns (out: seq<TokenRange>)
    requires AllValid(segs)
    ensures |out| == |segs|
    ensures forall i :: 0 <= i < |out| ==> out[i] == SegmentRange(segs[i])
    ensures forall t: Token :: Owners(out, t) == Cover(segs, t)
  {
    out := [];
    for n := 0 to |segs|
      invariant |out| == n
      invariant forall i :: 0 <= i < n ==> out[i] == SegmentRange(segs[i])
      invariant forall t: Token :: Owners(out, t) == Cover(segs[..n], t)
    {
      ghost var was := out;
      out := out + [SegmentRange(segs[n])];
      forall t: Token ensures Owners(out, t) == Cover(segs[..n + 1], t) {
        assert out[..n] == was;
        assert segs[..n + 1][..n] == segs[..n];
      }
    }
    assert segs[..|segs|] == segs;
  }

  /** Sorted, separated by gaps and never wrapping: one list of ranges per token set. */
  ghost predicate Canonical(ranges: seq<TokenRange>) {
    && (forall i :: 0 <= i < |ranges| ==> ranges[i].start < ranges[i].end || ranges[i].end == 0)
    && (forall i, j :: 0 <= i < j < |ranges| ==> 0 < ranges[i].end < ranges[j].start)
  }

  /** Sorted segments that never count a token twice follow each other. */
  lemma DisjointMeansIncreasing(segs: seq<Segment>)
    requires AllValid(segs) && SortedBy(segs, Start)
    requires forall t: Token :: Cover(segs, t) <= 1
    ensures Increasing(segs)
  {
    forall i, j | 0 <= i < j < |segs| ensures segs[i].hi <= segs[j].lo {
      assert Start(segs[i]) <= Start(segs[j]);
      if segs[j].lo < segs[i].hi {
        CoverAtLeast(segs, i, j, segs[j].lo);
        assert false;
      }
    }
  }

  /** The ownership loop: every segment to remove is covered. */
  method AllCovered(removeSegs: seq<Segment>, owners: seq<Segment>) returns (covered: bool)
    requires AllValid(removeSegs) && AllValid(owners) && SortedBy(owners, Start)
    ensures covered <==> forall t :: Cover(removeSegs, t) > 0 ==> Cover(owners, t) > 0
  {
    for n := 0 to |removeSegs|
      invariant forall i, t :: 0 <= i < n && removeSegs[i].Has(t) ==> Cover(owners, t) > 0
    {
      var here := SegmentCoveredBySegments(removeSegs[n], owners);
      if !here {
        ghost var t :| removeSegs[n].Has(t) && Cover(owners, t) == 0;
        CoverAtLeast(removeSegs, n, n, t);
        return false;
      }
    }
    forall t | Cover(removeSegs, t) > 0 ensures Cover(owners, t) > 0 {
      var i := CoverWitness(removeSegs, t);
    }
    return true;
  }

  /** The removal loop: a token keeps its multiplicity unless it is removed. */
  method RemoveAll(owners: seq<Segment>, removeSegs: seq<Segment>) returns (remaining: seq<Segment>)
    requires AllValid(owners) && AllValid(removeSegs)
    ensures AllValid(remaining)
    ensures forall t :: Cover(remaining, t) == if Cover(removeSegs, t) > 0 then 0 else Cover(owners, t)
  {
    remaining := owners;
    for n := 0 to |removeSegs|
      invariant AllValid(remaining)
      invariant forall t :: Cover(remaining, t) == if Cover(removeSegs[..n], t) > 0 then 0 else Cover(owners, t)
    {
      remaining := RemoveSegment(remaining, removeSegs[n]);
      assert removeSegs[..n + 1][..n] == removeSegs[..n];
    }
    assert removeSegs[..|removeSegs|] == removeSegs;
  }

  lemma CanonicalRanges(segs: seq<Segment>, ranges: seq<TokenRange>)
    requires AllValid(segs) && Gapped(segs) && |ranges| == |segs|
    requires forall i :: 0 <= i < |ranges| ==> ranges[i] == SegmentRange(segs[i])
    ensures Canonical(ranges)
  {
    forall i, j | 0 <= i < j < |ranges| ensures 0 < ranges[i].end < ranges[j].start {
      assert segs[i].hi < segs[j].lo && segs[i].Valid() && segs[j].Valid();
    }
  }

  /**
   What is left of the owned ranges when `remove` is taken out. It succeeds
   exactly when every removed token is owned, and then every other token keeps
   its multiplicity and every removed one loses all of it.
   */
  method SubtractTokenRanges(ranges: seq<TokenRange>, remove: TokenRange)
      returns (out: Option<seq<TokenRange>>)
    ensures out.Some? <==> forall t: Token :: remove.Contains(t) ==> Owners(ranges, t) > 0
    ensures out.Some? ==>
              forall t: Token :: Owners(out.value, t) == if remove.Contains(t) then 0 else Owners(ranges, t)
    ensures out.Some? && (forall t: Token :: Owners(ranges, t) <= 1) ==> Canonical(out.value)
  {
    if ranges == [] {
      assert remove.Contains(remove.start) && Owners(ranges, remove.start) == 0;
      return None;
    }
    var owners := CollectSegments(ranges);
    owners := SortSegments(owners);
    var removeSegs := SortSegments(RangeSegments(remove));
    assert forall t: Token :: Cover(removeSegs, t) == Cover(RangeSegments(remove), t);
    var covered := AllCovered(removeSegs, owners);
    if !covered {
      ghost var t :| Cover(removeSegs, t) > 0 && Cover(owners, t) == 0;
      ghost var i := CoverWitness(removeSegs, t);
      assert remove.Contains(t) && Owners(ranges, t) == 0;
      return None;
    }
    forall t: Token | remove.Contains(t) ensures Owners(ranges, t) > 0 {
      assert Cover(removeSegs, t) == 1 && Cover(owners, t) > 0;
    }
    var remaining := RemoveAll(owners, removeSegs);
    remaining := SortSegments(remaining);
    var merged := MergeAdjacentSegments(remaining);
    var kept := SegmentsToRanges(merged);
    if forall t: Token :: Owners(ranges, t) <= 1 {
      DisjointMeansIncreasing(remaining);
      CanonicalRanges(merged, kept);
    }
    return Some(kept);
  }

  /** When everything is removed nothing is left: never a range that reads as the full ring. */
  lemma EmptyRemainder(ranges: seq<TokenRange>, remove: TokenRange, out: seq<TokenRange>)
    requires forall t: Token :: Owners(out, t) == if remove.Contains(t) then 0 else Owners(ranges, t)
    ensures out == [] <==> forall t: Token :: Owners(ranges, t) > 0 ==> remove.Contains(t)
  {
    if out != [] {
      OwnersAtLeast(out, 0, 0, out[0].start);
    }
    if t: Token :| Owners(ranges, t) > 0 && !remove.Contains(t) {
      assert Owners(out, t) > 0;
    }
  }
}
