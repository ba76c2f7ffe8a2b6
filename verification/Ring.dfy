/**
 The hash-token ring: 64-bit tokens, half-open ranges that may wrap, and the
 linear segments a range is cut into before any sweep.
 */
module Ring {
  import opened Sorting

  const SPACE: int := 0x1_0000_0000_0000_0000

  type Token = t: int | 0 <= t < 0x1_0000_0000_0000_0000

  /** [start, end); start == end is the full ring, start > end wraps. */
  datatype TokenRange = TokenRange(start: Token, end: Token) {
    predicate Contains(token: Token) {
      if start == end then true
      else if start < end then start <= token < end
      else start <= token || token < end
    }
  }

  /** A non-wrapping piece of the token line, bounds up to 2^64. */
  datatype Segment = Segment(lo: int, hi: int) {
    ghost predicate Valid() {
      0 <= lo < hi <= SPACE
    }

    predicate Has(t: int) {
      lo <= t < hi
    }
  }

  ghost predicate AllValid(segs: seq<Segment>) {
    forall i :: 0 <= i < |segs| ==> segs[i].Valid()
  }

  /** How many of the segments contain `t`. */
  ghost function Cover(segs: seq<Segment>, t: int): nat {
    if segs == [] then 0
    else Cover(segs[..|segs| - 1], t) + if segs[|segs| - 1].Has(t) then 1 else 0
  }

  /** How many of the ranges contain `t`: the definition every sweep is measured against. */
  ghost function Owners(ranges: seq<TokenRange>, t: Token): nat {
    if ranges == [] then 0
    else Owners(ranges[..|ranges| - 1], t) + if ranges[|ranges| - 1].Contains(t) then 1 else 0
  }

  /** The one or two segments of a range. */
  function RangeSegments(r: TokenRange): (segs: seq<Segment>)
    ensures AllValid(segs)
    ensures 1 <= |segs| <= 2
    ensures forall t: Token :: Cover(segs, t) == if r.Contains(t) then 1 else 0
  {
    if r.start == r.end then
      [Segment(0, SPACE)]
    else if r.start < r.end then
      [Segment(r.start, r.end)]
    else if r.end == 0 then
      [Segment(r.start, SPACE)]
    else
      CoverPair(Segment(r.start, SPACE), Segment(0, r.end));
      [Segment(r.start, SPACE), Segment(0, r.end)]
  }

  lemma CoverPair(a: Segment, b: Segment)
    ensures forall t :: Cover([a, b], t) == (if a.Has(t) then 1 else 0) + if b.Has(t) then 1 else 0
  {
    forall t ensures Cover([a, b], t) == (if a.Has(t) then 1 else 0) + if b.Has(t) then 1 else 0 {
      assert [a, b][..1] == [a];
      assert Cover([a], t) == if a.Has(t) then 1 else 0;
    }
  }

  /** The end of a segment as a range end: 2^64 is written 0. */
  function WrapEnd(v: int): (t: Token)
    requires 0 <= v <= SPACE
    ensures t % SPACE == v % SPACE
  {
    if v == SPACE then 0 else v
  }

  function SegmentRange(seg: Segment): (r: TokenRange)
    requires seg.Valid()
    ensures forall t: Token :: r.Contains(t) <==> seg.Has(t)
  {
    TokenRange(WrapEnd(seg.lo), WrapEnd(seg.hi))
  }

  lemma {:induction false} CoverConcat(a: seq<Segment>, b: seq<Segment>, t: int)
    ensures Cover(a + b, t) == Cover(a, t) + Cover(b, t)
  {
    if b == [] {
      assert a + b == a;
    } else {
      var n := |b| - 1;
      assert (a + b)[..|a + b| - 1] == a + b[..n];
      CoverConcat(a, b[..n], t);
    }
  }

  lemma CoverSnoc(s: seq<Segment>, x: Segment, t: int)
    ensures Cover(s + [x], t) == Cover(s, t) + if x.Has(t) then 1 else 0
  {
    assert (s + [x])[..|s|] == s;
  }

  lemma {:induction false} OwnersConcat(a: seq<TokenRange>, b: seq<TokenRange>, t: Token)
    ensures Owners(a + b, t) == Owners(a, t) + Owners(b, t)
  {
    if b == [] {
      assert a + b == a;
    } else {
      var n := |b| - 1;
      assert (a + b)[..|a + b| - 1] == a + b[..n];
      OwnersConcat(a, b[..n], t);
    }
  }

  function HasToken(t: int): Segment -> nat {
    (seg: Segment) => if seg.Has(t) then 1 else 0
  }

  lemma {:induction false} CoverIsSum(segs: seq<Segment>, t: int)
    ensures Cover(segs, t) == Sum(segs, HasToken(t))
  {
    if segs != [] {
      CoverIsSum(segs[..|segs| - 1], t);
    }
  }

  /** Covering counts do not depend on the order of the segments. */
  lemma CoverPermute(a: seq<Segment>, b: seq<Segment>, t: int)
    requires multiset(a) == multiset(b)
    ensures Cover(a, t) == Cover(b, t)
  {
    CoverIsSum(a, t);
    CoverIsSum(b, t);
    SumPermute(a, b, HasToken(t));
  }

  /** A positive count has a witness. */
  lemma {:induction false} CoverWitness(segs: seq<Segment>, t: int) returns (i: nat)
    requires Cover(segs, t) > 0
    ensures i < |segs| && segs[i].Has(t)
  {
    var n := |segs| - 1;
    if segs[n].Has(t) {
      i := n;
    } else {
      i := CoverWitness(segs[..n], t);
    }
  }

  /** Nothing is counted where no segment reaches. */
  lemma {:induction false} CoverNone(segs: seq<Segment>, t: int)
    requires forall i :: 0 <= i < |segs| ==> !segs[i].Has(t)
    ensures Cover(segs, t) == 0
  {
    if segs != [] {
      CoverNone(segs[..|segs| - 1], t);
    }
  }

  /** Every containing index adds at least one, and two of them add two. */
  lemma {:induction false} CoverAtLeast(segs: seq<Segment>, i: nat, j: nat, t: int)
    requires i <= j < |segs| && segs[i].Has(t) && segs[j].Has(t)
    ensures Cover(segs, t) >= if i < j then 2 else 1
  {
    var n := |segs| - 1;
    if j < n {
      CoverAtLeast(segs[..n], i, j, t);
    } else if i < j {
      CoverAtLeast(segs[..n], i, i, t);
    }
  }

  lemma {:induction false} OwnersAtLeast(ranges: seq<TokenRange>, i: nat, j: nat, t: Token)
    requires i <= j < |ranges| && ranges[i].Contains(t) && ranges[j].Contains(t)
    ensures Owners(ranges, t) >= if i < j then 2 else 1
  {
    var n := |ranges| - 1;
    if j < n {
      OwnersAtLeast(ranges[..n], i, j, t);
    } else if i < j {
      OwnersAtLeast(ranges[..n], i, i, t);
    }
  }

  lemma {:induction false} OwnersWitness(ranges: seq<TokenRange>, t: Token) returns (i: nat)
    requires Owners(ranges, t) > 0
    ensures i < |ranges| && ranges[i].Contains(t)
  {
    var n := |ranges| - 1;
    if ranges[n].Contains(t) {
      i := n;
    } else {
      i := OwnersWitness(ranges[..n], t);
    }
  }

  /** Every range contains at least its own start. */
  lemma RangeNonEmpty(r: TokenRange)
    ensures r.Contains(r.start)
  {
  }

  /** The segments of all the ranges, in order (the collecting loop of every sweep). */
  method CollectSegments(ranges: seq<TokenRange>) returns (segs: seq<Segment>)
    ensures AllValid(segs)
    ensures ranges != [] ==> segs != []
    ensures forall t: Token :: Cover(segs, t) == Owners(ranges, t)
  {
    segs := [];
    for n := 0 to |ranges|
      invariant AllValid(segs)
      invariant n > 0 ==> segs != []
      invariant forall t: Token :: Cover(segs, t) == Owners(ranges[..n], t)
    {
      var more := RangeSegments(ranges[n]);
      forall t: Token ensures Cover(segs + more, t) == Owners(ranges[..n + 1], t) {
        CoverConcat(segs, more, t);
        assert ranges[..n + 1][..n] == ranges[..n];
      }
      segs := segs + more;
    }
    assert ranges[..|ranges|] == ranges;
  }
}
