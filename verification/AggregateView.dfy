/**
 Incremental COUNT and SUM views: exactly when the deltas of a batch keep every
 group equal to what recomputing it over the base table would give.
 */
module AggregateView {
  import opened Wrappers

  // ---- items, groups and contributions -------------------------------------------------

  datatype Attr = N(n: real) | S(s: string) | Null

  type Item = map<string, Attr>

  datatype Aggregation = Count(target: string) | Sum(source: string, target: string)

  /** An aggregating view, grouped by `pk` and, unless it is empty, `sk`. */
  datatype View = View(pk: string, sk: string, aggs: seq<Aggregation>)

  datatype Group = Group(pk: Attr, sk: Option<Attr>)

  /** `deriveMVGroupKey`. */
  function GroupOf(mv: View, item: Item): Option<Group> {
    if mv.pk !in item then None
    else if mv.sk == "" then Some(Group(item[mv.pk], None))
    else if mv.sk !in item then None
    else Some(Group(item[mv.pk], Some(item[mv.sk])))
  }

  /** Two items share a group exactly when they agree on every attribute the view groups by. */
  lemma SameGroupIff(mv: View, a: Item, b: Item)
    requires GroupOf(mv, a).Some? && GroupOf(mv, b).Some?
    ensures GroupOf(mv, a) == GroupOf(mv, b) <==> a[mv.pk] == b[mv.pk] && (mv.sk != "" ==> a[mv.sk] == b[mv.sk])
  {
  }

  /** What one aggregation takes from an item, for target attribute `a`. */
  ghost function Term(agg: Aggregation, item: Item, a: string): real {
    if agg.target != a then 0.0
    else match agg
      case Count(_) => 1.0
      case Sum(source, _) => if source in item && item[source].N? then item[source].n else 0.0
  }

  ghost function Terms(aggs: seq<Aggregation>, item: Item, a: string): real {
    if aggs == [] then 0.0 else Terms(aggs[..|aggs| - 1], item, a) + Term(aggs[|aggs| - 1], item, a)
  }

  /** What an item adds to attribute `a` of group `g`. */
  ghost function Share(mv: View, item: Option<Item>, g: Group, a: string): real {
    if item.Some? && GroupOf(mv, item.value) == Some(g) then Terms(mv.aggs, item.value, a) else 0.0
  }

  /** The aggregation can read the item: a SUM source is a number, null or absent. */
  predicate Readable(agg: Aggregation, item: Item) {
    agg.Sum? && agg.source in item ==> !item[agg.source].S?
  }

  ghost predicate Summable(mv: View, item: Option<Item>) {
    item.Some? && GroupOf(mv, item.value).Some? ==> forall i :: 0 <= i < |mv.aggs| ==> Readable(mv.aggs[i], item.value)
  }

  // ---- tables of numbers ------------------------------------------------------------------

  type Row = map<string, real>
  type Table = map<Group, Row>

  function At(row: Row, a: string): real {
    if a in row then row[a] else 0.0
  }

  /** An absent group or attribute reads as zero. */
  function ValueAt(t: Table, g: Group, a: string): real {
    if g in t then At(t[g], a) else 0.0
  }

  // ---- deltas --------------------------------------------------------------------------------

  datatype Mutation = Mutation(before: Option<Item>, after: Option<Item>)

  /** What a list of mutations adds to attribute `a` of group `g`. */
  ghost function Change(mv: View, muts: seq<Mutation>, g: Group, a: string): real {
    if muts == [] then 0.0
    else
      var m := muts[|muts| - 1];
      Change(mv, muts[..|muts| - 1], g, a) - Share(mv, m.before, g, a) + Share(mv, m.after, g, a)
  }

  /** The inner loop of `addMVAggregateContribution`, on one group's deltas. */
  method AddTerms(aggs: seq<Aggregation>, row: Row, item: Item, plus: bool) returns (ok: bool, row': Row)
    ensures ok <==> forall i :: 0 <= i < |aggs| ==> Readable(aggs[i], item)
    ensures ok ==> forall a :: At(row', a) == if plus then At(row, a) + Terms(aggs, item, a) else At(row, a) - Terms(aggs, item, a)
  {
    row' := row;
    for n := 0 to |aggs|
      invariant forall i :: 0 <= i < n ==> Readable(aggs[i], item)
      invariant forall a :: At(row', a) == if plus then At(row, a) + Terms(aggs[..n], item, a) else At(row, a) - Terms(aggs[..n], item, a)
    {
      var agg := aggs[n];
      assert aggs[..n + 1][..n] == aggs[..n];
      var term := 1.0;
      if agg.Sum? {
        if agg.source !in item || item[agg.source].Null? {
          continue;
        }
        if !item[agg.source].N? {
          return false, row;
        }
        term := item[agg.source].n;
      }
      row' := row'[agg.target := At(row', agg.target) + if plus then term else -term];
    }
    assert aggs[..|aggs|] == aggs;
    ok := true;
  }

  /** `addMVAggregateContribution`: nothing for an item without the group key. */
  method AddContribution(mv: View, deltas: Table, item: Item, plus: bool) returns (ok: bool, deltas': Table)
    ensures ok <==> Summable(mv, Some(item))
    ensures ok ==> forall g, a :: ValueAt(deltas', g, a) ==
                                  if plus then ValueAt(deltas, g, a) + Share(mv, Some(item), g, a)
                                  else ValueAt(deltas, g, a) - Share(mv, Some(item), g, a)
  {
    var key := GroupOf(mv, item);
    if key.None? {
      return true, deltas;
    }
    var row: Row := if key.value in deltas then deltas[key.value] else map[];
    var row';
    ok, row' := AddTerms(mv.aggs, row, item, plus);
    deltas' := deltas[key.value := row'];
  }

  /** The first half of `applyMVAggregateMutations`: old images out, new images in. */
  method CollectDeltas(mv: View, muts: seq<Mutation>) returns (ok: bool, deltas: Table)
    ensures ok <==> AllSummable(mv, muts)
    ensures ok ==> forall g, a :: ValueAt(deltas, g, a) == Change(mv, muts, g, a)
  {
    deltas := map[];
    for n := 0 to |muts|
      invariant forall i :: 0 <= i < n ==> Summable(mv, muts[i].before) && Summable(mv, muts[i].after)
      invariant forall g, a :: ValueAt(deltas, g, a) == Change(mv, muts[..n], g, a)
    {
      assert muts[..n + 1][..n] == muts[..n];
      if muts[n].before.Some? {
        ok, deltas := AddContribution(mv, deltas, muts[n].before.value, false);
        if !ok {
          return;
        }
      }
      if muts[n].after.Some? {
        ok, deltas := AddContribution(mv, deltas, muts[n].after.value, true);
        if !ok {
          return;
        }
      }
    }
    assert muts[..|muts|] == muts;
    ok := true;
  }

  /** One group's atomic update: every attribute whose delta is not zero is added to. */
  method AddRow(row: Row, delta: Row) returns (row': Row, changed: bool)
    ensures forall a :: At(row', a) == At(row, a) + At(delta, a)
    ensures !changed ==> row' == row
  {
    row', changed := row, false;
    var left := delta.Keys;
    while left != {}
      invariant left <= delta.Keys
      invariant forall a :: At(row', a) == if a in left then At(row, a) else At(row, a) + At(delta, a)
      invariant !changed ==> row' == row
      decreases left
    {
      var a :| a in left;
      left := left - {a};
      if delta[a] != 0.0 {
        row', changed := row'[a := At(row', a) + delta[a]], true;
      }
    }
  }

  /** Every image of the mutations can be summed; otherwise the whole batch of deltas is refused. */
  ghost predicate AllSummable(mv: View, muts: seq<Mutation>) {
    forall i :: 0 <= i < |muts| ==> Summable(mv, muts[i].before) && Summable(mv, muts[i].after)
  }

  /** The groups of `done`, and only those, got what the mutations add to them. */
  ghost predicate Maintained(mv: View, view: Table, view': Table, muts: seq<Mutation>, done: set<Group>) {
    forall g, a :: ValueAt(view', g, a) == ValueAt(view, g, a) + if g in done then Change(mv, muts, g, a) else 0.0
  }

  /** Every group the mutations change is in `done`. */
  ghost predicate Reached(mv: View, muts: seq<Mutation>, done: set<Group>) {
    forall g, a :: g !in done ==> Change(mv, muts, g, a) == 0.0
  }

  /** No group update returns an error. */
  ghost predicate NoError(fails: Group -> bool) {
    forall g :: !fails(g)
  }

  /** `applyMVAggregateMutations`; `fails` says for which groups the atomic update returns an error. */
  method ApplyMutations(mv: View, view: Table, muts: seq<Mutation>, fails: Group -> bool)
      returns (ok: bool, view': Table, ghost done: set<Group>)
    ensures Maintained(mv, view, view', muts, done)
    ensures ok ==> AllSummable(mv, muts) && Reached(mv, muts, done)
    ensures AllSummable(mv, muts) && NoError(fails) ==> ok
    ensures !AllSummable(mv, muts) ==> view' == view && done == {}
  {
    view', done := view, {};
    var deltas;
    ok, deltas := CollectDeltas(mv, muts);
    if !ok {
      return;
    }
    var left := deltas.Keys;
    while left != {}
      invariant left <= deltas.Keys && done == deltas.Keys - left
      invariant forall g, a :: ValueAt(view', g, a) ==
                               if g in done then ValueAt(view, g, a) + ValueAt(deltas, g, a) else ValueAt(view, g, a)
      decreases left
    {
      var g :| g in left;
      var row: Row := if g in view' then view'[g] else map[];
      var row', changed := AddRow(row, deltas[g]);
      if changed {
        if fails(g) {
          return false, view', done;
        }
        view' := view'[g := row'];
      }
      left, done := left - {g}, done + {g};
    }
  }

  // ---- the base table -----------------------------------------------------------------------

  type Key = string
  type Base = map<Key, Item>

  datatype BaseOp = Put(key: Key, item: Item) | Delete(key: Key)

  function Lookup(base: Base, k: Key): Option<Item> {
    if k in base then Some(base[k]) else None
  }

  function Image(op: BaseOp): Option<Item> {
    if op.Put? then Some(op.item) else None
  }

  function Applied(base: Base, op: BaseOp): Base {
    if op.Put? then base[op.key := op.item] else base - {op.key}
  }

  function AfterBatch(base: Base, ops: seq<BaseOp>): Base {
    if ops == [] then base else Applied(AfterBatch(base, ops[..|ops| - 1]), ops[|ops| - 1])
  }

  /** Recomputation: the shares of all base rows, in any order. */
  ghost function Total(mv: View, base: Base, g: Group, a: string): real
    decreases |base|
  {
    if base == map[] then 0.0
    else
      var k :| k in base;
      Share(mv, Some(base[k]), g, a) + Total(mv, base - {k}, g, a)
  }

  /** Whichever row is taken out first. */
  lemma {:induction false} TotalWithout(mv: View, base: Base, k: Key, g: Group, a: string)
    requires k in base
    ensures Total(mv, base, g, a) == Share(mv, Some(base[k]), g, a) + Total(mv, base - {k}, g, a)
    decreases |base|
  {
    var first :| first in base && Total(mv, base, g, a) == Share(mv, Some(base[first]), g, a) + Total(mv, base - {first}, g, a);
    if first != k {
      TotalWithout(mv, base - {first}, k, g, a);
      TotalWithout(mv, base - {k}, first, g, a);
      assert base - {first} - {k} == base - {k} - {first};
    }
  }

  /** A put or delete changes the total by the new share less the old. */
  lemma TotalApplied(mv: View, base: Base, op: BaseOp, g: Group, a: string)
    ensures Total(mv, Applied(base, op), g, a)
         == Total(mv, base, g, a) - Share(mv, Lookup(base, op.key), g, a) + Share(mv, Image(op), g, a)
  {
    var without := base - {op.key};
    if op.key in base {
      TotalWithout(mv, base, op.key, g, a);
    } else {
      assert without == base;
    }
    if op.Put? {
      TotalWithout(mv, Applied(base, op), op.key, g, a);
      assert Applied(base, op) - {op.key} == without;
    }
  }

  // ---- batches --------------------------------------------------------------------------------

  /** `captureMVEagerBatchMutations`: every prior image is read before the batch is written. */
  method Capture(base: Base, ops: seq<BaseOp>) returns (muts: seq<Mutation>)
    ensures muts == Captured(base, ops)
  {
    muts := [];
    for n := 0 to |ops|
      invariant muts == Captured(base, ops[..n])
    {
      muts := muts + [Mutation(Lookup(base, ops[n].key), Image(ops[n]))];
    }
    assert ops[..|ops|] == ops;
  }

  ghost function Captured(base: Base, ops: seq<BaseOp>): seq<Mutation> {
    seq(|ops|, i requires 0 <= i < |ops| => Mutation(Lookup(base, ops[i].key), Image(ops[i])))
  }

  /**
   What the captured images miss when a batch writes a key again: the share of the
   row an op really replaces, less the share of the row read before the batch.
   */
  ghost function Drift(mv: View, base: Base, ops: seq<BaseOp>, g: Group, a: string): real {
    if ops == [] then 0.0
    else
      var most, last := ops[..|ops| - 1], ops[|ops| - 1];
      Drift(mv, base, most, g, a)
      + Share(mv, Lookup(AfterBatch(base, most), last.key), g, a) - Share(mv, Lookup(base, last.key), g, a)
  }

  ghost predicate NoDrift(mv: View, base: Base, ops: seq<BaseOp>) {
    forall g, a :: Drift(mv, base, ops, g, a) == 0.0
  }

  /** Recomputation after any batch: the captured changes, less the drift. */
  lemma {:induction false} BatchTotal(mv: View, base: Base, ops: seq<BaseOp>, g: Group, a: string)
    ensures Total(mv, AfterBatch(base, ops), g, a)
         == Total(mv, base, g, a) + Change(mv, Captured(base, ops), g, a) - Drift(mv, base, ops, g, a)
  {
    if ops != [] {
      var n := |ops| - 1;
      BatchTotal(mv, base, ops[..n], g, a);
      TotalApplied(mv, AfterBatch(base, ops[..n]), ops[n], g, a);
      assert Captured(base, ops)[..n] == Captured(base, ops[..n]);
    }
  }

  ghost predicate DistinctKeys(ops: seq<BaseOp>) {
    forall i, j :: 0 <= i < j < |ops| ==> ops[i].key != ops[j].key
  }

  lemma {:induction false} OthersKept(base: Base, ops: seq<BaseOp>, k: Key)
    requires forall i :: 0 <= i < |ops| ==> ops[i].key != k
    ensures Lookup(AfterBatch(base, ops), k) == Lookup(base, k)
  {
    if ops != [] {
      OthersKept(base, ops[..|ops| - 1], k);
    }
  }

  /** A batch of distinct keys does not drift. */
  lemma {:induction false} DistinctKeysDoNotDrift(mv: View, base: Base, ops: seq<BaseOp>)
    requires DistinctKeys(ops)
    ensures NoDrift(mv, base, ops)
  {
    if ops != [] {
      var n := |ops| - 1;
      DistinctKeysDoNotDrift(mv, base, ops[..n]);
      OthersKept(base, ops[..n], ops[n].key);
      forall g, a ensures Drift(mv, base, ops, g, a) == 0.0 {
        assert Drift(mv, base, ops[..n], g, a) == 0.0;
      }
    }
  }

  // ---- exactly when a batch keeps the view in step ------------------------------------------------

  /** Every group reads as recomputation would give it. */
  ghost predicate InSync(mv: View, base: Base, view: Table) {
    forall g, a :: ValueAt(view, g, a) == Total(mv, base, g, a)
  }

  /**
   How far a batch moves the view off recomputation: by the drift in the groups
   that were updated, by everything the batch adds in the others.
   */
  ghost function Slip(mv: View, base: Base, ops: seq<BaseOp>, done: set<Group>, g: Group, a: string): real {
    Drift(mv, base, ops, g, a) - if g in done then 0.0 else Change(mv, Captured(base, ops), g, a)
  }

  ghost predicate NoSlip(mv: View, base: Base, ops: seq<BaseOp>, done: set<Group>) {
    forall g, a :: Slip(mv, base, ops, done, g, a) == 0.0
  }

  /** The distance between view and recomputation grows by the slip. */
  lemma BatchSlips(mv: View, base: Base, view: Table, view': Table, ops: seq<BaseOp>, done: set<Group>, g: Group, a: string)
    requires Maintained(mv, view, view', Captured(base, ops), done)
    ensures ValueAt(view', g, a) - Total(mv, AfterBatch(base, ops), g, a)
         == ValueAt(view, g, a) - Total(mv, base, g, a) + Slip(mv, base, ops, done, g, a)
  {
    BatchTotal(mv, base, ops, g, a);
  }

  /** From a view in sync, a batch leads to a view in sync exactly when nothing slips. */
  lemma InSyncIffNoSlip(mv: View, base: Base, view: Table, view': Table, ops: seq<BaseOp>, done: set<Group>)
    requires InSync(mv, base, view) && Maintained(mv, view, view', Captured(base, ops), done)
    ensures InSync(mv, AfterBatch(base, ops), view') <==> NoSlip(mv, base, ops, done)
  {
    forall g, a
      ensures ValueAt(view', g, a) == Total(mv, AfterBatch(base, ops), g, a) <==> Slip(mv, base, ops, done, g, a) == 0.0
    {
      BatchSlips(mv, base, view, view', ops, done, g, a);
      assert ValueAt(view, g, a) == Total(mv, base, g, a);
    }
    if InSync(mv, AfterBatch(base, ops), view') {
      forall g, a ensures Slip(mv, base, ops, done, g, a) == 0.0 {
        assert ValueAt(view', g, a) == Total(mv, AfterBatch(base, ops), g, a);
      }
    }
    if NoSlip(mv, base, ops, done) {
      forall g, a ensures ValueAt(view', g, a) == Total(mv, AfterBatch(base, ops), g, a) {
        assert Slip(mv, base, ops, done, g, a) == 0.0;
      }
    }
  }

  /** A completed batch slips exactly when it drifts. */
  lemma CompletedSlip(mv: View, base: Base, ops: seq<BaseOp>, done: set<Group>)
    requires Reached(mv, Captured(base, ops), done)
    ensures NoSlip(mv, base, ops, done) <==> NoDrift(mv, base, ops)
  {
    forall g, a ensures Slip(mv, base, ops, done, g, a) == Drift(mv, base, ops, g, a) {
    }
    if NoSlip(mv, base, ops, done) {
      forall g, a ensures Drift(mv, base, ops, g, a) == 0.0 {
        assert Slip(mv, base, ops, done, g, a) == 0.0;
      }
    }
    if NoDrift(mv, base, ops) {
      forall g, a ensures Slip(mv, base, ops, done, g, a) == 0.0 {
        assert Drift(mv, base, ops, g, a) == 0.0;
      }
    }
  }

  /**
   A batch write with its view maintenance: capture, write the base, apply the
   deltas. The base is written before a source that cannot be summed is noticed.
   */
  method WriteBatch(mv: View, base: Base, view: Table, ops: seq<BaseOp>, fails: Group -> bool)
      returns (ok: bool, base': Base, view': Table, ghost done: set<Group>)
    ensures base' == AfterBatch(base, ops) && Maintained(mv, view, view', Captured(base, ops), done)
    ensures ok ==> AllSummable(mv, Captured(base, ops))
    ensures AllSummable(mv, Captured(base, ops)) && NoError(fails) ==> ok
    ensures !AllSummable(mv, Captured(base, ops)) ==> view' == view && done == {}
    ensures InSync(mv, base, view) ==> (InSync(mv, base', view') <==> NoSlip(mv, base, ops, done))
    ensures InSync(mv, base, view) && !AllSummable(mv, Captured(base, ops)) ==>
              (InSync(mv, base', view') <==> NoSlip(mv, base, ops, {}))
    ensures InSync(mv, base, view) && ok ==> (InSync(mv, base', view') <==> NoDrift(mv, base, ops))
    ensures InSync(mv, base, view) && ok && DistinctKeys(ops) ==> InSync(mv, base', view')
  {
    var muts := Capture(base, ops);
    base' := AfterBatch(base, ops);
    ok, view', done := ApplyMutations(mv, view, muts, fails);
    if InSync(mv, base, view) {
      InSyncIffNoSlip(mv, base, view, view', ops, done);
      if ok {
        CompletedSlip(mv, base, ops, done);
        if DistinctKeys(ops) {
          DistinctKeysDoNotDrift(mv, base, ops);
        }
      }
    }
  }

  // ---- runs --------------------------------------------------------------------------------------

  /** One batch of a run: what it wrote and which groups its maintenance reached. */
  datatype Step = Step(ops: seq<BaseOp>, done: set<Group>)

  /** A refused batch reaches no group; a storage error may stop any other one early. */
  ghost predicate Next(mv: View, base: Base, view: Table, step: Step, base': Base, view': Table) {
    && base' == AfterBatch(base, step.ops)
    && Maintained(mv, view, view', Captured(base, step.ops), step.done)
    && (!AllSummable(mv, Captured(base, step.ops)) ==> step.done == {})
  }

  ghost predicate IsRun(mv: View, bases: seq<Base>, views: seq<Table>, steps: seq<Step>) {
    && |bases| == |views| == |steps| + 1 && InSync(mv, bases[0], views[0])
    && forall n :: 0 <= n < |steps| ==> Next(mv, bases[n], views[n], steps[n], bases[n + 1], views[n + 1])
  }

  /** The slips of the first `n` batches, added up. */
  ghost function Slips(mv: View, bases: seq<Base>, steps: seq<Step>, n: nat, g: Group, a: string): real
    requires n <= |steps| <= |bases|
  {
    if n == 0 then 0.0
    else
      Slips(mv, bases, steps, n - 1, g, a) + Slip(mv, bases[n - 1], steps[n - 1].ops, steps[n - 1].done, g, a)
  }

  ghost predicate SlipsCancel(mv: View, bases: seq<Base>, steps: seq<Step>, n: nat)
    requires n <= |steps| <= |bases|
  {
    forall g, a :: Slips(mv, bases, steps, n, g, a) == 0.0
  }

  lemma {:induction false} RunSlips(
    mv: View, bases: seq<Base>, views: seq<Table>, steps: seq<Step>, n: nat, g: Group, a: string)
    requires IsRun(mv, bases, views, steps) && n <= |steps|
    ensures ValueAt(views[n], g, a) == Total(mv, bases[n], g, a) + Slips(mv, bases, steps, n, g, a)
  {
    if n == 0 {
      assert ValueAt(views[0], g, a) == Total(mv, bases[0], g, a);
    } else {
      RunSlips(mv, bases, views, steps, n - 1, g, a);
      assert Next(mv, bases[n - 1], views[n - 1], steps[n - 1], bases[n], views[n]);
      BatchSlips(mv, bases[n - 1], views[n - 1], views[n], steps[n - 1].ops, steps[n - 1].done, g, a);
    }
  }

  /**
   Over every run, refused batches, storage errors and repeated keys included, the
   view equals recomputation after `n` batches if and only if their slips cancel.
   */
  lemma RunInSync(mv: View, bases: seq<Base>, views: seq<Table>, steps: seq<Step>, n: nat)
    requires IsRun(mv, bases, views, steps) && n <= |steps|
    ensures InSync(mv, bases[n], views[n]) <==> SlipsCancel(mv, bases, steps, n)
  {
    forall g, a
      ensures ValueAt(views[n], g, a) == Total(mv, bases[n], g, a) <==> Slips(mv, bases, steps, n, g, a) == 0.0
    {
      RunSlips(mv, bases, views, steps, n, g, a);
    }
  }

  /** Nothing slips in any of the first `n` batches. */
  ghost predicate NeverSlips(mv: View, bases: seq<Base>, steps: seq<Step>, n: nat)
    requires n <= |steps| <= |bases|
  {
    forall i :: 0 <= i < n ==> NoSlip(mv, bases[i], steps[i].ops, steps[i].done)
  }

  /** The view is in sync all the way exactly when no batch slips. */
  lemma {:induction false} StaysInSync(mv: View, bases: seq<Base>, views: seq<Table>, steps: seq<Step>, n: nat)
    requires IsRun(mv, bases, views, steps) && n <= |steps|
    ensures (forall i :: 0 <= i <= n ==> InSync(mv, bases[i], views[i])) <==> NeverSlips(mv, bases, steps, n)
  {
    if n > 0 {
      StaysInSync(mv, bases, views, steps, n - 1);
      assert Next(mv, bases[n - 1], views[n - 1], steps[n - 1], bases[n], views[n]);
      if InSync(mv, bases[n - 1], views[n - 1]) {
        InSyncIffNoSlip(mv, bases[n - 1], views[n - 1], views[n], steps[n - 1].ops, steps[n - 1].done);
      }
    }
  }

  /** The batch was neither refused nor cut short. */
  ghost predicate Completed(mv: View, base: Base, step: Step) {
    forall g, a :: g !in step.done ==> Change(mv, Captured(base, step.ops), g, a) == 0.0
  }

  /** Batches of distinct keys that all complete keep every group equal to recomputation. */
  lemma DistinctRunInSync(mv: View, bases: seq<Base>, views: seq<Table>, steps: seq<Step>, n: nat)
    requires IsRun(mv, bases, views, steps) && n <= |steps|
    requires forall i :: 0 <= i < n ==> Completed(mv, bases[i], steps[i]) && DistinctKeys(steps[i].ops)
    ensures InSync(mv, bases[n], views[n])
  {
    forall i | 0 <= i < n ensures NoSlip(mv, bases[i], steps[i].ops, steps[i].done) {
      DistinctKeysDoNotDrift(mv, bases[i], steps[i].ops);
      CompletedSlip(mv, bases[i], steps[i].ops, steps[i].done);
    }
    StaysInSync(mv, bases, views, steps, n);
  }

  // ---- inputs on which the view goes wrong ----------------------------------------------------------

  /** Two puts of one new row in a batch are counted twice. */
  lemma RepeatedKeyCountsTwice()
    ensures var mv := View("g", "", [Count("n")]);
            var item := map["g" := S("x")];
            var ops := [Put("k", item), Put("k", item)];
            && InSync(mv, map[], map[]) && AllSummable(mv, Captured(map[], ops)) && !NoDrift(mv, map[], ops)
            && Change(mv, Captured(map[], ops), Group(S("x"), None), "n") == 2.0
            && Total(mv, AfterBatch(map[], ops), Group(S("x"), None), "n") == 1.0
  {
    var mv := View("g", "", [Count("n")]);
    var item := map["g" := S("x")];
    var ops := [Put("k", item), Put("k", item)];
    var g := Group(S("x"), None);
    var muts := Captured(map[], ops);
    assert muts == [Mutation(None, Some(item)), Mutation(None, Some(item))];
    var one := muts[..1];
    assert one == [Mutation(None, Some(item))] && one[..0] == [];
    assert Terms([Count("n")], item, "n") == 1.0 by {
      assert [Count("n")][..0] == [];
    }
    assert Share(mv, Some(item), g, "n") == 1.0 && Share(mv, None, g, "n") == 0.0;
    assert Change(mv, one[..0], g, "n") == 0.0;
    assert Change(mv, one, g, "n") == 1.0;
    assert muts[..|muts| - 1] == one && muts[1] == Mutation(None, Some(item));
    assert Change(mv, muts, g, "n") == 2.0;
    OneRow(mv, "k", item, g, "n");
    var first := ops[..1];
    assert first == [Put("k", item)] && first[..0] == [];
    assert AfterBatch(map[], first) == map["k" := item];
    assert ops[..|ops| - 1] == first && Applied(map["k" := item], ops[1]) == map["k" := item];
    assert AfterBatch(map[], ops) == map["k" := item];
    BatchTotal(mv, map[], ops, g, "n");
    assert Drift(mv, map[], ops, g, "n") == 1.0;
  }

  lemma OneRow(mv: View, k: Key, item: Item, g: Group, a: string)
    ensures Total(mv, map[k := item], g, a) == Share(mv, Some(item), g, a)
  {
    TotalWithout(mv, map[k := item], k, g, a);
    assert map[k := item] - {k} == map[];
  }

  /**
   A refusal outlives the row that caused it. A good and a bad row are put in one
   batch, which is refused after the base is written; deleting the bad row is
   refused as well, and the good row is never counted.
   */
  lemma RefusalOutlivesTheRow()
    ensures var mv := View("g", "", [Count("n"), Sum("v", "t")]);
            var good, bad := map["g" := S("x"), "v" := N(5.0)], map["g" := S("x"), "v" := S("five")];
            var puts, dels := [Put("good", good), Put("bad", bad)], [Delete("bad")];
            var base := AfterBatch(map[], puts);
            && InSync(mv, map[], map[])
            && !AllSummable(mv, Captured(map[], puts)) && !AllSummable(mv, Captured(base, dels))
            && AfterBatch(base, dels) == map["good" := good]
            && !InSync(mv, AfterBatch(base, dels), map[])
  {
    var mv := View("g", "", [Count("n"), Sum("v", "t")]);
    var good, bad := map["g" := S("x"), "v" := N(5.0)], map["g" := S("x"), "v" := S("five")];
    var puts, dels := [Put("good", good), Put("bad", bad)], [Delete("bad")];
    assert puts[..1] == [Put("good", good)] && puts[..1][..0] == [] && dels[..0] == [];
    var base := AfterBatch(map[], puts);
    assert AfterBatch(map[], puts[..1]) == map["good" := good];
    assert base == map["good" := good, "bad" := bad];
    assert AfterBatch(base, dels) == map["good" := good];
    assert !Readable(mv.aggs[1], bad);
    assert !Summable(mv, Captured(map[], puts)[1].after) && !Summable(mv, Captured(base, dels)[0].before);
    var g := Group(S("x"), None);
    OneRow(mv, "good", good, g, "n");
    assert mv.aggs[..1] == [Count("n")] && mv.aggs[..1][..0] == [];
    assert Terms(mv.aggs, good, "n") == 1.0;
    assert ValueAt(map[], g, "n") == 0.0;
  }
}
