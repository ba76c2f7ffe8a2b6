/**
 Reachability in the step system, and a routed write as a run of it.
 */
module Reachability {
  import opened Wrappers
  import opened Ring
  import opened Catalogs
  import opened Rows
  import opened Reshard
  import opened ReshardSafety
  import opened ReshardRuns
  import opened RollbackRecords

  // ---- reachability ---------------------------------------------------------------------

  /** A run of the step system leads from `a` to `b`; a quiet one holds no writer's write. */
  ghost predicate Reaches(a: State, b: State, quiet: bool) {
    exists states: seq<State>, steps: seq<Step> ::
      Leads(states, steps, a, b) && (quiet ==> Quiet(steps))
  }

  ghost predicate Leads(states: seq<State>, steps: seq<Step>, a: State, b: State) {
    IsRun(states, steps) && states[0] == a && states[|steps|] == b
  }

  ghost predicate Quiet(steps: seq<Step>) {
    forall step :: step in steps ==> !step.WriteNext?
  }

  lemma ReachRefl(a: State, quiet: bool)
    ensures Reaches(a, a, quiet)
  {
    var steps: seq<Step> := [];
    assert Leads([a], steps, a, a) && Quiet(steps);
  }

  lemma ReachInv(a: State, b: State, quiet: bool)
    requires Inv(a) && Reaches(a, b, quiet)
    ensures Inv(b) && (Filed(a) ==> Filed(b))
  {
    var states, steps :| Leads(states, steps, a, b) && (quiet ==> Quiet(steps));
    OwnershipOnlyShrinks(states, steps);
    if Filed(a) {
      RunFiled(states, steps, |steps|);
    }
  }

  lemma ReachStep(a: State, b: State, step: Step, c: State, quiet: bool)
    requires Reaches(a, b, quiet) && Base(b) && Next(b, step, c) && (quiet ==> !step.WriteNext?)
    ensures Reaches(a, c, quiet)
  {
    var states, steps :| Leads(states, steps, a, b) && (quiet ==> Quiet(steps));
    var more, acts := states + [c], steps + [step];
    ExtendRun(states, steps, step, c);
    assert Leads(more, acts, a, c) && (quiet ==> Quiet(acts));
  }

  /** Without a writer's write, no read changes. */
  lemma {:induction false} QuietLogical(states: seq<State>, steps: seq<Step>, k: Key, start: Option<Item>)
    requires |states| == |steps| + 1 && Quiet(steps)
    ensures Logical(states, steps, k, start) == start
    decreases |steps|
  {
    if steps != [] {
      var n := |steps| - 1;
      assert steps[n] in steps;
      QuietLogical(states[..|states| - 1], steps[..n], k, start);
    }
  }

  lemma QuietReads(a: State, b: State)
    requires Inv(a) && Reaches(a, b, true)
    ensures Inv(b) && (Filed(a) ==> Filed(b)) && forall k :: Read(b, k) == Read(a, k)
  {
    ReachInv(a, b, true);
    var states, steps :| Leads(states, steps, a, b) && Quiet(steps);
    forall k ensures Read(b, k) == Read(a, k) {
      ReshardingIsInvisible(states, steps, k);
      QuietLogical(states, steps, k, Read(a, k));
    }
  }

  // ---- a routed write as a run ----------------------------------------------------------------------

  ghost predicate TargetsExist(wr: Writer, count: nat) {
    wr.primary < count && forall i :: 0 <= i < |wr.mirrors| ==> wr.mirrors[i] < count
  }

  /** The stores once the first `n` targets have been written. */
  ghost function AfterWrites(stores: seq<Store>, wr: Writer, n: nat): (after: seq<Store>)
    requires n <= |wr.mirrors| + 1 && TargetsExist(wr, |stores|)
    ensures |after| == |stores|
  {
    if n == 0 then stores
    else
      var before := AfterWrites(stores, wr, n - 1);
      var target := Target(wr.(done := n - 1));
      before[target := Written(before[target], wr.key, wr.write)]
  }

  /** The writer a routed write registers. */
  ghost function Routed(s: State, key: Key, write: Write): Writer
    requires Base(s)
  {
    var primary := Owner(s.cat, key.token);
    Writer(key, write, primary, MirrorsFor(s.cat.shards, primary, key.token), 0)
  }

  /** The state with the first `n` targets written and the fence still held. */
  ghost function MidWrite(s: State, w: nat, wr: Writer, n: nat): State
    requires n <= |wr.mirrors| + 1 && TargetsExist(wr, |s.stores|)
  {
    s.(stores := AfterWrites(s.stores, wr, n), writers := s.writers[w := wr.(done := n)])
  }

  lemma RoutedTargets(s: State, key: Key, write: Write)
    requires Base(s)
    ensures TargetsExist(Routed(s, key, write), |s.stores|)
    ensures forall m :: m in Routed(s, key, write).mirrors ==> m != Routed(s, key, write).primary
  {
    var wr := Routed(s, key, write);
    CreatingForAreCreating(s.cat.shards, key.token);
    forall i | 0 <= i < |wr.mirrors| ensures wr.mirrors[i] < |s.stores| {
      assert wr.mirrors[i] in wr.mirrors;
    }
  }

  /** The writes, in order, are steps. */
  lemma {:induction false} WritesReach(s: State, w: nat, key: Key, write: Write, epoch: nat, n: nat)
    requires Base(s) && s.control.Idle? && w !in s.writers && key.table in s.tables && EpochOk(s.cat, epoch)
    requires TargetsExist(Routed(s, key, write), |s.stores|) && n <= |Routed(s, key, write).mirrors| + 1
    ensures Reaches(s, MidWrite(s, w, Routed(s, key, write), n), false)
  {
    var wr := Routed(s, key, write);
    var after := MidWrite(s, w, wr, n);
    if n == 0 {
      ReachRefl(s, false);
      ReachStep(s, s, BeginWrite(w, key, write, epoch), after, false);
    } else {
      var before := MidWrite(s, w, wr, n - 1);
      WritesReach(s, w, key, write, epoch, n - 1);
      assert after.writers == before.writers[w := wr.(done := n)];
      ReachStep(s, before, WriteNext(w), after, false);
    }
  }

  /** The shard is among the first `n` targets. */
  ghost predicate Reached(wr: Writer, n: nat, shard: nat)
    requires n <= |wr.mirrors| + 1
  {
    n > 0 && (shard == wr.primary || shard in wr.mirrors[..n - 1])
  }

  /** What the writes leave on each shard. */
  lemma {:induction false} WritesSeen(stores: seq<Store>, wr: Writer, n: nat, shard: nat)
    requires n <= |wr.mirrors| + 1 && TargetsExist(wr, |stores|) && shard < |stores|
    ensures AfterWrites(stores, wr, n)[shard]
         == if Reached(wr, n, shard) then Written(stores[shard], wr.key, wr.write) else stores[shard]
  {
    if n > 0 {
      WritesSeen(stores, wr, n - 1, shard);
      if n > 1 {
        assert wr.mirrors[..n - 1] == wr.mirrors[..n - 2] + [wr.mirrors[n - 2]];
      }
    }
  }

  /** The whole routed write: a run, after which only the key's read has changed. */
  lemma WriteRun(s: State, w: nat, key: Key, write: Write, epoch: nat, n: nat)
    requires Base(s) && s.control.Idle? && w !in s.writers && key.table in s.tables && EpochOk(s.cat, epoch)
    requires n <= |Routed(s, key, write).mirrors| + 1 && TargetsExist(Routed(s, key, write), |s.stores|)
    ensures var s' := s.(stores := AfterWrites(s.stores, Routed(s, key, write), n));
            && Reaches(s, s', false)
            && forall k :: Read(s', k) == if n > 0 && k == key then Outcome(write) else Read(s, k)
  {
    var wr := Routed(s, key, write);
    var last := MidWrite(s, w, wr, n);
    var s' := s.(stores := AfterWrites(s.stores, wr, n));
    WritesReach(s, w, key, write, epoch, n);
    assert last.writers - {w} == s.writers;
    ReachStep(s, last, EndWrite(w), s', false);
    RoutedTargets(s, key, write);
    forall k ensures Read(s', k) == if n > 0 && k == key then Outcome(write) else Read(s, k) {
      WritesSeen(s.stores, wr, n, Owner(s.cat, k.token));
    }
  }

  // ---- where a routed write lands -------------------------------------------------------------------

  /** The shard has to take a write to the token: the owner, and during a transition the shards being created for it. */
  ghost predicate TakesWrite(cat: Catalog, shard: nat, t: Token)
    requires InService(cat) && shard < |cat.shards|
  {
    var owner := Owner(cat, t);
    || shard == owner
    || ((cat.shards[owner].state.Splitting? || cat.shards[owner].state.Moving?)
        && cat.shards[shard].state.Creating?
        && exists j :: 0 <= j < |cat.shards[shard].ranges| && cat.shards[shard].ranges[j].Contains(t))
  }

  /** The shard holds what was written, and its other rows. */
  ghost predicate TookWrite(store: Store, store': Store, key: Key, write: Write) {
    && (match write
        case Put(item) => key in store' && store'[key] == item
        case Delete => key !in store')
    && forall k :: k != key ==> RowAt(store', k) == RowAt(store, k)
  }

  /**
   No shard changes but those that have to take the write; the owner is the first
   to change; an acknowledged write is on all of them.
   */
  ghost predicate WroteThrough(s: State, stores: seq<Store>, key: Key, write: Write, ok: bool)
    requires Base(s)
  {
    && |stores| == |s.stores|
    && (forall i :: 0 <= i < |stores| && stores[i] != s.stores[i] ==>
          TakesWrite(s.cat, i, key.token) && TookWrite(s.stores[i], stores[i], key, write))
    && (stores != s.stores ==>
          var owner := Owner(s.cat, key.token); TookWrite(s.stores[owner], stores[owner], key, write))
    && (ok ==> forall i :: 0 <= i < |stores| && TakesWrite(s.cat, i, key.token) ==>
                             TookWrite(s.stores[i], stores[i], key, write))
  }

  lemma RoutedIffTakes(s: State, key: Key, write: Write, shard: nat)
    requires Base(s) && shard < |s.stores|
    ensures var wr := Routed(s, key, write);
            TakesWrite(s.cat, shard, key.token) <==> shard == wr.primary || shard in wr.mirrors
  {
    CreatingForAreCreating(s.cat.shards, key.token);
  }

  /** The first `n` targets, in order, are such a write, acknowledged when they are all. */
  lemma RoutedWritesThrough(s: State, key: Key, write: Write, n: nat)
    requires Base(s)
    requires n <= |Routed(s, key, write).mirrors| + 1 && TargetsExist(Routed(s, key, write), |s.stores|)
    ensures var wr := Routed(s, key, write);
            WroteThrough(s, AfterWrites(s.stores, wr, n), key, write, n == |wr.mirrors| + 1)
  {
    var wr := Routed(s, key, write);
    var stores := AfterWrites(s.stores, wr, n);
    forall i | 0 <= i < |stores|
      ensures Reached(wr, n, i) ==> TakesWrite(s.cat, i, key.token) && TookWrite(s.stores[i], stores[i], key, write)
      ensures !Reached(wr, n, i) ==> stores[i] == s.stores[i]
      ensures n == |wr.mirrors| + 1 && TakesWrite(s.cat, i, key.token) ==> Reached(wr, n, i)
    {
      WritesSeen(s.stores, wr, n, i);
      RoutedIffTakes(s, key, write, i);
      assert n == |wr.mirrors| + 1 ==> wr.mirrors[..n - 1] == wr.mirrors;
    }
  }

  /**
   What mirrors are for: an acknowledged write leaves source and target of a
   pending transition alike at its key, and at every other key as they were.
   */
  lemma AcknowledgedOnBoth(s: State, stores: seq<Store>, key: Key, write: Write, src: nat, dst: nat, rng: TokenRange, k: Key)
    requires Base(s) && WroteThrough(s, stores, key, write, true)
    requires src < |s.stores| && dst < |s.stores| && s.cat.shards[dst].state.Creating? && s.cat.shards[dst].ranges == [rng]
    requires s.cat.shards[src].state.Splitting? || s.cat.shards[src].state.Moving?
    requires forall t: Token :: rng.Contains(t) ==> Owner(s.cat, t) == src
    requires rng.Contains(k.token)
    ensures k == key ==> RowAt(stores[dst], k) == RowAt(stores[src], k)
    ensures RowAt(s.stores[dst], k) == RowAt(s.stores[src], k) ==> RowAt(stores[dst], k) == RowAt(stores[src], k)
  {
    if k == key {
      assert s.cat.shards[dst].ranges[0].Contains(key.token);
      assert TakesWrite(s.cat, src, key.token) && TakesWrite(s.cat, dst, key.token);
    }
  }
}
