/**
 Where the record of a rolled-back split ends up. Without an earlier record of the
 pair it is filed under shards (0, 0), and nothing ever depends on it there.
 */
module RollbackRecords {
  import opened Wrappers
  import opened Ring
  import opened Planner
  import opened Reshard
  import opened ReshardSafety
  import opened ReshardRuns

  // ---- records are filed under their own ids -------------------------------------------

  /** A record's own ids are its key, and only a rollback without a record names a shard twice. */
  ghost predicate FiledRecords(records: map<RecordKey, Record>) {
    forall key :: key in records ==>
      KeyOf(records[key]) == key && (key.src == key.dst ==> records[key].phase.WasRolledBack?)
  }

  ghost predicate FiledControl(control: Control) {
    match control
    case Idle => true
    case Finalizing(rec, _, _) => rec.src != rec.dst
    case RollingBack(parent, child, found, _) =>
      parent != child && (found.Some? ==> KeyOf(found.value) == RecordKey(SplitKind, parent, child))
  }

  ghost predicate Filed(s: State) {
    FiledRecords(s.records) && FiledControl(s.control)
  }

  lemma SaveFiles(s: State, s': State)
    requires Base(s) && Filed(s) && Next(s, Save, s')
    ensures Filed(s')
  {
    var rec := if s.control.Finalizing? then AfterSave(s).0 else RollbackRecord(s);
    assert s'.records == s.records[KeyOf(rec) := rec];
  }

  lemma FiledStep(s: State, step: Step, s': State)
    requires Base(s) && Filed(s) && Next(s, step, s')
    ensures Filed(s')
  {
    if step.Save? {
      SaveFiles(s, s');
    } else if step.StartResume? {
      var key := RecordKey(step.kind, step.src, step.dst);
      assert KeyOf(s.records[key]) == key;
    }
  }

  lemma {:induction false} RunFiled(states: seq<State>, steps: seq<Step>, n: nat)
    requires IsRun(states, steps) && Filed(states[0]) && n < |states|
    ensures Filed(states[n])
  {
    if n > 0 {
      RunFiled(states, steps, n - 1);
      assert StepAt(states, steps, n - 1);
      FiledStep(states[n - 1], steps[n - 1], states[n]);
    }
  }

  // ---- which key a rollback leaves a record under -------------------------------------------

  ghost predicate HoldsRollback(records: map<RecordKey, Record>, key: RecordKey) {
    key in records && records[key].phase.WasRolledBack?
  }

  function Found(records: map<RecordKey, Record>, key: RecordKey): Option<Record> {
    if key in records then Some(records[key]) else None
  }

  /** A rollback is recorded under its own pair if and only if that pair had a record before. */
  lemma RecordedIffKnown(records: map<RecordKey, Record>, parent: nat, child: nat, epoch: nat)
    requires FiledRecords(records) && parent != child
    ensures var key := RecordKey(SplitKind, parent, child);
            var rec := RolledBackRecord(Found(records, key), epoch);
            && (HoldsRollback(records[KeyOf(rec) := rec], key) <==> key in records)
            && (key !in records ==> KeyOf(rec) == RecordKey(SplitKind, 0, 0))
  {
    var key := RecordKey(SplitKind, parent, child);
    if key in records {
      assert KeyOf(records[key]) == key;
    }
  }

  // ---- a rollback without a record, step by step ---------------------------------------------

  /** A split that may be rolled back, with nothing on the child and nothing recorded for the pair. */
  ghost predicate Unrecorded(s: State, parent: nat, child: nat) {
    && Base(s) && s.control.Idle? && s.writers == map[]
    && RecordKey(SplitKind, parent, child) !in s.records
    && (exists kept :: FinalizeAccepted(s.cat, SplitKind, parent, child, 0, kept))
    && s.stores[child] == map[]
  }

  ghost function Wiping(s: State, parent: nat, child: nat): State {
    s.(control := RollingBack(parent, child, None, Wipe))
  }

  ghost function Wiped(s: State, parent: nat, child: nat): State {
    s.(control := RollingBack(parent, child, None, PublishRollback))
  }

  ghost function Published(s: State, parent: nat, child: nat): State
    requires parent < |s.cat.shards| && child < |s.cat.shards|
  {
    s.(cat := RolledBack(s.cat, parent, child), control := RollingBack(parent, child, None, SaveRolledBack))
  }

  ghost function Recorded(s: State, parent: nat, child: nat): State
    requires parent < |s.cat.shards| && child < |s.cat.shards|
  {
    var rec := RolledBackRecord(None, s.cat.epoch + 1);
    Published(s, parent, child).(records := s.records[KeyOf(rec) := rec], control := Idle)
  }

  lemma RollbackBegins(s: State, parent: nat, child: nat)
    requires Unrecorded(s, parent, child)
    ensures Next(s, StartRollback(parent, child, 0), Wiping(s, parent, child))
    ensures Next(Wiping(s, parent, child), WipeDone, Wiped(s, parent, child))
  {
  }

  lemma RollbackEnds(s: State, parent: nat, child: nat)
    requires Unrecorded(s, parent, child)
    ensures Next(Wiped(s, parent, child), PublishRolledBack, Published(s, parent, child))
    ensures Base(Published(s, parent, child))
    ensures Next(Published(s, parent, child), Save, Recorded(s, parent, child))
  {
    RollbackInService(s.cat, parent, child);
  }

  /** Every such rollback leaves its own pair without a record and files one under (0, 0). */
  lemma UnrecordedRollback(s: State, parent: nat, child: nat)
    requires Unrecorded(s, parent, child)
    ensures IsRun([s, Wiping(s, parent, child), Wiped(s, parent, child), Published(s, parent, child), Recorded(s, parent, child)],
                  [StartRollback(parent, child, 0), WipeDone, PublishRolledBack, Save])
    ensures var records := Recorded(s, parent, child).records;
            RecordKey(SplitKind, parent, child) !in records && HoldsRollback(records, RecordKey(SplitKind, 0, 0))
  {
    RollbackBegins(s, parent, child);
    RollbackEnds(s, parent, child);
    FourSteps(s, Wiping(s, parent, child), Wiped(s, parent, child), Published(s, parent, child), Recorded(s, parent, child),
              StartRollback(parent, child, 0), WipeDone, PublishRolledBack, Save);
  }

  lemma FourSteps(a: State, b: State, c: State, d: State, e: State, p: Step, q: Step, r: Step, t: Step)
    requires Base(a) && Base(b) && Base(c) && Base(d)
    requires Next(a, p, b) && Next(b, q, c) && Next(c, r, d) && Next(d, t, e)
    ensures IsRun([a, b, c, d, e], [p, q, r, t])
  {
    TwoMore([a], [], p, b, q, c);
    assert [a] + [b, c] == [a, b, c] && [] + [p, q] == [p, q];
    TwoMore([a, b, c], [p, q], r, d, t, e);
    assert [a, b, c] + [d, e] == [a, b, c, d, e] && [p, q] + [r, t] == [p, q, r, t];
  }

  lemma TwoMore(states: seq<State>, steps: seq<Step>, p: Step, b: State, q: Step, c: State)
    requires IsRun(states, steps) && Base(states[|steps|]) && Base(b)
    requires Next(states[|steps|], p, b) && Next(b, q, c)
    ensures IsRun(states + [b, c], steps + [p, q])
  {
    ExtendRun(states, steps, p, b);
    ExtendRun(states + [b], steps + [p], q, c);
    assert states + [b] + [c] == states + [b, c] && steps + [p] + [q] == steps + [p, q];
  }

  /** There is one: a single shard split in two, nothing copied and nothing recorded yet. */
  lemma UnrecordedExists()
    ensures Unrecorded(State(SplitOnce(), [map[], map[]], {}, map[], Idle, map[]), 0, 1)
  {
    SplitOnceInService();
    assert FinalizeAccepted(SplitOnce(), SplitKind, 0, 1, 0, [TokenRange(0, 60)]);
  }

  // ---- nothing depends on the record under (0, 0) ----------------------------------------------

  /** The two states differ at most in the record filed under (0, 0). */
  ghost predicate SameButZero(s: State, t: State) {
    && t == s.(records := t.records)
    && forall key :: key != RecordKey(SplitKind, 0, 0) ==> Found(s.records, key) == Found(t.records, key)
  }

  ghost function Twin(s: State, step: Step, s': State, t: State): State {
    if !step.Save? then s'.(records := t.records)
    else if s.control.Finalizing? then s'.(records := t.records[KeyOf(AfterSave(s).0) := AfterSave(s).0])
    else if s.control.RollingBack? then s'.(records := t.records[KeyOf(RollbackRecord(s)) := RollbackRecord(s)])
    else s'
  }

  lemma SavedAlike(s: State, t: State, rec: Record, control: Control)
    requires SameButZero(s, t)
    ensures SameButZero(s.(records := s.records[KeyOf(rec) := rec], control := control),
                        t.(records := t.records[KeyOf(rec) := rec], control := control))
  {
    var a, b := s.records[KeyOf(rec) := rec], t.records[KeyOf(rec) := rec];
    forall key | key != RecordKey(SplitKind, 0, 0) ensures Found(a, key) == Found(b, key) {
      assert Found(s.records, key) == Found(t.records, key);
    }
  }

  lemma SaveIgnores(s: State, s': State, t: State)
    requires Base(s) && SameButZero(s, t) && Next(s, Save, s')
    ensures Next(t, Save, Twin(s, Save, s', t)) && SameButZero(s', Twin(s, Save, s', t))
  {
    if s.control.Finalizing? {
      assert AfterSave(t) == AfterSave(s);
      SavedAlike(s, t, AfterSave(s).0, s'.control);
    } else {
      SavedAlike(s, t, RollbackRecord(s), s'.control);
    }
  }

  lemma StartIgnores(s: State, step: Step, s': State, t: State)
    requires Base(s) && Filed(s) && Filed(t) && SameButZero(s, t) && Next(s, step, s')
    requires step.StartFinalize? || step.StartResume? || step.StartRollback?
    ensures Next(t, step, Twin(s, step, s', t)) && SameButZero(s', Twin(s, step, s', t))
  {
    var key := RecordKey(if step.StartRollback? then SplitKind else step.kind, step.src, step.dst);
    assert step.src != step.dst || step.StartResume?;
    assert key in s.records && step.StartResume? ==> step.src != step.dst;
    assert Found(s.records, key) == Found(t.records, key);
  }

  /** Whatever step one of them takes, the other takes too, and they still differ there at most. */
  lemma ZeroRecordIgnored(s: State, step: Step, s': State, t: State)
    requires Base(s) && Filed(s) && Filed(t) && SameButZero(s, t) && Next(s, step, s')
    ensures Next(t, step, Twin(s, step, s', t)) && SameButZero(s', Twin(s, step, s', t))
  {
    if step.StartFinalize? || step.StartResume? || step.StartRollback? {
      StartIgnores(s, step, s', t);
    } else if step.Save? {
      SaveIgnores(s, s', t);
    }
  }

  /** So every run has a twin from the other state: same steps, catalogs, rows and every other record. */
  lemma {:induction false} ZeroRecordHarmless(states: seq<State>, steps: seq<Step>, t: State) returns (twins: seq<State>)
    requires IsRun(states, steps) && Filed(states[0]) && Filed(t) && SameButZero(states[0], t)
    ensures IsRun(twins, steps) && twins[0] == t
    ensures forall n :: 0 <= n < |states| ==> SameButZero(states[n], twins[n])
    ensures Filed(states[|steps|]) && Filed(twins[|steps|])
    decreases |steps|
  {
    if steps == [] {
      twins := [t];
    } else {
      var n := |steps| - 1;
      RunPrefix(states, steps);
      var before := ZeroRecordHarmless(states[..|states| - 1], steps[..n], t);
      assert StepAt(states, steps, n) && SameButZero(states[..|states| - 1][n], before[n]);
      var next := Twin(states[n], steps[n], states[n + 1], before[n]);
      ZeroRecordIgnored(states[n], steps[n], states[n + 1], before[n]);
      FiledStep(states[n], steps[n], states[n + 1]);
      FiledStep(before[n], steps[n], next);
      twins := before + [next];
      ExtendRun(before, steps[..n], steps[n], next);
      assert steps[..n] + [steps[n]] == steps;
      forall i | 0 <= i < |states| ensures SameButZero(states[i], twins[i]) {
        assert i <= n ==> states[..|states| - 1][i] == states[i] && twins[i] == before[i];
      }
    }
  }
}
