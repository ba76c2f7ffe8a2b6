/**
 Crashes after a cutover: which finalize runs can be taken up again, and the one
 that cannot.
 */
module Resumption {
  import opened Wrappers
  import opened Ring
  import opened Catalogs
  import opened Planner
  import opened Reshard
  import opened ReshardSafety
  import opened ReshardRuns
  import opened RollbackRecords

  /** The record on disk is the one the run is working from, but for its phase. */
  ghost predicate OnRecord(s: State, rec: Record) {
    && KeyOf(rec) in s.records
    && var saved := s.records[KeyOf(rec)];
       (saved.phase.Published? || saved.phase.Cleanup?) && saved == rec.(phase := saved.phase)
  }

  /** What is on record at each stage around the cutover, and that the placement then matches it. */
  ghost predicate Saved(s: State) {
    s.control.Finalizing? ==>
      var rec, stage := s.control.rec, s.control.stage;
      && (rec.kind.SplitKind? ==> rec.kept != [])
      && (stage.PublishCutover? || stage.SavePublished? ==>
            KeyOf(rec) in s.records && s.records[KeyOf(rec)].phase.Publishing?)
      && (!stage.BeforeCutover() ==> ResumeAccepted(s.cat, rec))
      && (!stage.BeforeCutover() && !stage.SavePublished? ==> OnRecord(s, rec))
  }

  /** A cutover leads to a placement that accepts the resume of its own record. */
  lemma CutoverIsResumable(s: State, s': State)
    requires Inv(s) && Saved(s) && Next(s, Publish, s')
    ensures s'.control.Finalizing? && ResumeAccepted(s'.cat, s'.control.rec)
  {
  }

  lemma SavedStart(s: State, step: Step, s': State)
    requires Inv(s) && Filed(s) && Next(s, step, s') && (step.StartFinalize? || step.StartResume? || step.StartRollback?)
    ensures Saved(s')
  {
    if step.StartResume? {
      var key := RecordKey(step.kind, step.src, step.dst);
      assert KeyOf(s.records[key]) == key;
    }
  }

  lemma SavedSave(s: State, s': State)
    requires Inv(s) && Saved(s) && Next(s, Save, s')
    ensures Saved(s')
  {
  }

  /** Every other step leaves the run, its record and the placement as they are, or ends it. */
  lemma SavedElse(s: State, step: Step, s': State)
    requires Base(s) && Saved(s) && Next(s, step, s')
    requires !step.Save? && !step.StartFinalize? && !step.StartResume? && !step.StartRollback? && !step.Publish?
    ensures Saved(s')
  {
  }

  lemma SavedStep(s: State, step: Step, s': State)
    requires Inv(s) && Filed(s) && Saved(s) && Next(s, step, s')
    ensures Saved(s')
  {
    if step.Save? {
      SavedSave(s, s');
    } else if step.StartFinalize? || step.StartResume? || step.StartRollback? {
      SavedStart(s, step, s');
    } else if step.Publish? {
      CutoverIsResumable(s, s');
    } else {
      SavedElse(s, step, s');
    }
  }

  lemma {:induction false} RunSaved(states: seq<State>, steps: seq<Step>, n: nat)
    requires IsRun(states, steps) && Init(states[0]) && n < |states|
    ensures Inv(states[n]) && Filed(states[n]) && Saved(states[n])
  {
    if n > 0 {
      RunSaved(states, steps, n - 1);
      assert StepAt(states, steps, n - 1);
      StepKeeps(states[n - 1], steps[n - 1], states[n]);
      FiledStep(states[n - 1], steps[n - 1], states[n]);
      SavedStep(states[n - 1], steps[n - 1], states[n]);
    }
  }

  ghost function Crashed(s: State): State {
    s.(control := Idle, writers := map[])
  }

  ghost predicate CanResume(s: State, rec: Record, expected: nat)
    requires Base(s)
  {
    exists s' :: Next(s, StartResume(rec.kind, rec.src, rec.dst, expected), s')
  }

  /** Neither a finalize nor a rollback of the pair is possible. */
  ghost predicate ClosedTo(s: State, rec: Record)
    requires Base(s)
  {
    forall kind, expected, kept :: !FinalizeAccepted(s.cat, kind, rec.src, rec.dst, expected, kept)
  }

  /**
   A finalize run that crashes past its cutover can be resumed if and only if it
   had recorded the cutover. A run that had not is lost: it cannot be resumed,
   finalized again or rolled back, and the rows it moved stay on the source too.
   */
  lemma ResumableIffRecorded(s: State, expected: nat)
    requires Inv(s) && Saved(s) && s.control.Finalizing? && !s.control.stage.BeforeCutover()
    ensures CanResume(Crashed(s), s.control.rec, expected) <==>
            !s.control.stage.SavePublished? && (EpochOk(s.cat, expected) || expected == s.control.rec.beforeEpoch)
    ensures ClosedTo(Crashed(s), s.control.rec)
  {
    var rec, crashed := s.control.rec, Crashed(s);
    if !s.control.stage.SavePublished? && (EpochOk(s.cat, expected) || expected == rec.beforeEpoch) {
      var saved := crashed.records[KeyOf(rec)];
      var next := crashed.(control := Finalizing(saved, crashed.tables, SaveCleanup));
      assert Next(crashed, StartResume(rec.kind, rec.src, rec.dst, expected), next);
    }
  }

  /** A crash right after any cutover, before it is recorded, is such a loss. */
  lemma LostCutover(s: State, s': State, expected: nat)
    requires Inv(s) && Saved(s) && Next(s, Publish, s')
    ensures Inv(s') && ClosedTo(Crashed(s'), s'.control.rec) && !CanResume(Crashed(s'), s'.control.rec, expected)
    ensures s'.stores == s.stores
  {
    StepKeeps(s, Publish, s');
    CutoverIsResumable(s, s');
    ResumableIffRecorded(s', expected);
  }

  /** The same of every state of every run. */
  lemma CrashInRun(states: seq<State>, steps: seq<Step>, n: nat, expected: nat)
    requires IsRun(states, steps) && Init(states[0]) && n < |states|
    requires states[n].control.Finalizing? && !states[n].control.stage.BeforeCutover()
    ensures Base(states[n])
    ensures CanResume(Crashed(states[n]), states[n].control.rec, expected) <==>
            && !states[n].control.stage.SavePublished?
            && (EpochOk(states[n].cat, expected) || expected == states[n].control.rec.beforeEpoch)
    ensures ClosedTo(Crashed(states[n]), states[n].control.rec)
  {
    RunSaved(states, steps, n);
    ResumableIffRecorded(states[n], expected);
  }
}
