/**
 The resharding theorems over whole runs: every interleaving of writers with
 control operations, errors and crashes.
 */
module ReshardRuns {
  import opened Wrappers
  import opened Ring
  import opened Tokens
  import opened Catalogs
  import opened Planner
  import opened Rows
  import opened Reshard
  import opened ReshardSafety
  import Apply

  /** Every step keeps the invariant, hides nothing and only lets ownership shrink. */
  lemma StepKeeps(s: State, step: Step, s': State)
    requires Inv(s) && Next(s, step, s')
    ensures Kept(s, step, s')
  {
    if step.StartFinalize? || step.StartResume? || step.StartRollback? {
      StartSteps(s, step, s');
    } else if step.Save? {
      SaveStep(s, step, s');
    } else if step.WipeRows? || step.WipeDone? || step.PublishRolledBack? {
      RollbackSteps(s, step, s');
    } else if step.CopyRow? || step.CopyDone? {
      CopySteps(s, step, s');
    } else if step.VerifyPass? || step.VerifyFail? {
      VerifySteps(s, step, s');
    } else if step.Publish? {
      PublishStep(s, step, s');
    } else if step.DeleteRow? || step.DeleteDone? {
      DeleteSteps(s, step, s');
    } else if step.BeginWrite? {
      BeginStep(s, step, s');
    } else if step.WriteNext? {
      WriteStep(s, step, s');
    } else if step.CreateTable? {
      TableStep(s, step, s');
    } else if step.ApplyTransition? {
      TransitionStep(s, step, s');
    } else if step.ApplyMembership? {
      MembershipStep(s, step, s');
    } else {
      ReleaseSteps(s, step, s');
    }
  }

  /** The same for one key: a read changes only when a writer reaches its primary with that key. */
  lemma StepReads(s: State, step: Step, s': State, k: Key)
    requires Inv(s) && Next(s, step, s')
    ensures Inv(s')
    ensures Read(s', k) == if WritesKey(s, step, k) then Outcome(s.writers[step.w].write) else Read(s, k)
  {
    StepKeeps(s, step, s');
  }

  lemma StepShrinks(s: State, step: Step, s': State)
    requires Inv(s) && Next(s, step, s')
    ensures Inv(s') && Shrinks(s.cat, s'.cat)
  {
    StepKeeps(s, step, s');
  }

  // ---- runs -------------------------------------------------------------------------

  /** A cluster before any resharding: a catalog in service, rows, nobody at work. */
  ghost predicate Init(s: State) {
    && Base(s) && RowsKnown(s.stores, s.tables)
    && s.writers == map[] && s.control.Idle? && s.records == map[]
  }

  lemma InitHolds(s: State)
    requires Init(s)
    ensures Inv(s)
  {
  }

  ghost predicate StepAt(states: seq<State>, steps: seq<Step>, n: int)
    requires |states| == |steps| + 1 && 0 <= n < |steps|
  {
    Base(states[n]) && Next(states[n], steps[n], states[n + 1])
  }

  ghost predicate IsRun(states: seq<State>, steps: seq<Step>) {
    |states| == |steps| + 1 && forall n :: 0 <= n < |steps| ==> StepAt(states, steps, n)
  }

  lemma {:induction false} RunPrefix(states: seq<State>, steps: seq<Step>)
    requires IsRun(states, steps) && steps != []
    ensures IsRun(states[..|states| - 1], steps[..|steps| - 1])
  {
    var a, b := states[..|states| - 1], steps[..|steps| - 1];
    forall n | 0 <= n < |b| ensures StepAt(a, b, n) {
      assert StepAt(states, steps, n);
      assert a[n] == states[n] && a[n + 1] == states[n + 1] && b[n] == steps[n];
    }
  }

  lemma ExtendRun(states: seq<State>, steps: seq<Step>, step: Step, next: State)
    requires IsRun(states, steps) && Base(states[|steps|]) && Next(states[|steps|], step, next)
    ensures IsRun(states + [next], steps + [step])
  {
    var more, acts := states + [next], steps + [step];
    forall n | 0 <= n < |acts| ensures StepAt(more, acts, n) {
      if n < |steps| {
        assert StepAt(states, steps, n);
        assert more[n] == states[n] && more[n + 1] == states[n + 1] && acts[n] == steps[n];
      } else {
        assert more[n] == states[n] && more[n + 1] == next && acts[n] == step;
      }
    }
  }

  /** The invariant holds in every state of every run. */
  lemma {:induction false} RunKeepsInv(states: seq<State>, steps: seq<Step>, n: nat)
    requires IsRun(states, steps) && Inv(states[0]) && n < |states|
    ensures Inv(states[n])
  {
    if n > 0 {
      RunKeepsInv(states, steps, n - 1);
      assert StepAt(states, steps, n - 1);
      StepShrinks(states[n - 1], steps[n - 1], states[n]);
    }
  }

  /** The step is a writer's write to its primary, of this key. */
  ghost predicate WritesKey(s: State, step: Step, k: Key) {
    step.WriteNext? && step.w in s.writers && s.writers[step.w].done == 0 && s.writers[step.w].key == k
  }

  /** The logical map: what the last primary write of the key left, or what was there at the start. */
  ghost function Logical(states: seq<State>, steps: seq<Step>, k: Key, start: Option<Item>): Option<Item>
    requires |states| == |steps| + 1
  {
    if steps == [] then start
    else
      var n := |steps| - 1;
      if WritesKey(states[n], steps[n], k) then Outcome(states[n].writers[steps[n].w].write)
      else Logical(states[..|states| - 1], steps[..n], k, start)
  }

  /**
   Resharding is invisible. Whatever splits, range moves, rollbacks, retries,
   errors and crashes a run interleaves with its writers, a read at the routed
   owner returns what a plain key-value map would.
   */
  lemma {:induction false} ReshardingIsInvisible(states: seq<State>, steps: seq<Step>, k: Key)
    requires IsRun(states, steps) && Inv(states[0])
    ensures Inv(states[|steps|])
    ensures Read(states[|steps|], k) == Logical(states, steps, k, Read(states[0], k))
    decreases |steps|
  {
    if steps != [] {
      var n := |steps| - 1;
      var before := states[..|states| - 1];
      RunPrefix(states, steps);
      ReshardingIsInvisible(before, steps[..n], k);
      assert before[n] == states[n] && before[0] == states[0] && StepAt(states, steps, n);
      StepReads(states[n], steps[n], states[n + 1], k);
    }
  }

  /** In every state of a run an in-flight writer's primary is the routed owner of its key. */
  lemma PrimaryStaysOwner(states: seq<State>, steps: seq<Step>, n: nat, w: nat)
    requires IsRun(states, steps) && Inv(states[0]) && n < |states| && w in states[n].writers
    ensures InService(states[n].cat)
    ensures states[n].writers[w].primary == Owner(states[n].cat, states[n].writers[w].key.token)
  {
    RunKeepsInv(states, steps, n);
    assert WriterOk(states[n], states[n].writers[w]);
  }

  // ---- ownership over runs ---------------------------------------------------------------

  lemma ShrinksTransitive(a: Catalog, b: Catalog, c: Catalog)
    requires InService(a) && InService(b) && InService(c) && Shrinks(a, b) && Shrinks(b, c)
    ensures Shrinks(a, c)
  {
    forall i, t: Token | 0 <= i < |a.shards| && !a.shards[i].state.Creating? && Owner(c, t) == i
      ensures Owner(a, t) == i
    {
      assert Owner(b, t) == i;
    }
  }

  /** Over every run a shard past creation only loses tokens. */
  lemma {:induction false} OwnershipOnlyShrinks(states: seq<State>, steps: seq<Step>)
    requires IsRun(states, steps) && Inv(states[0])
    ensures Inv(states[|steps|]) && Shrinks(states[0].cat, states[|steps|].cat)
    decreases |steps|
  {
    if steps != [] {
      var n := |steps| - 1;
      var before := states[..|states| - 1];
      RunPrefix(states, steps);
      OwnershipOnlyShrinks(before, steps[..n]);
      assert before[n] == states[n] && before[0] == states[0] && StepAt(states, steps, n);
      StepShrinks(states[n], steps[n], states[n + 1]);
      ShrinksTransitive(states[0].cat, states[n].cat, states[n + 1].cat);
    }
  }

  /** However late a cleanup runs, the row it deletes is not served by the shard it deletes it from. */
  lemma CleanupNeverDeletesServedRow(states: seq<State>, steps: seq<Step>, n: nat)
    requires IsRun(states, steps) && Inv(states[0]) && n < |steps| && steps[n].DeleteRow?
    ensures InService(states[n].cat) && states[n].control.Finalizing?
    ensures Owner(states[n].cat, steps[n].key.token) != states[n].control.rec.src
  {
    RunKeepsInv(states, steps, n);
    assert StepAt(states, steps, n);
    DeleteReads(states[n], steps[n], states[n + 1]);
  }

  /** A record marked done stays true: its source never again holds a row of the moved range. */
  lemma DoneMeansCleaned(states: seq<State>, steps: seq<Step>, n: nat, key: RecordKey)
    requires IsRun(states, steps) && Inv(states[0]) && n < |states|
    requires key in states[n].records && states[n].records[key].phase.Done?
    ensures var rec := states[n].records[key];
            rec.src < |states[n].stores| && Cleaned(states[n].stores[rec.src], rec.rng)
  {
    RunKeepsInv(states, steps, n);
    assert RecordOk(states[n], states[n].records[key]);
  }

  // ---- owner ids ------------------------------------------------------------------------------

  /** Ownership changes at cutover and nowhere else. */
  lemma OwnerChangesOnlyAtCutover(s: State, step: Step, s': State)
    requires Inv(s) && Next(s, step, s') && !step.Publish?
    ensures InService(s'.cat) && forall t: Token :: Owner(s'.cat, t) == Owner(s.cat, t)
  {
    match step
    case ApplyTransition(src, state, rng, voters, _) => TransitionInService(s.cat, src, state, rng, voters);
    case ApplyMembership(after) => MembershipKeepsRouting(s.cat, after);
    case PublishRolledBack => RollbackInService(s.cat, s.control.parent, s.control.child);
    case _ => assert s'.cat == s.cat;
  }

  /** Every finalize request of the run names a target with a higher id than its source. */
  ghost predicate Upward(steps: seq<Step>) {
    forall n :: 0 <= n < |steps| && steps[n].StartFinalize? ==> steps[n].src < steps[n].dst
  }

  ghost predicate ControlUpward(s: State) {
    s.control.Finalizing? && s.control.stage.BeforeCutover() ==> s.control.rec.src < s.control.rec.dst
  }

  lemma ControlStaysUpward(s: State, step: Step, s': State)
    requires Base(s) && Next(s, step, s') && ControlUpward(s)
    requires step.StartFinalize? ==> step.src < step.dst
    ensures ControlUpward(s')
  {
    if step.Save? {
      assert s.control.Finalizing? ==> s'.control == AfterSave(s).1;
    } else if step.StartFinalize? {
      assert s'.control.rec.src == step.src && s'.control.rec.dst == step.dst;
    } else if step.StartResume? {
      assert !s'.control.stage.BeforeCutover();
    }
  }

  lemma StepKeepsUpward(s: State, step: Step, s': State)
    requires Inv(s) && Next(s, step, s') && ControlUpward(s)
    ensures Inv(s')
    ensures forall t: Token :: Owner(s.cat, t) <= Owner(s'.cat, t)
  {
    StepShrinks(s, step, s');
    if step.Publish? {
      var rec := s.control.rec;
      CutoverRaisesOwners(s.cat, rec.src, rec.dst, rec.rng, rec.kept);
    } else {
      OwnerChangesOnlyAtCutover(s, step, s');
    }
  }

  /** Over such a run no token's owning shard id ever decreases. */
  lemma {:induction false} OwnerIdsNeverDecrease(states: seq<State>, steps: seq<Step>)
    requires IsRun(states, steps) && Inv(states[0]) && states[0].control.Idle? && Upward(steps)
    ensures ControlUpward(states[|steps|]) && Inv(states[|steps|])
    ensures forall t: Token :: Owner(states[0].cat, t) <= Owner(states[|steps|].cat, t)
    decreases |steps|
  {
    if steps != [] {
      var n := |steps| - 1;
      var before := states[..|states| - 1];
      RunPrefix(states, steps);
      OwnerIdsNeverDecrease(before, steps[..n]);
      assert before[n] == states[n] && before[0] == states[0] && StepAt(states, steps, n);
      ControlStaysUpward(states[n], steps[n], states[n + 1]);
      StepKeepsUpward(states[n], steps[n], states[n + 1]);
    }
  }

  // ---- the requests that do lower an owner id ----------------------------------------------------

  function OneShard(): Catalog {
    Catalog(PLACEMENT_VERSION, 1, TokenRangeV1, [Shard(0, [TokenRange(0, 0)], Active, 1, [], [], "")], map[])
  }

  lemma OneShardInService()
    ensures InService(OneShard())
  {
    var shards := OneShard().shards;
    forall t: Token ensures ShardOwners(shards, t) == 1 {
      assert shards[..0] == [] && shards[0].ranges[..0] == [];
      assert Owners(shards[0].ranges, t) == 1;
    }
    InServiceParts(OneShard());
  }

  /** Shard 0 is split, and split again before the first split is finalized. */
  function SplitOnce(): Catalog {
    Transition(OneShard(), 0, Splitting, TokenRange(60, 0), [])
  }

  function SplitAgain(): Catalog {
    Transition(SplitOnce(), 0, Splitting, TokenRange(10, 0), [])
  }

  /** The second split is finalized, and its child is split in turn. */
  function SecondFinalized(): Catalog {
    Cutover(SplitAgain(), 0, 2, [TokenRange(0, 10)])
  }

  function ChildSplit(): Catalog {
    Transition(SecondFinalized(), 2, Splitting, TokenRange(30, 0), [])
  }

  lemma SplitOnceInService()
    ensures InService(SplitOnce())
  {
    OneShardInService();
    TransitionInService(OneShard(), 0, Splitting, TokenRange(60, 0), []);
  }

  lemma SecondFinalizedInService()
    ensures InService(SecondFinalized()) && Owner(SecondFinalized(), 60) == 2
  {
    SplitOnceInService();
    TransitionInService(SplitOnce(), 0, Splitting, TokenRange(10, 0), []);
    SplitKeeps(TokenRange(0, 0), 10);
    CutoverInService(SplitAgain(), 0, 2, TokenRange(10, 0), [TokenRange(0, 10)]);
  }

  lemma ChildSplitInService()
    ensures InService(ChildSplit()) && Owner(ChildSplit(), 60) == 2
  {
    SecondFinalizedInService();
    TransitionInService(SecondFinalized(), 2, Splitting, TokenRange(30, 0), []);
  }

  /** Every one of these changes is one that the planner makes and the gates accept. */
  lemma ChildSplitIsPlanned()
    ensures exists q :: Apply.SplitAccepted(OneShard(), SplitOnce(), q)
    ensures exists q :: Apply.SplitAccepted(SplitOnce(), SplitAgain(), q)
    ensures FinalizeAccepted(SplitAgain(), SplitKind, 0, 2, 0, [TokenRange(0, 10)])
    ensures exists q :: Apply.SplitAccepted(SecondFinalized(), ChildSplit(), q)
  {
    FirstSplitIsPlanned();
    SecondSplitIsPlanned();
    LastSplitIsPlanned();
  }

  lemma FirstSplitIsPlanned()
    ensures exists q :: Apply.SplitAccepted(OneShard(), SplitOnce(), q)
  {
    OneShardInService();
    PlannedAlone(OneShard(), SplitOnce(), 0, TokenRange(0, 0), 60);
  }

  lemma SecondSplitIsPlanned()
    ensures exists q :: Apply.SplitAccepted(SplitOnce(), SplitAgain(), q)
  {
    SplitOnceInService();
    PlannedAlone(SplitOnce(), SplitAgain(), 0, TokenRange(0, 0), 10);
  }

  lemma LastSplitIsPlanned()
    ensures exists q :: Apply.SplitAccepted(SecondFinalized(), ChildSplit(), q)
  {
    SecondFinalizedInService();
    PlannedAlone(SecondFinalized(), ChildSplit(), 2, TokenRange(10, 0), 30);
  }

  /** A split in a small catalog in which no other shard is splitting. */
  lemma PlannedAlone(cat: Catalog, after: Catalog, p: nat, rng: TokenRange, split: Token)
    requires InService(cat) && p < |cat.shards| < MAX_SHARD_ID && cat.shards[p].state.Routable()
    requires cat.shards[p].ranges == [rng] && TokenStrictlyInside(rng, split)
    requires forall q :: 0 <= q < |cat.shards| && q != p ==> !cat.shards[q].state.Splitting?
    requires after == Transition(cat, p, Splitting, TokenRange(split, rng.end), [])
    ensures exists q :: Apply.SplitAccepted(cat, after, q)
  {
    Apply.LoneSplitPasses(cat, p, split, []);
  }

  lemma ChildSplitShards()
    ensures var cat := ChildSplit();
            && cat.strategy.TokenRangeV1? && |cat.shards| == 4
            && cat.shards[1].state.Creating? && cat.shards[1].ranges == [TokenRange(60, 0)]
            && cat.shards[2].state.Splitting? && cat.shards[2].ranges == [TokenRange(10, 0)]
  {
  }

  /**
   The finalize gate does not record which child belongs to which parent. In that
   catalog shard 2 may be finalized onto the older child 1, and the tokens it
   hands over go to a lower id.
   */
  lemma MispairedFinalizeLowersOwner()
    ensures InService(ChildSplit())
    ensures FinalizeAccepted(ChildSplit(), SplitKind, 2, 1, 0, [TokenRange(10, 60)])
    ensures InService(Cutover(ChildSplit(), 2, 1, [TokenRange(10, 60)]))
    ensures Owner(ChildSplit(), 60) == 2 && Owner(Cutover(ChildSplit(), 2, 1, [TokenRange(10, 60)]), 60) == 1
  {
    ChildSplitInService();
    ChildSplitShards();
    HandOver(ChildSplit());
  }

  lemma HandOver(cat: Catalog)
    requires InService(cat) && |cat.shards| == 4
    requires cat.shards[1].state.Creating? && cat.shards[1].ranges == [TokenRange(60, 0)]
    requires cat.shards[2].state.Splitting? && cat.shards[2].ranges == [TokenRange(10, 0)]
    ensures FinalizeAccepted(cat, SplitKind, 2, 1, 0, [TokenRange(10, 60)])
    ensures var after := Cutover(cat, 2, 1, [TokenRange(10, 60)]); InService(after) && Owner(after, 60) == 1
  {
    AcceptedIsReady(cat, SplitKind, 2, 1, 0, [TokenRange(10, 60)]);
    CutoverInService(cat, 2, 1, TokenRange(60, 0), [TokenRange(10, 60)]);
  }
}
