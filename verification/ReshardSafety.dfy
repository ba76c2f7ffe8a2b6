/**
 The invariant of the resharding step system, and what every step keeps: the
 invariant itself, what clients read, and who may own a token.
 */
module ReshardSafety {
  import opened Ring
  import opened Tokens
  import opened Catalogs
  import opened Planner
  import opened Rows
  import opened Reshard

  // ---- the invariant ---------------------------------------------------------------

  ghost predicate RowsKnown(stores: seq<Store>, tables: set<string>) {
    forall i, k :: 0 <= i < |stores| && k in stores[i] ==> k.table in tables
  }

  /** A writer's primary is the routed owner; its mirrors serve nobody. */
  ghost predicate WriterOk(s: State, wr: Writer)
    requires InService(s.cat)
  {
    && wr.primary == Owner(s.cat, wr.key.token)
    && wr.key.table in s.tables
    && (forall m :: m in wr.mirrors ==> m < |s.cat.shards| && s.cat.shards[m].state.Creating?)
  }

  /** The source of a published move serves no token of the moved range, and never will. */
  ghost predicate Gone(cat: Catalog, rec: Record)
    requires InService(cat)
  {
    && rec.src < |cat.shards| && !cat.shards[rec.src].state.Creating?
    && forall t: Token :: rec.rng.Contains(t) ==> Owner(cat, t) != rec.src
  }

  ghost predicate Cleaned(store: Store, rng: TokenRange) {
    forall k :: k in store ==> !rng.Contains(k.token)
  }

  ghost predicate RecordOk(s: State, rec: Record)
    requires InService(s.cat) && |s.stores| == |s.cat.shards|
  {
    && (rec.phase.PublishedOrDone() ==> Gone(s.cat, rec))
    && (rec.phase.Done? ==> Cleaned(s.stores[rec.src], rec.rng))
  }

  /** Every selected source row not in `todo` is on the target. */
  ghost predicate CopiedBut(src: Store, dst: Store, tables: set<string>, rng: TokenRange, todo: set<Key>) {
    forall k :: k in RowsIn(src, tables, rng) && k !in todo ==> k in dst && dst[k] == src[k]
  }

  ghost predicate StageOk(stage: Stage, tables: set<string>, rng: TokenRange, src: Store, dst: Store) {
    match stage
    case CopyRows(todo) => todo <= src.Keys && CopiedBut(src, dst, tables, rng, todo)
    case SaveCopied => CopiedBut(src, dst, tables, rng, {})
    case Verify => CopiedBut(src, dst, tables, rng, {})
    case SaveVerified => RowsIn(src, tables, rng) == RowsIn(dst, tables, rng)
    case SavePublishing => RowsIn(src, tables, rng) == RowsIn(dst, tables, rng)
    case PublishCutover => RowsIn(src, tables, rng) == RowsIn(dst, tables, rng)
    case DeleteRows(todo) =>
      && (forall k :: k in src && rng.Contains(k.token) ==> k in todo)
      && (forall k :: k in todo ==> rng.Contains(k.token))
    case SaveDone => Cleaned(src, rng)
    case _ => true
  }

  ghost predicate ControlOk(s: State)
    requires InService(s.cat) && |s.stores| == |s.cat.shards|
  {
    match s.control
    case Idle => true
    case Finalizing(rec, tables, stage) =>
      && RowsKnown(s.stores, tables)
      && rec.src < |s.stores| && rec.dst < |s.stores|
      && (stage.BeforeCutover() ==> CutoverReady(s.cat, rec.src, rec.dst, rec.rng, rec.kept))
      && (!stage.BeforeCutover() ==> Gone(s.cat, rec))
      && StageOk(stage, tables, rec.rng, s.stores[rec.src], s.stores[rec.dst])
    case RollingBack(parent, child, found, rstage) =>
      !rstage.SaveRolledBack? ==>
        && parent < |s.cat.shards| && child < |s.cat.shards|
        && s.cat.shards[parent].state.Routable() && s.cat.shards[child].state.Creating?
  }

  ghost predicate Base(s: State) {
    InService(s.cat) && |s.stores| == |s.cat.shards|
  }

  ghost predicate Inv(s: State) {
    && Base(s)
    && RowsKnown(s.stores, s.tables)
    && (forall w :: w in s.writers ==> WriterOk(s, s.writers[w]))
    && (!s.control.Idle? ==> s.writers == map[])
    && ControlOk(s)
    && (forall key :: key in s.records ==> RecordOk(s, s.records[key]))
  }

  // ---- what every step keeps ---------------------------------------------------------

  /** Only a writer's first write changes what clients read, and only at its key. */
  ghost predicate Visible(s: State, step: Step, s': State)
    requires Base(s) && Base(s')
  {
    forall k :: Read(s', k) ==
                if step.WriteNext? && step.w in s.writers && s.writers[step.w].done == 0 && k == s.writers[step.w].key
                then Outcome(s.writers[step.w].write) else Read(s, k)
  }

  /** A shard past creation stays so, and owns no token it did not own before. */
  ghost predicate Shrinks(cat: Catalog, cat': Catalog)
    requires InService(cat) && InService(cat')
  {
    && |cat'.shards| >= |cat.shards|
    && forall i :: 0 <= i < |cat.shards| && !cat.shards[i].state.Creating? ==>
         && !cat'.shards[i].state.Creating?
         && forall t: Token :: Owner(cat', t) == i ==> Owner(cat, t) == i
  }

  /** A shard past creation gains rows only for tokens it owns. */
  ghost predicate NoStrayRows(s: State, s': State)
    requires Base(s) && |s'.stores| >= |s.stores|
  {
    forall i, k :: 0 <= i < |s.stores| && !s.cat.shards[i].state.Creating? && k in s'.stores[i] ==>
      k in s.stores[i] || Owner(s.cat, k.token) == i
  }

  /** Records of published moves stay true under any step with those two properties. */
  lemma RecordSurvives(s: State, s': State, rec: Record)
    requires Base(s) && Base(s') && Shrinks(s.cat, s'.cat) && NoStrayRows(s, s') && RecordOk(s, rec)
    ensures RecordOk(s', rec)
  {
    if rec.phase.PublishedOrDone() {
      forall t: Token | rec.rng.Contains(t) ensures Owner(s'.cat, t) != rec.src {
      }
    }
  }

  lemma RecordsSurvive(s: State, s': State)
    requires Base(s) && Base(s') && Shrinks(s.cat, s'.cat) && NoStrayRows(s, s')
    requires forall key :: key in s.records ==> RecordOk(s, s.records[key])
    ensures forall key :: key in s.records ==> RecordOk(s', s.records[key])
  {
    forall key | key in s.records ensures RecordOk(s', s.records[key]) {
      RecordSurvives(s, s', s.records[key]);
    }
  }

  ghost predicate Kept(s: State, step: Step, s': State) {
    Inv(s) && Inv(s') && Visible(s, step, s') && Shrinks(s.cat, s'.cat) && NoStrayRows(s, s')
  }

  // ---- one lemma per group of steps ------------------------------------------------------

  /** A step that leaves catalog, stores and records alone hides nothing. */
  lemma QuietStep(s: State, step: Step, s': State)
    requires Inv(s) && Base(s') && !step.WriteNext?
    requires s'.cat == s.cat && s'.stores == s.stores && s'.records == s.records
    ensures Visible(s, step, s') && Shrinks(s.cat, s'.cat) && NoStrayRows(s, s')
    ensures forall key :: key in s'.records ==> RecordOk(s', s'.records[key])
  {
    RecordsSurvive(s, s');
  }

  lemma BeginStep(s: State, step: Step, s': State)
    requires Inv(s) && Next(s, step, s') && step.BeginWrite?
    ensures Kept(s, step, s')
  {
    CreatingForAreCreating(s.cat.shards, step.key.token);
    QuietStep(s, step, s');
    forall w | w in s'.writers ensures WriterOk(s', s'.writers[w]) {
      assert w != step.w ==> WriterOk(s, s.writers[w]);
    }
  }

  lemma ReleaseSteps(s: State, step: Step, s': State)
    requires Inv(s) && Next(s, step, s') && (step.EndWrite? || step.Abort? || step.Crash?)
    ensures Kept(s, step, s')
  {
    QuietStep(s, step, s');
    forall w | w in s'.writers ensures WriterOk(s', s'.writers[w]) {
      assert WriterOk(s, s.writers[w]);
    }
  }

  lemma TableStep(s: State, step: Step, s': State)
    requires Inv(s) && Next(s, step, s') && step.CreateTable?
    ensures Kept(s, step, s')
  {
    QuietStep(s, step, s');
    forall w | w in s'.writers ensures WriterOk(s', s'.writers[w]) {
      assert WriterOk(s, s.writers[w]);
    }
  }

  /** The owner's store changes only at the first write: mirrors own nothing. */
  lemma WriteReads(s: State, step: Step, s': State)
    requires Base(s) && Next(s, step, s') && step.WriteNext? && WriterOk(s, s.writers[step.w])
    ensures Base(s') && Visible(s, step, s') && NoStrayRows(s, s')
  {
    var wr := s.writers[step.w];
    var target := Target(wr);
    assert wr.done > 0 ==> target in wr.mirrors;
    forall k ensures Read(s', k) == if wr.done == 0 && k == wr.key then Outcome(wr.write) else Read(s, k) {
      assert wr.done > 0 ==> Owner(s.cat, k.token) != target;
    }
  }

  lemma WriteStep(s: State, step: Step, s': State)
    requires Inv(s) && Next(s, step, s') && step.WriteNext?
    ensures Kept(s, step, s')
  {
    WriteReads(s, step, s');
    RecordsSurvive(s, s');
    forall w | w in s'.writers ensures WriterOk(s', s'.writers[w]) {
      assert WriterOk(s, s.writers[w]);
    }
  }

  lemma TransitionStep(s: State, step: Step, s': State)
    requires Inv(s) && Next(s, step, s') && step.ApplyTransition?
    ensures Kept(s, step, s')
  {
    TransitionInService(s.cat, step.src, step.state, step.rng, step.voters);
    assert Base(s');
    assert forall i :: 0 <= i < |s.cat.shards| ==>
             (s'.cat.shards[i].state.Creating? <==> s.cat.shards[i].state.Creating?);
    forall w | w in s'.writers ensures WriterOk(s', s'.writers[w]) {
      assert WriterOk(s, s.writers[w]);
    }
    RecordsSurvive(s, s');
  }

  lemma MembershipStep(s: State, step: Step, s': State)
    requires Inv(s) && Next(s, step, s') && step.ApplyMembership?
    ensures Kept(s, step, s')
  {
    MembershipKeepsRouting(s.cat, step.after);
    forall w | w in s'.writers ensures WriterOk(s', s'.writers[w]) {
      assert WriterOk(s, s.writers[w]);
    }
    RecordsSurvive(s, s');
  }

  /** An accepted finalize request is ready for cutover. */
  lemma AcceptedIsReady(cat: Catalog, kind: Kind, src: nat, dst: nat, expected: nat, kept: seq<TokenRange>)
    requires InService(cat) && FinalizeAccepted(cat, kind, src, dst, expected, kept)
    ensures CutoverReady(cat, src, dst, cat.shards[dst].ranges[0], kept)
  {
    var rng := cat.shards[dst].ranges[0];
    assert cat.shards[dst].ranges == [rng];
    if kind.SplitKind? {
      var whole := cat.shards[src].ranges[0];
      assert cat.shards[src].ranges == [whole];
      SplitKeeps(whole, rng.start);
      assert SplitRange(whole, rng.start) == (kept[0], rng);
    }
  }

  lemma StartSteps(s: State, step: Step, s': State)
    requires Inv(s) && Next(s, step, s')
    requires step.StartFinalize? || step.StartResume? || step.StartRollback?
    ensures Kept(s, step, s')
  {
    QuietStep(s, step, s');
    if step.StartFinalize? {
      AcceptedIsReady(s.cat, step.kind, step.src, step.dst, step.expected, step.kept);
    } else if step.StartRollback? {
      var kept :| FinalizeAccepted(s.cat, SplitKind, step.src, step.dst, step.expected, kept);
    } else {
      assert RecordOk(s, s.records[RecordKey(step.kind, step.src, step.dst)]);
    }
  }

  /** Starting a row loop: `todo` is every selected row of the source. */
  lemma RowLoopStarts(s: State)
    requires Base(s) && ControlOk(s) && s.control.Finalizing?
    requires s.control.stage.SaveCopying? || s.control.stage.SaveCleanup?
    ensures RecordOk(s, AfterSave(s).0)
    ensures ControlOk(s.(control := AfterSave(s).1))
  {
    var c := s.control;
    var rows := RowsIn(s.stores[c.rec.src], c.tables, c.rec.rng);
    assert forall k :: k in s.stores[c.rec.src] && c.rec.rng.Contains(k.token) ==> k in rows;
  }

  /** What any other save leaves behind is true, and so is the stage it enters. */
  lemma SaveControl(s: State)
    requires Base(s) && ControlOk(s) && s.control.Finalizing? && IsSave(s.control.stage)
    requires !s.control.stage.SaveCopying? && !s.control.stage.SaveCleanup?
    ensures RecordOk(s, AfterSave(s).0)
    ensures ControlOk(s.(control := AfterSave(s).1))
  {
  }

  lemma SaveStep(s: State, step: Step, s': State)
    requires Inv(s) && Next(s, step, s') && step.Save?
    ensures Kept(s, step, s')
  {
    var mid := s.(control := s'.control);
    QuietStep(s, step, mid);
    if s.control.Finalizing? {
      if s.control.stage.SaveCopying? || s.control.stage.SaveCleanup? {
        RowLoopStarts(s);
      } else {
        SaveControl(s);
      }
      SavedRecord(s, s', AfterSave(s).0);
    } else {
      SavedRecord(s, s', RollbackRecord(s));
    }
  }

  lemma SavedRecord(s: State, s': State, rec: Record)
    requires Base(s) && RecordOk(s, rec)
    requires forall key :: key in s.records ==> RecordOk(s, s.records[key])
    requires s' == s.(records := s.records[KeyOf(rec) := rec], control := s'.control)
    ensures forall key :: key in s'.records ==> RecordOk(s', s'.records[key])
  {
    forall key | key in s'.records ensures RecordOk(s', s'.records[key]) {
      assert key != KeyOf(rec) ==> s'.records[key] == s.records[key];
    }
  }

  lemma CopyReads(s: State, step: Step, s': State)
    requires Base(s) && ControlOk(s) && Next(s, step, s') && step.CopyRow?
    ensures Base(s') && ControlOk(s') && Visible(s, step, s') && NoStrayRows(s, s')
  {
    var rec := s.control.rec;
    assert s.cat.shards[rec.dst].state.Creating? && rec.src != rec.dst;
    assert s'.stores[rec.src] == s.stores[rec.src];
    assert RowsKnown(s'.stores, s'.control.tables);
    forall k ensures Read(s', k) == Read(s, k) {
      assert Owner(s.cat, k.token) != rec.dst;
    }
  }

  lemma CopySteps(s: State, step: Step, s': State)
    requires Inv(s) && Next(s, step, s') && (step.CopyRow? || step.CopyDone?)
    ensures Kept(s, step, s')
  {
    if step.CopyRow? {
      CopyReads(s, step, s');
      RecordsSurvive(s, s');
    } else {
      QuietStep(s, step, s');
    }
  }

  lemma VerifiedControl(s: State)
    requires Base(s) && ControlOk(s) && s.control.Finalizing? && s.control.stage.Verify?
    ensures ControlOk(s.(control := s.control.(stage := SaveVerifyFailed)))
    ensures var rec, tables := s.control.rec, s.control.tables;
            |RowsIn(s.stores[rec.src], tables, rec.rng)| == |RowsIn(s.stores[rec.dst], tables, rec.rng)| ==>
            ControlOk(s.(control := s.control.(stage := SaveVerified)))
  {
    var rec, tables := s.control.rec, s.control.tables;
    var p, c := RowsIn(s.stores[rec.src], tables, rec.rng), RowsIn(s.stores[rec.dst], tables, rec.rng);
    if |p| == |c| {
      SubmapOfEqualSize(p, c);
    }
  }

  lemma VerifySteps(s: State, step: Step, s': State)
    requires Inv(s) && Next(s, step, s') && (step.VerifyPass? || step.VerifyFail?)
    ensures Kept(s, step, s')
  {
    VerifiedControl(s);
    QuietStep(s, step, s');
  }

  lemma PublishReads(s: State, s': State)
    requires Base(s) && ControlOk(s) && RowsKnown(s.stores, s.tables)
    requires s.control.Finalizing? && s.control.stage.PublishCutover?
    requires s' == s.(cat := Cutover(s.cat, s.control.rec.src, s.control.rec.dst, s.control.rec.kept),
                      control := s.control.(stage := SavePublished))
    ensures Base(s') && Gone(s'.cat, s.control.rec) && Shrinks(s.cat, s'.cat)
    ensures forall k :: Read(s', k) == Read(s, k)
  {
    var rec, tables := s.control.rec, s.control.tables;
    CutoverInService(s.cat, rec.src, rec.dst, rec.rng, rec.kept);
    forall k ensures Read(s', k) == Read(s, k) {
      if rec.rng.Contains(k.token) {
        assert k in RowsIn(s.stores[rec.src], tables, rec.rng) <==> k in s.stores[rec.src];
        assert k in RowsIn(s.stores[rec.dst], tables, rec.rng) <==> k in s.stores[rec.dst];
      }
    }
  }

  lemma PublishStep(s: State, step: Step, s': State)
    requires Inv(s) && Next(s, step, s') && step.Publish?
    ensures Kept(s, step, s')
  {
    PublishReads(s, s');
    RecordsSurvive(s, s');
  }

  /** Deleting at the source touches no row its shard still serves. */
  lemma DeleteReads(s: State, step: Step, s': State)
    requires Base(s) && ControlOk(s) && Next(s, step, s') && step.DeleteRow?
    ensures Owner(s.cat, step.key.token) != s.control.rec.src
    ensures Base(s') && ControlOk(s') && Visible(s, step, s') && NoStrayRows(s, s')
  {
    var rec := s.control.rec;
    assert step.key in s.control.stage.todo;
    assert RowsKnown(s'.stores, s'.control.tables);
  }

  lemma DeleteSteps(s: State, step: Step, s': State)
    requires Inv(s) && Next(s, step, s') && (step.DeleteRow? || step.DeleteDone?)
    ensures Kept(s, step, s')
  {
    if step.DeleteRow? {
      DeleteReads(s, step, s');
      RecordsSurvive(s, s');
    } else {
      QuietStep(s, step, s');
    }
  }

  lemma RollbackSteps(s: State, step: Step, s': State)
    requires Inv(s) && Next(s, step, s') && (step.WipeRows? || step.WipeDone? || step.PublishRolledBack?)
    ensures Kept(s, step, s')
  {
    var parent, child := s.control.parent, s.control.child;
    if step.WipeRows? {
      assert s'.cat == s.cat && s'.records == s.records;
      assert RowsKnown(s'.stores, s'.tables);
      forall k ensures Read(s', k) == Read(s, k) {
        assert Owner(s.cat, k.token) != child;
      }
    } else if step.PublishRolledBack? {
      RollbackInService(s.cat, parent, child);
      assert Base(s');
    }
    RecordsSurvive(s, s');
  }
}
