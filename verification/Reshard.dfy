/**
 Online resharding as a step system: fenced writers interleave with split and
 range-move control operations, and an error or a crash may strike anywhere.
 */
module Reshard {
  import opened Wrappers
  import opened Ring
  import opened Tokens
  import opened Catalogs
  import opened Planner
  import opened Rows

  // ---- state -------------------------------------------------------------------

  datatype Phase =
    | Copying | Copied | Verified | Publishing | Published | Cleanup | Done | VerifyFailed | WasRolledBack
  {
    predicate PublishedOrDone() {
      Published? || Cleanup? || Done?
    }
  }

  datatype Kind = SplitKind | MoveKind

  /** The persisted finalize state of a split or a range move. */
  datatype Record = Record(
    kind: Kind, src: nat, dst: nat, beforeEpoch: nat, afterEpoch: nat,
    before: seq<TokenRange>, kept: seq<TokenRange>, rng: TokenRange, phase: Phase)

  datatype RecordKey = RecordKey(kind: Kind, src: nat, dst: nat)

  datatype Write = Put(item: Item) | Delete

  /** A writer holding the fence: `done` counts the targets written so far, primary first. */
  datatype Writer = Writer(key: Key, write: Write, primary: nat, mirrors: seq<nat>, done: nat)

  /** Where a finalize run stands; the names follow the phase it is about to record. */
  datatype Stage =
    | SaveCopying
    | CopyRows(todo: set<Key>)
    | SaveCopied
    | Verify
    | SaveVerifyFailed
    | SaveVerified
    | SavePublishing
    | PublishCutover
    | SavePublished
    | SaveCleanup
    | DeleteRows(todo: set<Key>)
    | SaveDone
  {
    predicate BeforeCutover() {
      !SavePublished? && !SaveCleanup? && !DeleteRows? && !SaveDone?
    }
  }

  datatype RollbackStage = Wipe | PublishRollback | SaveRolledBack

  /** The control operation that holds the fence exclusively, if any. */
  datatype Control =
    | Idle
    | Finalizing(rec: Record, tables: set<string>, stage: Stage)
    | RollingBack(parent: nat, child: nat, found: Option<Record>, rstage: RollbackStage)

  datatype State = State(
    cat: Catalog, stores: seq<Store>, tables: set<string>,
    writers: map<nat, Writer>, control: Control, records: map<RecordKey, Record>)

  // ---- what a client sees ----------------------------------------------------------

  /** A read goes to the shard that owns the key's token. */
  ghost function Read(s: State, k: Key): Option<Item>
    requires InService(s.cat) && |s.stores| == |s.cat.shards|
  {
    var store := s.stores[Owner(s.cat, k.token)];
    if k in store then Some(store[k]) else None
  }

  function Written(store: Store, k: Key, write: Write): Store {
    match write
    case Put(item) => store[k := item]
    case Delete => store - {k}
  }

  function Outcome(write: Write): Option<Item> {
    match write
    case Put(item) => Some(item)
    case Delete => None
  }

  // ---- write targets ------------------------------------------------------------------

  ghost predicate Lists(sh: Shard, t: Token) {
    exists j :: 0 <= j < |sh.ranges| && sh.ranges[j].Contains(t)
  }

  /** The Creating shards that list the token, in id order. */
  ghost function CreatingFor(shards: seq<Shard>, t: Token): seq<nat> {
    if shards == [] then []
    else
      var n := |shards| - 1;
      CreatingFor(shards[..n], t) + if shards[n].state.Creating? && Lists(shards[n], t) then [n] else []
  }

  /** Mirrors are needed only while the primary is splitting or moving. */
  ghost function MirrorsFor(shards: seq<Shard>, primary: nat, t: Token): seq<nat>
    requires primary < |shards|
  {
    if shards[primary].state.Splitting? || shards[primary].state.Moving? then CreatingFor(shards, t) else []
  }

  /** Those shards and no others, each once and in id order. */
  lemma {:induction false} CreatingForAreCreating(shards: seq<Shard>, t: Token)
    ensures forall m: nat :: m in CreatingFor(shards, t) <==>
                             m < |shards| && shards[m].state.Creating? && Lists(shards[m], t)
    ensures forall i, j :: 0 <= i < j < |CreatingFor(shards, t)| ==> CreatingFor(shards, t)[i] < CreatingFor(shards, t)[j]
  {
    if shards != [] {
      var n := |shards| - 1;
      CreatingForAreCreating(shards[..n], t);
      assert forall m: nat :: m < n ==> shards[..n][m] == shards[m];
      var most, all := CreatingFor(shards[..n], t), CreatingFor(shards, t);
      forall i, j | 0 <= i < j < |all| ensures all[i] < all[j] {
        assert most[i] in most;
        assert j < |most| ==> all[j] == most[j];
      }
    }
  }

  // ---- requests ------------------------------------------------------------------------

  ghost predicate EpochOk(cat: Catalog, expected: nat) {
    expected == 0 || expected == cat.epoch
  }

  /** `validateFinalizeSplit` and `validateFinalizeRangeMove`: `kept` is what the source will keep. */
  ghost predicate FinalizeAccepted(cat: Catalog, kind: Kind, src: nat, dst: nat, expected: nat, kept: seq<TokenRange>) {
    && cat.strategy.TokenRangeV1? && EpochOk(cat, expected)
    && src < |cat.shards| && dst < |cat.shards|
    && var source, target := cat.shards[src], cat.shards[dst];
       && target.state.Creating? && |target.ranges| == 1
       && match kind
          case SplitKind =>
            && source.state.Splitting? && |source.ranges| == 1
            && target.ranges[0].end == source.ranges[0].end
            && TokenStrictlyInside(source.ranges[0], target.ranges[0].start)
            && kept == [TokenRange(source.ranges[0].start, target.ranges[0].start)]
          case MoveKind =>
            && src != dst && source.state.Moving?
            && Keeps(source.ranges, target.ranges[0], kept)
  }

  /** `validatePublishedSplitPlacement` and `validatePublishedRangeMovePlacement`. */
  ghost predicate ResumeAccepted(cat: Catalog, rec: Record) {
    && cat.strategy.TokenRangeV1?
    && rec.src < |cat.shards| && rec.dst < |cat.shards|
    && var source, target := cat.shards[rec.src], cat.shards[rec.dst];
       && (source.state.Active? || (rec.kind.MoveKind? && source.state.Decommissioned?))
       && target.state.Active?
       && source.ranges == rec.kept && target.ranges == [rec.rng]
  }

  // ---- steps ------------------------------------------------------------------------------

  datatype Step =
    | BeginWrite(w: nat, key: Key, write: Write, epoch: nat)
    | WriteNext(w: nat)
    | EndWrite(w: nat)
    | CreateTable(name: string)
    | ApplyTransition(src: nat, state: ShardState, rng: TokenRange, voters: seq<string>, leftover: Store)
    | ApplyMembership(after: Catalog)
    | StartFinalize(kind: Kind, src: nat, dst: nat, expected: nat, kept: seq<TokenRange>)
    | StartResume(kind: Kind, src: nat, dst: nat, expected: nat)
    | StartRollback(src: nat, dst: nat, expected: nat)
    | Save
    | CopyRow(key: Key)
    | CopyDone
    | VerifyPass
    | VerifyFail
    | Publish
    | DeleteRow(key: Key)
    | DeleteDone
    | WipeRows(keys: set<Key>)
    | WipeDone
    | PublishRolledBack
    | Abort
    | Crash

  function Target(wr: Writer): nat
    requires wr.done <= |wr.mirrors|
  {
    if wr.done == 0 then wr.primary else wr.mirrors[wr.done - 1]
  }

  /** The record a finalize run writes at a save stage, and the stage it then enters. */
  ghost function AfterSave(s: State): (Record, Control)
    requires s.control.Finalizing?
  {
    var c := s.control;
    match c.stage
    case SaveCopying =>
      var todo := if c.rec.src < |s.stores| then RowsIn(s.stores[c.rec.src], c.tables, c.rec.rng).Keys else {};
      (c.rec.(phase := Copying), c.(stage := CopyRows(todo)))
    case SaveCopied => (c.rec.(phase := Copied), c.(stage := Verify))
    case SaveVerifyFailed => (c.rec.(phase := VerifyFailed), Idle)
    case SaveVerified => (c.rec.(phase := Verified), c.(stage := SavePublishing))
    case SavePublishing =>
      var rec := c.rec.(phase := Publishing, afterEpoch := c.rec.beforeEpoch + 1);
      (rec, c.(rec := rec, stage := PublishCutover))
    case SavePublished => (c.rec.(phase := Published), c.(stage := SaveCleanup))
    case SaveCleanup =>
      var todo := if c.rec.src < |s.stores| then RowsIn(s.stores[c.rec.src], c.tables, c.rec.rng).Keys else {};
      (c.rec.(phase := Cleanup), c.(stage := DeleteRows(todo)))
    case SaveDone => (c.rec.(phase := Done), Idle)
    case _ => (c.rec, c)
  }

  ghost predicate IsSave(stage: Stage) {
    !stage.CopyRows? && !stage.Verify? && !stage.PublishCutover? && !stage.DeleteRows?
  }

  function KeyOf(rec: Record): RecordKey {
    RecordKey(rec.kind, rec.src, rec.dst)
  }

  /** What `RollbackSplit` saves: without an earlier record it fills in none of the ids. */
  function RolledBackRecord(found: Option<Record>, epoch: nat): Record {
    var rec := if found.Some? then found.value
               else Record(SplitKind, 0, 0, 0, 0, [], [], TokenRange(0, 0), WasRolledBack);
    rec.(afterEpoch := epoch, phase := WasRolledBack)
  }

  ghost function RollbackRecord(s: State): Record
    requires s.control.RollingBack?
  {
    RolledBackRecord(s.control.found, s.cat.epoch)
  }

  ghost predicate Next(s: State, step: Step, s': State)
    requires InService(s.cat) && |s.stores| == |s.cat.shards|
  {
    match step
    case BeginWrite(w, key, write, epoch) =>
      && s.control.Idle? && w !in s.writers && key.table in s.tables && EpochOk(s.cat, epoch)
      && var primary := Owner(s.cat, key.token);
         s' == s.(writers := s.writers[w := Writer(key, write, primary,
                                                   MirrorsFor(s.cat.shards, primary, key.token), 0)])
    case WriteNext(w) =>
      && w in s.writers && s.writers[w].done <= |s.writers[w].mirrors|
      && var wr := s.writers[w];
         && Target(wr) < |s.stores|
         && s' == s.(stores := s.stores[Target(wr) := Written(s.stores[Target(wr)], wr.key, wr.write)],
                     writers := s.writers[w := wr.(done := wr.done + 1)])
    case EndWrite(w) =>
      w in s.writers && s' == s.(writers := s.writers - {w})
    case CreateTable(name) =>
      s' == s.(tables := s.tables + {name})
    case ApplyTransition(src, state, rng, voters, leftover) =>
      && s.control.Idle? && src < |s.cat.shards| && s.cat.shards[src].state.Routable()
      && (state.Splitting? || state.Moving?)
      && (forall k :: k in leftover ==> k.table in s.tables)
      && s' == s.(cat := Transition(s.cat, src, state, rng, voters), stores := s.stores + [leftover])
    case ApplyMembership(after) =>
      && s.control.Idle? && MembershipEdit(s.cat, after) && ValidPlacement(after)
      && s' == s.(cat := after)
    case StartFinalize(kind, src, dst, expected, kept) =>
      && s.control.Idle? && s.writers == map[]
      && (RecordKey(kind, src, dst) in s.records ==>
            !s.records[RecordKey(kind, src, dst)].phase.PublishedOrDone())
      && FinalizeAccepted(s.cat, kind, src, dst, expected, kept)
      && s' == s.(control := Finalizing(
                    Record(kind, src, dst, s.cat.epoch, 0, s.cat.shards[src].ranges, kept,
                           s.cat.shards[dst].ranges[0], Copying),
                    s.tables, SaveCopying))
    case StartResume(kind, src, dst, expected) =>
      && s.control.Idle? && s.writers == map[]
      && RecordKey(kind, src, dst) in s.records
      && var rec := s.records[RecordKey(kind, src, dst)];
         && (rec.phase.Published? || rec.phase.Cleanup?)
         && (EpochOk(s.cat, expected) || expected == rec.beforeEpoch)
         && ResumeAccepted(s.cat, rec)
         && s' == s.(control := Finalizing(rec, s.tables, SaveCleanup))
    case StartRollback(src, dst, expected) =>
      && s.control.Idle? && s.writers == map[]
      && var key := RecordKey(SplitKind, src, dst);
         && (key in s.records ==> !s.records[key].phase.PublishedOrDone())
         && (exists kept :: FinalizeAccepted(s.cat, SplitKind, src, dst, expected, kept))
         && s' == s.(control := RollingBack(src, dst, if key in s.records then Some(s.records[key]) else None, Wipe))
    case Save =>
      if s.control.Finalizing? then
        && IsSave(s.control.stage)
        && var (rec, control) := AfterSave(s);
           s' == s.(records := s.records[KeyOf(rec) := rec], control := control)
      else
        && s.control.RollingBack? && s.control.rstage.SaveRolledBack?
        && var rec := RollbackRecord(s);
           s' == s.(records := s.records[KeyOf(rec) := rec], control := Idle)
    case CopyRow(key) =>
      && s.control.Finalizing? && s.control.stage.CopyRows? && key in s.control.stage.todo
      && var src, dst := s.control.rec.src, s.control.rec.dst;
         && src < |s.stores| && dst < |s.stores| && key in s.stores[src]
         && s' == s.(stores := s.stores[dst := s.stores[dst][key := s.stores[src][key]]],
                     control := s.control.(stage := CopyRows(s.control.stage.todo - {key})))
    case CopyDone =>
      && s.control.Finalizing? && s.control.stage == CopyRows({})
      && s' == s.(control := s.control.(stage := SaveCopied))
    case VerifyPass =>
      && s.control.Finalizing? && s.control.stage.Verify?
      && var rec := s.control.rec;
         && rec.src < |s.stores| && rec.dst < |s.stores|
         && |RowsIn(s.stores[rec.src], s.control.tables, rec.rng)| == |RowsIn(s.stores[rec.dst], s.control.tables, rec.rng)|
         && s' == s.(control := s.control.(stage := SaveVerified))
    case VerifyFail =>
      && s.control.Finalizing? && s.control.stage.Verify?
      && s' == s.(control := s.control.(stage := SaveVerifyFailed))
    case Publish =>
      && s.control.Finalizing? && s.control.stage.PublishCutover?
      && var rec := s.control.rec;
         && rec.src < |s.cat.shards| && rec.dst < |s.cat.shards|
         && s' == s.(cat := Cutover(s.cat, rec.src, rec.dst, rec.kept),
                     control := s.control.(stage := SavePublished))
    case DeleteRow(key) =>
      && s.control.Finalizing? && s.control.stage.DeleteRows? && key in s.control.stage.todo
      && var src := s.control.rec.src;
         && src < |s.stores|
         && s' == s.(stores := s.stores[src := s.stores[src] - {key}],
                     control := s.control.(stage := DeleteRows(s.control.stage.todo - {key})))
    case DeleteDone =>
      && s.control.Finalizing? && s.control.stage == DeleteRows({})
      && s' == s.(control := s.control.(stage := SaveDone))
    case WipeRows(keys) =>
      && s.control.RollingBack? && s.control.rstage.Wipe? && s.control.child < |s.stores|
      && s' == s.(stores := s.stores[s.control.child := s.stores[s.control.child] - keys])
    case WipeDone =>
      && s.control.RollingBack? && s.control.rstage.Wipe?
      && s.control.child < |s.stores| && s.stores[s.control.child] == map[]
      && s' == s.(control := s.control.(rstage := PublishRollback))
    case PublishRolledBack =>
      && s.control.RollingBack? && s.control.rstage.PublishRollback?
      && s.control.parent < |s.cat.shards| && s.control.child < |s.cat.shards|
      && s' == s.(cat := RolledBack(s.cat, s.control.parent, s.control.child),
                  control := s.control.(rstage := SaveRolledBack))
    case Abort =>
      s' == s.(control := Idle)
    case Crash =>
      s' == s.(control := Idle, writers := map[])
  }
}
