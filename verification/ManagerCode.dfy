/**
 The manager's own code for the resharding operations: each method is a run of
 the step system, whatever storage call fails on the way.
 */
module ManagerCode {
  import opened Wrappers
  import opened Ring
  import opened Catalogs
  import opened Planner
  import opened Routing
  import opened Rows
  import opened Reshard
  import opened ReshardSafety
  import opened Requests
  import opened Reachability
  import opened RollbackRecords

  // ---- the rows a finalize run moves ------------------------------------------------------------

  /** The first `n` keys. */
  ghost function Taken(keys: seq<Key>, n: nat): (taken: set<Key>)
    requires n <= |keys|
    ensures n == 0 ==> taken == {}
  {
    set i | 0 <= i < n :: keys[i]
  }

  lemma TakeNext(keys: seq<Key>, n: nat)
    requires n < |keys| && forall i, j :: 0 <= i < j < |keys| ==> keys[i] != keys[j]
    ensures keys[n] in keys && keys[n] !in Taken(keys, n)
    ensures Taken(keys, n + 1) == Taken(keys, n) + {keys[n]}
  {
  }

  lemma TakenAll(keys: seq<Key>, all: set<Key>)
    requires forall k :: k in keys <==> k in all
    ensures Taken(keys, |keys|) == all
  {
  }

  /** The target once the rows of `done` have been put on it. */
  ghost function WithRows(target: Store, rows: Store, done: set<Key>): Store {
    target + map k | k in rows && k in done :: rows[k]
  }

  lemma WithNoRows(target: Store, rows: Store)
    ensures WithRows(target, rows, {}) == target
    ensures WithRows(target, rows, rows.Keys) == target + rows
    ensures rows.Keys - {} == rows.Keys && rows.Keys - rows.Keys == {}
  {
    assert (map k | k in rows && k in rows.Keys :: rows[k]) == rows;
  }

  lemma WithOneMore(target: Store, rows: Store, done: set<Key>, key: Key)
    requires key in rows
    ensures WithRows(target, rows, done)[key := rows[key]] == WithRows(target, rows, done + {key})
    ensures rows.Keys - done - {key} == rows.Keys - (done + {key})
  {
  }

  /** Every row in range of the source is on the target, with the same item. */
  ghost predicate IsCopied(stores: seq<Store>, tables: set<string>, rec: Record)
    requires rec.src < |stores| && rec.dst < |stores|
  {
    forall k :: k in RowsIn(stores[rec.src], tables, rec.rng) ==>
                  k in stores[rec.dst] && stores[rec.dst][k] == stores[rec.src][k]
  }

  ghost predicate SameRows(stores: seq<Store>, tables: set<string>, rec: Record)
    requires rec.src < |stores| && rec.dst < |stores|
  {
    RowsIn(stores[rec.src], tables, rec.rng) == RowsIn(stores[rec.dst], tables, rec.rng)
  }

  /** The target holds no row in range that the source lacks: what verification decides. */
  ghost predicate NoExtraRows(stores: seq<Store>, tables: set<string>, rec: Record)
    requires rec.src < |stores| && rec.dst < |stores|
  {
    RowsIn(stores[rec.dst], tables, rec.rng).Keys <= RowsIn(stores[rec.src], tables, rec.rng).Keys
  }

  /** The source's rows in range, put on the target. */
  ghost function CopiedTo(stores: seq<Store>, tables: set<string>, rec: Record): (after: seq<Store>)
    requires rec.src < |stores| && rec.dst < |stores|
    ensures |after| == |stores|
  {
    stores[rec.dst := stores[rec.dst] + RowsIn(stores[rec.src], tables, rec.rng)]
  }

  /** The source without its rows in range. */
  ghost function CleanedFrom(stores: seq<Store>, tables: set<string>, rec: Record): (after: seq<Store>)
    requires rec.src < |stores|
    ensures |after| == |stores|
  {
    stores[rec.src := stores[rec.src] - RowsIn(stores[rec.src], tables, rec.rng).Keys]
  }

  /** After the copy the two shards agree in range exactly when the target had no rows of its own there. */
  lemma CopiedRows(before: seq<Store>, after: seq<Store>, tables: set<string>, rec: Record)
    requires rec.src < |before| && rec.dst < |before| && rec.src != rec.dst
    requires after == CopiedTo(before, tables, rec)
    ensures IsCopied(after, tables, rec)
    ensures SameRows(after, tables, rec) <==> NoExtraRows(before, tables, rec)
  {
    var rows := RowsIn(before[rec.src], tables, rec.rng);
    var copied := RowsIn(after[rec.dst], tables, rec.rng);
    assert RowsIn(after[rec.src], tables, rec.rng) == rows;
    assert copied.Keys == RowsIn(before[rec.dst], tables, rec.rng).Keys + rows.Keys;
    if NoExtraRows(before, tables, rec) {
      assert copied.Keys == rows.Keys;
      assert copied == rows;
    }
  }

  /** The state a finalize run starts from. */
  function FreshRecord(cat: Catalog, kind: Kind, src: nat, dst: nat, kept: seq<TokenRange>): Record
    requires src < |cat.shards| && dst < |cat.shards| && cat.shards[dst].ranges != []
  {
    Record(kind, src, dst, cat.epoch, 0, cat.shards[src].ranges, kept, cat.shards[dst].ranges[0], Copying)
  }

  /** A finalize run of this pair has passed its cutover. */
  ghost predicate Resumable(s: State, kind: Kind, src: nat, dst: nat) {
    RecordKey(kind, src, dst) in s.records && s.records[RecordKey(kind, src, dst)].phase.PublishedOrDone()
  }

  /** There is nothing to resume and nothing to finalize. */
  ghost predicate OutOfOrder(s: State, kind: Kind, src: nat, dst: nat, expected: nat) {
    !Resumable(s, kind, src, dst) && forall kept :: !FinalizeAccepted(s.cat, kind, src, dst, expected, kept)
  }

  /** The request is in order and the target holds no row in range that the source lacks. */
  ghost predicate Finalizable(s: State, kind: Kind, src: nat, dst: nat, expected: nat)
    requires Base(s)
  {
    exists kept :: FinalizeAccepted(s.cat, kind, src, dst, expected, kept)
                   && NoExtraRows(s.stores, s.tables, FreshRecord(s.cat, kind, src, dst, kept))
  }

  lemma FinalizableIff(s: State, kind: Kind, src: nat, dst: nat, expected: nat, kept: seq<TokenRange>)
    requires Base(s) && FinalizeAccepted(s.cat, kind, src, dst, expected, kept)
    ensures Finalizable(s, kind, src, dst, expected)
            <==> NoExtraRows(s.stores, s.tables, FreshRecord(s.cat, kind, src, dst, kept))
  {
  }

  // ---- what a finalize run has to do, whatever its stages are -------------------------------------

  /** The source has lost exactly its rows in range; every other shard is untouched. */
  ghost predicate RowsDropped(before: seq<Store>, after: seq<Store>, tables: set<string>, src: nat, rng: TokenRange) {
    && src < |before| == |after|
    && (forall i :: 0 <= i < |before| && i != src ==> after[i] == before[i])
    && (forall k :: RowAt(after[src], k) == if Selected(k, tables, rng) then None else RowAt(before[src], k))
  }

  /** The source's rows in range are on the target, those and no others, and gone from the source. */
  ghost predicate RowsMoved(before: seq<Store>, after: seq<Store>, tables: set<string>, src: nat, dst: nat, rng: TokenRange) {
    && src < |before| == |after| && dst < |before|
    && (forall i :: 0 <= i < |before| && i != src && i != dst ==> after[i] == before[i])
    && (forall k :: RowAt(after[src], k) == if Selected(k, tables, rng) then None else RowAt(before[src], k))
    && (forall k :: RowAt(after[dst], k) == RowAt(before[if Selected(k, tables, rng) then src else dst], k))
  }

  lemma CleanedDrops(before: seq<Store>, tables: set<string>, rec: Record)
    requires rec.src < |before|
    ensures RowsDropped(before, CleanedFrom(before, tables, rec), tables, rec.src, rec.rng)
  {
  }

  lemma CopiedThenCleanedMoves(before: seq<Store>, tables: set<string>, rec: Record)
    requires rec.src < |before| && rec.dst < |before| && rec.src != rec.dst && NoExtraRows(before, tables, rec)
    ensures RowsMoved(before, CleanedFrom(CopiedTo(before, tables, rec), tables, rec), tables, rec.src, rec.dst, rec.rng)
  {
    var mid := CopiedTo(before, tables, rec);
    var after := CleanedFrom(mid, tables, rec);
    CleanedDrops(mid, tables, rec);
    forall k ensures RowAt(after[rec.dst], k) == RowAt(before[if Selected(k, tables, rec.rng) then rec.src else rec.dst], k) {
      assert k in RowsIn(before[rec.dst], tables, rec.rng).Keys ==> k in RowsIn(before[rec.src], tables, rec.rng).Keys;
    }
  }

  /** A finalize run that went through: the catalog, the rows and the record. */
  ghost predicate Finalized(s: State, s': State, kind: Kind, src: nat, dst: nat, rec: Record) {
    && dst < |s.cat.shards| && |s.cat.shards[dst].ranges| == 1
    && var rng := s.cat.shards[dst].ranges[0];
       && HandedOver(s.cat, s'.cat, src, dst, rng)
       && RowsMoved(s.stores, s'.stores, s.tables, src, dst, rng)
       && rec == Record(kind, src, dst, s.cat.epoch, s'.cat.epoch,
                        s.cat.shards[src].ranges, s'.cat.shards[src].ranges, rng, Done)
       && s'.records == s.records[RecordKey(kind, src, dst) := rec]
  }

  /** A finalize run that failed its verification: the placement and the source as before, and the record says so. */
  ghost predicate Mismatched(s: State, s': State, kind: Kind, src: nat, dst: nat) {
    && src < |s.stores| == |s'.stores| && dst < |s.stores| && dst < |s.cat.shards| && |s.cat.shards[dst].ranges| == 1
    && s'.cat == s.cat && (forall i :: 0 <= i < |s.stores| && i != dst ==> s'.stores[i] == s.stores[i])
    && var rng := s.cat.shards[dst].ranges[0];
       && (forall k :: RowAt(s'.stores[dst], k) ==
                       RowAt(s.stores[if Selected(k, s.tables, rng) && k in s.stores[src] then src else dst], k))
       && var key := RecordKey(kind, src, dst);
          key in s'.records && s'.records[key].phase.VerifyFailed? && s'.records == s.records[key := s'.records[key]]
  }

  lemma InVainIsMismatch(s: State, s': State, kind: Kind, src: nat, dst: nat, expected: nat, kept: seq<TokenRange>)
    requires Base(s) && FinalizeAccepted(s.cat, kind, src, dst, expected, kept)
    requires CopiedInVain(s, s', FreshRecord(s.cat, kind, src, dst, kept))
    ensures Mismatched(s, s', kind, src, dst)
  {
  }

  /** A resumed cleanup that went through: the rows and the record, and nothing else. */
  ghost predicate Resumed(s: State, s': State, kind: Kind, src: nat, dst: nat, rec: Record) {
    && RecordKey(kind, src, dst) in s.records && rec == s.records[RecordKey(kind, src, dst)].(phase := Done)
    && s'.cat == s.cat && RowsDropped(s.stores, s'.stores, s.tables, src, rec.rng)
    && s'.records == s.records[RecordKey(kind, src, dst) := rec]
  }

  lemma AlreadyClean(s: State, rec: Record)
    requires Base(s) && RecordOk(s, rec) && rec.phase.Done?
    ensures RowsDropped(s.stores, s.stores, s.tables, rec.src, rec.rng)
  {
  }

  ghost predicate Cut(cat: Catalog, after: Catalog, rec: Record) {
    rec.src < |cat.shards| && rec.dst < |cat.shards| && after == Cutover(cat, rec.src, rec.dst, rec.kept)
  }

  /** What the stages of a finalize run compute when none fails. */
  ghost predicate WentThrough(s: State, s': State, rec: Record, pub: Record) {
    && Cut(s.cat, s'.cat, rec) && rec.src < |s.stores| && rec.dst < |s.stores|
    && NoExtraRows(s.stores, s.tables, rec)
    && s'.stores == CleanedFrom(CopiedTo(s.stores, s.tables, rec), s.tables, rec)
    && s'.records == s.records[KeyOf(rec) := pub.(phase := Done)]
  }

  /** The first half of that, and the second. */
  ghost predicate CopiedOver(s: State, m: State, rec: Record) {
    && rec.src < |s.stores| && rec.dst < |s.stores| && NoExtraRows(s.stores, s.tables, rec)
    && m.cat == s.cat && m.tables == s.tables && m.stores == CopiedTo(s.stores, s.tables, rec)
    && m.records == s.records[KeyOf(rec) := rec.(phase := Copied)]
  }

  /** The copy alone. */
  ghost predicate CopyMade(s: State, m: State, rec: Record) {
    && rec.src < |s.stores| && rec.dst < |s.stores|
    && m.cat == s.cat && m.tables == s.tables && m.stores == CopiedTo(s.stores, s.tables, rec)
    && m.records == s.records[KeyOf(rec) := rec.(phase := Copied)]
  }

  lemma CopyJudged(s: State, m: State, s': State, rec: Record)
    requires CopyMade(s, m, rec) && s'.cat == m.cat && s'.tables == m.tables && s'.stores == m.stores
    ensures s'.records == m.records && NoExtraRows(s.stores, s.tables, rec) ==> CopiedOver(s, s', rec)
    ensures s'.records == m.records[KeyOf(rec) := rec.(phase := VerifyFailed)] ==> CopiedInVain(s, s', rec)
  {
  }

  /** The copy was made but did not verify. */
  ghost predicate CopiedInVain(s: State, s': State, rec: Record) {
    && rec.src < |s.stores| && rec.dst < |s.stores| && s'.cat == s.cat
    && s'.stores == CopiedTo(s.stores, s.tables, rec)
    && s'.records == s.records[KeyOf(rec) := rec.(phase := VerifyFailed)]
  }

  ghost predicate CutAndCleaned(m: State, s': State, rec: Record, pub: Record) {
    && Cut(m.cat, s'.cat, rec) && rec.src < |m.stores|
    && s'.stores == CleanedFrom(m.stores, m.tables, rec)
    && s'.records == m.records[KeyOf(rec) := pub.(phase := Done)]
  }

  lemma BothHalves(s: State, m: State, s': State, rec: Record, pub: Record)
    requires CopiedOver(s, m, rec) && CutAndCleaned(m, s', rec, pub)
    ensures WentThrough(s, s', rec, pub)
  {
  }

  /**
   What a finalize request with nothing to resume gets: an Ok only if it is in
   order and verifies, and then the whole effect; without storage errors, exactly then.
   */
  ghost predicate FinalizeAnswer(s: State, s': State, kind: Kind, src: nat, dst: nat, expected: nat, r: Result<Record>, clean: bool)
    requires Base(s)
  {
    && (r.Ok? ==> Finalizable(s, kind, src, dst, expected) && Finalized(s, s', kind, src, dst, r.value))
    && (clean ==> (r.Ok? <==> Finalizable(s, kind, src, dst, expected)))
    && (if OutOfOrder(s, kind, src, dst, expected) then s' == s
        else clean && r.Err? ==> Mismatched(s, s', kind, src, dst))
  }

  lemma CutIsHandover(s: State, s': State, kind: Kind, src: nat, dst: nat, expected: nat, kept: seq<TokenRange>)
    requires Base(s) && FinalizeAccepted(s.cat, kind, src, dst, expected, kept)
    requires s'.cat == s.cat || Cut(s.cat, s'.cat, FreshRecord(s.cat, kind, src, dst, kept))
    ensures NothingHalf(s, s', src, dst)
  {
    AcceptedIsReady(s.cat, kind, src, dst, expected, kept);
    CutoverHandsOver(s.cat, src, dst, s.cat.shards[dst].ranges[0], kept);
  }

  lemma WentThroughFinalizes(
    s: State, s': State, kind: Kind, src: nat, dst: nat, expected: nat, kept: seq<TokenRange>, rec: Record, pub: Record)
    requires Base(s) && FinalizeAccepted(s.cat, kind, src, dst, expected, kept)
    requires rec == FreshRecord(s.cat, kind, src, dst, kept)
    requires pub == rec.(phase := Publishing, afterEpoch := rec.beforeEpoch + 1) && WentThrough(s, s', rec, pub)
    ensures Finalized(s, s', kind, src, dst, pub.(phase := Done))
  {
    AcceptedIsReady(s.cat, kind, src, dst, expected, kept);
    CutoverHandsOver(s.cat, src, dst, rec.rng, kept);
    CopiedThenCleanedMoves(s.stores, s.tables, rec);
  }

  lemma RunAnswers(
    s: State, s': State, kind: Kind, src: nat, dst: nat, expected: nat, kept: seq<TokenRange>, rec: Record, pub: Record,
    r: Result<Record>, clean: bool)
    requires Base(s) && FinalizeAccepted(s.cat, kind, src, dst, expected, kept)
    requires rec == FreshRecord(s.cat, kind, src, dst, kept)
    requires pub == rec.(phase := Publishing, afterEpoch := rec.beforeEpoch + 1)
    requires r.Ok? ==> r.value == pub.(phase := Done) && WentThrough(s, s', rec, pub)
    requires clean ==> (r.Ok? <==> NoExtraRows(s.stores, s.tables, rec))
    requires clean && r.Err? ==> CopiedInVain(s, s', rec)
    ensures FinalizeAnswer(s, s', kind, src, dst, expected, r, clean)
  {
    FinalizableIff(s, kind, src, dst, expected, kept);
    if r.Ok? {
      WentThroughFinalizes(s, s', kind, src, dst, expected, kept, rec, pub);
    } else if clean {
      InVainIsMismatch(s, s', kind, src, dst, expected, kept);
    }
  }

  lemma RefusalAnswers(s: State, kind: Kind, src: nat, dst: nat, expected: nat, r: Result<Record>, clean: bool)
    requires Base(s) && OutOfOrder(s, kind, src, dst, expected) && r.Err?
    ensures FinalizeAnswer(s, s, kind, src, dst, expected, r, clean)
  {
  }

  /** Whatever goes wrong, the placement is the old one or the one after the cutover. */
  ghost predicate NothingHalf(s: State, s': State, src: nat, dst: nat) {
    || s'.cat == s.cat
    || (dst < |s.cat.shards| && |s.cat.shards[dst].ranges| == 1
        && HandedOver(s.cat, s'.cat, src, dst, s.cat.shards[dst].ranges[0]))
  }

  // ---- what a rollback has to do ------------------------------------------------------------------

  /** The split is undone, the child is empty, and the record is filed under the pair if it had one. */
  ghost predicate TakenBack(s: State, s': State, parent: nat, child: nat) {
    && Undone(s.cat, s'.cat, parent, child) && child < |s.stores|
    && s'.stores == s.stores[child := map[]]
    && var key := RecordKey(SplitKind, parent, child);
       && (key in s.records ==>
             s'.records == s.records[key := s.records[key].(phase := WasRolledBack, afterEpoch := s'.cat.epoch)])
       && (key !in s.records ==>
             var stray := RecordKey(SplitKind, 0, 0);
             && stray in s'.records && s'.records == s.records[stray := s'.records[stray]]
             && s'.records[stray].phase.WasRolledBack? && s'.records[stray].afterEpoch == s'.cat.epoch)
       && (HoldsRollback(s'.records, key) <==> key in s.records)
  }

  /** What its stages compute. */
  ghost predicate WentBack(s: State, s': State, parent: nat, child: nat, found: Option<Record>) {
    && parent < |s.cat.shards| && child < |s.cat.shards| && child < |s.stores|
    && s'.cat == RolledBack(s.cat, parent, child) && s'.stores == s.stores[child := map[]]
    && var rec := RolledBackRecord(found, s'.cat.epoch); s'.records == s.records[KeyOf(rec) := rec]
  }

  lemma WentBackTakesBack(s: State, s': State, parent: nat, child: nat, expected: nat, kept: seq<TokenRange>)
    requires Base(s) && FiledRecords(s.records) && FinalizeAccepted(s.cat, SplitKind, parent, child, expected, kept)
    requires WentBack(s, s', parent, child, Found(s.records, RecordKey(SplitKind, parent, child)))
    ensures TakenBack(s, s', parent, child)
  {
    RollbackUndoes(s.cat, parent, child);
    RecordedIffKnown(s.records, parent, child, s.cat.epoch + 1);
  }

  lemma BackOrNot(s: State, s': State, parent: nat, child: nat, expected: nat, kept: seq<TokenRange>)
    requires Base(s) && FinalizeAccepted(s.cat, SplitKind, parent, child, expected, kept)
    requires s'.cat == s.cat || s'.cat == RolledBack(s.cat, parent, child)
    ensures s'.cat == s.cat || Undone(s.cat, s'.cat, parent, child)
  {
    RollbackUndoes(s.cat, parent, child);
  }

  // ---- the manager --------------------------------------------------------------------------

  ghost predicate WellKept(cat: Catalog, router: Router, tables: seq<string>) {
    && InService(cat) && Built(router) && router.catalog == cat
    && forall i, j :: 0 <= i < j < |tables| ==> tables[i] != tables[j]
  }

  class Manager {
    var cat: Catalog
    var router: Router
    var stores: seq<Store>
    var tables: seq<string>
    var records: map<RecordKey, Record>
    var writers: map<nat, Writer>
    var ios: nat
    ghost var control: Control

    ghost function St(): State
      reads this
    {
      State(cat, stores, TableSet(tables), writers, control, records)
    }

    /** What every method keeps between two steps. */
    ghost predicate Consistent()
      reads this
    {
      |stores| == |cat.shards| && WellKept(cat, router, tables)
    }

    /** Nobody holds the fence exclusively and the invariant of the step system holds. */
    ghost predicate Valid()
      reads this
    {
      Consistent() && Inv(St()) && Filed(St()) && control.Idle?
    }

    /** One storage call; `fails` decides which calls return an error. */
    method Io(fails: nat -> bool) returns (ok: bool)
      modifies this`ios
      ensures ios == old(ios) + 1 && ok == !fails(old(ios))
    {
      ok := !fails(ios);
      ios := ios + 1;
    }

    /** An error return: the deferred unlock gives the fence back. */
    ghost method GiveUp(start: State)
      requires Consistent() && Reaches(start, St(), true)
      modifies this`control
      ensures St() == old(St()).(control := Idle)
      ensures Consistent() && Reaches(start, St(), true)
    {
      var before := St();
      control := Idle;
      ReachStep(start, before, Abort, St(), true);
    }

    /** `saveSplitFinalizeState` / `saveRangeMoveFinalizeState` at a stage of a finalize run. */
    method SaveStage(rec: Record, ghost start: State, fails: nat -> bool) returns (ok: bool)
      requires Consistent() && Reaches(start, St(), true)
      requires control.Finalizing? && IsSave(control.stage) && rec == AfterSave(St()).0
      modifies this`records, this`control, this`ios
      ensures Consistent() && Reaches(start, St(), true)
      ensures (forall n :: !fails(n)) ==> ok
      ensures ok ==> records == old(records)[KeyOf(rec) := rec] && control == AfterSave(old(St())).1
      ensures !ok ==> records == old(records) && control == Idle
    {
      ok := Io(fails);
      if !ok {
        GiveUp(start);
        return;
      }
      ghost var before := St();
      records := records[KeyOf(rec) := rec];
      control := AfterSave(before).1;
      ReachStep(start, before, Save, St(), true);
    }

    /** One turn of the copy loop: the row is put on the target. */
    method CopyOne(
      rec: Record, key: Key, ghost T: set<string>, ghost rows: Store, ghost from: seq<Store>, ghost done: set<Key>,
      ghost start: State, fails: nat -> bool) returns (ok: bool)
      requires Consistent() && Reaches(start, St(), true)
      requires |from| == |stores| && rec.src < |stores| && rec.dst < |stores| && rec.src != rec.dst
      requires key in rows && key !in done && key in from[rec.src] && from[rec.src][key] == rows[key]
      requires control == Finalizing(rec, T, CopyRows(rows.Keys - done))
      requires stores == from[rec.dst := WithRows(from[rec.dst], rows, done)]
      modifies this`stores, this`control, this`ios
      ensures Consistent() && Reaches(start, St(), true)
      ensures (forall n :: !fails(n)) ==> ok
      ensures ok ==> control == Finalizing(rec, T, CopyRows(rows.Keys - (done + {key})))
      ensures ok ==> stores == from[rec.dst := WithRows(from[rec.dst], rows, done + {key})]
      ensures !ok ==> control == Idle
    {
      ok := Io(fails);
      if !ok {
        GiveUp(start);
        return;
      }
      ghost var before := St();
      WithOneMore(from[rec.dst], rows, done, key);
      stores := stores[rec.dst := stores[rec.dst][key := stores[rec.src][key]]];
      control := Finalizing(rec, T, CopyRows(rows.Keys - (done + {key})));
      ReachStep(start, before, CopyRow(key), St(), true);
    }

    /** The copy loop of `copyPrimaryTokenRangeWithIndexes`. */
    method CopyLoop(rec: Record, ghost start: State, fails: nat -> bool) returns (ok: bool)
      requires Consistent() && Reaches(start, St(), true)
      requires rec.src < |stores| && rec.dst < |stores| && rec.src != rec.dst
      requires control == Finalizing(rec, TableSet(tables),
                                     CopyRows(RowsIn(stores[rec.src], TableSet(tables), rec.rng).Keys))
      modifies this`stores, this`control, this`ios
      ensures Consistent() && Reaches(start, St(), true)
      ensures (forall n :: !fails(n)) ==> ok
      ensures ok ==> control == Finalizing(rec, TableSet(tables), SaveCopied)
      ensures ok ==> stores == CopiedTo(old(stores), TableSet(tables), rec)
      ensures !ok ==> control == Idle
    {
      ghost var rows := RowsIn(stores[rec.src], TableSet(tables), rec.rng);
      ghost var from := stores;
      ok := Io(fails);
      if !ok {
        GiveUp(start);
        return;
      }
      var keys := SelectedKeys(tables, stores[rec.src], rec.rng);
      WithNoRows(from[rec.dst], rows);
      ok := CopyKeys(rec, keys, TableSet(tables), rows, start, fails);
      if !ok {
        return;
      }
      ok := Io(fails);
      if !ok {
        GiveUp(start);
        return;
      }
      TakenAll(keys, rows.Keys);
      CopyFinished(rec, start);
    }

    /** The loop itself, over keys whose rows the source holds. */
    method CopyKeys(rec: Record, keys: seq<Key>, ghost T: set<string>, ghost rows: Store, ghost start: State,
                    fails: nat -> bool) returns (ok: bool)
      requires Consistent() && Reaches(start, St(), true)
      requires rec.src < |stores| && rec.dst < |stores| && rec.src != rec.dst
      requires forall i, j :: 0 <= i < j < |keys| ==> keys[i] != keys[j]
      requires forall k :: k in keys ==> k in rows && k in stores[rec.src] && stores[rec.src][k] == rows[k]
      requires control == Finalizing(rec, T, CopyRows(rows.Keys))
      modifies this`stores, this`control, this`ios
      ensures Consistent() && Reaches(start, St(), true)
      ensures (forall n :: !fails(n)) ==> ok
      ensures ok ==> control == Finalizing(rec, T, CopyRows(rows.Keys - Taken(keys, |keys|)))
      ensures ok ==> stores == old(stores)[rec.dst := WithRows(old(stores[rec.dst]), rows, Taken(keys, |keys|))]
      ensures !ok ==> control == Idle
    {
      ghost var from := stores;
      WithNoRows(from[rec.dst], rows);
      for i := 0 to |keys|
        invariant Consistent() && Reaches(start, St(), true)
        invariant control == Finalizing(rec, T, CopyRows(rows.Keys - Taken(keys, i)))
        invariant |stores| == |from| && stores == from[rec.dst := WithRows(from[rec.dst], rows, Taken(keys, i))]
      {
        TakeNext(keys, i);
        ok := CopyOne(rec, keys[i], T, rows, from, Taken(keys, i), start, fails);
        if !ok {
          return;
        }
      }
      ok := true;
    }

    ghost method CopyFinished(rec: Record, start: State)
      requires Consistent() && Reaches(start, St(), true) && control == Finalizing(rec, TableSet(tables), CopyRows({}))
      modifies this`control
      ensures Consistent() && Reaches(start, St(), true) && control == Finalizing(rec, TableSet(tables), SaveCopied)
    {
      var before := St();
      control := Finalizing(rec, TableSet(tables), SaveCopied);
      ReachStep(start, before, CopyDone, St(), true);
    }

    /** `verifySplitRange` and the branch on its verdict; a row that cannot be read counts as a mismatch. */
    method VerifyStage(rec: Record, hash: (Key, Item) -> bv64, ghost start: State, fails: nat -> bool)
        returns (verified: bool)
      requires Consistent() && Reaches(start, St(), true)
      requires rec.src < |stores| && rec.dst < |stores|
      requires control == Finalizing(rec, TableSet(tables), Verify)
      requires IsCopied(stores, TableSet(tables), rec)
      modifies this`control, this`ios
      ensures Consistent() && Reaches(start, St(), true)
      ensures verified ==> SameRows(stores, TableSet(tables), rec)
      ensures (forall n :: !fails(n)) ==> (verified <==> SameRows(stores, TableSet(tables), rec))
      ensures control == old(control).(stage := if verified then SaveVerified else SaveVerifyFailed)
    {
      var readable := Io(fails);
      var same := VerifySplitRange(tables, stores[rec.src], stores[rec.dst], rec.rng, hash);
      VerificationIsExact(stores[rec.src], stores[rec.dst], TableSet(tables), rec.rng, hash);
      verified := readable && same;
      Judge(rec, verified, start);
    }

    /** The verdict as a step. */
    ghost method Judge(rec: Record, verified: bool, start: State)
      requires Consistent() && Reaches(start, St(), true)
      requires rec.src < |stores| && rec.dst < |stores|
      requires control == Finalizing(rec, TableSet(tables), Verify)
      requires verified ==> SameRows(stores, TableSet(tables), rec)
      modifies this`control
      ensures Consistent() && Reaches(start, St(), true)
      ensures control == old(control).(stage := if verified then SaveVerified else SaveVerifyFailed)
    {
      var before := St();
      if verified {
        control := control.(stage := SaveVerified);
        ReachStep(start, before, VerifyPass, St(), true);
      } else {
        control := control.(stage := SaveVerifyFailed);
        ReachStep(start, before, VerifyFail, St(), true);
      }
    }

    /** `persistPlacementSnapshotStrict` and `applyPlacement`, as one step. */
    method PublishStage(rec: Record, ghost start: State, fails: nat -> bool) returns (ok: bool)
      requires Consistent() && Inv(start) && Reaches(start, St(), true)
      requires control.Finalizing? && control.rec == rec && control.stage.PublishCutover?
      modifies this`cat, this`router, this`control, this`ios
      ensures Consistent() && Reaches(start, St(), true)
      ensures (forall n :: !fails(n)) ==> ok
      ensures ok ==>
                && rec.src < |old(cat).shards| && rec.dst < |old(cat).shards|
                && cat == Cutover(old(cat), rec.src, rec.dst, rec.kept)
                && control == old(control).(stage := SavePublished)
      ensures !ok ==> cat == old(cat) && control == Idle
    {
      ReachInv(start, St(), true);
      var after := Cutover(cat, rec.src, rec.dst, rec.kept);
      CutoverInService(cat, rec.src, rec.dst, rec.rng, rec.kept);
      ok := Io(fails);
      if !ok {
        GiveUp(start);
        return;
      }
      ghost var before := St();
      var r := NewRouterFromCatalog(after);
      InOrderUnique(r.value.catalog.shards, after.shards);
      cat, router := after, r.value;
      control := control.(stage := SavePublished);
      ReachStep(start, before, Publish, St(), true);
    }

    method DeleteOne(
      rec: Record, key: Key, ghost T: set<string>, ghost rows: set<Key>, ghost from: seq<Store>, ghost done: set<Key>,
      ghost start: State, fails: nat -> bool) returns (ok: bool)
      requires Consistent() && Reaches(start, St(), true)
      requires |from| == |stores| && rec.src < |stores| && key in rows && key !in done
      requires control == Finalizing(rec, T, DeleteRows(rows - done))
      requires stores == from[rec.src := from[rec.src] - done]
      modifies this`stores, this`control, this`ios
      ensures Consistent() && Reaches(start, St(), true)
      ensures (forall n :: !fails(n)) ==> ok
      ensures ok ==> control == Finalizing(rec, T, DeleteRows(rows - (done + {key})))
      ensures ok ==> stores == from[rec.src := from[rec.src] - (done + {key})]
      ensures !ok ==> control == Idle
    {
      ok := Io(fails);
      if !ok {
        GiveUp(start);
        return;
      }
      ghost var before := St();
      assert from[rec.src] - done - {key} == from[rec.src] - (done + {key});
      assert rows - done - {key} == rows - (done + {key});
      stores := stores[rec.src := stores[rec.src] - {key}];
      control := Finalizing(rec, T, DeleteRows(rows - (done + {key})));
      ReachStep(start, before, DeleteRow(key), St(), true);
    }

    /** `deletePrimaryTokenRangeWithIndexes`: collect the rows, then delete them one by one. */
    method DeleteLoop(rec: Record, ghost start: State, fails: nat -> bool) returns (ok: bool)
      requires Consistent() && Reaches(start, St(), true)
      requires rec.src < |stores|
      requires control == Finalizing(rec, TableSet(tables),
                                     DeleteRows(RowsIn(stores[rec.src], TableSet(tables), rec.rng).Keys))
      modifies this`stores, this`control, this`ios
      ensures Consistent() && Reaches(start, St(), true)
      ensures (forall n :: !fails(n)) ==> ok
      ensures ok ==> control == Finalizing(rec, TableSet(tables), SaveDone)
      ensures ok ==> stores == CleanedFrom(old(stores), TableSet(tables), rec)
      ensures !ok ==> control == Idle
    {
      ghost var T := TableSet(tables);
      ghost var rows := RowsIn(stores[rec.src], T, rec.rng).Keys;
      ghost var from := stores;
      ok := Io(fails);
      if !ok {
        GiveUp(start);
        return;
      }
      var keys := SelectedKeys(tables, stores[rec.src], rec.rng);
      assert rows - {} == rows && from[rec.src] - {} == from[rec.src];
      for i := 0 to |keys|
        invariant Consistent() && Reaches(start, St(), true)
        invariant control == Finalizing(rec, T, DeleteRows(rows - Taken(keys, i)))
        invariant |stores| == |from| && stores == from[rec.src := from[rec.src] - Taken(keys, i)]
      {
        TakeNext(keys, i);
        ok := DeleteOne(rec, keys[i], T, rows, from, Taken(keys, i), start, fails);
        if !ok {
          return;
        }
      }
      ok := Io(fails);
      if !ok {
        GiveUp(start);
        return;
      }
      TakenAll(keys, rows);
      assert rows - rows == {};
      DeleteFinished(rec, start);
    }

    ghost method DeleteFinished(rec: Record, start: State)
      requires Consistent() && Reaches(start, St(), true) && control == Finalizing(rec, TableSet(tables), DeleteRows({}))
      modifies this`control
      ensures Consistent() && Reaches(start, St(), true) && control == Finalizing(rec, TableSet(tables), SaveDone)
    {
      var before := St();
      control := Finalizing(rec, TableSet(tables), SaveDone);
      ReachStep(start, before, DeleteDone, St(), true);
    }

    // ---- the stages of a finalize run, in order ----------------------------------------------

    /** Record the phase, copy the rows, record again: the run is ready to verify. */
    method CopyStages(rec: Record, ghost start: State, fails: nat -> bool) returns (ok: bool)
      requires Consistent() && Reaches(start, St(), true)
      requires rec.src < |stores| && rec.dst < |stores| && rec.src != rec.dst
      requires control == Finalizing(rec, TableSet(tables), SaveCopying)
      modifies this`stores, this`records, this`control, this`ios
      ensures Consistent() && Reaches(start, St(), true)
      ensures (forall n :: !fails(n)) ==> ok
      ensures ok ==> control == Finalizing(rec, TableSet(tables), Verify) && CopyMade(old(St()), St(), rec)
      ensures !ok ==> control == Idle
    {
      ok := SaveStage(rec.(phase := Copying), start, fails);
      if !ok {
        return;
      }
      ok := CopyLoop(rec, start, fails);
      if !ok {
        return;
      }
      ok := SaveStage(rec.(phase := Copied), start, fails);
    }

    /** The verification; a mismatch is recorded and ends the run. */
    method VerifyOrRecord(rec: Record, hash: (Key, Item) -> bv64, ghost start: State, fails: nat -> bool)
        returns (verified: bool)
      requires Consistent() && Reaches(start, St(), true)
      requires rec.src < |stores| && rec.dst < |stores|
      requires control == Finalizing(rec, TableSet(tables), Verify)
      requires IsCopied(stores, TableSet(tables), rec)
      modifies this`records, this`control, this`ios
      ensures Consistent() && Reaches(start, St(), true)
      ensures verified ==> SameRows(stores, TableSet(tables), rec)
      ensures (forall n :: !fails(n)) ==> (verified <==> SameRows(stores, TableSet(tables), rec))
      ensures verified ==> records == old(records) && control == Finalizing(rec, TableSet(tables), SaveVerified)
      ensures !verified ==> control == Idle
      ensures !verified && (forall n :: !fails(n)) ==> records == old(records)[KeyOf(rec) := rec.(phase := VerifyFailed)]
    {
      verified := VerifyStage(rec, hash, start, fails);
      if !verified {
        var _ := SaveStage(rec.(phase := VerifyFailed), start, fails);
      }
    }

    /** The copy stages and the verification. */
    method CopyAndVerify(rec: Record, hash: (Key, Item) -> bv64, ghost start: State, fails: nat -> bool)
        returns (ok: bool)
      requires Consistent() && Reaches(start, St(), true)
      requires rec.src < |stores| && rec.dst < |stores| && rec.src != rec.dst
      requires control == Finalizing(rec, TableSet(tables), SaveCopying)
      modifies this`stores, this`records, this`control, this`ios
      ensures Consistent() && Reaches(start, St(), true)
      ensures (forall n :: !fails(n)) ==> (ok <==> NoExtraRows(old(stores), TableSet(tables), rec))
      ensures ok ==> CopiedOver(old(St()), St(), rec) && control == Finalizing(rec, TableSet(tables), SaveVerified)
      ensures !ok && (forall n :: !fails(n)) ==> CopiedInVain(old(St()), St(), rec)
      ensures !ok ==> control == Idle
    {
      ok := CopyStages(rec, start, fails);
      if !ok {
        return;
      }
      ghost var copied := St();
      CopiedRows(old(stores), stores, TableSet(tables), rec);
      ok := VerifyOrRecord(rec, hash, start, fails);
      CopyJudged(old(St()), copied, St(), rec);
    }

    /** Record the verified phase and the epoch about to be published. */
    method AnnounceStages(rec: Record, pub: Record, ghost start: State, fails: nat -> bool) returns (ok: bool)
      requires Consistent() && Reaches(start, St(), true)
      requires control == Finalizing(rec, TableSet(tables), SaveVerified)
      requires pub == rec.(phase := Publishing, afterEpoch := rec.beforeEpoch + 1)
      modifies this`records, this`control, this`ios
      ensures Consistent() && Reaches(start, St(), true)
      ensures (forall n :: !fails(n)) ==> ok
      ensures ok ==> control == Finalizing(pub, TableSet(tables), PublishCutover)
      ensures ok ==> records == old(records)[KeyOf(rec) := pub]
      ensures !ok ==> control == Idle
    {
      ok := SaveStage(rec.(phase := Verified), start, fails);
      if !ok {
        return;
      }
      ok := SaveStage(pub, start, fails);
    }

    /** The cutover itself and the record that it happened. */
    method CutoverStages(rec: Record, ghost start: State, fails: nat -> bool) returns (ok: bool)
      requires Consistent() && Inv(start) && Reaches(start, St(), true)
      requires control == Finalizing(rec, TableSet(tables), PublishCutover)
      modifies this`cat, this`router, this`records, this`control, this`ios
      ensures Consistent() && Reaches(start, St(), true)
      ensures (forall n :: !fails(n)) ==> ok
      ensures ok ==>
                && rec.src < |old(cat).shards| && rec.dst < |old(cat).shards|
                && cat == Cutover(old(cat), rec.src, rec.dst, rec.kept)
                && control == Finalizing(rec, TableSet(tables), SaveCleanup)
                && records == old(records)[KeyOf(rec) := rec.(phase := Published)]
      ensures !ok ==> control == Idle
      ensures cat == old(cat) || Cut(old(cat), cat, rec)
    {
      ok := PublishStage(rec, start, fails);
      if !ok {
        return;
      }
      ok := SaveStage(rec.(phase := Published), start, fails);
    }

    /** Cleanup and the final record, shared by a fresh run and a resumed one. */
    method CleanupStages(rec: Record, ghost start: State, fails: nat -> bool) returns (ok: bool)
      requires Consistent() && Reaches(start, St(), true)
      requires rec.src < |stores| && control == Finalizing(rec, TableSet(tables), SaveCleanup)
      modifies this`stores, this`records, this`control, this`ios
      ensures Consistent() && Reaches(start, St(), true) && control == Idle
      ensures (forall n :: !fails(n)) ==> ok
      ensures ok ==>
                && stores == CleanedFrom(old(stores), TableSet(tables), rec)
                && records == old(records)[KeyOf(rec) := rec.(phase := Done)]
    {
      ok := SaveStage(rec.(phase := Cleanup), start, fails);
      if !ok {
        return;
      }
      ok := DeleteLoop(rec, start, fails);
      if !ok {
        return;
      }
      ok := SaveStage(rec.(phase := Done), start, fails);
    }

    // ---- operations ---------------------------------------------------------------------------

    /** `resumePublishedSplit` and `resumePublishedRangeMove`; `None` means there is nothing to resume. */
    method ResumePublished(kind: Kind, src: nat, dst: nat, expected: nat, fails: nat -> bool)
        returns (r: Option<Result<Record>>)
      requires Valid() && writers == map[]
      modifies this`stores, this`records, this`control, this`ios
      ensures Valid() && Reaches(old(St()), St(), true)
      ensures (forall n :: !fails(n)) ==> (r.Some? <==> Resumable(old(St()), kind, src, dst))
      ensures r.None? ==> St() == old(St()) && !Resumable(old(St()), kind, src, dst)
      ensures r.Some? && !Resumable(old(St()), kind, src, dst) ==> r.value.Err? && St() == old(St())
      ensures r.Some? && Resumable(old(St()), kind, src, dst) ==>
                var rec := old(records)[RecordKey(kind, src, dst)];
                && ((forall n :: !fails(n)) ==>
                      (r.value.Ok? <==> (EpochOk(cat, expected) || expected == rec.beforeEpoch) && ResumeAccepted(cat, rec)))
                && (r.value.Ok? ==> Resumed(old(St()), St(), kind, src, dst, r.value.value))
    {
      ghost var start := St();
      ReachRefl(start, true);
      var loaded := Io(fails);
      if !loaded {
        return Some(Err("record cannot be read"));
      }
      var key := RecordKey(kind, src, dst);
      if key !in records || !records[key].phase.PublishedOrDone() {
        return None;
      }
      var rec := records[key];
      if expected != 0 && expected != cat.epoch && expected != rec.beforeEpoch {
        return Some(Err("stale routing epoch"));
      }
      var accepted := ValidatePublished(cat, rec);
      if !accepted {
        return Some(Err("placement does not match the published cutover"));
      }
      if rec.phase.Done? {
        AlreadyClean(St(), rec);
        return Some(Ok(rec));
      }
      var ok := ResumeCleanup(kind, src, dst, expected, rec, fails);
      return Some(if ok then Ok(rec.(phase := Done)) else Err("storage error"));
    }

    /** The cleanup of a published operation, taken up again. */
    method ResumeCleanup(ghost kind: Kind, ghost src: nat, ghost dst: nat, ghost expected: nat, rec: Record,
                         fails: nat -> bool) returns (ok: bool)
      requires Valid() && writers == map[]
      requires RecordKey(kind, src, dst) in records && rec == records[RecordKey(kind, src, dst)]
      requires rec.phase.Published? || rec.phase.Cleanup?
      requires EpochOk(cat, expected) || expected == rec.beforeEpoch
      requires ResumeAccepted(cat, rec)
      modifies this`stores, this`records, this`control, this`ios
      ensures Valid() && Reaches(old(St()), St(), true)
      ensures (forall n :: !fails(n)) ==> ok
      ensures ok ==> records == old(records)[KeyOf(rec) := rec.(phase := Done)]
      ensures ok ==> RowsDropped(old(stores), stores, TableSet(tables), rec.src, rec.rng)
    {
      CleanedDrops(stores, TableSet(tables), rec);
      ghost var start := St();
      ReachRefl(start, true);
      control := Finalizing(rec, TableSet(tables), SaveCleanup);
      ReachStep(start, start, StartResume(kind, src, dst, expected), St(), true);
      ok := CleanupStages(rec, start, fails);
      ReachInv(start, St(), true);
    }

    /** The stages from the cutover on. */
    method CutoverAndClean(rec: Record, ghost start: State, fails: nat -> bool) returns (ok: bool)
      requires Consistent() && Inv(start) && Reaches(start, St(), true)
      requires rec.src < |stores| && rec.dst < |stores|
      requires control == Finalizing(rec, TableSet(tables), PublishCutover)
      modifies this`cat, this`router, this`stores, this`records, this`control, this`ios
      ensures Consistent() && Reaches(start, St(), true) && control == Idle
      ensures (forall n :: !fails(n)) ==> ok
      ensures ok ==>
                && cat == Cutover(old(cat), rec.src, rec.dst, rec.kept)
                && stores == CleanedFrom(old(stores), TableSet(tables), rec)
                && records == old(records)[KeyOf(rec) := rec.(phase := Done)]
      ensures cat == old(cat) || Cut(old(cat), cat, rec)
    {
      ok := CutoverStages(rec, start, fails);
      if !ok {
        return;
      }
      ok := CleanupStages(rec, start, fails);
    }

    /** The stages after verification: publish, then clean up. */
    method PublishAndClean(rec: Record, pub: Record, ghost start: State, fails: nat -> bool) returns (ok: bool)
      requires Consistent() && Inv(start) && Reaches(start, St(), true)
      requires rec.src < |stores| && rec.dst < |stores|
      requires control == Finalizing(rec, TableSet(tables), SaveVerified)
      requires pub == rec.(phase := Publishing, afterEpoch := rec.beforeEpoch + 1)
      modifies this`cat, this`router, this`stores, this`records, this`control, this`ios
      ensures Consistent() && Reaches(start, St(), true) && control == Idle
      ensures (forall n :: !fails(n)) ==> ok
      ensures ok ==> CutAndCleaned(old(St()), St(), rec, pub)
      ensures cat == old(cat) || Cut(old(cat), cat, rec)
    {
      ok := AnnounceStages(rec, pub, start, fails);
      if !ok {
        return;
      }
      ok := CutoverAndClean(pub, start, fails);
    }

    /** Every stage of a finalize run. */
    method FinalizeStages(rec: Record, pub: Record, hash: (Key, Item) -> bv64, ghost start: State, fails: nat -> bool)
        returns (ok: bool)
      requires Consistent() && Inv(start) && Reaches(start, St(), true)
      requires rec.src < |stores| && rec.dst < |stores| && rec.src != rec.dst
      requires control == Finalizing(rec, TableSet(tables), SaveCopying)
      requires pub == rec.(phase := Publishing, afterEpoch := rec.beforeEpoch + 1)
      modifies this`cat, this`router, this`stores, this`records, this`control, this`ios
      ensures Consistent() && Reaches(start, St(), true) && control == Idle
      ensures (forall n :: !fails(n)) ==> (ok <==> NoExtraRows(old(stores), TableSet(tables), rec))
      ensures ok ==> WentThrough(old(St()), St(), rec, pub)
      ensures !ok && (forall n :: !fails(n)) ==> CopiedInVain(old(St()), St(), rec)
      ensures cat == old(cat) || Cut(old(cat), cat, rec)
    {
      ok := CopyAndVerify(rec, hash, start, fails);
      if !ok {
        return;
      }
      ghost var copied := St();
      ok := PublishAndClean(rec, pub, start, fails);
      if ok {
        BothHalves(old(St()), copied, St(), rec, pub);
      }
    }

    /** The body common to `FinalizeSplit` and `FinalizeRangeMove` once the request is validated. */
    method RunFinalize(kind: Kind, src: nat, dst: nat, ghost expected: nat, kept: seq<TokenRange>,
                       hash: (Key, Item) -> bv64, fails: nat -> bool) returns (r: Result<Record>)
      requires Valid() && writers == map[]
      requires FinalizeAccepted(cat, kind, src, dst, expected, kept)
      requires RecordKey(kind, src, dst) in records ==> !records[RecordKey(kind, src, dst)].phase.PublishedOrDone()
      modifies this`cat, this`router, this`stores, this`records, this`control, this`ios
      ensures Valid() && Reaches(old(St()), St(), true)
      ensures FinalizeAnswer(old(St()), St(), kind, src, dst, expected, r, forall n :: !fails(n))
      ensures NothingHalf(old(St()), St(), src, dst)
    {
      ghost var start := St();
      ReachRefl(start, true);
      var rec := FreshRecord(cat, kind, src, dst, kept);
      var pub := rec.(phase := Publishing, afterEpoch := rec.beforeEpoch + 1);
      control := Finalizing(rec, TableSet(tables), SaveCopying);
      ReachStep(start, start, StartFinalize(kind, src, dst, expected, kept), St(), true);
      var ok := FinalizeStages(rec, pub, hash, start, fails);
      ReachInv(start, St(), true);
      CutIsHandover(start, St(), kind, src, dst, expected, kept);
      r := if ok then Ok(pub.(phase := Done)) else Err("finalize failed");
      RunAnswers(start, St(), kind, src, dst, expected, kept, rec, pub, r, forall n :: !fails(n));
    }

    /** `FinalizeSplit`. */
    method FinalizeSplit(parent: nat, child: nat, expected: nat, hash: (Key, Item) -> bv64, fails: nat -> bool)
        returns (r: Result<Record>)
      requires Valid() && writers == map[]
      modifies this`cat, this`router, this`stores, this`records, this`control, this`ios
      ensures Valid() && Reaches(old(St()), St(), true)
      ensures forall k :: Read(St(), k) == old(Read(St(), k))
      ensures NothingHalf(old(St()), St(), parent, child)
      ensures if Resumable(old(St()), SplitKind, parent, child)
              then r.Ok? ==> Resumed(old(St()), St(), SplitKind, parent, child, r.value)
              else FinalizeAnswer(old(St()), St(), SplitKind, parent, child, expected, r, forall n :: !fails(n))
    {
      var resumed := ResumePublished(SplitKind, parent, child, expected, fails);
      if resumed.Some? {
        QuietReads(old(St()), St());
        return resumed.value;
      }
      var kept := ValidateFinalizeSplit(cat, parent, child, expected);
      if kept.None? {
        r := Err("invalid request");
        RefusalAnswers(St(), SplitKind, parent, child, expected, r, forall n :: !fails(n));
        return;
      }
      r := RunFinalize(SplitKind, parent, child, expected, [kept.value], hash, fails);
      QuietReads(old(St()), St());
    }

    /** `FinalizeRangeMove`. */
    method FinalizeRangeMove(src: nat, dst: nat, expected: nat, hash: (Key, Item) -> bv64, fails: nat -> bool)
        returns (r: Result<Record>)
      requires Valid() && writers == map[]
      modifies this`cat, this`router, this`stores, this`records, this`control, this`ios
      ensures Valid() && Reaches(old(St()), St(), true)
      ensures forall k :: Read(St(), k) == old(Read(St(), k))
      ensures NothingHalf(old(St()), St(), src, dst)
      ensures if Resumable(old(St()), MoveKind, src, dst)
              then r.Ok? ==> Resumed(old(St()), St(), MoveKind, src, dst, r.value)
              else FinalizeAnswer(old(St()), St(), MoveKind, src, dst, expected, r, forall n :: !fails(n))
    {
      var resumed := ResumePublished(MoveKind, src, dst, expected, fails);
      if resumed.Some? {
        QuietReads(old(St()), St());
        return resumed.value;
      }
      var kept := ValidateFinalizeRangeMove(cat, src, dst, expected);
      if kept.None? {
        r := Err("invalid request");
        RefusalAnswers(St(), MoveKind, src, dst, expected, r, forall n :: !fails(n));
        return;
      }
      r := RunFinalize(MoveKind, src, dst, expected, kept.value, hash, fails);
      QuietReads(old(St()), St());
    }

    method WipeOne(parent: nat, child: nat, key: Key, ghost found: Option<Record>, ghost start: State, fails: nat -> bool)
        returns (ok: bool)
      requires Consistent() && Reaches(start, St(), true)
      requires child < |stores| && control == RollingBack(parent, child, found, Wipe)
      modifies this`stores, this`control, this`ios
      ensures Consistent() && Reaches(start, St(), true)
      ensures (forall n :: !fails(n)) ==> ok
      ensures ok ==> control == old(control) && stores == old(stores)[child := old(stores[child]) - {key}]
      ensures !ok ==> control == Idle
    {
      ok := Io(fails);
      if !ok {
        GiveUp(start);
        return;
      }
      ghost var before := St();
      stores := stores[child := stores[child] - {key}];
      ReachStep(start, before, WipeRows({key}), St(), true);
    }

    /** `deleteAllKeys` on the child of a split that is rolled back. */
    method WipeLoop(parent: nat, child: nat, ghost found: Option<Record>, ghost start: State, fails: nat -> bool)
        returns (ok: bool)
      requires Consistent() && Reaches(start, St(), true)
      requires child < |stores| && control == RollingBack(parent, child, found, Wipe)
      modifies this`stores, this`control, this`ios
      ensures Consistent() && Reaches(start, St(), true)
      ensures (forall n :: !fails(n)) ==> ok
      ensures ok ==> control == RollingBack(parent, child, found, PublishRollback)
      ensures ok ==> stores == old(stores)[child := map[]]
      ensures !ok ==> control == Idle
    {
      ghost var from := stores;
      var left := stores[child].Keys;
      while left != {}
        invariant Consistent() && Reaches(start, St(), true)
        invariant control == RollingBack(parent, child, found, Wipe)
        invariant |stores| == |from| && stores[child].Keys == left
        invariant forall i :: 0 <= i < |stores| && i != child ==> stores[i] == from[i]
        decreases left
      {
        var key :| key in left;
        ok := WipeOne(parent, child, key, found, start, fails);
        if !ok {
          return;
        }
        left := left - {key};
      }
      ok := Io(fails);
      if !ok {
        GiveUp(start);
        return;
      }
      ghost var before := St();
      assert stores[child] == map[];
      control := RollingBack(parent, child, found, PublishRollback);
      ReachStep(start, before, WipeDone, St(), true);
    }

    /** The rolled-back placement is published. */
    method PublishRollbackStage(parent: nat, child: nat, ghost found: Option<Record>, ghost start: State,
                                fails: nat -> bool) returns (ok: bool)
      requires Consistent() && Inv(start) && Reaches(start, St(), true)
      requires control == RollingBack(parent, child, found, PublishRollback)
      modifies this`cat, this`router, this`control, this`ios
      ensures Consistent() && Reaches(start, St(), true)
      ensures (forall n :: !fails(n)) ==> ok
      ensures ok ==>
                && parent < |old(cat).shards| && child < |old(cat).shards|
                && cat == RolledBack(old(cat), parent, child)
                && control == RollingBack(parent, child, found, SaveRolledBack)
      ensures !ok ==> cat == old(cat) && control == Idle
    {
      ReachInv(start, St(), true);
      var after := RolledBack(cat, parent, child);
      RollbackInService(cat, parent, child);
      ok := Io(fails);
      if !ok {
        GiveUp(start);
        return;
      }
      ghost var before := St();
      var r := NewRouterFromCatalog(after);
      InOrderUnique(r.value.catalog.shards, after.shards);
      cat, router := after, r.value;
      control := RollingBack(parent, child, found, SaveRolledBack);
      ReachStep(start, before, PublishRolledBack, St(), true);
    }

    /** `RollbackSplit`. */
    method RollbackSplit(parent: nat, child: nat, expected: nat, fails: nat -> bool) returns (ok: bool)
      requires Valid() && writers == map[]
      modifies this`cat, this`router, this`stores, this`records, this`control, this`ios
      ensures Valid() && Reaches(old(St()), St(), true)
      ensures forall k :: Read(St(), k) == old(Read(St(), k))
      ensures (forall n :: !fails(n)) ==>
                (ok <==> !Resumable(old(St()), SplitKind, parent, child)
                         && exists kept :: FinalizeAccepted(old(cat), SplitKind, parent, child, expected, kept))
      ensures ok ==> TakenBack(old(St()), St(), parent, child)
      ensures cat == old(cat) || Undone(old(cat), cat, parent, child)
    {
      ghost var start := St();
      ReachRefl(start, true);
      ok := Io(fails);
      if !ok {
        return;
      }
      var key := RecordKey(SplitKind, parent, child);
      if key in records && records[key].phase.PublishedOrDone() {
        return false;
      }
      var kept := ValidateFinalizeSplit(cat, parent, child, expected);
      if kept.None? {
        return false;
      }
      var found := Found(records, key);
      control := RollingBack(parent, child, found, Wipe);
      ReachStep(start, start, StartRollback(parent, child, expected), St(), true);
      ok := RollbackStages(parent, child, found, start, fails);
      QuietReads(start, St());
      BackOrNot(start, St(), parent, child, expected, [kept.value]);
      if ok {
        WentBackTakesBack(start, St(), parent, child, expected, [kept.value]);
      }
    }

    /** Wipe the child, publish, record. */
    method RollbackStages(parent: nat, child: nat, found: Option<Record>, ghost start: State, fails: nat -> bool)
        returns (ok: bool)
      requires Consistent() && Inv(start) && Reaches(start, St(), true)
      requires parent < |stores| && child < |stores| && control == RollingBack(parent, child, found, Wipe)
      modifies this`cat, this`router, this`stores, this`records, this`control, this`ios
      ensures Consistent() && Reaches(start, St(), true) && control == Idle
      ensures (forall n :: !fails(n)) ==> ok
      ensures ok ==> WentBack(old(St()), St(), parent, child, found)
      ensures cat == old(cat) || cat == RolledBack(old(cat), parent, child)
    {
      ok := WipeLoop(parent, child, found, start, fails);
      if ok {
        ok := PublishRollbackStage(parent, child, found, start, fails);
      }
      if ok {
        ok := SaveRollback(parent, child, found, start, fails);
      }
    }

    /** The record of a rollback. */
    method SaveRollback(parent: nat, child: nat, found: Option<Record>, ghost start: State, fails: nat -> bool)
        returns (ok: bool)
      requires Consistent() && Reaches(start, St(), true)
      requires control == RollingBack(parent, child, found, SaveRolledBack)
      modifies this`records, this`control, this`ios
      ensures Consistent() && Reaches(start, St(), true) && control == Idle
      ensures (forall n :: !fails(n)) ==> ok
      ensures ok ==> var rec := RolledBackRecord(found, cat.epoch); records == old(records)[KeyOf(rec) := rec]
    {
      ok := Io(fails);
      if !ok {
        GiveUp(start);
        return;
      }
      ghost var before := St();
      var rec := RolledBackRecord(found, cat.epoch);
      records := records[KeyOf(rec) := rec];
      control := Idle;
      ReachStep(start, before, Save, St(), true);
    }

    // ---- writes ---------------------------------------------------------------------------------

    /** The targets of a routed write, the primary first and then each mirror, until one fails. */
    method WriteTargetsInTurn(w: nat, key: Key, write: Write, primary: nat, mirrors: seq<nat>, fails: nat -> bool)
        returns (ok: bool, ghost n: nat)
      requires TargetsExist(Writer(key, write, primary, mirrors, 0), |stores|)
      modifies this`stores, this`writers, this`ios
      ensures n <= |mirrors| + 1 && (ok <==> n == |mirrors| + 1)
      ensures (forall i :: !fails(i)) ==> ok
      ensures stores == AfterWrites(old(stores), Writer(key, write, primary, mirrors, 0), n)
      ensures writers == old(writers)[w := Writer(key, write, primary, mirrors, n)]
    {
      var i := 0;
      n := 0;
      ghost var wr := Writer(key, write, primary, mirrors, 0);
      writers := writers[w := Writer(key, write, primary, mirrors, 0)];
      while i < |mirrors| + 1
        invariant i <= |mirrors| + 1
        invariant stores == AfterWrites(old(stores), wr, i)
        invariant writers == old(writers)[w := wr.(done := i)]
      {
        ok := Io(fails);
        if !ok {
          return ok, i;
        }
        var target := if i == 0 then primary else mirrors[i - 1];
        stores := stores[target := Written(stores[target], key, write)];
        i := i + 1;
        writers := writers[w := Writer(key, write, primary, mirrors, i)];
      }
      return true, i;
    }

    /** A routed put or delete: take the targets, write them in order, give the fence back. */
    method WriteItem(w: nat, key: Key, write: Write, epoch: nat, fails: nat -> bool) returns (ok: bool)
      requires Valid() && w !in writers && key.table in tables
      modifies this`stores, this`writers, this`ios
      ensures Valid() && writers == old(writers) && Reaches(old(St()), St(), false)
      ensures forall k :: k != key ==> Read(St(), k) == old(Read(St(), k))
      ensures Read(St(), key) == Outcome(write) || (!ok && Read(St(), key) == old(Read(St(), key)))
      ensures WroteThrough(old(St()), stores, key, write, ok)
      ensures (ok ==> EpochOk(cat, epoch)) && ((forall n :: !fails(n)) ==> (ok <==> EpochOk(cat, epoch)))
    {
      ReachRefl(St(), false);
      var targets := WriteTargetsForPK(router, key.token, epoch);
      if targets.Err? {
        return false;
      }
      ok := WriteRouted(w, key, write, epoch, targets.value.0, targets.value.1, fails);
      ReachInv(old(St()), St(), false);
    }

    /** The same once the targets are known. */
    method WriteRouted(w: nat, key: Key, write: Write, ghost epoch: nat, primary: nat, mirrors: seq<nat>,
                       fails: nat -> bool) returns (ok: bool)
      requires Consistent() && control == Idle && w !in writers && key.table in tables && EpochOk(cat, epoch)
      requires Writer(key, write, primary, mirrors, 0) == Routed(St(), key, write)
      modifies this`stores, this`writers, this`ios
      ensures Consistent() && writers == old(writers) && Reaches(old(St()), St(), false)
      ensures forall k :: k != key ==> Read(St(), k) == old(Read(St(), k))
      ensures Read(St(), key) == Outcome(write) || (!ok && Read(St(), key) == old(Read(St(), key)))
      ensures WroteThrough(old(St()), stores, key, write, ok)
      ensures (forall n :: !fails(n)) ==> ok
    {
      ghost var start := St();
      RoutedTargets(start, key, write);
      ghost var n;
      ok, n := WriteTargetsInTurn(w, key, write, primary, mirrors, fails);
      WriteRun(start, w, key, write, epoch, n);
      RoutedWritesThrough(start, key, write, n);
      writers := writers - {w};
      assert writers == start.writers;
    }
  }
}
