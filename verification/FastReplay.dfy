/**
 Replay of the changelog behind a FAST view: whatever is replayed after a crash,
 the view converges to the base table.
 */
module FastReplay {
  import opened Wrappers
  import opened FastView

  // ---- the base table behind the log -------------------------------------------------------

  /**
   A view over a base table: `owner` says which base key a view key belongs to,
   and `start` is the table the log begins with.
   */
  datatype Config = Config(mv: View, ks: Schema, owner: Key -> Key, start: Table)

  function Lookup(table: Table, k: Key): Option<Item> {
    if k in table then Some(table[k]) else None
  }

  /** The base key a record is about. */
  ghost function Touched(cfg: Config, rec: Record): Key {
    match rec
    case Put(_, _, _) => if NewImage(rec).Some? then KeyOf(cfg.ks, NewImage(rec).value) else Key(None, None)
    case Delete(key, _) => if key.Some? then KeyOf(cfg.ks, key.value) else Key(None, None)
  }

  ghost function BaseAfter(cfg: Config, base: Table, rec: Record): Table {
    if rec.Delete? then base - {Touched(cfg, rec)}
    else if NewImage(rec).Some? then base[Touched(cfg, rec) := NewImage(rec).value]
    else base
  }

  ghost function BaseAt(cfg: Config, log: seq<Record>, n: nat): Table
    requires n <= |log|
  {
    if n == 0 then cfg.start else BaseAfter(cfg, BaseAt(cfg, log, n - 1), log[n - 1])
  }

  /** The item's view key, if it has one, belongs to the item's base key. */
  ghost predicate Owned(cfg: Config, item: Item) {
    HasKey(cfg.mv.keys, item) ==> cfg.owner(KeyOf(cfg.mv.keys, item)) == KeyOf(cfg.ks, item)
  }

  ghost predicate BaseOk(cfg: Config, base: Table) {
    forall b :: b in base ==> KeyOf(cfg.ks, base[b]) == b && Owned(cfg, base[b])
  }

  /** The record carries its images: the new item or the key, and the row it replaced. */
  ghost predicate RecordOk(cfg: Config, base: Table, rec: Record) {
    match rec
    case Put(_, _, prior) =>
      NewImage(rec).Some? && Owned(cfg, NewImage(rec).value) && prior == Lookup(base, Touched(cfg, rec))
    case Delete(key, prior) =>
      key.Some? && Owned(cfg, key.value) && prior == Lookup(base, Touched(cfg, rec))
  }

  /** The put takes the view's key away from a row that had it. */
  ghost predicate Drops(cfg: Config, rec: Record) {
    && rec.Put? && NewImage(rec).Some? && rec.oldItem.Some?
    && HasKey(cfg.mv.keys, rec.oldItem.value) && !HasKey(cfg.mv.keys, NewImage(rec).value)
  }

  ghost predicate Faithful(cfg: Config, log: seq<Record>) {
    && BaseOk(cfg, cfg.start)
    && forall n :: 0 <= n < |log| ==> RecordFits(cfg, log, n)
  }

  ghost predicate RecordFits(cfg: Config, log: seq<Record>, n: int)
    requires 0 <= n < |log|
  {
    RecordOk(cfg, BaseAt(cfg, log, n), log[n])
  }

  ghost predicate NoDrops(cfg: Config, log: seq<Record>) {
    forall n :: 0 <= n < |log| ==> !Drops(cfg, log[n])
  }

  lemma BaseStepOk(cfg: Config, base: Table, rec: Record)
    requires BaseOk(cfg, base) && RecordOk(cfg, base, rec)
    ensures BaseOk(cfg, BaseAfter(cfg, base, rec))
  {
  }

  lemma {:induction false} BaseStaysOk(cfg: Config, log: seq<Record>, n: nat)
    requires Faithful(cfg, log) && n <= |log|
    ensures BaseOk(cfg, BaseAt(cfg, log, n))
  {
    if n > 0 {
      BaseStaysOk(cfg, log, n - 1);
      assert RecordFits(cfg, log, n - 1);
      BaseStepOk(cfg, BaseAt(cfg, log, n - 1), log[n - 1]);
    }
  }

  // ---- the view the base table asks for ------------------------------------------------------

  /** The view holds the derived row of every base item that has one, and nothing else. */
  ghost predicate IsImage(cfg: Config, base: Table, view: Table) {
    && (forall b :: b in base && HasKey(cfg.mv.keys, base[b]) ==>
          var v := KeyOf(cfg.mv.keys, base[b]); v in view && view[v] == Derive(cfg.mv, base[b]).value)
    && (forall v :: v in view ==> exists b :: b in base && HasKey(cfg.mv.keys, base[b]) && KeyOf(cfg.mv.keys, base[b]) == v)
  }

  /** The row the base table wants under view key `v`. */
  ghost function RowOf(cfg: Config, base: Table, v: Key): Option<Item> {
    var b := cfg.owner(v);
    if b in base && HasKey(cfg.mv.keys, base[b]) && KeyOf(cfg.mv.keys, base[b]) == v then Derive(cfg.mv, base[b]) else None
  }

  ghost predicate Exact(cfg: Config, base: Table, view: Table) {
    forall v {:trigger Lookup(view, v)} :: Lookup(view, v) == RowOf(cfg, base, v)
  }

  lemma ImageIsExact(cfg: Config, base: Table, view: Table)
    requires BaseOk(cfg, base) && IsImage(cfg, base, view)
    ensures Exact(cfg, base, view)
  {
    forall v ensures Lookup(view, v) == RowOf(cfg, base, v) {
      if v in view {
        var b :| b in base && HasKey(cfg.mv.keys, base[b]) && KeyOf(cfg.mv.keys, base[b]) == v;
      }
    }
  }

  lemma ExactIsImage(cfg: Config, base: Table, view: Table)
    requires BaseOk(cfg, base) && Exact(cfg, base, view)
    ensures IsImage(cfg, base, view)
  {
    forall b | b in base && HasKey(cfg.mv.keys, base[b])
      ensures var v := KeyOf(cfg.mv.keys, base[b]); v in view && view[v] == Derive(cfg.mv, base[b]).value
    {
      assert Lookup(view, KeyOf(cfg.mv.keys, base[b])) == RowOf(cfg, base, KeyOf(cfg.mv.keys, base[b]));
    }
    forall v | v in view
      ensures exists b :: b in base && HasKey(cfg.mv.keys, base[b]) && KeyOf(cfg.mv.keys, base[b]) == v
    {
      assert Lookup(view, v) == RowOf(cfg, base, v);
      assert cfg.owner(v) in base;
    }
  }

  // ---- one record -----------------------------------------------------------------------------

  /** What one record leaves under view key `v`, given what was there. */
  ghost function Left(mv: View, rec: Record, v: Key, was: Option<Item>): Option<Item> {
    match rec
    case Put(_, _, prior) =>
      if NewImage(rec).None? || !HasKey(mv.keys, NewImage(rec).value) then was
      else if v == KeyOf(mv.keys, NewImage(rec).value) then Derive(mv, NewImage(rec).value)
      else if prior.Some? && HasKey(mv.keys, prior.value) && v == KeyOf(mv.keys, prior.value) then None
      else was
    case Delete(_, _) =>
      if DeleteImage(rec).Some? && HasKey(mv.keys, DeleteImage(rec).value) && v == KeyOf(mv.keys, DeleteImage(rec).value)
      then None else was
  }

  lemma ViewEffect(mv: View, rec: Record, view: Table, v: Key)
    ensures Lookup(ApplyOps(mv, view, OpsFor(mv, rec)), v) == Left(mv, rec, v, Lookup(view, v))
  {
    var ops := OpsFor(mv, rec);
    if |ops| == 2 {
      ApplyTwo(mv, view, ops[0], ops[1]);
      DerivedKey(mv, rec.oldItem.value);
    } else if |ops| == 1 {
      ApplyOne(mv, view, ops[0]);
    }
  }

  /** The record settles what is under `v`, whatever was there before. */
  ghost predicate Acts(mv: View, rec: Record, v: Key) {
    match rec
    case Put(_, _, prior) =>
      && NewImage(rec).Some? && HasKey(mv.keys, NewImage(rec).value)
      && (v == KeyOf(mv.keys, NewImage(rec).value)
          || (prior.Some? && HasKey(mv.keys, prior.value) && v == KeyOf(mv.keys, prior.value)))
    case Delete(_, _) =>
      DeleteImage(rec).Some? && HasKey(mv.keys, DeleteImage(rec).value) && v == KeyOf(mv.keys, DeleteImage(rec).value)
  }

  lemma ActsSettles(mv: View, rec: Record, view: Table, other: Table, v: Key)
    ensures var now, then' := ApplyOps(mv, view, OpsFor(mv, rec)), ApplyOps(mv, other, OpsFor(mv, rec));
            if Acts(mv, rec, v) then Lookup(now, v) == Lookup(then', v) else Lookup(now, v) == Lookup(view, v)
  {
    ViewEffect(mv, rec, view, v);
    ViewEffect(mv, rec, other, v);
  }

  /** The put takes the view key `v` away. */
  ghost predicate DropsKey(cfg: Config, rec: Record, v: Key) {
    Drops(cfg, rec) && KeyOf(cfg.mv.keys, rec.oldItem.value) == v
  }

  /** What becomes of the wanted row: a record wants it gone or changed only if it settles or drops the key. */
  lemma RowEffect(cfg: Config, base: Table, rec: Record, v: Key)
    requires BaseOk(cfg, base) && RecordOk(cfg, base, rec)
    ensures var was, now := RowOf(cfg, base, v), RowOf(cfg, BaseAfter(cfg, base, rec), v);
            && (Acts(cfg.mv, rec, v) ==> now == Left(cfg.mv, rec, v, None))
            && (!Acts(cfg.mv, rec, v) && !DropsKey(cfg, rec, v) ==> now == was)
            && (DropsKey(cfg, rec, v) ==> was.Some? && now.None? && !Acts(cfg.mv, rec, v))
  {
    if rec.oldItem.Some? {
      assert rec.oldItem.value == base[Touched(cfg, rec)];
    }
  }

  /** One record, at one view key: an exact row stays exact unless dropped, a stale row until settled. */
  lemma RecordAt(cfg: Config, base: Table, rec: Record, view: Table, v: Key)
    requires BaseOk(cfg, base) && RecordOk(cfg, base, rec)
    ensures var now := Lookup(ApplyOps(cfg.mv, view, OpsFor(cfg.mv, rec)), v);
            var row := RowOf(cfg, BaseAfter(cfg, base, rec), v);
            && (Acts(cfg.mv, rec, v) ==> now == row)
            && (!Acts(cfg.mv, rec, v) ==> now == Lookup(view, v))
            && (DropsKey(cfg, rec, v) ==> RowOf(cfg, base, v).Some? && row.None?)
            && (!Acts(cfg.mv, rec, v) && !DropsKey(cfg, rec, v) ==> row == RowOf(cfg, base, v))
  {
    ViewEffect(cfg.mv, rec, view, v);
    RowEffect(cfg, base, rec, v);
  }

  lemma DropLeavesRow(cfg: Config, base: Table, rec: Record, view: Table)
    requires BaseOk(cfg, base) && RecordOk(cfg, base, rec) && Exact(cfg, base, view) && Drops(cfg, rec)
    ensures !Exact(cfg, BaseAfter(cfg, base, rec), ApplyOps(cfg.mv, view, OpsFor(cfg.mv, rec)))
  {
    var v := KeyOf(cfg.mv.keys, rec.oldItem.value);
    RecordAt(cfg, base, rec, view, v);
    RowEffect(cfg, base, rec, v);
    assert Lookup(view, v) == RowOf(cfg, base, v) != RowOf(cfg, BaseAfter(cfg, base, rec), v);
  }

  lemma RecordKeepsExact(cfg: Config, base: Table, rec: Record, view: Table)
    requires BaseOk(cfg, base) && RecordOk(cfg, base, rec) && Exact(cfg, base, view) && !Drops(cfg, rec)
    ensures Exact(cfg, BaseAfter(cfg, base, rec), ApplyOps(cfg.mv, view, OpsFor(cfg.mv, rec)))
  {
    var base', view' := BaseAfter(cfg, base, rec), ApplyOps(cfg.mv, view, OpsFor(cfg.mv, rec));
    forall v ensures Lookup(view', v) == RowOf(cfg, base', v) {
      RecordAt(cfg, base, rec, view, v);
      assert Lookup(view, v) == RowOf(cfg, base, v);
    }
  }

  /** From an exact view, one record leads to an exact view unless it drops the view's key, and only then. */
  lemma ExactUnlessDropped(cfg: Config, base: Table, rec: Record, view: Table)
    requires BaseOk(cfg, base) && RecordOk(cfg, base, rec) && IsImage(cfg, base, view)
    ensures IsImage(cfg, BaseAfter(cfg, base, rec), ApplyOps(cfg.mv, view, OpsFor(cfg.mv, rec))) <==> !Drops(cfg, rec)
  {
    var base', view' := BaseAfter(cfg, base, rec), ApplyOps(cfg.mv, view, OpsFor(cfg.mv, rec));
    BaseStepOk(cfg, base, rec);
    ImageIsExact(cfg, base, view);
    if Drops(cfg, rec) {
      DropLeavesRow(cfg, base, rec, view);
      if IsImage(cfg, base', view') {
        ImageIsExact(cfg, base', view');
      }
    } else {
      RecordKeepsExact(cfg, base, rec, view);
      ExactIsImage(cfg, base', view');
    }
  }

  // ---- replay ---------------------------------------------------------------------------------

  /** Some record from `c` up to `d` settles what is under `v`. */
  ghost predicate ActsIn(mv: View, log: seq<Record>, c: nat, d: nat, v: Key)
    requires d <= |log|
  {
    exists n :: c <= n < d && Acts(mv, log[n], v)
  }

  /** After a replay the rows it settles do not depend on where it started from, and the others are as they were. */
  lemma {:induction false} ReplaySettles(mv: View, log: seq<Record>, view: Table, other: Table, c: nat, d: nat, v: Key)
    requires c <= d <= |log|
    ensures if ActsIn(mv, log, c, d, v)
            then Lookup(Replayed(mv, view, log, c, d), v) == Lookup(Replayed(mv, other, log, c, d), v)
            else Lookup(Replayed(mv, view, log, c, d), v) == Lookup(view, v)
    decreases d
  {
    if c < d {
      ReplaySettles(mv, log, view, other, c, d - 1, v);
      ActsSettles(mv, log[d - 1], Replayed(mv, view, log, c, d - 1), Replayed(mv, other, log, c, d - 1), v);
      ActsSettles(mv, log[d - 1], Replayed(mv, other, log, c, d - 1), Replayed(mv, view, log, c, d - 1), v);
    }
  }

  lemma {:induction false} ReplayInTwo(mv: View, log: seq<Record>, view: Table, c: nat, d: nat)
    requires c <= d <= |log|
    ensures Replayed(mv, Replayed(mv, view, log, 0, c), log, c, d) == Replayed(mv, view, log, 0, d)
    decreases d
  {
    if c < d {
      ReplayInTwo(mv, log, view, c, d - 1);
    }
  }

  // ---- runs ---------------------------------------------------------------------------------------

  const BATCH_LIMIT := 4096

  /** How much of the log has been written, the view, and the saved cursor. */
  datatype State = State(len: nat, view: Table, cursor: nat)

  /** A tick up to record `d`; `saved` is false when it crashes before the cursor is saved. */
  datatype Step = Append | Tick(d: nat, saved: bool)

  ghost predicate Next(mv: View, log: seq<Record>, s: State, step: Step, s': State) {
    match step
    case Append => s.len < |log| && s' == s.(len := s.len + 1)
    case Tick(d, saved) =>
      && s.cursor <= d <= s.len <= |log| && d - s.cursor <= BATCH_LIMIT
      && s' == s.(view := Replayed(mv, s.view, log, s.cursor, d), cursor := if saved then d else s.cursor)
  }

  /** A run over a growing log, from the view as it was when the log began. */
  ghost predicate IsRun(mv: View, log: seq<Record>, states: seq<State>, steps: seq<Step>) {
    && |states| == |steps| + 1 && states[0].len == 0 && states[0].cursor == 0
    && forall n :: 0 <= n < |steps| ==> Next(mv, log, states[n], steps[n], states[n + 1])
  }

  /** Rows that nothing at or past the cursor settles are as one plain replay up to the cursor leaves them. */
  ghost predicate Inv(mv: View, log: seq<Record>, start: Table, s: State) {
    && s.cursor <= s.len <= |log|
    && forall v {:trigger Lookup(s.view, v)} ::
         !ActsIn(mv, log, s.cursor, s.len, v) ==> Lookup(s.view, v) == Lookup(Replayed(mv, start, log, 0, s.cursor), v)
  }

  /** A tick, over records applied before or not, and saved or not. */
  lemma TickKeeps(mv: View, log: seq<Record>, start: Table, s: State, step: Step, s': State)
    requires Inv(mv, log, start, s) && Next(mv, log, s, step, s') && step.Tick?
    ensures Inv(mv, log, start, s')
  {
    var c, d := s.cursor, step.d;
    var plain := Replayed(mv, start, log, 0, c);
    ReplayInTwo(mv, log, start, c, d);
    forall v | !ActsIn(mv, log, s'.cursor, s'.len, v)
      ensures Lookup(s'.view, v) == Lookup(Replayed(mv, start, log, 0, s'.cursor), v)
    {
      ReplaySettles(mv, log, s.view, plain, c, d, v);
      ReplaySettles(mv, log, plain, s.view, c, d, v);
      if !ActsIn(mv, log, c, d, v) {
        assert !ActsIn(mv, log, c, s.len, v);
        assert Lookup(s.view, v) == Lookup(plain, v);
      }
    }
  }

  lemma {:induction false} RunKeeps(mv: View, log: seq<Record>, states: seq<State>, steps: seq<Step>, n: nat)
    requires IsRun(mv, log, states, steps) && n < |states|
    ensures Inv(mv, log, states[0].view, states[n])
  {
    if n > 0 {
      RunKeeps(mv, log, states, steps, n - 1);
      var s, s' := states[n - 1], states[n];
      assert Next(mv, log, s, steps[n - 1], s');
      if steps[n - 1].Tick? {
        TickKeeps(mv, log, states[0].view, s, steps[n - 1], s');
      } else {
        forall v | !ActsIn(mv, log, s'.cursor, s'.len, v) ensures !ActsIn(mv, log, s.cursor, s.len, v) {
        }
      }
    }
  }

  /**
   However the log is cut into ticks, and whichever ticks crash before their cursor
   is saved and are applied again, the view at the end of the log is what one
   plain replay of the whole log gives. No assumption on the log is needed.
   */
  lemma CrashesLeaveNoTrace(mv: View, log: seq<Record>, states: seq<State>, steps: seq<Step>, n: nat)
    requires IsRun(mv, log, states, steps) && n < |states| && states[n].cursor == states[n].len
    ensures states[n].len <= |log| && states[n].view == Replayed(mv, states[0].view, log, 0, states[n].len)
  {
    RunKeeps(mv, log, states, steps, n);
    var s := states[n];
    var plain := Replayed(mv, states[0].view, log, 0, s.len);
    forall v ensures Lookup(s.view, v) == Lookup(plain, v) {
      assert !ActsIn(mv, log, s.cursor, s.len, v);
    }
    SameTable(s.view, plain);
  }

  lemma SameTable(a: Table, b: Table)
    requires forall v {:trigger Lookup(a, v)} :: Lookup(a, v) == Lookup(b, v)
    ensures a == b
  {
    forall v ensures v in a <==> v in b {
      assert Lookup(a, v) == Lookup(b, v);
    }
    forall v | v in a ensures a[v] == b[v] {
      assert Lookup(a, v) == Lookup(b, v);
    }
  }

  // ---- exactly when the view converges ----------------------------------------------------------------

  /** Record `k` drops the view key, and none after it up to `n` settles it. */
  ghost predicate StrandedBy(cfg: Config, log: seq<Record>, k: nat, n: nat, v: Key)
    requires k < n <= |log|
  {
    DropsKey(cfg, log[k], v) && forall m :: k < m < n ==> !Acts(cfg.mv, log[m], v)
  }

  ghost predicate Stranded(cfg: Config, log: seq<Record>, n: nat, v: Key)
    requires n <= |log|
  {
    exists k :: 0 <= k < n && StrandedBy(cfg, log, k, n, v)
  }

  lemma StrandedNext(cfg: Config, log: seq<Record>, n: nat, v: Key)
    requires n < |log|
    ensures Stranded(cfg, log, n + 1, v) <==>
            DropsKey(cfg, log[n], v) || (Stranded(cfg, log, n, v) && !Acts(cfg.mv, log[n], v))
  {
    if Stranded(cfg, log, n + 1, v) && !DropsKey(cfg, log[n], v) {
      var k :| 0 <= k < n + 1 && StrandedBy(cfg, log, k, n + 1, v);
      assert k != n;
      assert StrandedBy(cfg, log, k, n, v);
    }
    if DropsKey(cfg, log[n], v) {
      assert StrandedBy(cfg, log, n, n + 1, v);
    }
    if Stranded(cfg, log, n, v) && !Acts(cfg.mv, log[n], v) {
      var k :| 0 <= k < n && StrandedBy(cfg, log, k, n, v);
      assert StrandedBy(cfg, log, k, n + 1, v);
    }
  }

  /** After a plain replay the row under `v` is exact, or stranded there with nothing wanting it. */
  lemma {:induction false} ReplayAt(cfg: Config, log: seq<Record>, view: Table, n: nat, v: Key)
    requires Faithful(cfg, log) && n <= |log| && Exact(cfg, cfg.start, view)
    ensures var now, row := Lookup(Replayed(cfg.mv, view, log, 0, n), v), RowOf(cfg, BaseAt(cfg, log, n), v);
            if Stranded(cfg, log, n, v) then now.Some? && row.None? else now == row
  {
    if n == 0 {
      assert Lookup(view, v) == RowOf(cfg, cfg.start, v);
    } else {
      ReplayAt(cfg, log, view, n - 1, v);
      StrandedNext(cfg, log, n - 1, v);
      BaseStaysOk(cfg, log, n - 1);
      assert RecordFits(cfg, log, n - 1);
      RecordAt(cfg, BaseAt(cfg, log, n - 1), log[n - 1], Replayed(cfg.mv, view, log, 0, n - 1), v);
      RowEffect(cfg, BaseAt(cfg, log, n - 1), log[n - 1], v);
    }
  }

  ghost predicate NothingStranded(cfg: Config, log: seq<Record>, n: nat)
    requires n <= |log|
  {
    forall v :: !Stranded(cfg, log, n, v)
  }

  /** A plain replay ends in the image of the base table exactly when it strands no row. */
  lemma ReplayExactIff(cfg: Config, log: seq<Record>, view: Table, n: nat)
    requires Faithful(cfg, log) && n <= |log| && IsImage(cfg, cfg.start, view)
    ensures IsImage(cfg, BaseAt(cfg, log, n), Replayed(cfg.mv, view, log, 0, n)) <==> NothingStranded(cfg, log, n)
  {
    var base, after := BaseAt(cfg, log, n), Replayed(cfg.mv, view, log, 0, n);
    BaseStaysOk(cfg, log, n);
    ImageIsExact(cfg, cfg.start, view);
    forall v ensures Lookup(after, v) == RowOf(cfg, base, v) <==> !Stranded(cfg, log, n, v) {
      ReplayAt(cfg, log, view, n, v);
    }
    if IsImage(cfg, base, after) {
      ImageIsExact(cfg, base, after);
      forall v ensures !Stranded(cfg, log, n, v) {
        assert Lookup(after, v) == RowOf(cfg, base, v);
      }
    }
    if NothingStranded(cfg, log, n) {
      forall v ensures Lookup(after, v) == RowOf(cfg, base, v) {
        assert !Stranded(cfg, log, n, v);
      }
      ExactIsImage(cfg, base, after);
    }
  }

  /**
   Over every run, whenever the cursor has reached the end of the log: the view is
   the image of the base table if and only if every view key that was taken away
   from a row has since been written again or deleted.
   */
  lemma ConvergesIff(cfg: Config, log: seq<Record>, states: seq<State>, steps: seq<Step>, n: nat)
    requires Faithful(cfg, log) && IsRun(cfg.mv, log, states, steps) && IsImage(cfg, cfg.start, states[0].view)
    requires n < |states| && states[n].cursor == states[n].len
    ensures states[n].len <= |log|
    ensures IsImage(cfg, BaseAt(cfg, log, states[n].len), states[n].view) <==> NothingStranded(cfg, log, states[n].len)
  {
    CrashesLeaveNoTrace(cfg.mv, log, states, steps, n);
    ReplayExactIff(cfg, log, states[0].view, states[n].len);
  }

  /** In particular a log in which no put takes the view key away always converges. */
  lemma Converges(cfg: Config, log: seq<Record>, states: seq<State>, steps: seq<Step>, n: nat)
    requires Faithful(cfg, log) && NoDrops(cfg, log)
    requires IsRun(cfg.mv, log, states, steps) && IsImage(cfg, cfg.start, states[0].view)
    requires n < |states| && states[n].cursor == states[n].len
    ensures states[n].len <= |log| && IsImage(cfg, BaseAt(cfg, log, states[n].len), states[n].view)
  {
    ConvergesIff(cfg, log, states, steps, n);
    forall v ensures !Stranded(cfg, log, states[n].len, v) {
      forall k | 0 <= k < states[n].len ensures !StrandedBy(cfg, log, k, states[n].len, v) {
        assert !Drops(cfg, log[k]);
      }
    }
  }

  // ---- when a view key determines the base key -------------------------------------------------------

  /** The base key's attributes are among the view key's. */
  ghost predicate KeySwap(mv: View, ks: Schema) {
    && (ks.pk == mv.keys.pk || (mv.keys.sk != "" && ks.pk == mv.keys.sk))
    && (ks.sk == "" || ks.sk == mv.keys.pk || (mv.keys.sk != "" && ks.sk == mv.keys.sk))
  }

  /** For such a schema the base key is read off the view key, so every item is owned. */
  lemma KeySwapOwns(cfg: Config, item: Item)
    requires KeySwap(cfg.mv, cfg.ks)
    requires forall v :: cfg.owner(v) == BaseKeyOf(cfg.mv, cfg.ks, v)
    ensures Owned(cfg, item)
  {
  }

  function BaseKeyOf(mv: View, ks: Schema, v: Key): Key {
    Key(if ks.pk == mv.keys.pk then v.pk else v.sk,
        if ks.sk == "" then None else if ks.sk == mv.keys.pk then v.pk else v.sk)
  }

  /** A put that takes the view key away from row 1 leaves its old view row behind. */
  lemma DroppedKeyStays()
    ensures var mv, ks := View(Schema("v", "id"), []), Schema("id", "");
            var was, now := map["id" := "1", "v" := "x"], map["id" := "1"];
            var cfg := Config(mv, ks, (v: Key) => Key(v.sk, None), map[Key(Some("1"), None) := was]);
            var rec := Put(None, Some(now), Some(was));
            var view := map[Key(Some("x"), Some("1")) := was];
            && KeySwap(mv, ks) && Faithful(cfg, [rec]) && IsImage(cfg, cfg.start, view)
            && !IsImage(cfg, BaseAt(cfg, [rec], 1), Replayed(mv, view, [rec], 0, 1))
  {
    var mv, ks := View(Schema("v", "id"), []), Schema("id", "");
    var was, now := map["id" := "1", "v" := "x"], map["id" := "1"];
    var cfg := Config(mv, ks, (v: Key) => Key(v.sk, None), map[Key(Some("1"), None) := was]);
    var rec := Put(None, Some(now), Some(was));
    var view := map[Key(Some("x"), Some("1")) := was];
    assert Derive(mv, was).value == was;
    assert RecordFits(cfg, [rec], 0);
    assert cfg.start[Key(Some("1"), None)] == was;
    ExactUnlessDropped(cfg, cfg.start, rec, view);
    assert BaseAt(cfg, [rec], 1) == BaseAfter(cfg, cfg.start, rec);
    assert Replayed(mv, view, [rec], 0, 1) == ApplyOps(mv, view, OpsFor(mv, rec));
  }

  // ---- the refresh ---------------------------------------------------------------------------------

  /** Build the ops of a range of records and write them as one batch. */
  method ApplyRange(mv: View, view: Table, log: seq<Record>, c: nat, d: nat) returns (after: Table)
    requires c <= d <= |log|
    ensures after == Replayed(mv, view, log, c, d)
  {
    var ops := BuildOps(mv, log, c, d);
    after := ApplyBatch(mv, view, ops);
    OpsReplay(mv, view, log, c, d);
  }

  class Refresher {
    var view: Table
    var cursor: nat

    /** `refreshFast` with the log untrimmed: one tick up to `end`; `saves` says whether the cursor could be saved. */
    method RefreshFast(mv: View, log: seq<Record>, saves: bool) returns (end: nat)
      requires cursor <= |log|
      modifies this
      ensures end == if |log| - old(cursor) <= BATCH_LIMIT then |log| else old(cursor) + BATCH_LIMIT
      ensures view == Replayed(mv, old(view), log, old(cursor), end)
      ensures cursor == if saves then end else old(cursor)
    {
      end := if |log| - cursor <= BATCH_LIMIT then |log| else cursor + BATCH_LIMIT;
      var after := ApplyRange(mv, view, log, cursor, end);
      view := after;
      if saves {
        cursor := end;
      }
    }
  }
}
