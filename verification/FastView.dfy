/**
 FAST materialized views: the view row of a base item, the operations a change
 record turns into, and their effect on the view table.
 */
module FastView {
  import opened Wrappers

  // ---- items, schemas and images -------------------------------------------------------

  type Value = string
  type Item = map<string, Value>

  /** A key schema; an empty sort key means there is none. */
  datatype Schema = Schema(pk: string, sk: string)

  datatype View = View(keys: Schema, projected: seq<string>)

  datatype Key = Key(pk: Option<Value>, sk: Option<Value>)

  function Attr(item: Item, name: string): Option<Value> {
    if name in item then Some(item[name]) else None
  }

  function KeyOf(ks: Schema, item: Item): Key {
    Key(Attr(item, ks.pk), if ks.sk == "" then None else Attr(item, ks.sk))
  }

  /** Two items have the same key exactly when they agree on the key's attributes. */
  lemma SameKeyIff(ks: Schema, a: Item, b: Item)
    requires HasKey(ks, a) && HasKey(ks, b)
    ensures KeyOf(ks, a) == KeyOf(ks, b) <==> a[ks.pk] == b[ks.pk] && (ks.sk != "" ==> a[ks.sk] == b[ks.sk])
  {
  }

  ghost predicate HasKey(ks: Schema, item: Item) {
    ks.pk in item && (ks.sk == "" || ks.sk in item)
  }

  /** The attributes of a view row: its key, and the projection or everything. */
  ghost predicate Shown(mv: View, name: string) {
    || name == mv.keys.pk || (mv.keys.sk != "" && name == mv.keys.sk)
    || mv.projected == [] || (name in mv.projected && name != mv.keys.sk)
  }

  /** The view row of a base item, if it carries the view's key. */
  ghost function Derive(mv: View, base: Item): Option<Item> {
    if HasKey(mv.keys, base) then Some(map name | name in base && Shown(mv, name) :: base[name]) else None
  }

  /** `deriveMVItem`. */
  method DeriveItem(mv: View, base: Item) returns (row: Option<Item>)
    ensures row == Derive(mv, base)
    ensures row.Some? <==> mv.keys.pk in base && (mv.keys.sk != "" ==> mv.keys.sk in base)
    ensures row.Some? ==> forall a :: a in row.value ==> a in base && row.value[a] == base[a]
    ensures row.Some? ==> mv.keys.pk in row.value && (mv.keys.sk != "" ==> mv.keys.sk in row.value)
    ensures row.Some? && mv.projected == [] ==> row.value == base
    ensures row.Some? && mv.projected != [] ==>
              forall a :: a in base && a != mv.keys.pk && a != mv.keys.sk ==> (a in row.value <==> a in mv.projected)
  {
    var ks := mv.keys;
    if ks.pk !in base {
      return None;
    }
    var out := map[ks.pk := base[ks.pk]];
    if ks.sk != "" {
      if ks.sk !in base {
        return None;
      }
      out := out[ks.sk := base[ks.sk]];
    }
    if mv.projected == [] {
      var left := base.Keys;
      while left != {}
        invariant left <= base.Keys
        invariant forall a :: a in out <==> a in base && (a !in left || a == ks.pk || (ks.sk != "" && a == ks.sk))
        invariant forall a :: a in out ==> out[a] == base[a]
        decreases left
      {
        var a :| a in left;
        left := left - {a};
        if a !in out {
          out := out[a := base[a]];
        }
      }
      assert out == Derive(mv, base).value;
      return Some(out);
    }
    for i := 0 to |mv.projected|
      invariant forall a :: a in out <==> a in base && (a == ks.pk || (ks.sk != "" && a == ks.sk) || (a in mv.projected[..i] && a != ks.sk))
      invariant forall a :: a in out ==> out[a] == base[a]
    {
      var a := mv.projected[i];
      assert mv.projected[..i + 1] == mv.projected[..i] + [a];
      if a == ks.pk || a == ks.sk {
        continue;
      }
      if a in base {
        out := out[a := base[a]];
      }
    }
    assert mv.projected[..|mv.projected|] == mv.projected;
    assert out == Derive(mv, base).value;
    return Some(out);
  }

  /** `itemKeyOnly`. */
  function KeyOnly(ks: Schema, item: Item): Item {
    map name | name in item && (name == ks.pk || (ks.sk != "" && name == ks.sk)) :: item[name]
  }

  /** A view row carries the key of the item it came from, and so does its key alone. */
  lemma DerivedKey(mv: View, base: Item)
    requires HasKey(mv.keys, base)
    ensures KeyOf(mv.keys, Derive(mv, base).value) == KeyOf(mv.keys, base)
    ensures Derive(mv, KeyOnly(mv.keys, Derive(mv, base).value)).Some?
    ensures KeyOf(mv.keys, KeyOnly(mv.keys, Derive(mv, base).value)) == KeyOf(mv.keys, base)
  {
  }

  // ---- the changelog ---------------------------------------------------------------------

  /** A change record; every image is optional, as in the log. */
  datatype Record =
    | Put(item: Option<Item>, newItem: Option<Item>, oldItem: Option<Item>)
    | Delete(key: Option<Item>, oldItem: Option<Item>)

  datatype BatchOp = BatchPut(item: Item) | BatchDelete(key: Item)

  function NewImage(rec: Record): Option<Item>
    requires rec.Put?
  {
    if rec.newItem.Some? then rec.newItem else rec.item
  }

  function DeleteImage(rec: Record): Option<Item>
    requires rec.Delete?
  {
    if rec.oldItem.Some? then rec.oldItem else rec.key
  }

  /** The old view row sits under another key than the new one. */
  ghost predicate KeyShifts(mv: View, rec: Record)
    requires rec.Put? && NewImage(rec).Some?
  {
    && rec.oldItem.Some? && HasKey(mv.keys, rec.oldItem.value) && HasKey(mv.keys, NewImage(rec).value)
    && KeyOf(mv.keys, rec.oldItem.value) != KeyOf(mv.keys, NewImage(rec).value)
  }

  /** What a record turns into. */
  ghost function OpsFor(mv: View, rec: Record): seq<BatchOp> {
    match rec
    case Put(_, _, prior) =>
      if NewImage(rec).None? then []
      else
        (if KeyShifts(mv, rec) then [BatchDelete(KeyOnly(mv.keys, Derive(mv, prior.value).value))] else [])
        + [BatchPut(NewImage(rec).value)]
    case Delete(_, _) => if DeleteImage(rec).None? then [] else [BatchDelete(DeleteImage(rec).value)]
  }

  /** The ops of records `c` up to `d` of the log. */
  ghost function AllOps(mv: View, log: seq<Record>, c: nat, d: nat): seq<BatchOp>
    requires c <= d <= |log|
    decreases d
  {
    if c == d then [] else AllOps(mv, log, c, d - 1) + OpsFor(mv, log[d - 1])
  }

  /** `buildFastMVOps` on records `c` up to `d` of the log. */
  method BuildOps(mv: View, log: seq<Record>, c: nat, d: nat) returns (ops: seq<BatchOp>)
    requires c <= d <= |log|
    ensures ops == AllOps(mv, log, c, d)
    ensures c < d && log[d - 1].Put? && log[d - 1].newItem.Some? ==>
              ops != [] && ops[|ops| - 1] == BatchPut(log[d - 1].newItem.value)
    ensures c < d && log[d - 1].Put? && log[d - 1].newItem.None? && log[d - 1].item.Some? ==>
              ops != [] && ops[|ops| - 1] == BatchPut(log[d - 1].item.value)
    ensures c < d && log[d - 1].Delete? && log[d - 1].oldItem.Some? ==>
              ops != [] && ops[|ops| - 1] == BatchDelete(log[d - 1].oldItem.value)
  {
    ops := [];
    for n := c to d
      invariant ops == AllOps(mv, log, c, n)
    {
      var rec := log[n];
      match rec {
        case Put(_, _, oldItem) =>
          var image := NewImage(rec);
          if image.None? {
            continue;
          }
          var item := image.value;
          if oldItem.Some? {
            var prior := DeriveItem(mv, oldItem.value);
            var next := DeriveItem(mv, item);
            if prior.Some? && next.Some? {
              DerivedKey(mv, oldItem.value);
              DerivedKey(mv, item);
              if KeyOf(mv.keys, prior.value) != KeyOf(mv.keys, next.value) {
                ops := ops + [BatchDelete(KeyOnly(mv.keys, prior.value))];
              }
            }
          }
          ops := ops + [BatchPut(item)];
        case Delete(_, _) =>
          var image := DeleteImage(rec);
          if image.None? {
            continue;
          }
          ops := ops + [BatchDelete(image.value)];
      }
    }
  }

  // ---- the view table -----------------------------------------------------------------------

  type Table = map<Key, Item>

  /** One op on the view, after its row is derived; ops without the view's key are dropped. */
  ghost function ApplyOp(mv: View, view: Table, op: BatchOp): Table {
    match op
    case BatchPut(item) =>
      var row := Derive(mv, item);
      if row.Some? then view[KeyOf(mv.keys, item) := row.value] else view
    case BatchDelete(key) =>
      if HasKey(mv.keys, key) then view - {KeyOf(mv.keys, key)} else view
  }

  ghost function ApplyOps(mv: View, view: Table, ops: seq<BatchOp>): Table {
    if ops == [] then view else ApplyOp(mv, ApplyOps(mv, view, ops[..|ops| - 1]), ops[|ops| - 1])
  }

  /** The view after records `c` up to `d` of the log have been applied to it, one after the other. */
  ghost function Replayed(mv: View, view: Table, log: seq<Record>, c: nat, d: nat): Table
    requires c <= d <= |log|
    decreases d
  {
    if c == d then view else ApplyOps(mv, Replayed(mv, view, log, c, d - 1), OpsFor(mv, log[d - 1]))
  }

  lemma {:induction false} ApplyConcat(mv: View, view: Table, a: seq<BatchOp>, b: seq<BatchOp>)
    ensures ApplyOps(mv, view, a + b) == ApplyOps(mv, ApplyOps(mv, view, a), b)
  {
    if b == [] {
      assert a + b == a;
    } else {
      ApplyConcat(mv, view, a, b[..|b| - 1]);
      assert (a + b)[..|a + b| - 1] == a + b[..|b| - 1];
    }
  }

  lemma ApplyOne(mv: View, view: Table, op: BatchOp)
    ensures ApplyOps(mv, view, [op]) == ApplyOp(mv, view, op)
  {
    assert [op][..0] == [];
  }

  lemma ApplyTwo(mv: View, view: Table, op: BatchOp, next: BatchOp)
    ensures ApplyOps(mv, view, [op, next]) == ApplyOp(mv, ApplyOp(mv, view, op), next)
  {
    ApplyOne(mv, view, op);
    assert [op, next][..1] == [op];
  }

  lemma ApplyMore(mv: View, view: Table, mid: Table, a: seq<BatchOp>, b: seq<BatchOp>)
    requires ApplyOps(mv, view, a) == mid
    ensures ApplyOps(mv, view, a + b) == ApplyOps(mv, mid, b)
  {
    ApplyConcat(mv, view, a, b);
  }

  lemma {:induction false} OpsReplay(mv: View, view: Table, log: seq<Record>, c: nat, d: nat)
    requires c <= d <= |log|
    ensures ApplyOps(mv, view, AllOps(mv, log, c, d)) == Replayed(mv, view, log, c, d)
    decreases d
  {
    if c == d {
      assert ApplyOps(mv, view, []) == view;
    } else {
      var before, more := AllOps(mv, log, c, d - 1), OpsFor(mv, log[d - 1]);
      OpsReplay(mv, view, log, c, d - 1);
      ApplyMore(mv, view, Replayed(mv, view, log, c, d - 1), before, more);
      assert AllOps(mv, log, c, d) == before + more;
    }
  }

  /** `applyMVEagerBatchOneView` on a single node: derive every row, then write them as one batch. */
  method ApplyBatch(mv: View, view: Table, ops: seq<BatchOp>) returns (after: Table)
    ensures after == ApplyOps(mv, view, ops)
  {
    after := view;
    for n := 0 to |ops|
      invariant after == ApplyOps(mv, view, ops[..n])
    {
      assert ops[..n + 1][..n] == ops[..n];
      match ops[n] {
        case BatchPut(item) =>
          var row := DeriveItem(mv, item);
          if row.Some? {
            DerivedKey(mv, item);
            after := after[KeyOf(mv.keys, row.value) := row.value];
          }
        case BatchDelete(key) =>
          var row := DeriveItem(mv, key);
          if row.Some? {
            DerivedKey(mv, key);
            after := after - {KeyOf(mv.keys, row.value)};
          }
      }
    }
    assert ops[..|ops|] == ops;
  }
}
