/**
 Base-table rows: keys that carry their partition token, shard stores, and the
 digest that decides whether a copied range may be published.
 */
module Rows {
  import opened Wrappers
  import opened Ring

  /** A primary-row key: the table, the token its bytes carry, and the rest. */
  datatype Key = Key(table: string, token: Token, rest: seq<int>)

  type Item = string

  type Store = map<Key, Item>

  function RowAt(store: Store, k: Key): Option<Item> {
    if k in store then Some(store[k]) else None
  }

  ghost predicate Selected(k: Key, tables: set<string>, rng: TokenRange) {
    k.table in tables && rng.Contains(k.token)
  }

  /** The rows of the given tables whose token lies in the range. */
  ghost function RowsIn(s: Store, tables: set<string>, rng: TokenRange): (r: Store)
    ensures forall k :: k in r <==> k in s && Selected(k, tables, rng)
    ensures forall k :: k in r ==> r[k] == s[k]
  {
    map k | k in s && Selected(k, tables, rng) :: s[k]
  }

  // ---- digest -----------------------------------------------------------------

  /** The xor of the weights of a set of keys. */
  ghost function Checksum(keys: set<Key>, weight: Key -> bv64): bv64 {
    if keys == {} then 0
    else
      var k := Pick(keys);
      Xor(weight(k), Checksum(keys - {k}, weight))
  }

  ghost function Pick(keys: set<Key>): (k: Key)
    requires keys != {}
    ensures k in keys
  {
    var k :| k in keys;
    k
  }

  function Xor(a: bv64, b: bv64): bv64 {
    a ^ b
  }

  lemma XorSwap(a: bv64, b: bv64, c: bv64)
    ensures Xor(a, Xor(b, c)) == Xor(b, Xor(a, c))
  {
  }

  /** Any key may be taken out first: the order of the iteration does not matter. */
  lemma {:induction false} ChecksumTake(keys: set<Key>, k: Key, weight: Key -> bv64)
    requires k in keys
    ensures Checksum(keys, weight) == Xor(weight(k), Checksum(keys - {k}, weight))
  {
    var j := Pick(keys);
    if j != k {
      var rest := keys - {j} - {k};
      ChecksumTake(keys - {j}, k, weight);
      ChecksumTake(keys - {k}, j, weight);
      assert keys - {k} - {j} == rest;
      XorSwap(weight(j), weight(k), Checksum(rest, weight));
    }
  }

  lemma {:induction false} ChecksumSame(keys: set<Key>, v: Key -> bv64, w: Key -> bv64)
    requires forall k :: k in keys ==> v(k) == w(k)
    ensures Checksum(keys, v) == Checksum(keys, w)
  {
    if keys != {} {
      ChecksumSame(keys - {Pick(keys)}, v, w);
    }
  }

  /** The hash of the row a store holds under a key. */
  function RowHash(s: Store, hash: (Key, Item) -> bv64): Key -> bv64 {
    (k: Key) => if k in s then hash(k, s[k]) else 0
  }

  datatype Digest = Digest(count: nat, checksum: bv64)

  /** What the digest loop computes: count and checksum of the selected rows. */
  ghost function DigestOf(s: Store, tables: set<string>, rng: TokenRange, hash: (Key, Item) -> bv64): Digest {
    var rows := RowsIn(s, tables, rng);
    Digest(|rows|, Checksum(rows.Keys, RowHash(rows, hash)))
  }

  lemma XorCancels(a: bv64, b: bv64, rest: bv64)
    ensures Xor(a, rest) == Xor(b, rest) <==> a == b
  {
    XorTwice(a, rest);
    XorTwice(b, rest);
  }

  lemma XorTwice(a: bv64, b: bv64)
    ensures Xor(Xor(a, b), b) == a
  {
  }

  /** One row that differs is noticed if and only if its hash differs. */
  lemma DigestNotices(s: Store, k: Key, item: Item, tables: set<string>, rng: TokenRange, hash: (Key, Item) -> bv64)
    requires k in s && Selected(k, tables, rng)
    ensures DigestOf(s[k := item], tables, rng, hash) == DigestOf(s, tables, rng, hash) <==> hash(k, item) == hash(k, s[k])
  {
    var rows, other := RowsIn(s, tables, rng), RowsIn(s[k := item], tables, rng);
    assert other == rows[k := item] && other.Keys == rows.Keys;
    assert |other| == |other.Keys| && |rows| == |rows.Keys|;
    ChecksumTake(rows.Keys, k, RowHash(rows, hash));
    ChecksumTake(rows.Keys, k, RowHash(other, hash));
    var rest := rows.Keys - {k};
    ChecksumSame(rest, RowHash(rows, hash), RowHash(other, hash));
    XorCancels(hash(k, item), hash(k, s[k]), Checksum(rest, RowHash(rows, hash)));
  }

  /** A missing row is always noticed. */
  lemma DigestCounts(s: Store, k: Key, tables: set<string>, rng: TokenRange, hash: (Key, Item) -> bv64)
    requires k in s && Selected(k, tables, rng)
    ensures DigestOf(s - {k}, tables, rng, hash) != DigestOf(s, tables, rng, hash)
  {
    var rows, fewer := RowsIn(s, tables, rng), RowsIn(s - {k}, tables, rng);
    assert fewer == rows - {k} && fewer.Keys == rows.Keys - {k};
    assert |fewer| == |fewer.Keys| && |rows| == |rows.Keys|;
  }

  /** An iterator over one table: every key of the table once, in some order. */
  method Iterate(s: Store, table: string) returns (keys: seq<Key>)
    ensures forall k :: k in keys <==> k in s && k.table == table
    ensures forall i, j :: 0 <= i < j < |keys| ==> keys[i] != keys[j]
  {
    keys := [];
    var left := s.Keys;
    while left != {}
      invariant left <= s.Keys
      invariant forall k :: k in keys <==> k in s && k !in left && k.table == table
      invariant forall i, j :: 0 <= i < j < |keys| ==> keys[i] != keys[j]
      decreases left
    {
      var k :| k in left;
      left := left - {k};
      if k.table == table {
        keys := keys + [k];
      }
    }
  }

  function TableSet(tables: seq<string>): set<string> {
    set t | t in tables
  }

  lemma DigestAdd(seen: set<Key>, k: Key, db: Store, hash: (Key, Item) -> bv64)
    requires k in db && k !in seen
    ensures |seen + {k}| == |seen| + 1
    ensures Checksum(seen + {k}, RowHash(db, hash)) == Xor(hash(k, db[k]), Checksum(seen, RowHash(db, hash)))
  {
    ChecksumTake(seen + {k}, k, RowHash(db, hash));
    assert seen + {k} - {k} == seen;
  }

  /** Adds the selected rows of one table. */
  method DigestTable(
    table: string, db: Store, rng: TokenRange, hash: (Key, Item) -> bv64, out0: Digest, ghost seen0: set<Key>)
      returns (out: Digest, ghost seen: set<Key>)
    requires out0 == Digest(|seen0|, Checksum(seen0, RowHash(db, hash)))
    requires forall k :: k in seen0 ==> k.table != table
    ensures out == Digest(|seen|, Checksum(seen, RowHash(db, hash)))
    ensures forall k :: k in seen <==> k in seen0 || (k in db && k.table == table && rng.Contains(k.token))
  {
    out, seen := out0, seen0;
    var keys := Iterate(db, table);
    for i := 0 to |keys|
      invariant forall k :: k in seen <==> k in seen0 || (k in keys[..i] && rng.Contains(k.token))
      invariant out == Digest(|seen|, Checksum(seen, RowHash(db, hash)))
    {
      var k := keys[i];
      assert keys[..i + 1] == keys[..i] + [k];
      if !rng.Contains(k.token) {
        continue;
      }
      assert k in keys && k !in seen;
      DigestAdd(seen, k, db, hash);
      out := Digest(out.count + 1, Xor(hash(k, db[k]), out.checksum));
      seen := seen + {k};
    }
    assert keys[..|keys|] == keys;
  }

  /** `digestPrimaryTokenRange`: the result does not depend on the iteration order. */
  method DigestPrimaryTokenRange(tables: seq<string>, db: Store, rng: TokenRange, hash: (Key, Item) -> bv64)
      returns (out: Digest)
    requires forall i, j :: 0 <= i < j < |tables| ==> tables[i] != tables[j]
    ensures out == DigestOf(db, TableSet(tables), rng, hash)
  {
    out := Digest(0, 0);
    ghost var seen: set<Key> := {};
    for n := 0 to |tables|
      invariant forall k :: k in seen <==> k in db && k.table in tables[..n] && rng.Contains(k.token)
      invariant out == Digest(|seen|, Checksum(seen, RowHash(db, hash)))
    {
      assert tables[..n + 1] == tables[..n] + [tables[n]];
      out, seen := DigestTable(tables[n], db, rng, hash, out, seen);
    }
    assert tables[..|tables|] == tables;
    ghost var rows := RowsIn(db, TableSet(tables), rng);
    assert seen == rows.Keys;
    ChecksumSame(seen, RowHash(db, hash), RowHash(rows, hash));
    assert |rows| == |rows.Keys|;
  }

  /** `verifySplitRange`. */
  method VerifySplitRange(
    tables: seq<string>, parent: Store, child: Store, rng: TokenRange, hash: (Key, Item) -> bv64)
      returns (verified: bool)
    requires forall i, j :: 0 <= i < j < |tables| ==> tables[i] != tables[j]
    ensures verified <==>
              DigestOf(parent, TableSet(tables), rng, hash) == DigestOf(child, TableSet(tables), rng, hash)
  {
    var p := DigestPrimaryTokenRange(tables, parent, rng, hash);
    var c := DigestPrimaryTokenRange(tables, child, rng, hash);
    return p == c;
  }

  /** A submap of equal size is the whole map. */
  lemma SubmapOfEqualSize(a: Store, b: Store)
    requires a.Keys <= b.Keys && (forall k :: k in a ==> a[k] == b[k])
    requires |a| == |b|
    ensures a == b
  {
    assert |a.Keys| == |a| && |b.Keys| == |b|;
    assert b.Keys == a.Keys + (b.Keys - a.Keys);
    assert |b.Keys - a.Keys| == 0;
    assert b.Keys - a.Keys == {};
  }

  /**
   Verification after the copy loop is exact, with no assumption on the hash:
   once every selected parent row is on the child, the digests agree if and only
   if the two ranges hold the same rows.
   */
  lemma VerificationIsExact(
    parent: Store, child: Store, tables: set<string>, rng: TokenRange, hash: (Key, Item) -> bv64)
    requires forall k :: k in RowsIn(parent, tables, rng) ==> k in child && child[k] == parent[k]
    ensures DigestOf(parent, tables, rng, hash) == DigestOf(child, tables, rng, hash) <==>
            RowsIn(parent, tables, rng) == RowsIn(child, tables, rng)
  {
    var p, c := RowsIn(parent, tables, rng), RowsIn(child, tables, rng);
    assert p.Keys <= c.Keys;
    if |p| == |c| {
      SubmapOfEqualSize(p, c);
    }
  }
}
