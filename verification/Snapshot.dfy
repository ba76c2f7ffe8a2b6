/**
 The raft snapshot stream: every key of the state range, length-prefixed, read
 back into a store whose own state range is wiped first.
 */
module Snapshot {
  import opened Wrappers
  import opened Payload

  type Store = map<Bytes, Bytes>

  datatype Entry = Entry(key: Bytes, value: Bytes)

  const WORD := 0x1_0000_0000
  const HEADER: Bytes := [0x43, 0x46, 0x41, 0x53]
  const VERSION := 1
  const TAG_ENTRY: Byte := 1
  const TAG_EOF: Byte := 0
  const FLUSH_EVERY := 1024

  /** "cefas/", and "cefas0" just past every key that starts with it. */
  const STATE_PREFIX: Bytes := [0x63, 0x65, 0x66, 0x61, 0x73, 0x2F]
  const STATE_END: Bytes := [0x63, 0x65, 0x66, 0x61, 0x73, 0x30]

  // ---- the state range --------------------------------------------------------------------

  /** Byte-wise order of keys, as the store compares them. */
  predicate Less(a: Bytes, b: Bytes)
    decreases |b|
  {
    b != [] && (a == [] || a[0] < b[0] || (a[0] == b[0] && Less(a[1..], b[1..])))
  }

  predicate InRange(k: Bytes) {
    !Less(k, STATE_PREFIX) && Less(k, STATE_END)
  }

  lemma {:induction false} RangeFrom(k: Bytes, i: nat)
    requires i <= 5
    ensures !Less(k, STATE_PREFIX[i..]) && Less(k, STATE_END[i..]) <==> HasPrefix(k, STATE_PREFIX[i..])
    decreases 5 - i
  {
    var p, e := STATE_PREFIX[i..], STATE_END[i..];
    if k != [] {
      if i == 5 {
        assert p == [0x2F] && e == [0x30];
        assert p[1..] == [] && e[1..] == [];
      } else {
        assert p[0] == e[0] && p[1..] == STATE_PREFIX[i + 1..] && e[1..] == STATE_END[i + 1..];
        RangeFrom(k[1..], i + 1);
        assert p <= k <==> p[0] == k[0] && p[1..] <= k[1..];
      }
    }
  }

  /** The iterator's bounds select exactly the keys that start with the prefix. */
  lemma RangeIsPrefix(k: Bytes)
    ensures InRange(k) <==> HasPrefix(k, STATE_PREFIX)
  {
    RangeFrom(k, 0);
    assert STATE_PREFIX[0..] == STATE_PREFIX && STATE_END[0..] == STATE_END;
  }

  // ---- the format ---------------------------------------------------------------------------

  /** A 32-bit length, high byte first; the source converts with `uint32`, which truncates. */
  function Word(n: nat): (w: Bytes)
    ensures |w| == 4
  {
    var x := n % WORD;
    var y := x / 0x100;
    var z := y / 0x100;
    [z / 0x100, z % 0x100, y % 0x100, x % 0x100]
  }

  function FromWord(w: Bytes): (n: nat)
    requires |w| == 4
    ensures n < WORD
  {
    0x100_0000 * w[0] as int + 0x1_0000 * w[1] as int + 0x100 * w[2] as int + w[3] as int
  }

  lemma WordRoundTrip(n: nat)
    ensures FromWord(Word(n)) == n % WORD
  {
    var x := n % WORD;
    var y := x / 0x100;
    var z := y / 0x100;
    assert x == 0x100 * y + x % 0x100 && y == 0x100 * z + y % 0x100 && z == 0x100 * (z / 0x100) + z % 0x100;
  }

  function Block(b: Bytes): Bytes {
    Word(|b|) + b
  }

  function EntryBytes(e: Entry): Bytes {
    [TAG_ENTRY] + Block(e.key) + Block(e.value)
  }

  /** Everything after the header. */
  function Body(entries: seq<Entry>): Bytes {
    if entries == [] then [TAG_EOF] else EntryBytes(entries[0]) + Body(entries[1..])
  }

  function Stream(entries: seq<Entry>): Bytes {
    HEADER + Word(VERSION) + Body(entries)
  }

  /** One length-prefixed block and what follows it. */
  function TakeBlock(r: Bytes): Option<(Bytes, Bytes)> {
    if |r| < 4 then None
    else
      var n := FromWord(r[..4]);
      if |r| < 4 + n then None else Some((r[4..4 + n], r[4 + n..]))
  }

  function TakeEntry(r: Bytes): (e: Option<(Entry, Bytes)>)
    ensures e.Some? ==> |e.value.1| < |r|
  {
    var k := TakeBlock(r);
    if k.None? then None
    else
      var v := TakeBlock(k.value.1);
      if v.None? then None else Some((Entry(k.value.0, v.value.0), v.value.1))
  }

  /** What a reader makes of the bytes after the header; `None` for a stream it refuses. */
  function Entries(r: Bytes): Option<seq<Entry>>
    decreases |r|
  {
    if r == [] then None
    else if r[0] == TAG_EOF then Some([])
    else if r[0] != TAG_ENTRY then None
    else
      var e := TakeEntry(r[1..]);
      if e.None? then None
      else
        var more := Entries(e.value.1);
        if more.None? then None else Some([e.value.0] + more.value)
  }

  predicate GoodHeader(r: Bytes) {
    |r| >= 8 && r[..4] == HEADER && FromWord(r[4..8]) == VERSION
  }

  function Parse(r: Bytes): Option<seq<Entry>> {
    if GoodHeader(r) then Entries(r[8..]) else None
  }

  // ---- round trip and truncation ----------------------------------------------------------------

  predicate Fits(e: Entry) {
    |e.key| < WORD && |e.value| < WORD
  }

  /** Of a block and what follows it, cut after `n` bytes. */
  lemma BlockCut(b: Bytes, rest: Bytes, n: nat)
    requires |b| < WORD && n <= |Block(b) + rest|
    ensures TakeBlock((Block(b) + rest)[..n])
         == if n < |Block(b)| then None else Some((b, rest[..n - |Block(b)|]))
  {
    WordRoundTrip(|b|);
    var r := (Block(b) + rest)[..n];
    if n >= 4 {
      assert r[..4] == Word(|b|);
      if n >= |Block(b)| {
        assert r[4..4 + |b|] == b;
        assert r[4 + |b|..] == rest[..n - |Block(b)|];
      }
    }
  }

  lemma EntryCut(e: Entry, rest: Bytes, n: nat)
    requires Fits(e) && n <= |Block(e.key) + Block(e.value) + rest|
    ensures TakeEntry((Block(e.key) + Block(e.value) + rest)[..n])
         == if n < |Block(e.key)| + |Block(e.value)| then None
            else Some((e, rest[..n - |Block(e.key)| - |Block(e.value)|]))
  {
    var tail := Block(e.value) + rest;
    assert Block(e.key) + Block(e.value) + rest == Block(e.key) + tail;
    BlockCut(e.key, tail, n);
    if n >= |Block(e.key)| {
      BlockCut(e.value, rest, n - |Block(e.key)|);
    }
  }

  /** Entries read so far, and what the rest of the stream will give. */
  ghost function Joined(all: seq<Entry>, more: Option<seq<Entry>>): Option<seq<Entry>> {
    if more.None? then None else Some(all + more.value)
  }

  /** A tagged key and value and what follows, cut after `n` bytes, for blocks that read as `e` says. */
  lemma TaggedCut(e: Entry, k: Bytes, v: Bytes, rest: Bytes, n: nat)
    requires 0 < n <= 1 + |k| + |v| + |rest|
    requires TakeEntry((k + v + rest)[..n - 1])
          == if n - 1 < |k| + |v| then None else Some((e, rest[..n - 1 - |k| - |v|]))
    ensures Entries(([TAG_ENTRY] + k + v + rest)[..n])
         == if n < 1 + |k| + |v| then None else Joined([e], Entries(rest[..n - 1 - |k| - |v|]))
  {
    var r := ([TAG_ENTRY] + k + v + rest)[..n];
    assert r[0] == TAG_ENTRY && r[1..] == (k + v + rest)[..n - 1];
  }

  lemma EntryStep(e: Entry, rest: Bytes, n: nat)
    requires Fits(e) && 0 < n <= |EntryBytes(e) + rest|
    ensures var size := |EntryBytes(e)|;
            Entries((EntryBytes(e) + rest)[..n]) == if n < size then None else Joined([e], Entries(rest[..n - size]))
  {
    EntryCut(e, rest, n - 1);
    TaggedCut(e, Block(e.key), Block(e.value), rest, n);
  }

  /** The body reads back as its entries, and cut anywhere before its end it is refused. */
  lemma {:induction false} BodyCut(entries: seq<Entry>, n: nat)
    requires (forall i :: 0 <= i < |entries| ==> Fits(entries[i])) && n <= |Body(entries)|
    ensures Entries(Body(entries)[..n]) == if n == |Body(entries)| then Some(entries) else None
    decreases |entries|
  {
    if n == 0 {
      assert Body(entries)[..n] == [];
    } else if entries == [] {
      assert Body(entries)[..n] == [TAG_EOF];
    } else {
      var e, more := entries[0], entries[1..];
      var size := |EntryBytes(e)|;
      assert entries == [e] + more && Body(entries) == EntryBytes(e) + Body(more);
      EntryStep(e, Body(more), n);
      if n >= size {
        BodyCut(more, n - size);
      }
    }
  }

  /** Reading back a written stream gives its entries. */
  lemma ParseStream(entries: seq<Entry>)
    requires forall i :: 0 <= i < |entries| ==> Fits(entries[i])
    ensures Parse(Stream(entries)) == Some(entries)
  {
    var r := Stream(entries);
    WordRoundTrip(VERSION);
    assert r[..4] == HEADER && r[4..8] == Word(VERSION) && r[8..] == Body(entries);
    BodyCut(entries, |Body(entries)|);
    assert Body(entries)[..|Body(entries)|] == Body(entries);
  }

  /** Every proper prefix of a written stream is refused. */
  lemma PrefixRefused(entries: seq<Entry>, n: nat)
    requires (forall i :: 0 <= i < |entries| ==> Fits(entries[i])) && n < |Stream(entries)|
    ensures Parse(Stream(entries)[..n]).None?
  {
    var r := Stream(entries)[..n];
    if n >= 8 {
      assert r[8..] == Body(entries)[..n - 8];
      BodyCut(entries, n - 8);
    }
  }

  // ---- stores -----------------------------------------------------------------------------------

  /** `DeleteRange` over the state range. */
  function Wiped(db: Store): Store {
    map k | k in db && !InRange(k) :: db[k]
  }

  ghost function Added(db: Store, entries: seq<Entry>): Store {
    if entries == [] then db
    else
      var last := entries[|entries| - 1];
      Added(db, entries[..|entries| - 1])[last.key := last.value]
  }

  lemma {:induction false} AddedConcat(db: Store, a: seq<Entry>, b: seq<Entry>)
    ensures Added(db, a + b) == Added(Added(db, a), b)
  {
    if b == [] {
      assert a + b == a;
    } else {
      AddedConcat(db, a, b[..|b| - 1]);
      assert (a + b)[..|a + b| - 1] == a + b[..|b| - 1];
    }
  }

  /** The keys of the state range. */
  function StateKeys(db: Store): set<Bytes> {
    set k | k in db && InRange(k)
  }

  /** The entries are the rows of the given keys, each key once. */
  ghost predicate Lists(db: Store, entries: seq<Entry>, keys: set<Bytes>) {
    && (forall i, j :: 0 <= i < j < |entries| ==> entries[i].key != entries[j].key)
    && (forall i :: 0 <= i < |entries| ==> entries[i].key in keys && Lookup(db, entries[i].key) == Some(entries[i].value))
    && (forall k :: k in keys ==> Listed(entries, k))
  }

  ghost predicate Listed(entries: seq<Entry>, k: Bytes) {
    exists i :: 0 <= i < |entries| && entries[i].key == k
  }

  function Lookup(db: Store, k: Bytes): Option<Bytes> {
    if k in db then Some(db[k]) else None
  }

  lemma ListOne(db: Store, entries: seq<Entry>, keys: set<Bytes>, k: Bytes)
    requires Lists(db, entries, keys) && k in db && k !in keys
    ensures Lists(db, entries + [Entry(k, db[k])], keys + {k})
  {
    var more := entries + [Entry(k, db[k])];
    forall q | q in keys + {k} ensures Listed(more, q) {
      if q == k {
        assert more[|entries|].key == q;
      } else {
        assert Listed(entries, q);
        var i :| 0 <= i < |entries| && entries[i].key == q;
        assert more[i].key == q;
      }
    }
  }

  /** The loop of `writeSnapshot`, over the keys in whatever order the iterator gives them. */
  method WriteRows(db: Store, keys: set<Bytes>) returns (body: Bytes, ghost entries: seq<Entry>)
    requires keys <= db.Keys
    ensures Lists(db, entries, keys) && body == AllBytes(entries)
  {
    body, entries := [], [];
    var left := keys;
    while left != {}
      invariant left <= keys && Lists(db, entries, keys - left)
      invariant body == AllBytes(entries)
      decreases left
    {
      var k :| k in left;
      var e := Entry(k, db[k]);
      ListOne(db, entries, keys - left, k);
      assert keys - left + {k} == keys - (left - {k});
      AllBytesSnoc(entries, e);
      body := body + EntryBytes(e);
      entries := entries + [e];
      left := left - {k};
    }
    assert keys - {} == keys;
  }

  /** `writeSnapshot`. */
  method WriteSnapshot(db: Store) returns (w: Bytes)
    ensures exists entries :: Lists(db, entries, StateKeys(db)) && w == Stream(entries)
  {
    var body, entries := WriteRows(db, StateKeys(db));
    BodyIsAll(entries);
    w := HEADER + Word(VERSION) + (body + [TAG_EOF]);
    assert Lists(db, entries, StateKeys(db)) && w == Stream(entries);
  }

  lemma AllBytesSnoc(entries: seq<Entry>, e: Entry)
    ensures AllBytes(entries + [e]) == AllBytes(entries) + EntryBytes(e)
  {
    assert (entries + [e])[..|entries|] == entries;
  }

  /** The entries' bytes, without the end mark. */
  ghost function AllBytes(entries: seq<Entry>): Bytes {
    if entries == [] then [] else AllBytes(entries[..|entries| - 1]) + EntryBytes(entries[|entries| - 1])
  }

  lemma {:induction false} BodyIsAll(entries: seq<Entry>)
    ensures Body(entries) == AllBytes(entries) + [TAG_EOF]
  {
    AllThenBody(entries, |entries|);
    assert entries[..|entries|] == entries && entries[|entries|..] == [];
  }

  lemma {:induction false} AllThenBody(entries: seq<Entry>, n: nat)
    requires n <= |entries|
    ensures Body(entries) == AllBytes(entries[..n]) + Body(entries[n..])
  {
    if n == 0 {
      assert entries[..0] == [] && entries[0..] == entries;
    } else {
      AllThenBody(entries, n - 1);
      assert entries[n - 1..][1..] == entries[n..] && entries[n - 1..][0] == entries[n - 1];
      assert entries[..n][..n - 1] == entries[..n - 1] && entries[..n][n - 1] == entries[n - 1];
    }
  }

  /** `io.ReadFull` of a length and then that many bytes. */
  method ReadBlock(r: Bytes) returns (b: Option<(Bytes, Bytes)>)
    ensures b == TakeBlock(r)
  {
    if |r| < 4 {
      return None;
    }
    var n := FromWord(r[..4]);
    var rest := r[4..];
    if |rest| < n {
      return None;
    }
    assert rest[..n] == r[4..4 + n] && rest[n..] == r[4 + n..];
    return Some((rest[..n], rest[n..]));
  }

  /** A key and a value, each behind its length. */
  method ReadEntry(r: Bytes) returns (e: Option<(Entry, Bytes)>)
    ensures e == TakeEntry(r)
  {
    var k := ReadBlock(r);
    if k.None? {
      return None;
    }
    var v := ReadBlock(k.value.1);
    if v.None? {
      return None;
    }
    return Some((Entry(k.value.0, v.value.0), v.value.1));
  }

  /** The entries that can be read before the end mark or the first fault. */
  function Intact(r: Bytes): seq<Entry>
    decreases |r|
  {
    if r == [] || r[0] != TAG_ENTRY then []
    else
      var e := TakeEntry(r[1..]);
      if e.None? then [] else [e.value.0] + Intact(e.value.1)
  }

  /** Of a good stream those are all its entries. */
  lemma {:induction false} IntactIsAll(r: Bytes)
    requires Entries(r).Some?
    ensures Entries(r).value == Intact(r)
    decreases |r|
  {
    if r[0] == TAG_ENTRY {
      IntactIsAll(TakeEntry(r[1..]).value.1);
    }
  }

  /** What has been committed once the reader stops: everything, or the full batches before a fault. */
  ghost function CommittedOf(r: Bytes): seq<Entry> {
    var intact := Intact(r);
    if Entries(r).Some? then intact else intact[..|intact| / FLUSH_EVERY * FLUSH_EVERY]
  }

  /** `all` has been read and `rest` is still to come. */
  ghost predicate ReadTo(body: Bytes, all: seq<Entry>, rest: Bytes) {
    (Entries(body).Some? <==> Entries(rest).Some?) && Intact(body) == all + Intact(rest)
  }

  lemma ReadOn(body: Bytes, all: seq<Entry>, rest: Bytes, e: Entry, more: Bytes)
    requires ReadTo(body, all, rest)
    requires rest != [] && rest[0] == TAG_ENTRY && TakeEntry(rest[1..]) == Some((e, more))
    ensures ReadTo(body, all + [e], more)
  {
    var tail := Intact(more);
    assert Intact(rest) == [e] + tail;
    assert all + ([e] + tail) == (all + [e]) + tail;
  }

  /** Where the reader stops, by the end mark or a fault, nothing more can be read. */
  lemma ReadEnds(body: Bytes, all: seq<Entry>, rest: Bytes)
    requires ReadTo(body, all, rest)
    requires rest == [] || rest[0] != TAG_ENTRY || TakeEntry(rest[1..]).None?
    ensures Intact(body) == all
    ensures Entries(body).Some? <==> rest != [] && rest[0] == TAG_EOF
  {
    assert Intact(rest) == [];
  }

  /** At the end mark everything has been read. */
  lemma Accepted(body: Bytes, seen: seq<Entry>, batch: seq<Entry>, rest: Bytes)
    requires ReadTo(body, seen + batch, rest) && rest != [] && rest[0] == TAG_EOF
    ensures Entries(body).Some? && CommittedOf(body) == seen + batch
    ensures batch == [] ==> CommittedOf(body) == seen
  {
    ReadEnds(body, seen + batch, rest);
  }

  /** At a fault what has been committed is the full batches. */
  lemma Refused(body: Bytes, seen: seq<Entry>, batch: seq<Entry>, flushes: nat, rest: Bytes)
    requires ReadTo(body, seen + batch, rest)
    requires rest == [] || (rest[0] != TAG_EOF && (rest[0] != TAG_ENTRY || TakeEntry(rest[1..]).None?))
    requires |batch| < FLUSH_EVERY && |seen| == FLUSH_EVERY * flushes
    ensures Entries(body).None? && CommittedOf(body) == seen
  {
    var all := seen + batch;
    ReadEnds(body, all, rest);
    assert |all| / FLUSH_EVERY == flushes;
  }

  /**
   The loop of `readSnapshot`: entries are collected in a batch and committed
   1024 at a time; a stream refused on the way leaves the batches committed so far.
   */
  method ReadBody(body: Bytes, base: Store) returns (ok: bool, db: Store)
    ensures ok <==> Entries(body).Some?
    ensures db == Added(base, CommittedOf(body))
  {
    db := base;
    var rest, batch: seq<Entry> := body, [];
    ghost var all: seq<Entry>, seen: seq<Entry>, flushes: nat := [], [], 0;
    assert [] + Intact(body) == Intact(body);
    while true
      invariant db == Added(base, seen) && all == seen + batch
      invariant |batch| < FLUSH_EVERY && |seen| == FLUSH_EVERY * flushes
      invariant ReadTo(body, all, rest)
      decreases |rest|
    {
      if rest == [] {
        Refused(body, seen, batch, flushes, rest);
        return false, db;
      }
      if rest[0] == TAG_EOF {
        break;
      }
      if rest[0] != TAG_ENTRY {
        Refused(body, seen, batch, flushes, rest);
        return false, db;
      }
      var e := ReadEntry(rest[1..]);
      if e.None? {
        Refused(body, seen, batch, flushes, rest);
        return false, db;
      }
      ReadOn(body, all, rest, e.value.0, e.value.1);
      assert all + [e.value.0] == seen + (batch + [e.value.0]);
      batch, rest, all := batch + [e.value.0], e.value.1, all + [e.value.0];
      if |batch| >= FLUSH_EVERY {
        db := Commit(base, seen, db, batch);
        seen, flushes := seen + batch, flushes + 1;
        batch := [];
      }
    }
    Accepted(body, seen, batch, rest);
    if |batch| > 0 {
      db := Commit(base, seen, db, batch);
    }
    return true, db;
  }

  /** `readSnapshot`: the state range is wiped once the header is good. */
  method ReadSnapshot(r: Bytes, db: Store) returns (ok: bool, db': Store)
    ensures ok <==> Parse(r).Some?
    ensures db' == if GoodHeader(r) then Added(Wiped(db), CommittedOf(r[8..])) else db
  {
    if |r| < 4 || r[..4] != HEADER {
      return false, db;
    }
    if |r| < 8 || FromWord(r[4..8]) != VERSION {
      return false, db;
    }
    ok, db' := ReadBody(r[8..], Wiped(db));
  }

  /** A batch commit. */
  method Commit(ghost base: Store, ghost seen: seq<Entry>, db: Store, batch: seq<Entry>) returns (db': Store)
    requires db == Added(base, seen)
    ensures db' == Added(base, seen + batch)
  {
    db' := db;
    for n := 0 to |batch|
      invariant db' == Added(db, batch[..n])
    {
      assert batch[..n + 1][..n] == batch[..n];
      db' := db'[batch[n].key := batch[n].value];
    }
    assert batch[..|batch|] == batch;
    AddedConcat(base, seen, batch);
  }

  // ---- restore inverts write ------------------------------------------------------------------------

  lemma {:induction false} AddedKey(db: Store, entries: seq<Entry>, k: Bytes)
    requires forall i, j :: 0 <= i < j < |entries| ==> entries[i].key != entries[j].key
    ensures (forall i :: 0 <= i < |entries| ==> entries[i].key != k) ==>
              (k in Added(db, entries) <==> k in db) && (k in db ==> Added(db, entries)[k] == db[k])
    ensures forall i :: 0 <= i < |entries| && entries[i].key == k ==>
                          k in Added(db, entries) && Added(db, entries)[k] == entries[i].value
  {
    if entries != [] {
      AddedKey(db, entries[..|entries| - 1], k);
    }
  }

  /**
   Restoring a written snapshot into any store gives the source's state range
   and leaves every other key of that store alone.
   */
  lemma RestoreInvertsWrite(src: Store, entries: seq<Entry>, dst: Store, k: Bytes)
    requires Lists(src, entries, StateKeys(src))
    ensures Lookup(Added(Wiped(dst), entries), k) == Lookup(if InRange(k) then src else dst, k)
  {
    AddedKey(Wiped(dst), entries, k);
    if Listed(entries, k) {
      var i :| 0 <= i < |entries| && entries[i].key == k;
    } else {
      assert k !in StateKeys(src);
    }
  }

  /** The whole trip: write, read back into another store. */
  method Transfer(src: Store, dst: Store) returns (ok: bool, after: Store)
    requires forall k :: k in StateKeys(src) ==> |k| < WORD && |src[k]| < WORD
    ensures ok
    ensures forall k :: Lookup(after, k) == Lookup(if InRange(k) then src else dst, k)
  {
    var w := WriteSnapshot(src);
    ghost var entries :| Lists(src, entries, StateKeys(src)) && w == Stream(entries);
    ParseStream(entries);
    ok, after := ReadSnapshot(w, dst);
    IntactIsAll(w[8..]);
    forall k ensures Lookup(after, k) == Lookup(if InRange(k) then src else dst, k) {
      RestoreInvertsWrite(src, entries, dst, k);
    }
  }
}
