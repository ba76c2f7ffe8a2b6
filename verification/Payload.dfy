/**
 The raft log payload: batches are shipped raw or snappy-compressed behind a
 magic prefix, and the encoder keeps account of what it did.
 */
module Payload {
  import opened Wrappers

  type Byte = x: int | 0 <= x < 256
  type Bytes = seq<Byte>

  const MAGIC: Bytes := [0x89, 0x43, 0x46, 0x52, 0x41, 0x46, 0x54, 0x01]
  const COUNTERS := 0x1_0000_0000_0000_0000
  const DEFAULT_MIN_BYTES := 1024

  predicate HasPrefix(data: Bytes, prefix: Bytes) {
    prefix <= data
  }

  /** Snappy as a pair of functions; decompressing may fail. */
  datatype Snappy = Snappy(encode: Bytes -> Bytes, decode: Bytes -> Option<Bytes>)
  {
    ghost predicate Lawful() {
      forall raw :: decode(encode(raw)) == Some(raw)
    }
  }

  /** `decodeRaftPayload`. */
  function Decode(snappy: Snappy, data: Bytes): Option<Bytes> {
    if HasPrefix(data, MAGIC) then snappy.decode(data[|MAGIC|..]) else Some(data)
  }

  /** The two shapes an encoder may give a batch. */
  ghost predicate EncodedAs(snappy: Snappy, repr: Bytes, data: Bytes) {
    data == repr || data == MAGIC + snappy.encode(repr)
  }

  /** A batch that does not itself start with the magic survives encoding, whichever shape was chosen. */
  lemma RoundTrip(snappy: Snappy, repr: Bytes, data: Bytes)
    requires snappy.Lawful() && EncodedAs(snappy, repr, data) && !HasPrefix(repr, MAGIC)
    ensures Decode(snappy, data) == Some(repr)
  {
    if data != repr {
      assert data[|MAGIC|..] == snappy.encode(repr);
    }
  }

  /** Compressed, any batch survives; raw, one that starts with the magic is read as compressed. */
  lemma RoundTripIff(snappy: Snappy, repr: Bytes, compressed: bool)
    requires snappy.Lawful()
    ensures Decode(snappy, if compressed then MAGIC + snappy.encode(repr) else repr) == Some(repr)
       <==> compressed || !HasPrefix(repr, MAGIC) || snappy.decode(repr[|MAGIC|..]) == Some(repr)
  {
    if compressed {
      assert (MAGIC + snappy.encode(repr))[|MAGIC|..] == snappy.encode(repr);
    }
  }

  /** The compressed form is shorter than the batch and its savings ratio is high enough. */
  predicate Worthwhile(encodedLen: nat, len: nat, minSavings: real) {
    encodedLen < len && 1.0 - encodedLen as real / len as real >= minSavings
  }

  /** In bytes: at least the configured share of the batch is saved. */
  lemma WorthwhileInBytes(encodedLen: nat, len: nat, minSavings: real)
    requires encodedLen < len
    ensures Worthwhile(encodedLen, len, minSavings) <==> minSavings * len as real <= (len - encodedLen) as real
  {
    RatioOrder(encodedLen as real, len as real, minSavings);
  }

  lemma RatioOrder(part: real, whole: real, m: real)
    requires whole > 0.0
    ensures m <= 1.0 - part / whole <==> m * whole <= whole - part
  {
    var saved := 1.0 - part / whole;
    Distribute(part / whole, whole);
    assert part / whole * whole == part;
    assert saved * whole == whole - part;
    ScaleOrder(m, saved, whole);
  }

  lemma Distribute(q: real, c: real)
    ensures (1.0 - q) * c == c - q * c
  {
  }

  lemma ScaleOrder(a: real, b: real, c: real)
    requires c > 0.0
    ensures a <= b <==> a * c <= b * c
  {
    assert b * c - a * c == (b - a) * c;
  }

  /** One more on a 64-bit counter. */
  function Bump(n: nat): (r: nat)
    requires n < COUNTERS
    ensures r < COUNTERS && (r == n + 1 || (r == 0 && n == COUNTERS - 1))
  {
    if n + 1 == COUNTERS then 0 else n + 1
  }

  /** `raftPayloadEncoder`, with its counters and the cooldown after a batch that did not compress. */
  class Encoder {
    const snappyMode: bool
    const minBytes: int
    const minSavings: real
    const cooldown: int
    var skipUntil: int
    var rawBytes: nat
    var encodedBytes: nat
    var compressedPayloads: nat
    var rawPayloads: nat
    var skippedPayloads: nat

    /** Counters are 64 bits wide and start again from zero. */
    ghost predicate Valid()
      reads this
    {
      && minBytes > 0 && rawBytes < COUNTERS && encodedBytes < COUNTERS
      && compressedPayloads < COUNTERS && rawPayloads < COUNTERS && skippedPayloads < COUNTERS
    }

    constructor (snappyMode: bool, minBytes: nat, minSavings: real, cooldown: nat)
      requires 0.0 <= minSavings < 1.0
      ensures Valid() && this.snappyMode == snappyMode && this.minSavings == minSavings && this.cooldown == cooldown
      ensures this.minBytes == (if minBytes == 0 then DEFAULT_MIN_BYTES else minBytes) && skipUntil == 0
      ensures rawBytes == encodedBytes == compressedPayloads == rawPayloads == skippedPayloads == 0
    {
      this.snappyMode, this.minSavings, this.cooldown := snappyMode, minSavings, cooldown;
      this.minBytes := if minBytes == 0 then DEFAULT_MIN_BYTES else minBytes;
      skipUntil := 0;
      rawBytes, encodedBytes, compressedPayloads, rawPayloads, skippedPayloads := 0, 0, 0, 0, 0;
    }

    /** Payloads counted so far, of every kind. */
    function Payloads(): int
      reads this
    {
      compressedPayloads + rawPayloads + skippedPayloads
    }

    /** The batch is large enough to be compressed at all. */
    predicate Eligible(repr: Bytes) {
      snappyMode && |repr| >= minBytes
    }

    /** A batch did not compress well a short while ago. */
    predicate Cooling(now: int)
      reads this
    {
      cooldown > 0 && now < skipUntil
    }

    /** `encode`: one of three counters moves, and only a failed attempt starts a cooldown. */
    method Encode(snappy: Snappy, repr: Bytes, now: int) returns (data: Bytes)
      requires Valid()
      modifies this
      ensures EncodedAs(snappy, repr, data) && |data| <= |repr|
      ensures |data| < |repr| <==> Eligible(repr) && !old(Cooling(now))
                                   && Worthwhile(|snappy.encode(repr)| + |MAGIC|, |repr|, minSavings)
      ensures rawBytes == (old(rawBytes) + |repr|) % COUNTERS
      ensures encodedBytes == (old(encodedBytes) + |data|) % COUNTERS
      ensures Valid()
      ensures Payloads() == old(Payloads()) + 1 || Payloads() == old(Payloads()) + 1 - COUNTERS
      ensures compressedPayloads == if |data| < |repr| then Bump(old(compressedPayloads)) else old(compressedPayloads)
      ensures skippedPayloads == if Eligible(repr) && old(Cooling(now)) then Bump(old(skippedPayloads)) else old(skippedPayloads)
      ensures rawPayloads == if !Eligible(repr) || (!old(Cooling(now)) && |data| == |repr|) then Bump(old(rawPayloads))
                             else old(rawPayloads)
      ensures skipUntil == if Eligible(repr) && !old(Cooling(now)) && |data| == |repr| && cooldown > 0 then now + cooldown
                           else old(skipUntil)
    {
      rawBytes := (rawBytes + |repr|) % COUNTERS;
      if !snappyMode || |repr| < minBytes {
        rawPayloads := Bump(rawPayloads);
        data := repr;
      } else if cooldown > 0 && now < skipUntil {
        skippedPayloads := Bump(skippedPayloads);
        data := repr;
      } else {
        var compressed := snappy.encode(repr);
        var encodedLen := |compressed| + |MAGIC|;
        if !Worthwhile(encodedLen, |repr|, minSavings) {
          if cooldown > 0 {
            skipUntil := now + cooldown;
          }
          rawPayloads := Bump(rawPayloads);
          data := repr;
        } else {
          compressedPayloads := Bump(compressedPayloads);
          data := MAGIC + compressed;
        }
      }
      encodedBytes := (encodedBytes + |data|) % COUNTERS;
    }
  }
}
