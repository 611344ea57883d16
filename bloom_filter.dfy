/** A Bloom filter over a fixed-length bit array: `add` sets the bits a key
    addresses, `check` reports a key absent at the first addressed bit that is
    clear. The seeded hash is a parameter of the filter, so every property
    below holds for every hash function. */
module Bloom {

  /** A signed 32-bit integer, the range of murmur3's seeded hash. */
  type Int32 = h: int | -0x8000_0000 <= h < 0x8000_0000

  /** Keys are the records' identifying strings. */
  type Key = string

  /** A hash function reparametrised by an integer seed. */
  type SeededHash = (Key, nat) -> Int32

  /** The two answers of `check`. */
  datatype Verdict = NotInDB | ProbablyInDB {
    /** The string the filter hands back for this answer; the two strings
        differ, so the answer can be read back from it. */
    function Label(): (s: string)
      ensures s == "Not in the DB" <==> this == NotInDB
      ensures s == "Probably in the DB" <==> this == ProbablyInDB
    {
      match this
      case NotInDB => "Not in the DB"
      case ProbablyInDB => "Probably in the DB"
    }
  }

  // ---------------------------------------------------------------------------
  // Positions addressed by a key
  // ---------------------------------------------------------------------------

  /** The bit that `key` addresses under `seed`: the hash modulo the size,
      with Python's floored modulo (Dafny's `%` agrees with it for a
      positive divisor, also on negative hashes). */
  function Position(hash: SeededHash, key: Key, seed: nat, size: nat): (p: nat)
    requires size > 0
    ensures p < size
  {
    hash(key, seed) % size
  }

  /** Bit `i` is addressed by `key` under one of the seeds `0 .. k-1`. */
  ghost predicate Addressed(hash: SeededHash, key: Key, k: nat, size: nat, i: nat) {
    size > 0 && exists s :: 0 <= s < k && Position(hash, key, s, size) == i
  }

  /** Every bit that is on in `before` is on in `after`, which has the same length. */
  ghost predicate Covers(after: seq<bool>, before: seq<bool>) {
    |after| == |before| && forall i :: 0 <= i < |before| && before[i] ==> after[i]
  }

  /** The all-clear bit array a new filter starts with. */
  function Cleared(size: nat): (bits: seq<bool>)
    ensures |bits| == size && forall i :: 0 <= i < size ==> !bits[i]
  {
    seq(size, _ => false)
  }

  // ---------------------------------------------------------------------------
  // Insertion
  // ---------------------------------------------------------------------------

  /** The bit array after `add(key)` with `k` hashes: the positions of seeds
      `0 .. k-1` are set one after the other. */
  function Insert(bits: seq<bool>, hash: SeededHash, key: Key, k: nat): (r: seq<bool>)
    requires k > 0 ==> |bits| > 0
    ensures |r| == |bits|
  {
    if k == 0 then bits
    else Insert(bits, hash, key, k - 1)[Position(hash, key, k - 1, |bits|) := true]
  }

  /** After `add(key)` a bit is on exactly when it was on before or `key`
      addresses it: the add sets its positions and changes nothing else. */
  lemma {:induction false} InsertAt(bits: seq<bool>, hash: SeededHash, key: Key, k: nat, i: nat)
    requires k > 0 ==> |bits| > 0
    requires i < |bits|
    ensures Insert(bits, hash, key, k)[i] == (bits[i] || Addressed(hash, key, k, |bits|, i))
  {
    if k > 0 {
      var p := Position(hash, key, k - 1, |bits|);
      InsertAt(bits, hash, key, k - 1, i);
      if i == p {
        assert Addressed(hash, key, k, |bits|, i);
      } else {
        assert Addressed(hash, key, k, |bits|, i) == Addressed(hash, key, k - 1, |bits|, i) by {
          if Addressed(hash, key, k, |bits|, i) {
            var s :| 0 <= s < k && Position(hash, key, s, |bits|) == i;
            assert s < k - 1;
          }
        }
      }
    }
  }

  /** `add` only turns bits on, and keeps the length of the array. */
  lemma {:induction false} InsertCovers(bits: seq<bool>, hash: SeededHash, key: Key, k: nat)
    requires k > 0 ==> |bits| > 0
    ensures Covers(Insert(bits, hash, key, k), bits)
  {
    forall i | 0 <= i < |bits| && bits[i] ensures Insert(bits, hash, key, k)[i] {
      InsertAt(bits, hash, key, k, i);
    }
  }

  /** Every position `key` addresses is on after `add(key)`. */
  lemma {:induction false} InsertSetsAddressed(bits: seq<bool>, hash: SeededHash, key: Key, k: nat)
    requires k > 0 ==> |bits| > 0
    ensures forall s :: 0 <= s < k ==> Insert(bits, hash, key, k)[Position(hash, key, s, |bits|)]
  {
    forall s | 0 <= s < k ensures Insert(bits, hash, key, k)[Position(hash, key, s, |bits|)] {
      InsertAt(bits, hash, key, k, Position(hash, key, s, |bits|));
    }
  }

  /** Adding a key a second time changes nothing. */
  lemma InsertIdempotent(bits: seq<bool>, hash: SeededHash, key: Key, k: nat)
    requires k > 0 ==> |bits| > 0
    ensures Insert(Insert(bits, hash, key, k), hash, key, k) == Insert(bits, hash, key, k)
  {
    var once := Insert(bits, hash, key, k);
    var twice := Insert(once, hash, key, k);
    forall i | 0 <= i < |bits| ensures twice[i] == once[i] {
      InsertAt(bits, hash, key, k, i);
      InsertAt(once, hash, key, k, i);
    }
  }

  /** The order in which two keys are added does not matter. */
  lemma InsertCommutes(bits: seq<bool>, hash: SeededHash, x: Key, y: Key, k: nat)
    requires k > 0 ==> |bits| > 0
    ensures Insert(Insert(bits, hash, x, k), hash, y, k) == Insert(Insert(bits, hash, y, k), hash, x, k)
  {
    var withX, withY := Insert(bits, hash, x, k), Insert(bits, hash, y, k);
    var xy, yx := Insert(withX, hash, y, k), Insert(withY, hash, x, k);
    forall i | 0 <= i < |bits| ensures xy[i] == yx[i] {
      InsertAt(bits, hash, x, k, i);
      InsertAt(bits, hash, y, k, i);
      InsertAt(withX, hash, y, k, i);
      InsertAt(withY, hash, x, k, i);
    }
  }

  /** The bit array after adding `keys` in order, as the reference keys are
      added one by one to build the filter. */
  function InsertAll(bits: seq<bool>, hash: SeededHash, keys: seq<Key>, k: nat): (r: seq<bool>)
    requires k > 0 ==> |bits| > 0
    ensures |r| == |bits|
    decreases keys
  {
    if keys == [] then bits
    else InsertAll(Insert(bits, hash, keys[0], k), hash, keys[1..], k)
  }

  /** Adding any sequence of keys only turns bits on. */
  lemma {:induction false} InsertAllCovers(bits: seq<bool>, hash: SeededHash, keys: seq<Key>, k: nat)
    requires k > 0 ==> |bits| > 0
    ensures Covers(InsertAll(bits, hash, keys, k), bits)
    decreases keys
  {
    if keys != [] {
      var next := Insert(bits, hash, keys[0], k);
      InsertCovers(bits, hash, keys[0], k);
      InsertAllCovers(next, hash, keys[1..], k);
    }
  }

  /** After adding `keys`, a bit is on exactly when it was on before or some
      key of the sequence addresses it. */
  lemma {:induction false} InsertAllAt(bits: seq<bool>, hash: SeededHash, keys: seq<Key>, k: nat, i: nat)
    requires k > 0 ==> |bits| > 0
    requires i < |bits|
    ensures InsertAll(bits, hash, keys, k)[i] == (bits[i] || exists key :: key in keys && Addressed(hash, key, k, |bits|, i))
    decreases keys
  {
    if keys != [] {
      var next := Insert(bits, hash, keys[0], k);
      InsertAt(bits, hash, keys[0], k, i);
      InsertAllAt(next, hash, keys[1..], k, i);
      assert forall key :: key in keys <==> key == keys[0] || key in keys[1..];
    }
  }

  /** The filter depends only on the set of keys added: neither their order
      nor repetitions matter. */
  lemma InsertAllSet(bits: seq<bool>, hash: SeededHash, xs: seq<Key>, ys: seq<Key>, k: nat)
    requires k > 0 ==> |bits| > 0
    requires forall key :: key in xs <==> key in ys
    ensures InsertAll(bits, hash, xs, k) == InsertAll(bits, hash, ys, k)
  {
    var fromXs, fromYs := InsertAll(bits, hash, xs, k), InsertAll(bits, hash, ys, k);
    forall i | 0 <= i < |bits| ensures fromXs[i] == fromYs[i] {
      InsertAllAt(bits, hash, xs, k, i);
      InsertAllAt(bits, hash, ys, k, i);
    }
  }

  // ---------------------------------------------------------------------------
  // Query
  // ---------------------------------------------------------------------------

  /** The answer of `check`'s loop from `seed` on: absent at the first
      addressed bit that is clear, probably present when none is. */
  function QueryFrom(bits: seq<bool>, hash: SeededHash, key: Key, k: nat, seed: nat): (v: Verdict)
    requires k > 0 ==> |bits| > 0
    ensures v == NotInDB <==> exists s :: seed <= s < k && !bits[Position(hash, key, s, |bits|)]
    decreases k - seed
  {
    if seed >= k then ProbablyInDB
    else if !bits[Position(hash, key, seed, |bits|)] then NotInDB
    else QueryFrom(bits, hash, key, k, seed + 1)
  }

  /** The answer of `check(key)` on the bit array `bits` with `k` hashes. */
  function Query(bits: seq<bool>, hash: SeededHash, key: Key, k: nat): (v: Verdict)
    requires k > 0 ==> |bits| > 0
    ensures v == NotInDB <==> exists s :: 0 <= s < k && !bits[Position(hash, key, s, |bits|)]
  {
    QueryFrom(bits, hash, key, k, 0)
  }

  /** A key that is probably present stays so when more bits are turned on. */
  lemma QueryMonotone(before: seq<bool>, after: seq<bool>, hash: SeededHash, key: Key, k: nat)
    requires k > 0 ==> |before| > 0
    requires Covers(after, before)
    requires Query(before, hash, key, k) == ProbablyInDB
    ensures Query(after, hash, key, k) == ProbablyInDB
  {
  }

  /** No false negatives: right after `add(key)`, `check(key)` says probably
      present, whatever was added before. */
  lemma {:induction false} NoFalseNegative(bits: seq<bool>, hash: SeededHash, key: Key, k: nat)
    requires k > 0 ==> |bits| > 0
    ensures Query(Insert(bits, hash, key, k), hash, key, k) == ProbablyInDB
  {
    InsertSetsAddressed(bits, hash, key, k);
  }

  /** No false negatives for a whole build: every key of the sequence added
      is reported probably present, whatever is added after it. */
  lemma {:induction false} NoFalseNegativeAmong(bits: seq<bool>, hash: SeededHash, keys: seq<Key>, k: nat, key: Key)
    requires k > 0 ==> |bits| > 0
    requires key in keys
    ensures Query(InsertAll(bits, hash, keys, k), hash, key, k) == ProbablyInDB
    decreases keys
  {
    var next := Insert(bits, hash, keys[0], k);
    if keys[0] == key {
      NoFalseNegative(bits, hash, key, k);
      InsertAllCovers(next, hash, keys[1..], k);
      QueryMonotone(next, InsertAll(next, hash, keys[1..], k), hash, key, k);
    } else {
      assert key in keys[1..];
      NoFalseNegativeAmong(next, hash, keys[1..], k, key);
    }
  }

  /** With no hash at all, `add` changes nothing and every key is probably present. */
  lemma NoHashes(bits: seq<bool>, hash: SeededHash, key: Key)
    ensures Insert(bits, hash, key, 0) == bits
    ensures Query(bits, hash, key, 0) == ProbablyInDB
  {
  }

  /** A new filter with at least one hash reports every key absent. */
  lemma ClearedRejects(size: nat, hash: SeededHash, key: Key, k: nat)
    requires k > 0 && size > 0
    ensures Query(Cleared(size), hash, key, k) == NotInDB
  {
    assert !Cleared(size)[Position(hash, key, 0, size)];
  }

  // ---------------------------------------------------------------------------
  // The filter object
  // ---------------------------------------------------------------------------

  class BloomFilter {
    /** Number of bits. */
    const size: nat
    /** Number of hash seeds used per key. */
    const numHash: nat
    /** The seeded hash, murmur3 in the source. */
    const hash: SeededHash
    /** The bit array, allocated once. */
    const bits: array<bool>

    ghost predicate Valid() {
      bits.Length == size && (numHash > 0 ==> size > 0)
    }

    /** A filter of `size` bits, all clear, using `numHash` seeds. */
    constructor (size: nat, numHash: nat, hash: SeededHash)
      requires numHash > 0 ==> size > 0
      ensures Valid() && fresh(bits)
      ensures this.size == size && this.numHash == numHash && this.hash == hash
      ensures bits[..] == Cleared(size)
    {
      this.size, this.numHash, this.hash := size, numHash, hash;
      bits := new bool[size](_ => false);
    }

    /** Sets the bits `key` addresses; every other bit keeps its value. */
    method Add(key: Key)
      requires Valid()
      modifies bits
      ensures bits[..] == Insert(old(bits[..]), hash, key, numHash)
      ensures forall i :: 0 <= i < size ==> bits[i] == (old(bits[i]) || Addressed(hash, key, numHash, size, i))
    {
      for seed := 0 to numHash
        invariant bits[..] == Insert(old(bits[..]), hash, key, seed)
      {
        var result := hash(key, seed) % size;
        bits[result] := true;
      }
      forall i | 0 <= i < size
        ensures bits[i] == (old(bits[i]) || Addressed(hash, key, numHash, size, i))
      {
        assert bits[..][i] == bits[i] && old(bits[..])[i] == old(bits[i]);
        InsertAt(old(bits[..]), hash, key, numHash, i);
      }
    }

    /** Reports `key` absent at the first addressed bit that is clear, and
      probably present when all of them are on; changes nothing. */
    method Check(key: Key) returns (r: Verdict)
      requires Valid()
      ensures r == Query(bits[..], hash, key, numHash)
      ensures r == NotInDB <==> exists s :: 0 <= s < numHash && !bits[Position(hash, key, s, size)]
    {
      for seed := 0 to numHash
        invariant Query(bits[..], hash, key, numHash) == QueryFrom(bits[..], hash, key, numHash, seed)
      {
        if !bits[hash(key, seed) % size] {
          return NotInDB;
        }
      }
      return ProbablyInDB;
    }
  }

  /** Adding then checking keys through the object: a key that was added is
      probably present, whatever is added after it. */
  method AddThenCheck(f: BloomFilter, x: Key, y: Key) returns (r: Verdict)
    requires f.Valid()
    modifies f.bits
    ensures f.bits[..] == Insert(Insert(old(f.bits[..]), f.hash, x, f.numHash), f.hash, y, f.numHash)
    ensures r == ProbablyInDB
  {
    f.Add(x);
    ghost var afterX := f.bits[..];
    f.Add(y);
    r := f.Check(x);
    NoFalseNegative(old(f.bits[..]), f.hash, x, f.numHash);
    InsertCovers(afterX, f.hash, y, f.numHash);
    QueryMonotone(afterX, f.bits[..], f.hash, x, f.numHash);
  }
}
