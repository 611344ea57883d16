# Bloom filter (cache-penetration guard)

This project models the `BloomFilter` class of `bloom_filter.py` and proves its promises in Dafny.
The filter screens many candidate e-mail addresses against a reference set without storing the set.
It is a fixed-length bit array. `add(item)` sets the bit at `mmh3.hash(item, seed) % size` for each
`seed` in `0 .. num_hash-1`. `check(item)` reads the same bits. It answers `'Not in the DB'` at the
first bit that is clear and `'Probably in the DB'` when every addressed bit is on.

The model is one module, `Bloom`, in `bloom_filter.dfy`:

- `BloomFilter` is a class with the constant fields `size`, `numHash`, `hash` and `bits: array<bool>`.
  Its constructor allocates the all-clear array. `Add` sets bits in place with a loop. `Check` is a
  read-only loop with an early return; it has no `modifies` clause, so Dafny itself proves that it
  changes nothing.
- The seeded hash is a constructor parameter of type `(Key, nat) -> Int32`, where `Int32` is the signed
  32-bit range that murmur3 returns. Every property is therefore proved for every hash function.
- Python's `%` with a positive divisor is the floored modulo. Dafny's `%` gives the same value for a
  positive divisor, negative hashes included, so `Position` uses it directly.
- `Insert`, `QueryFrom` and `Query` are functions on `seq<bool>` that specify the methods. `Add` and
  `Check` are proved against them, and the lemmas are proved about them. `InsertAll` stands for the
  script's loop that adds the reference keys one by one.
- `Verdict` holds the two answers. `Verdict.Label` gives the exact strings the source returns.

The sizes come in as integers. The constructor needs `numHash > 0 ==> size > 0`, and `numHash == 0`
is allowed. The sizing formulas truncate, and they can give `num_hash == 0` (for example `n = 1`,
`p = 0.5` gives `size = 1`, `num_hash = 0`). They can even give `size == 0` together with
`num_hash == 0` (`n = 1`, `p = 0.9`). In both cases the source never indexes the array and answers
`'Probably in the DB'` for every key, and so does the model (`NoHashes`). The code sets no minimum of
one hash, and neither does the model.

## Model

| member | source | states |
|---|---|---|
| `Bloom.Position` | bloom_filter.py:73 | the position `hash(item, seed) % size` always lies in `[0, size)` when `size > 0`, so `add` and `check` never index out of range |
| `Bloom.Cleared` | bloom_filter.py:56-59 | the initial bit array has length `size` and every bit clear |
| `Bloom.Insert` | bloom_filter.py:72-74 | setting the positions of seeds `0 .. k-1` one after the other keeps the length of the bit array |
| `Bloom.InsertAt` | bloom_filter.py:72-74 | after `add(key)`, a bit is on exactly when it was on before or is `hash(key, s) % size` for some `s < num_hash`; no other bit changes |
| `Bloom.InsertCovers` | bloom_filter.py:72-74 | `add` only turns bits on: same length, and every bit on before is still on |
| `Bloom.InsertSetsAddressed` | bloom_filter.py:72-74 | after `add(key)`, every position `key` addresses is on |
| `Bloom.InsertIdempotent` | bloom_filter.py:72-74 | `add(x); add(x)` gives the same bit array as one `add(x)` |
| `Bloom.InsertCommutes` | bloom_filter.py:72-74 | `add(x); add(y)` and `add(y); add(x)` give the same bit array |
| `Bloom.InsertAll` | bloom_filter.py:148-150 | adding a sequence of keys one by one keeps the length of the bit array |
| `Bloom.InsertAllCovers` | bloom_filter.py:72-74 | adding any sequence of keys only turns bits on |
| `Bloom.InsertAllAt` | bloom_filter.py:72-74 | after adding a sequence of keys, a bit is on exactly when it was on before or some key of the sequence addresses it |
| `Bloom.InsertAllSet` | bloom_filter.py:148-150 | two sequences of keys with the same members build the same bit array: the filter depends only on the set of keys added, not on their order or repetitions |
| `Bloom.QueryFrom` | bloom_filter.py:91-95 | the loop from `seed` on answers `'Not in the DB'` iff some seed `s` with `seed <= s < num_hash` addresses a clear bit |
| `Bloom.Query` | bloom_filter.py:91-95 | `check(key)` answers `'Not in the DB'` iff some `s < num_hash` has `bit_array[hash(key, s) % size]` clear, and `'Probably in the DB'` otherwise |
| `Bloom.QueryMonotone` | bloom_filter.py:91-95 | a key answered `'Probably in the DB'` keeps that answer once more bits are on |
| `Bloom.NoFalseNegative` | bloom_filter.py:61-95 | right after `add(key)`, `check(key)` answers `'Probably in the DB'`, whatever bits were on before |
| `Bloom.NoFalseNegativeAmong` | bloom_filter.py:61-95 | after adding a sequence of keys, every key in it is answered `'Probably in the DB'`, whatever was added before or after it |
| `Bloom.NoHashes` | bloom_filter.py:72-95 | with `num_hash == 0`, `add` changes nothing and `check` answers `'Probably in the DB'` for every key |
| `Bloom.ClearedRejects` | bloom_filter.py:91-95 | on a new filter with `num_hash > 0`, `check` answers `'Not in the DB'` for every key |
| `Bloom.Verdict.Label` | bloom_filter.py:94-95 | the label is `'Not in the DB'` exactly for the absent answer and `'Probably in the DB'` exactly for the present one, so the two answers have distinct strings |
| `Bloom.BloomFilter.constructor` | bloom_filter.py:38-59 | allocates a fresh array of `size` bits, all clear, and records `size`, `num_hash` and the hash |
| `Bloom.BloomFilter.Add` | bloom_filter.py:61-74 | the new bit array is `Insert` of the old one: each bit is its old value or-ed with whether `key` addresses it; the array object stays the same |
| `Bloom.BloomFilter.Check` | bloom_filter.py:76-95 | returns `Query` of the current bits, so `'Not in the DB'` iff some addressed bit is clear; modifies nothing |
| `Bloom.AddThenCheck` | bloom_filter.py:61-95 | on the object: after `add(x)` and then `add(y)`, the bits are those two inserts applied to the old bits, and `check(x)` answers `'Probably in the DB'` |

## Left out

- `get_size` and `get_num_hash` (bloom_filter.py:97-115) use float logarithms and `int()` truncation. The model takes `size` and `num_hash` as integers. Their monotonicity, and the division by zero when `num_items == 0` (bloom_filter.py:114), are not modelled.
- The stored fields `prob_falsepositive` and `num_items` (bloom_filter.py:44-47) are never read after being stored, so the model does not keep them. The sizing formulas take the constructor's arguments (bloom_filter.py:50, 53).
- The murmur3 hash is a foreign C library. It is a parameter of any function into the signed 32-bit range. mmh3 would reject a seed of 2^32 or more; the model puts no upper bound on seeds.
- The `bitarray` library is modelled as a Dafny `array<bool>`. Bit packing is not modelled.
- The script at bloom_filter.py:118-159 is I/O: CSV reading and writing, `sys.argv`, and `rstrip` of lines. Only repeated `add` over the reference keys is modelled, as `InsertAll`.
- The false-positive rate is a probabilistic claim that depends on float sizing, so it is not stated.
- `Check`'s early exit is modelled by the order of the `QueryFrom` recursion and by the loop's `return`. The number of bits read is not part of any contract.
