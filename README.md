# Roaring bitmap model

A Dafny model of a small two-level "roaring" bitmap over natural-number
keys (`roaring.py`). A key `x` is split by `divmod(x, 65536)` into a chunk
id and a remainder. A builder (`RoaringBuilder`) appends each inserted
key's remainder to its chunk's buffer, creating the buffer on first use.
`fossilize` then turns every buffer into a container. A buffer with fewer
than 4096 raw entries becomes an array container: a copy of the buffer,
queried by a linear `in`. Any other buffer becomes a bitset container
(`_RoaringBits`), a list of 64-bit words built by walking the buffer in
ascending order. The result (`RoaringBitmap`) answers `x in bitmap` by
looking up x's chunk and asking that chunk's container for the remainder.

Files:

- `ordering.dfy` (module `Ordering`): the largest element of a sequence,
  and an ascending sort that stands in for the language's `sorted`.
- `bitset.dfy` (module `Bitset`): the bitset container. Its words are
  `bv64`, so every word is below 2^64 by its type. This holds because the
  source only ever ORs in `1 << pos` with `pos < 64`. The module has the
  membership test, the step-by-step specification of the constructor
  (`Words`), and the class `RoaringBits`. Its constructor runs the
  source's `for`/`while` loops.
- `roaring.dfy` (module `Roaring`): the key split, the `Container`
  datatype (`Arr` or `Bits`), the chunk index `RoaringBitmap`, the pure
  `fossilize` (`FossilizeChunks`), and the class `RoaringBuilder`. The
  class has a `chunks` map field that `Insert` updates and a ghost record
  of the inserted keys. `Chunked` is an independent reference definition
  of the builder's buffers: for each chunk, the remainders of the keys
  that fall in it, in insertion order.

Three behaviours of roaring.py that a reader of other roaring bitmaps
might not expect:

- The array container is neither sorted nor deduplicated, and its
  membership test is a linear scan, not a binary search.
- The 4096 threshold is compared with the raw buffer length, duplicates
  included, not with the number of distinct remainders. `RepeatedKey`
  shows the effect: a single key inserted 4096 times gets a bitset.
- Nothing stops inserts after `fossilize`, and `fossilize` leaves the
  buffers in place.

## Model

| member | source | states |
|---|---|---|
| `Ordering.Sort` | roaring.py:13 | the walk order of the bitset constructor: an ascending sequence with the same elements (as a multiset) as the input |
| `Bitset.Contains` | roaring.py:19-21 | `__contains__`: true only when the word index is within the list and that word is non-zero; with `WordsContains` it answers exactly the input's values, and `BeyondLastWord` shows out-of-range indices give false without a read |
| `Bitset.SetBit` | roaring.py:14-17 | one iteration of the constructor's loop: the list covers x's word afterwards and every other existing word is unchanged; `SetBitContains` shows it adds exactly x |
| `Bitset.Words` | roaring.py:13-17 | the constructor's loop as a fold: every input value's word index lies within the list; `WordsContains` and `WordsLength` give its members and length |
| `Bitset.SetBitAt` | roaring.py:17 | ORing `1 << p` into a word sets bit p and leaves every other bit as it was |
| `Bitset.Grow` | roaring.py:15-16 | appending zeros until the list has `n` words keeps the old words as a prefix, and every added word is 0 |
| `Bitset.SetBitContains` | roaring.py:14-17 | one constructor step for value x adds exactly x to the members of the word list |
| `Bitset.WordsContains` | roaring.py:11-21 | membership round trip: y is in the word list built from xs iff y occurs in xs (duplicates and order do not matter) |
| `Bitset.WordsLength` | roaring.py:12-17 | the built list has `max(xs) // 64 + 1` words, and none for an empty input |
| `Bitset.BeyondLastWord` | roaring.py:19-21 | a query past the largest stored value's word finds its word index out of range and answers false, without reading a word |
| `Bitset.SortedWords` | roaring.py:11-21 | building from the ascending copy of xs gives exactly the members of xs and `max(xs) // 64 + 1` words |
| `Bitset.RoaringBits.constructor` | roaring.py:11-17 | the loops build the word list of the ascending walk, whose members are exactly the input values and whose length is `max // 64 + 1` (0 when empty) |
| `Roaring.Split` | roaring.py:34 | `divmod(x, 1 << 16)`: `chunk * 65536 + rem == x` and `0 <= rem < 65536` |
| `Roaring.SplitUnique` | roaring.py:44 | the decomposition is unique: a pair (c, rem) with rem < 65536 is the split of x iff `c * 65536 + rem == x` |
| `Roaring.Container.Contains` | roaring.py:6-7 | the array form answers by a linear scan (some position holds the remainder); the bitset form is true only for a word index within its list; `MakeContainer` shows both forms hold exactly the buffer's values |
| `Roaring.RoaringBitmap.Contains` | roaring.py:33-35 | `__contains__`: true only when x's chunk is present, so an absent chunk gives false; `ContainsRoutes` and `EndToEnd` give the full characterisation |
| `Roaring.ContainsRoutes` | roaring.py:33-35 | x is in the chunk index iff a present chunk c and an in-range remainder rem with `c * 65536 + rem == x` have rem in c's container; an absent chunk means false |
| `Roaring.MakeContainer` | roaring.py:53 | an array holding the buffer unchanged iff the raw buffer length is below 4096, otherwise a bitset; either way its members are exactly the buffer's values |
| `Roaring.FossilizeChunks` | roaring.py:47-55 | one container per buffered chunk and no other; array form iff the buffer has fewer than 4096 entries, and then it is the buffer itself; x is a member iff x's remainder is in x's chunk buffer |
| `Roaring.ChunkedSnoc` | roaring.py:43-45 | inserting x appends exactly `x % 65536` to chunk `x // 65536`'s buffer, created empty if absent; every other buffer is unchanged |
| `Roaring.RemaindersMember` | roaring.py:43-45 | a key's chunk buffer holds its remainder iff the key was inserted |
| `Roaring.RemaindersInRange` | roaring.py:44 | every buffered remainder is below 65536 |
| `Roaring.RepeatedRemainders` | roaring.py:45 | inserting the same key n times buffers its remainder n times (nothing deduplicates) |
| `Roaring.RepeatedKey` | roaring.py:51-53 | the form follows the raw count: a key inserted n times gets an array iff n < 4096, and is a member either way |
| `Roaring.EndToEnd` | roaring.py:33-55 | after any sequence of inserts, fossilize gives an index that contains x iff x was inserted, whichever form each chunk took |
| `Roaring.ChunkBoundary` | roaring.py:34 | 65535 and 65536 fall in chunks 0 and 1; each is found only where it was inserted |
| `Roaring.RoaringBuilder.constructor` | roaring.py:40-41 | a new builder has no buffers and no inserted keys |
| `Roaring.RoaringBuilder.Insert` | roaring.py:43-45 | appends the remainder to its chunk's buffer, creating the buffer if absent; other buffers are unchanged; the buffers stay those of the inserted keys |
| `Roaring.RoaringBuilder.Fossilize` | roaring.py:47-55 | reads the buffers without changing them; one container per buffered chunk; the form follows the 4096 threshold; members are exactly the inserted keys |

## Left out

- Negative keys: keys are `nat`. The source's floor `divmod` would give a negative chunk id with a non-negative remainder, and nothing in it validates keys.
- `_RoaringBits.print` and the `__main__` demo: console output only.
- The `list` subclassing behind `_RoaringArray`: the array form is the `Arr` case of `Container`, holding the buffer as a sequence.
- `collections.defaultdict`: modelled as an explicit "insert an empty buffer if absent" step in `Insert`.
- The cost of `sorted`: only its effect, an ascending walk, is modelled, by an insertion sort.
- `RoaringBitmap.__init__`: it only stores its dictionary, so it is the `RoaringBitmap` datatype constructor.
- Bitset.RoaringBits.constructor: builds the word list in a local variable and stores it in `bitmap` at the end, instead of growing `self.bitmap` in place. No other code can observe the object before the constructor returns.
