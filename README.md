# Chained hash map and row-major matrix, modelled and verified in Dafny

This project models two classes from a C++ course repository.

The main one is the generic `HashMap<KeyT, ValueT>` of `ex6/HashMap.hpp`. It is an array of
`_capacity` bucket lists of (key, value) pairs plus a running `_size`. Every entry sits in bucket
`hash(key) & (capacity - 1)`. Adding a new key first doubles the capacity and rehashes when the
load factor would pass 3/4. Removing a key halves the capacity and rehashes when the load factor
drops below 1/4. A `ConstIterator` walks the bucket array directly and skips empty buckets.

The second is the shape and index logic of the dense row-major `Matrix` of `ex5/Matrix.h` and
`ex5/Matrix.cpp`. Element (row, col) lives at flat index `cols * row + col`. Every misuse ends
the program with `exit(EXIT_FAILURE)`.

Files:

- `bits.dfy` (module `Bits`): powers of two, and bitwise AND on naturals. It proves that masking
  with `capacity - 1` is `mod capacity`.
- `wrappers.dfy` (module `Wrappers`): `Option`, `Result` and `Outcome`.
- `buckets.dfy` (module `Buckets`): the bucket table as a value, `seq<seq<(K, V)>>`. It holds the
  specification functions the class is proved against:
  - `Lookup`, the per-bucket search;
  - `Flatten`, the order in which the iterator visits entries;
  - `PlaceAll`, a rehash;
  - `Included`, the bucket-wise test that `operator==` performs.

  It also holds their lemmas: rehashing loses and duplicates nothing, and removal and
  overwriting change exactly one key.
- `hashmap.dfy` (module `HashMaps`): the `HashMap` class. Its fields are `table` (an array of
  buckets), `capacity` and `size`. It also holds the range constructor `FromRange` and the
  `ConstIterator` class, whose cursor fields are `bucket` and `pos`.
- `matrix.dfy` (module `Matrices`): the `Matrix` class. Its fields are `rows`, `cols` and a flat
  `array<real>`.

The map's class invariant `Valid()` has four parts:
- the capacity is a power of two;
- every entry is in bucket `hash(key) mod capacity`, and no bucket repeats a key;
- `size` is the total bucket length;
- `4 * size <= 3 * capacity`.

The last part explains why shrinking never reaches capacity 0 even though there is no floor. An
erase needs one entry. With at most 3/4 of the buckets' worth of entries, the capacity was at
least 2 before halving.

The abstract content of a map is `Get(k)`, the value a lookup of `k` finds. Every mutating method
states its effect on `Get` and on `capacity` and `size`.

Each `exit(EXIT_FAILURE)` becomes a `Failure` or `Fail` carrying the reason. Each C++ exception
becomes one as well: `out_of_range` or a plain `std::exception`. The hash function `std::hash` is
a parameter: a `hash: K -> nat` fixed when the map is built. `ValueT()` is the `newValue` field.
`_defReturnValue` is the `fallback` field.

Three behaviours of the code worth noting:

- `operator==` also compares capacities (`ex6/HashMap.hpp` lines 592-594, documented at lines
  256-257). So two maps holding the same pairs in different capacities compare unequal. An
  emptied map is one example: erasing its last entry halves its capacity.
- Shrinking has no minimum capacity (`ex6/HashMap.hpp` line 661). A map can shrink below 16.
- When the shrink allocation fails in `erase` (`ex6/HashMap.hpp` lines 654-671), the code has
  already removed the entry, yet it increments `_size` again and returns false.

## Model

| member | source | states |
|---|---|---|
| Bits.MaskIsMod | ex6/HashMap.hpp:416-419 | for a power-of-two capacity, `hash & (capacity - 1)` equals `hash mod capacity` |
| Buckets.BucketOf | ex6/HashMap.hpp:416-419 | the masked bucket index of a hash is below the capacity |
| Buckets.BucketOfIsMod | ex6/HashMap.hpp:416-419 | the masked bucket index is the hash modulo the capacity |
| Buckets.FindMember | ex6/HashMap.hpp:614-625 | in a bucket without repeated keys, the scan finds `v` for `k` exactly when `(k, v)` is in the bucket |
| Buckets.FindAbsent | ex6/HashMap.hpp:614-625 | the scan finds nothing exactly when no entry of the bucket has the key |
| Buckets.LookupMember | ex6/HashMap.hpp:614-625 | in a well-formed table, a lookup of `k` finds `v` exactly when `(k, v)` is one of the table's entries |
| Buckets.FlattenUnique | ex6/HashMap.hpp:416-419 | since each key has one home bucket and buckets repeat no key, the whole table repeats no key |
| Buckets.PlaceNew | ex6/HashMap.hpp:744-745 | pushing an absent key's entry to the head of its bucket keeps the table well formed, adds exactly that entry, adds one to the length, and changes the lookup of that key only |
| Buckets.Rehash | ex6/HashMap.hpp:749-762 | pushing every entry into an empty table of a new power-of-two capacity keeps each entry once (same multiset), homes each in its new bucket, keeps the count, and keeps every lookup |
| Buckets.RemoveEntry | ex6/HashMap.hpp:651-655 | removing a stored pair from its bucket keeps the table well formed, removes one entry, and makes only that key absent |
| Buckets.SetValue | ex6/HashMap.hpp:576-579 | writing a value into a stored pair's slot keeps the table well formed and the count, and changes the lookup of that pair's key only |
| Buckets.ReversedMultiset | ex6/HashMap.hpp:507-511 | a bucket copied with `push_front` holds the same entries |
| Buckets.ReversedUnique | ex6/HashMap.hpp:507-511 | a bucket copied with `push_front` still repeats no key |
| Buckets.ReversedFind | ex6/HashMap.hpp:507-511 | a bucket copied with `push_front` answers every key alike |
| Buckets.FlattenAt | ex6/HashMap.hpp:85-92 | entry `pos` of bucket `b` is entry `TotalLen(buckets before b) + pos` of the iteration order |
| Buckets.SkipEmpty | ex6/HashMap.hpp:124-131 | skipping empty buckets passes no entries |
| Buckets.EmptyIffZero | ex6/HashMap.hpp:69-78 | the entries before bucket `from` are all the entries exactly when every bucket from `from` on is empty |
| Buckets.PositionOrder | ex6/HashMap.hpp:153-163 | a cursor in an earlier bucket has passed fewer entries than any cursor in a later bucket |
| Buckets.IncludedIffSameLookup | ex6/HashMap.hpp:591-611 | for two well-formed tables of one capacity and one size, bucket-wise inclusion holds exactly when every lookup agrees |
| Buckets.SameLookupSameSize | ex6/HashMap.hpp:591-611 | well-formed tables of one capacity that agree on every lookup hold equally many entries |
| HashMaps.GrownCapacity | ex6/HashMap.hpp:725-726 | the growth check keeps or doubles the capacity, changes it only when one more entry would pass a 3/4 load, and always doubles a non-zero capacity then |
| HashMaps.ShrunkCapacity | ex6/HashMap.hpp:656-661 | the shrink check never grows the capacity, changes it only when the load is below 1/4, and then halves a capacity above 1 |
| HashMaps.GrowthKeepsLoad | ex6/HashMap.hpp:725-730 | after the growth check for one more entry, the capacity is a power of two and the load with that entry is at most 3/4 |
| HashMaps.ShrinkKeepsLoad | ex6/HashMap.hpp:656-661 | after the shrink check the capacity is a power of two, at least 1, and the load is at most 3/4 |
| HashMaps.ScanBucket | ex6/HashMap.hpp:614-625 | the bucket scan stops at the entry with the key, and runs to the end exactly when the key is absent |
| HashMaps.HashMap.HashIndex | ex6/HashMap.hpp:416-419 | `_hash` is a bucket index and equals `hash(key) mod capacity` |
| HashMaps.HashMap.constructor | ex6/HashMap.hpp:204-205 | a default map has capacity 16, size 0, no keys, and satisfies the invariant |
| HashMaps.HashMap.Copy | ex6/HashMap.hpp:502-513 | the copy has the same capacity and size, each bucket reversed, the same lookups, and compares equal to the original under `operator==` |
| HashMaps.HashMap.CopyIsSameMap | ex6/HashMap.hpp:502-513 | buckets that are the originals reversed form a valid map with the original's lookups |
| HashMaps.HashMap.Assign | ex6/HashMap.hpp:521-554 | self-assignment changes nothing; otherwise the map gets a fresh table equal bucket for bucket to rhs's, with rhs's size, capacity and lookups |
| HashMaps.HashMap.ContainsKey | ex6/HashMap.hpp:613-625 | true exactly when the key has a value |
| HashMaps.HashMap.Read | ex6/HashMap.hpp:556-568 | the read-only `operator[]` returns the stored value, or `_defReturnValue` for an absent key, and changes nothing |
| HashMaps.HashMap.At | ex6/HashMap.hpp:681-693 | `at` returns the stored value, and fails with `out_of_range` exactly when the key is absent |
| HashMaps.HashMap.BucketSize | ex6/HashMap.hpp:329-332 | `bucket_size` is the length (at least 1) of the key's bucket, and fails with `std::exception` exactly when the key is absent |
| HashMaps.HashMap.BucketIndex | ex6/HashMap.hpp:339-342 | `bucket_index` is `hash(key) mod capacity`, and fails with `std::exception` exactly when the key is absent |
| HashMaps.HashMap.Clear | ex6/HashMap.hpp:709-717 | every bucket becomes empty, size becomes 0, no key has a value, and the capacity is unchanged |
| HashMaps.HashMap.ReHashPrevToCurrent | ex6/HashMap.hpp:749-762 | the new table is the empty table with every old entry pushed to the head of its new bucket, in bucket-then-list order |
| HashMaps.HashMap.Resize | ex6/HashMap.hpp:727-743 | reallocating at a new power-of-two capacity and rehashing keeps the size, the multiset of entries and every lookup |
| HashMaps.HashMap.AddFirstToBucket | ex6/HashMap.hpp:722-747 | for an absent key: the capacity after the growth check, one more entry at the head of its bucket, and only that key's lookup changed |
| HashMaps.HashMap.Insert | ex6/HashMap.hpp:627-644 | returns false and changes nothing for a present key; otherwise adds the pair, grows the size by one, applies the growth check, and returns true |
| HashMaps.HashMap.Index | ex6/HashMap.hpp:570-589 | the writable `operator[]`: for a present key, its entry's slot with nothing changed; for an absent key, the head slot of its bucket after inserting `ValueT()` through the growth check |
| HashMaps.HashMap.WriteCell | ex6/HashMap.hpp:576-579 | writing through the returned slot changes that key's value and nothing else |
| HashMaps.HashMap.Erase | ex6/HashMap.hpp:646-679 | returns false and changes nothing for an absent key; otherwise removes it, shrinks the size by one, applies the shrink check, and returns true |
| HashMaps.HashMap.Equals | ex6/HashMap.hpp:591-611 | true exactly when size and capacity agree and every pair of each bucket occurs in the same bucket of the other map |
| HashMaps.HashMap.NotEquals | ex6/HashMap.hpp:265 | the negation of `operator==` |
| HashMaps.HashMap.EqualsIffSameMapping | ex6/HashMap.hpp:591-611 | for one hash function, `operator==` holds exactly when the capacities agree and every key has the same value, whatever the bucket order |
| HashMaps.HashMap.Begin | ex6/HashMap.hpp:352 | `begin` has passed no entries, and is at end exactly when the map is empty |
| HashMaps.HashMap.End | ex6/HashMap.hpp:367 | `end` is at end, having passed all `size` entries |
| HashMaps.HashMap.IterationVisitsEachEntryOnce | ex6/HashMap.hpp:108-134 | the iteration order has `size` entries, repeats no key, and holds exactly the pairs that lookups find |
| HashMaps.FromRange | ex6/HashMap.hpp:475-500 | fails with `std::exception` exactly when the key and value counts differ; otherwise every key maps to the value of its last occurrence |
| HashMaps.ConstIterator.constructor | ex6/HashMap.hpp:67-79 | the cursor has passed exactly the entries before bucket `from`, and is at end exactly when all later buckets are empty |
| HashMaps.ConstIterator.Deref | ex6/HashMap.hpp:85-92 | `*` fails with `out_of_range` exactly at end; otherwise it is entry number `Position()` of the iteration order |
| HashMaps.ConstIterator.Next | ex6/HashMap.hpp:108-134 | `++` fails with `out_of_range` and stays put at end; otherwise it passes exactly one more entry |
| HashMaps.ConstIterator.AtEndIffAllPassed | ex6/HashMap.hpp:108-134 | an iterator is at end exactly when it has passed every entry |
| HashMaps.ConstIterator.Equals | ex6/HashMap.hpp:153-163 | iterator `==`: equal iterators walk the same bucket array and are at end together |
| HashMaps.ConstIterator.EqualsIffSamePosition | ex6/HashMap.hpp:153-163 | two iterators over one table compare equal exactly when they have passed equally many entries |
| Matrices.FlatIndexInRange | ex5/Matrix.cpp:215 | an in-range (row, col) addresses a flat index in `[0, rows*cols)` |
| Matrices.FlatIndexOrder | ex5/Matrix.cpp:215 | flat indices follow row order |
| Matrices.FlatIndexInjective | ex5/Matrix.cpp:215 | distinct in-range (row, col) pairs address distinct flat indices |
| Matrices.FlatIndexOnto | ex5/Matrix.cpp:190 | every flat index in `[0, rows*cols)` is addressed by `(ind / cols, ind % cols)` |
| Matrices.Make | ex5/Matrix.cpp:13-30 | exits exactly when a count is negative; otherwise a fresh rows x cols matrix whose every element is 0 |
| Matrices.Matrix.Zero | ex5/Matrix.cpp:19-29 | a rows x cols matrix with every flat element 0 |
| Matrices.Matrix.constructor | ex5/Matrix.h:57 | the default matrix is 1 x 1 holding 0 |
| Matrices.Matrix.Copy | ex5/Matrix.cpp:32-41 | the same shape and elements in fresh storage |
| Matrices.Matrix.Assign | ex5/Matrix.cpp:72-91 | self-assignment changes nothing; otherwise rhs's shape and elements in fresh storage |
| Matrices.Matrix.GetRows | ex5/Matrix.h:75 | the row count is non-negative and times the column count is the element count |
| Matrices.Matrix.GetCols | ex5/Matrix.h:81 | the column count is non-negative and times the row count is the element count |
| Matrices.Matrix.Vectorize | ex5/Matrix.cpp:49-54 | rows becomes rows*cols and cols becomes 1, the flat data is untouched, and element (i, 0) is flat element i |
| Matrices.Matrix.Index | ex5/Matrix.cpp:188-196 | `[]` exits exactly when the index is outside `[0, rows*cols)`; otherwise it is element `(ind / cols, ind % cols)` |
| Matrices.Matrix.Entry | ex5/Matrix.cpp:208-217 | `()` exits exactly when row or col is out of range; otherwise it agrees with `[]` at `cols*row + col` |
| Matrices.Matrix.SetIndex | ex5/Matrix.cpp:198-206 | writing through `[]` exits on a bad index, else changes exactly that flat element |
| Matrices.Matrix.SetEntry | ex5/Matrix.cpp:219-228 | writing through `()` exits on a bad (row, col), else changes exactly element (row, col) |
| Matrices.Matrix.Plus | ex5/Matrix.cpp:152-162 | exits exactly when the shapes differ; otherwise a fresh matrix of that shape holding the elementwise sums |
| Matrices.Matrix.AddAssign | ex5/Matrix.cpp:164-175 | exits exactly when the shapes differ; otherwise each element becomes the sum of both old elements, also when rhs is this matrix |
| Matrices.Matrix.Times | ex5/Matrix.cpp:93-113 | exits exactly when `cols != rhs.rows`; otherwise a fresh rows x rhs.cols matrix whose (i, j) is the sum over k of `this(i, k) * rhs(k, j)` |
| Matrices.Matrix.DotStep | ex5/Matrix.cpp:106-109 | one step of the innermost loop adds the term `this(i, k) * rhs(k, j)` |
| Matrices.Matrix.TimesAssign | ex5/Matrix.cpp:132-139 | exits exactly when `cols != rhs.rows`; otherwise this matrix becomes the product |
| Matrices.Matrix.Equals | ex5/Matrix.cpp:230-246 | true exactly when the shapes agree and every flat element agrees |
| Matrices.Matrix.EqualsIffSameEntries | ex5/Matrix.cpp:230-246 | for equal shapes, equal flat data is equal elements at every (row, col) |
| Matrices.Matrix.NotEquals | ex5/Matrix.h:212 | the negation of `==` |
| Matrices.DivisionGuardAsWritten | ex5/Matrix.cpp:321-328 | the division guard as written lets a divisor through only when it is non-zero and at least 1 in absolute value |
| Matrices.GuardStopsFractions | ex5/Matrix.cpp:321-328 | the division guard as written stops exactly the divisors strictly between -1 and 1 |
| Matrices.HalfIsRejected | ex5/Matrix.cpp:321-328 | the guard as written stops the non-zero divisor 0.5 |
| Matrices.Matrix.DivideAsWritten | ex5/Matrix.cpp:248-258 | `/` exits exactly when the truncated divisor is 0; otherwise a new matrix of the same shape with its own storage, each element of which times c is the original element |
| Matrices.Matrix.DivideAssignAsWritten | ex5/Matrix.cpp:260-269 | `/=` exits exactly when the truncated divisor is 0; otherwise each new element times c is the old one |
| Matrices.Matrix.Divide | ex5/Matrix.h:133-140 | `/` as documented: exits exactly when c is 0; otherwise a new matrix of the same shape with its own storage, each element of which times c is the original element |
| Matrices.Matrix.DivideAssign | ex5/Matrix.h:142-148 | `/=` as documented: exits exactly when c is 0; otherwise each new element times c is the old one |
| Matrices.Matrix.Quotient | ex5/Matrix.cpp:251-257 | a fresh matrix of the same shape whose elements are the originals divided by c |
| Matrices.Matrix.DivideInPlace | ex5/Matrix.cpp:263-267 | every element divided by c in place |

## Left out

- Allocation failure (`std::bad_alloc`) is not modelled, because Dafny allocation cannot fail.
  This drops the rollback paths of growth, shrink, `operator=`, `insert` and the writable
  `operator[]` (ex6/HashMap.hpp:531-543, 581-587, 632-641, 662-672, 732-742). One of them breaks
  the invariant: the failed-shrink path in `erase` re-increments `_size` after the entry is
  already gone.
- `std::hash` is an arbitrary function `K -> nat` given at construction. Keys are value types
  (`K(!new)`).
- `size_t` is unbounded. No overflow of sizes, capacities or `4 * (size + 1)` is modelled.
- `load_factor()` is a double in the source and is not modelled. The thresholds 0.75 and 0.25
  appear as the integer tests `4 * (size + 1) > 3 * capacity` and `4 * size < capacity`.
- `size()`, `capacity()` and `empty()` are not separate members. They read the `size` and
  `capacity` fields directly.
- The writable `at` is not a separate member. It performs the same search as `At`, and writing
  through its reference is `WriteCell`.
- `HashMaps.ConstIterator.Equals` compares the bucket array and the cursor. It does not model a
  pointer one past one table's end coinciding with another table's start.
- These iterator members are not modelled:
  - post-increment `operator++(int)`, which is `Next` on a copy;
  - `operator->`, which is `Deref`;
  - `operator!=`, the negation of `Equals`;
  - the default constructor;
  - the duplicate `cbegin`/`cend`.
- Iterator invalidation is not modelled. An iterator keeps the bucket array it was made from. In
  C++ that array is freed by a later resize.
- Destructors, `delete[]` and the STL list mechanics are memory management and are not modelled.
- `HashMaps.FromRange`: does not state the resulting capacity, which depends on the growth checks
  along the way.
- Matrix elements are reals, not IEEE floats.
- These scalar matrix operations are not modelled because they are pure float arithmetic:
  - scalar `operator*(const float&)` and `operator*(const int&, const Matrix&)`, which truncate
    the scalar to `int` (ex5/Matrix.cpp:115-130);
  - `*=` with a scalar;
  - `+=` with a scalar.
- `rows * cols` is never checked for `int` overflow, and the model does not check it either.
- Program termination by `exit` is not modelled. Each exit is a failure value naming its message.
- Matrix I/O is not modelled: `print`, `operator>>` and `operator<<` are stream I/O.
- The image filters of `ex5/Filters.cpp` are not part of this model.

## Findings

| source | as written | input that shows it | evidently intended | confidence | as-written member | corrected member |
|---|---|---|---|---|---|---|
| ex5/Matrix.cpp:321-328 | `_isValidScalarForDivision` takes its divisor as `const int&`, so `/` and `/=` pass a float that is truncated toward zero before the `c == 0` test | `m / 0.5` or `m /= 0.5` exits with "Division by zero" (lemma `Matrices.HalfIsRejected`) | exit only when the divisor is 0, as the comments at ex5/Matrix.h:133-148 and 287-291 state | not executed | Matrices.Matrix.DivideAsWritten | Matrices.Matrix.Divide |
