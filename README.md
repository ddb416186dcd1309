# SmallPtrSetImplBase in Dafny

This project models the out-of-line half of LLVM's `SmallPtrSet`
(`llvm/lib/Support/SmallPtrSet.cpp`). It covers insertion with its grow and
rehash thresholds, lookup (`doFind`), the insert-slot search (`FindBucketFor`),
rehashing (`Grow`), `shrink_and_clear`, and copy, move and swap across the
small and big representations.

A set is a Dafny class with the five fields of `SmallPtrSetImplBase`:

- `curArray` is an `array<Slot<T>>`. A `Slot` is `Empty`, `Tombstone` or `Ptr(p)`.
- `curArraySize`, `numNonEmpty` and `numTombstones` are the size and the two counters.
- `isSmall` says which layout is in use.

The class also has a `hash` field, which stands for `DenseMapInfo<void *>::getHashValue`.

There are two layouts, and `Valid()` picks the layout by `isSmall`.

- **Small mode.** The elements sit in the prefix `curArray[0 .. numNonEmpty)` of the inline storage. That prefix holds no empty marker and no duplicate.
- **Big mode.** `curArray` is an open-addressing table with a power-of-two number of buckets and quadratic probing. Step k of the probe for hash h visits bucket `(h + 1 + 2 + ... + k) mod N`. Every pointer is reachable from its hash without crossing an empty bucket, and at least one bucket is empty.

The abstract contents `Contents()` are the pointers held in the used buckets. In both layouts `numNonEmpty - numTombstones == |Contents()|` (`SizeIsContents`).

The modules are:

- **`Probing`** covers triangular-number probing. Over a power-of-two table, the first N probe steps land on N distinct buckets, so every bucket is reached. This is why the `while (true)` probe loops terminate.
- **`Buckets`** covers slots, counts, the element set, the two layouts, and the probing invariant together with the lemmas that maintain it.
- **`Policy`** covers the sizing decisions:
  - the bucket count `shrink_and_clear` installs;
  - the resize rule of `insert_imp_big`;
  - which array `copyFrom` copies into, including the finding below.
- **`SmallPtrSetImpl`** holds the class `SmallPtrSet` with the operations of the `.cpp` file.

## Model

| member | source | states |
|---|---|---|
| Probing.Probe | llvm/lib/Support/SmallPtrSet.cpp:66-79 | the bucket visited at probe step k is `(hash + 1 + 2 + ... + k) mod N`, and it is always a bucket of the table (below N) |
| Probing.ProbeNext | llvm/lib/Support/SmallPtrSet.cpp:78-79 | the probe starts at `hash & (N-1)`, and one `BucketNo += ProbeAmt++` masked by `N-1` moves from probe step k to step k+1 |
| Probing.ProbeDistinct | llvm/lib/Support/SmallPtrSet.cpp:106 | in a power-of-two table the first N triangular probe steps visit pairwise distinct buckets |
| Probing.ProbeCovers | llvm/lib/Support/SmallPtrSet.cpp:69-80 | every bucket of a power-of-two table is visited within N probe steps, so the probe reaches any empty bucket |
| Buckets.EmptyOnProbePath | llvm/lib/Support/SmallPtrSet.cpp:89-107 | in a table with an empty bucket, every probe sequence meets an empty bucket within N steps: the bound that makes the probe loops terminate |
| Buckets.MetBeforeEmpty | llvm/lib/Support/SmallPtrSet.cpp:93-94 | in a well-placed table, a pointer's probe sequence meets the pointer before any empty bucket |
| Buckets.AbsentPastEmpty | llvm/lib/Support/SmallPtrSet.cpp:73-74 | a probe that reaches an empty bucket without having met the pointer proves the pointer is absent |
| Buckets.WellPlacedAfterFill | llvm/lib/Support/SmallPtrSet.cpp:130 | storing a pointer at the bucket its clear probe path ends at keeps every pointer reachable from its hash |
| Buckets.CountUpdate | llvm/lib/Support/SmallPtrSet.cpp:56-59 | overwriting one bucket changes each kind count by the old and new bucket's kind only |
| Buckets.ClearedCounts | llvm/lib/Support/SmallPtrSet.cpp:33-36 | a table of all-empty buckets has no tombstones, no live bucket and no elements |
| Buckets.ElementsFill | llvm/lib/Support/SmallPtrSet.cpp:60 | storing a pointer over a bucket without one adds exactly that pointer, and keeps buckets duplicate-free when it was new |
| Buckets.DistinctFresh | llvm/lib/Support/SmallPtrSet.cpp:126-131 | while `Grow` walks the old duplicate-free buckets, the current pointer is not yet in the new table's elements |
| Buckets.RehashStep | llvm/lib/Support/SmallPtrSet.cpp:128-130 | one iteration of the `Grow` copy loop: storing old bucket i's pointer where `FindBucketFor` chose keeps the new table a tombstone-free, duplicate-free hash table with an empty bucket, whose elements are those of old buckets 0..i |
| Buckets.ElementsCard | llvm/lib/Support/SmallPtrSet.cpp:135 | in duplicate-free buckets the number of live buckets equals the number of elements |
| Buckets.SmallLayoutSize | llvm/lib/Support/SmallPtrSet.cpp:29 | in small mode `NumNonEmpty - NumTombstones` is the number of elements |
| Buckets.BigLayoutSize | llvm/lib/Support/SmallPtrSet.cpp:29 | in big mode `NumNonEmpty - NumTombstones` is the number of elements, and `NumNonEmpty < CurArraySize` |
| Buckets.BigLayoutFill | llvm/lib/Support/SmallPtrSet.cpp:56-60 | storing a new pointer at the chosen bucket keeps a valid table: a reused tombstone decrements `NumTombstones`, a used empty bucket increments `NumNonEmpty`, and the contents gain exactly the pointer |
| Policy.CeilLog2 | llvm/lib/Support/SmallPtrSet.cpp:30 | `Log2_32_Ceil(x)` is the least e with `2^e >= x` |
| Policy.ShrinkTarget | llvm/lib/Support/SmallPtrSet.cpp:29-30 | the bucket count `shrink_and_clear` installs (32 up to 16 elements, else `2^(ceil(log2 size)+1)`) is a power of two of at least 32 buckets, at least twice the old size, and less than four times it when the size exceeded 16 |
| Policy.InsertResize | llvm/lib/Support/SmallPtrSet.cpp:41-48 | the resize step of `insert_imp_big`: a table at least three-quarters full always grows to more buckets; otherwise it is rehashed at its own size exactly when fewer than one eighth of its buckets are empty, and kept as it is otherwise |
| Policy.InsertResizeLeavesRoom | llvm/lib/Support/SmallPtrSet.cpp:41-48 | a kept table is less than three-quarters full with at least two empty buckets; growth (to 128, or doubled) and rehash give a power-of-two table that is under three-quarters full with two buckets to spare, so an empty bucket remains after the insertion |
| Policy.CopyFromStorageAsWritten | llvm/lib/Support/SmallPtrSet.cpp:171-186 | the storage decision of `copyFrom` as written: the inline storage exactly when RHS is small, the current array only when its size is RHS's; this set's mode after the copy differs from RHS's exactly when this set is small and RHS is big of the same size |
| Policy.CopyFromStorage | llvm/lib/Support/SmallPtrSet.cpp:171-186 | the storage `copyFrom` installs leaves this set small exactly when RHS is small; it reuses the current array only when that array is a heap table of RHS's size |
| Policy.CopyFromAsWrittenLosesElement | llvm/lib/Support/SmallPtrSet.cpp:177-188 | the decision as written keeps a small set small when copying a 32-bucket big RHS; the copied prefix then misses RHS's element (see Findings) |
| SmallPtrSetImpl.SmallPtrSet.End | llvm/lib/Support/SmallPtrSet.cpp:114 | `EndPointer() - CurArray` is the whole table in big mode, and in both modes never lies past the end of the array |
| SmallPtrSetImpl.SmallPtrSet.SizeIsContents | llvm/lib/Support/SmallPtrSet.cpp:29 | `size()` is the number of elements in both modes, and a big table always has an empty bucket |
| SmallPtrSetImpl.SmallPtrSet.FindBucketFor | llvm/lib/Support/SmallPtrSet.cpp:83-108 | returns the bucket holding the pointer exactly when it is present; otherwise the first tombstone on the probe path, or, when there was none, the empty bucket that ended it; never a bucket holding another pointer, and the probe path up to it is clear |
| SmallPtrSetImpl.SmallPtrSet.DoFind | llvm/lib/Support/SmallPtrSet.cpp:65-81 | returns a bucket exactly when the pointer is in the set, and that bucket holds the pointer |
| SmallPtrSetImpl.SmallPtrSet.ShrinkAndClear | llvm/lib/Support/SmallPtrSet.cpp:24-37 | on a big set: afterwards every bucket is empty, both counters are 0, the set is empty and big, and the size is 32 or `2^(ceil(log2 size)+1)` |
| SmallPtrSetImpl.SmallPtrSet.Grow | llvm/lib/Support/SmallPtrSet.cpp:112-138 | the set becomes big with `NewSize` fresh buckets; the contents are unchanged, tombstones are dropped, and `NumNonEmpty` is the element count |
| SmallPtrSetImpl.SmallPtrSet.RehashInto | llvm/lib/Support/SmallPtrSet.cpp:125-131 | the copy loop of `Grow`: starting from an all-empty power-of-two table larger than the old element count, the new table ends holding exactly the old buckets' pointers, without duplicates or tombstones, with every pointer reachable from its hash and an empty bucket left |
| SmallPtrSetImpl.SmallPtrSet.InsertWithRoom | llvm/lib/Support/SmallPtrSet.cpp:50-62 | returns the bucket that now holds the pointer. Inserted is true exactly when the pointer was absent, and the contents gain the pointer. Other buckets are untouched. A tombstone reuse decrements `NumTombstones`; an empty bucket increments `NumNonEmpty`. A present pointer changes no counter |
| SmallPtrSetImpl.SmallPtrSet.InsertImpBig | llvm/lib/Support/SmallPtrSet.cpp:40-63 | resizes by the threshold rule, then inserts. The set ends big and valid, holding the old contents plus the pointer, with inserted exactly when the pointer was absent. Without a resize the counters move as above; after a resize the table has the chosen fresh size and no tombstones |
| SmallPtrSetImpl.SmallPtrSet.CopyHelper | llvm/lib/Support/SmallPtrSet.cpp:191-200 | this set takes RHS's size and counters, and its used buckets equal RHS's |
| SmallPtrSetImpl.SmallPtrSet.Copy | llvm/lib/Support/SmallPtrSet.cpp:140-153 | the new set has RHS's mode, size, counters and used buckets, in the inline storage when small and in a fresh table when big |
| SmallPtrSetImpl.SmallPtrSet.CopyFrom | llvm/lib/Support/SmallPtrSet.cpp:162-189 | this set ends with RHS's mode, size, counters, used buckets and contents; the inline storage is in use exactly when small; RHS is not modified |
| SmallPtrSetImpl.SmallPtrSet.MoveHelper | llvm/lib/Support/SmallPtrSet.cpp:211-237 | this set takes RHS's mode, size, counters and contents, copying a small RHS and taking a big RHS's table; RHS is left small and empty with `CurArraySize == SmallSize` |
| SmallPtrSetImpl.SmallPtrSet.Move | llvm/lib/Support/SmallPtrSet.cpp:155-160 | the moved-to set is what `moveHelper` makes of a fresh set |
| SmallPtrSetImpl.SmallPtrSet.MoveFrom | llvm/lib/Support/SmallPtrSet.cpp:202-209 | as `moveHelper`, on a set that may hold a table before the move |
| SmallPtrSetImpl.SmallPtrSet.SwapWithSmall | llvm/lib/Support/SmallPtrSet.cpp:257-267 | with this set big and RHS small, this set becomes small holding RHS's former buckets and counters, and RHS takes this set's table |
| SmallPtrSetImpl.SmallPtrSet.SwapSmall | llvm/lib/Support/SmallPtrSet.cpp:284-297 | two small sets exchange their used prefixes and counters in place |
| SmallPtrSetImpl.SmallPtrSet.Swap | llvm/lib/Support/SmallPtrSet.cpp:239-298 | swapping a set with itself changes nothing. Otherwise, in all four mode combinations, each side ends with the other's former mode, size, counters, used buckets and contents, uses its inline storage exactly when small, and big tables change hands without copying |
| SmallPtrSetImpl.CopyRange | llvm/lib/Support/SmallPtrSet.cpp:196 | `std::copy` into the same offsets: the range takes the source's buckets and the rest of the destination is untouched |
| SmallPtrSetImpl.SwapRanges | llvm/lib/Support/SmallPtrSet.cpp:287 | `std::swap_ranges`: the first n buckets of the two arrays trade places, the rest are untouched |

## Findings

| source | as written | input that shows it | evidently intended | confidence | as-written member | corrected member |
|---|---|---|---|---|---|---|
| llvm/lib/Support/SmallPtrSet.cpp:177-186 | when RHS is big and `CurArraySize == RHS.CurArraySize`, nothing is allocated and `IsSmall` is left as it was, even when this set is small; `copyHelper` then copies RHS's whole hash table into the inline storage and the set stays small | this set small with 32 inline buckets; RHS big with 32 buckets (the size `shrink_and_clear` gives a set of at most 16 elements), holding one pointer x whose hash lands in bucket 1; after the copy the small view is bucket 0 alone, which is empty, so x is lost from the small view | a small set copying a big RHS allocates a table and becomes big, as it does when the sizes differ | not executed; it needs a set type with 32 inline buckets, and the header's small-mode operations are not part of this model | Policy.CopyFromAsWrittenLosesElement (about Policy.CopyFromStorageAsWritten) | Policy.CopyFromStorage, used by SmallPtrSetImpl.SmallPtrSet.CopyFrom |

## Left out

- Memory management is left out: `malloc`, `safe_malloc`, `safe_realloc`, `free`, and allocation failure. An allocation is a fresh array of empty buckets, which stands in for `memset(-1)` making every bucket the empty marker. `realloc` in `copyFrom` is modelled as a fresh allocation, because `copyHelper` overwrites every bucket of a big table.
- `incrementEpoch` and the `LLVM_LIKELY`/`LLVM_UNLIKELY` hints are left out. They are debug iterator invalidation and branch hints, with no effect on the set.
- The concrete hash is left out. `getHashValue` is an arbitrary `T -> nat` fixed per set, so copy, move and swap require both sets to have the same hash.
- Machine-width arithmetic is left out. `unsigned` counters and sizes are unbounded naturals, and `& (N-1)` is written `% N`, which agrees with it for power-of-two N. 32-bit wrap-around is not modelled, and neither is the overflow of `1 << (Log2_32_Ceil(Size) + 1)` for sizes above 2^30.
- Small-mode insertion and erasure, `size()`, `isSmall()`, iteration and `reserve` live in `SmallPtrSet.h`, which is not part of this model. The small layout admits tombstones in the used prefix.
- SmallPtrSetImpl.SmallPtrSet.InsertImpBig: a small set must be full and tombstone-free before this call, and its inline size must be below 64 or a power of two. The header calls `insert_imp_big` only in that state, and the requirement is what makes the grown table a power of two.
- SmallPtrSetImpl.SmallPtrSet.Grow: `NewSize` must be a power of two of at least 16 buckets and above the element count. All call sites in the file meet this.
- Big tables must have at least 16 buckets, so that the rehash rule (fewer than N/8 empty buckets) leaves two empty buckets before an insertion. Every table this file creates has at least 32.
- Inline storages are plain arrays passed in; pointer identity beyond array identity is not modelled. Swap and move require the two sets' arrays to be distinct, and the mixed and both-small cases of `swap` require equal inline sizes, as the source assumes.
- SmallPtrSetImpl.SmallPtrSet.Init models the constructor that makes an empty small set over the inline storage. That constructor is in `SmallPtrSet.h`, which is not part of this model, so it has no row above.
- SmallPtrSetImpl.SmallPtrSet.CopyFrom follows the corrected storage decision in the Findings table, not the one as written.
- SmallPtrSetImpl.SmallPtrSet.FindBucketFor returns the probe step as a ghost out-parameter next to the bucket index. The source returns a pointer into the array, and here a pointer into `CurArray` is an index.
- `clang/tools/libclang/CXExtractAPI.cpp`, `clang/utils/TableGen/TableGenBackends.h` and `clang/test/SemaCXX/eval-crashes.cpp` are not part of this model. They are C-API glue over code not shown, declarations, and a compiler test input.
