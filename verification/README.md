# ecne index sets, modelled in Dafny

ecne keeps sets of small integer indexes in bitmap stores. A store is a
plain unsigned word (`UnsignedChunk`), an array of such words
(`ArrayChunk`) or a growable vector of arrays (`DynamicChunkStore`). The
stores implement a family of index traits: `IndexView` (is_empty, len,
contains), `IndexStore` (clear, insert, remove), `IndexForward` and
`IndexBackward` (first, next_after, nth_after and their mirrors) and the
chunked variants. `NotView` wraps a store and presents its complement.
`IndexSet` and `IndexOrdSet` add the user-facing operations on top of a
store: iterators, the entry API, extraction and retention, the lazy
set-algebra iterators and the in-place bitwise operators.

The model gives every store an abstraction function to the `set<nat>` of
indexes it holds. Each operation is then stated against that set.

- `Ordered` holds the reference definitions: the least and greatest index,
  the next index after or before a cursor, and the ascending and
  descending enumerations of a finite set.
- `Index` states the traversal contracts of the index traits (NoDuplicate,
  NoPhantom, NoTheft, Reverse, Ordered) and the default `nth_after` and
  `nth_before` loops.
- `UnsignedChunks` models a word as a `seq<bool>`. Its operations accept
  any width; the widths of the library's words (8 to 128, `ValidWidth`)
  are imposed by `ArrayChunks.Valid` and the store shapes built on it.
- `Addressing` is the two-level arithmetic of chunked stores:
  `fuse(outer, inner)`, `split` and how a set is assembled from its chunks.
- `ArrayChunks` and `DynamicStores` model the chunked stores. The second
  also covers the negated (`_not`) queries and growth on insertion.
- `NotViews` models the `NotView` adapter over a dynamic store.
- `Cursors` holds the cursor arithmetic shared by the set iterators.
- `SetIters`, `SetOps`, `SetExtract`, `SetAlgebra`, `SetAlgebraOrd` and
  `SetBitwise` model `set.rs`. Every iterator is described by the sequence
  it still yields. `next` yields the head of that sequence and leaves its
  tail.

## Model

| member | source | states |
|---|---|---|
| Index.TraversalContracts | src/index.rs:62-66 | the forward traversal of a store yields no index twice, only indexes held and every index held, in strictly increasing order; by the Reverse and Ordered contracts (lines 122 and 172) the backward traversal is its exact reverse |
| Index.NthAfter | src/index.rs:83-93 | the default `nth_after` loop returns the n-th index after `current`, held and above it, or a non-zero remainder of the n+1 steps it could not take |
| Index.NthBefore | src/index.rs:135-145 | the mirror loop `nth_before`: the n-th index below `current`, or a non-zero remainder |
| Index.NthAfterSteps | src/index.rs:83-93 | `nth_after(0)` is `next_after`; `nth_after(n+1, c)` is `nth_after(n)` from `next_after(c)`; with nothing after `c` the remainder is n+1 |
| UnsignedChunks.And | src/chunk/unsigned.rs:21-23 | bitwise and of two words holds the intersection of their indexes |
| UnsignedChunks.Or | src/chunk/unsigned.rs:41-43 | bitwise or holds the union |
| UnsignedChunks.Xor | src/chunk/unsigned.rs:61-63 | bitwise xor holds the indexes in exactly one word |
| UnsignedChunks.Not | src/chunk/unsigned.rs:81-83 | bitwise not holds the complement within the word's width |
| UnsignedChunks.Sub | src/chunk/unsigned.rs:92-94 | `a & !b` holds the indexes of `a` not in `b` |
| UnsignedChunks.IsEmpty | src/chunk/unsigned.rs:120-122 | a word compares equal to zero exactly when it holds no index |
| UnsignedChunks.CountOnesIsCardinality | src/chunk/unsigned.rs:124-126 | the population count of a word is the number of indexes it holds |
| UnsignedChunks.Len | src/chunk/unsigned.rs:124-126 | `len` is the number of indexes held |
| UnsignedChunks.Contains | src/chunk/unsigned.rs:128-134 | masking with `1 << index` is non-zero exactly when the index is held |
| UnsignedChunks.Clear | src/chunk/unsigned.rs:158-160 | a cleared word holds nothing and keeps its width |
| UnsignedChunks.Insert | src/chunk/unsigned.rs:162-174 | after insertion the index is held and nothing else changed; the result is true exactly when the index was absent before |
| UnsignedChunks.Remove | src/chunk/unsigned.rs:176-190 | after removal the index is absent and nothing else changed; the result is true exactly when it was held before, and an index past the width is simply absent |
| UnsignedChunks.First | src/chunk/unsigned.rs:206-210 | the trailing-zero count finds the least index held, or none |
| UnsignedChunks.NextAfter | src/chunk/unsigned.rs:212-224 | the least index held above `index`, or none |
| UnsignedChunks.Last | src/chunk/unsigned.rs:231-235 | the leading-zero count finds the greatest index held, or none |
| UnsignedChunks.NextBefore | src/chunk/unsigned.rs:237-243 | the greatest index held below `index`, or none |
| ArrayChunks.BitAnd | src/chunk/array.rs:84-86 | slot-wise and of two arrays of the same shape holds the intersection |
| ArrayChunks.BitOr | src/chunk/array.rs:104-106 | slot-wise or holds the union |
| ArrayChunks.BitXor | src/chunk/array.rs:124-126 | slot-wise xor holds the symmetric difference |
| ArrayChunks.Not | src/chunk/array.rs:144-146 | slot-wise not holds every index of the array's span not held before |
| ArrayChunks.Sub | src/chunk/array.rs:155-157 | slot-wise subtraction holds the difference |
| ArrayChunks.IsEmpty | src/chunk/array.rs:186-188 | the array is empty exactly when every slot is |
| ArrayChunks.SumLenIsSumCard | src/chunk/array.rs:190-192 | the sum of the slots' counts is the sum of the sizes of their index sets |
| ArrayChunks.Len | src/chunk/array.rs:190-192 | `len` is the number of indexes the array holds |
| ArrayChunks.Contains | src/chunk/array.rs:194-200 | an index is contained exactly when its slot exists and holds its inner index |
| ArrayChunks.Span | src/chunk/array.rs:207-219 | the span admits exactly the indexes below slots times width |
| ArrayChunks.New | src/chunk/array.rs:221-223 | a new array has the requested shape and holds nothing |
| ArrayChunks.Clear | src/chunk/array.rs:240-242 | a cleared array keeps its shape and holds nothing |
| ArrayChunks.Insert | src/chunk/array.rs:244-255 | an index inside the span is added and the result says whether it was absent; an index past the span leaves the array unchanged and yields false |
| ArrayChunks.Remove | src/chunk/array.rs:257-263 | the index is absent afterwards, nothing else changed, and the result says whether it was held |
| ArrayChunks.First | src/chunk/array.rs:282-286 | scanning the slots in order finds the least index held |
| ArrayChunks.NextAfter | src/chunk/array.rs:288-305 | the rest of the current slot, then the later slots, give the least index held above `current` |
| ArrayChunks.Last | src/chunk/array.rs:315-324 | the greatest index held |
| ArrayChunks.NextBefore | src/chunk/array.rs:326-346 | the greatest index held below `current`, including for a `current` past the span |
| ArrayChunks.SplitFuseInverse | src/chunk/array.rs:367-386 | `split` and `fuse` are inverse, and the inner part of a split is below the width |
| ArrayChunks.GetChunk | src/chunk/array.rs:388-390 | a slot exists exactly for positions below the number of slots; bit `n` of slot `i` is held exactly when `fuse(i, n)` is in the array |
| ArrayChunks.SetChunk | src/chunk/array.rs:407-411 | replacing a slot changes the indexes of that slot only |
| ArrayChunks.FirstChunk | src/chunk/array.rs:424-426 | the first chunk position is 0 when the array has a slot |
| ArrayChunks.NextChunkAfter | src/chunk/array.rs:428-432 | the next chunk position is the next slot, when it exists |
| ArrayChunks.LastChunk | src/chunk/array.rs:442-444 | the last chunk position is the last slot |
| ArrayChunks.NextChunkBefore | src/chunk/array.rs:446-448 | the previous chunk position is below `current` and, within the array, the greatest such slot |
| DynamicStores.IsEmpty | src/vault/dynamic_chunk_store.rs:38-40 | the store's count is zero exactly when it holds nothing |
| DynamicStores.Len | src/vault/dynamic_chunk_store.rs:42-44 | the count is the number of indexes held |
| DynamicStores.Contains | src/vault/dynamic_chunk_store.rs:46-50 | an index is contained exactly when its chunk exists and holds its inner index; an index past the chunks is not contained |
| DynamicStores.LenNot | src/vault/dynamic_chunk_store.rs:61-65 | the count of the complement plus the count held is `usize::MAX` |
| DynamicStores.Span | src/vault/dynamic_chunk_store.rs:72-74 | the span of a dynamic store admits every index |
| DynamicStores.New | src/vault/dynamic_chunk_store.rs:76-81 | a new store has no chunk and holds nothing |
| DynamicStores.WithSpan | src/vault/dynamic_chunk_store.rs:83-98 | a store made for a bounded span holds nothing and has a chunk for every index of the span |
| DynamicStores.Clear | src/vault/dynamic_chunk_store.rs:110-125 | clearing keeps every chunk and holds nothing, and leaves a store whose count is already 0 exactly as it was |
| DynamicStores.Insert | src/vault/dynamic_chunk_store.rs:127-150 | the index is added, growing the chunks to reach it; the result says whether it was absent |
| DynamicStores.InsertAllocated | src/vault/dynamic_chunk_store.rs:136-149 | inserting into an allocated chunk adds the index without changing the number of chunks, and keeps the count equal to the number held |
| DynamicStores.Remove | src/vault/dynamic_chunk_store.rs:152-167 | the index is absent afterwards, no chunk is freed, and the result says whether it was held |
| DynamicStores.First | src/vault/dynamic_chunk_store.rs:186-194 | the least index held |
| DynamicStores.NextAfter | src/vault/dynamic_chunk_store.rs:196-211 | the least index held above `current`, including for a `current` past the chunks |
| DynamicStores.FirstNot | src/vault/dynamic_chunk_store.rs:224-232 | the least index of the allocated chunks that is not held |
| DynamicStores.NextAfterNot | src/vault/dynamic_chunk_store.rs:234-249 | the least index of the allocated chunks above `current` that is not held |
| DynamicStores.Last | src/vault/dynamic_chunk_store.rs:259-268 | the greatest index held |
| DynamicStores.NextBefore | src/vault/dynamic_chunk_store.rs:270-288 | the greatest index held below `current` |
| DynamicStores.LastNot | src/vault/dynamic_chunk_store.rs:298-307 | the greatest index of the allocated chunks that is not held |
| DynamicStores.NextBeforeNot | src/vault/dynamic_chunk_store.rs:309-327 | the greatest index of the allocated chunks below `current` that is not held |
| DynamicStores.SplitFuseInverse | src/vault/dynamic_chunk_store.rs:354-377 | `split` and `fuse` are inverse on the store's chunk width |
| DynamicStores.GetChunk | src/vault/dynamic_chunk_store.rs:379-381 | a chunk exists exactly below the number of chunks; bit `n` of chunk `i` is held exactly when `fuse(i, n)` is in the store |
| DynamicStores.SetChunk | src/vault/dynamic_chunk_store.rs:393-411 | the chunk at `index` is replaced, growing the store to reach it; every other index keeps its membership and the count stays exact |
| DynamicStores.FirstChunk | src/vault/dynamic_chunk_store.rs:424-426 | the first chunk position, when there is a chunk |
| DynamicStores.NextChunkAfter | src/vault/dynamic_chunk_store.rs:428-430 | the next chunk position after `current` |
| DynamicStores.LastChunk | src/vault/dynamic_chunk_store.rs:461-463 | the last chunk position |
| DynamicStores.NextChunkBefore | src/vault/dynamic_chunk_store.rs:465-467 | the previous chunk position, below `current` |
| DynamicStores.Grow | src/vault/dynamic_chunk_store.rs:510-518 | growth reaches the requested number of chunks and at least doubles, keeps the existing chunks and the indexes held |
| DynamicStores.Reserve | src/vault/dynamic_chunk_store.rs:521-533 | reserving appends empty chunks and changes no index held |
| NotViews.IsEmptyAsWritten | src/not.rs:252-254 | as written, the negated view reports empty exactly when the store holds something |
| NotViews.IsEmptyAsWrittenDisagrees | src/not.rs:252-259 | when the store holds an index and is not full, `is_empty` says true while `len` is positive and the view contains an index |
| NotViews.IsEmptyAsWrittenCounterexample | src/not.rs:252-254 | the store holding only 0 gives a view that is reported empty although it contains 1 |
| NotViews.IsEmpty | src/not.rs:252-259 | the view is empty exactly when `len` is zero, that is when the store holds every `usize` |
| NotViews.Len | src/not.rs:257-259 | the view's length and the store's length add up to `usize::MAX` |
| NotViews.Contains | src/not.rs:262-264 | the view contains exactly the indexes the store does not |
| NotViews.First | src/not.rs:280-282 | the least index of the allocated chunks not held by the store |
| NotViews.NextAfter | src/not.rs:285-287 | the next index after `current` that the negated traversal yields |
| NotViews.NthAfter | src/not.rs:290-292 | `nth_after` of the view is the n-th yielded index after `current`, one the view contains |
| NotViews.Last | src/not.rs:313-315 | the greatest index of the allocated chunks not held |
| NotViews.NextBefore | src/not.rs:318-320 | the previous index the negated traversal yields |
| NotViews.NthBefore | src/not.rs:323-325 | the n-th yielded index before `current`, one the view contains |
| NotViews.TraversalContracts | src/not.rs:271-275 | the negated traversal yields no duplicate, only indexes the view contains, in increasing order, and the backward one is its reverse |
| NotViews.NoTheftCounterexample | src/not.rs:262-282 | the view of a new store contains 0, yet its traversal yields nothing |
| NotViews.ContainsWithin | src/not.rs:262-264 | membership restricted to the allocated chunks is exactly what the traversal can reach |
| NotViews.NoTheftWithin | src/not.rs:269-282 | with membership restricted to the allocated chunks, the traversal yields exactly the indexes contained |
| NotViews.GetChunk | src/not.rs:366-368 | the view's chunk `i` is the store's chunk negated: bit `n` is held exactly when `fuse(i, n)` is not in the store |
| SetIters.New | src/set.rs:557-563 | a new iterator still yields every index of the set in increasing order and has yielded nothing |
| SetIters.Next | src/set.rs:718-725 | `next` yields the least index left and leaves the others |
| SetIters.Len | src/set.rs:769-771 | `len` is the number of indexes still to be yielded |
| SetIters.Nth | src/set.rs:727-743 | `nth(n)` skips n indexes and yields the next, leaving the iterator past it, with the yielded count kept exact |
| SetIters.NthIsRepeatedNext | src/set.rs:727-743 | `nth(0)` is `next`, and `nth(n+1)` is `nth(n)` after one `next` |
| SetIters.NthAsWritten | src/set.rs:727-743 | as written, `nth` yields the right index but adds n-1 rather than n to the yielded count on success, and underflows when exactly one index is left and n is at least 1 |
| SetIters.NthAsWrittenMiscounts | src/set.rs:727-743 | on the set {0, 1}, `nth(1)` leaves `len` at 1 although nothing is left |
| SetIters.NthAsWrittenUnderflows | src/set.rs:727-743 | on the set {0}, `nth(1)` runs out at once with remainder 1 and computes `0 - 1` for the count to add |
| SetIters.NewRev | src/set.rs:605-611 | a new reverse iterator yields every index in decreasing order |
| SetIters.NextRev | src/set.rs:810-817 | reverse `next` yields the greatest index left and leaves the others |
| SetIters.LenRev | src/set.rs:861-863 | reverse `len` is the number of indexes still to be yielded |
| SetIters.NthRev | src/set.rs:819-835 | reverse `nth(n)` skips n indexes and yields the next, leaving the iterator past it, with the yielded count kept exact (the corrected member of the reverse `nth` finding) |
| SetIters.NthRevAsWritten | src/set.rs:819-835 | as written, reverse `nth` yields the right index but adds n-1 rather than n to the yielded count on success, and underflows when exactly one index is left and n is at least 1 |
| SetIters.NthRevAsWrittenMiscounts | src/set.rs:819-835 | on the set {0, 1}, reverse `nth(1)` yields 0 and leaves `len` at 1 although nothing is left |
| SetIters.NthRevAsWrittenUnderflows | src/set.rs:819-835 | on the set {0}, reverse `nth(1)` runs out at once with remainder 1 and computes `0 - 1` for the count to add |
| SetIters.RevIsReverse | src/set.rs:605-611 | the reverse iterator yields the forward iterator's sequence reversed |
| SetIters.TakeNext | src/set.rs:1189-1196 | k calls to `next` on a fresh iterator yield the first k indexes of the ascending enumeration, or all of them |
| SetIters.DrainPrefix | src/set.rs:1163-1196 | draining a dynamic store yields its indexes in increasing order, and the drop's `clear` leaves the store empty with its chunks kept, however many items were taken |
| SetOps.IsDisjoint | src/set.rs:335-340 | true exactly when the sets share no index |
| SetOps.IsSubset | src/set.rs:345-350 | true exactly when every index of `self` is in `other` |
| SetOps.IsSuperset | src/set.rs:355-360 | true exactly when every index of `other` is in `self` |
| SetOps.EntryOf | src/set.rs:408-420 | the entry is occupied exactly when the set contains the index |
| SetOps.Insert | src/set.rs:465-476 | inserting through an entry leaves it occupied with the index added; an occupied entry is returned unchanged |
| SetOps.OrInsert | src/set.rs:479-485 | `or_insert` adds the index, and leaves the store untouched when it was present |
| SetOps.OccupiedRemove | src/set.rs:505-511 | removing an occupied entry removes its index and returns it |
| SetOps.VacantInsert | src/set.rs:536-542 | inserting a vacant entry adds an index that was absent |
| SetOps.InsertThenRemove | src/set.rs:465-511 | inserting an absent index through its entry and removing it again gives back the original set |
| SetOps.RemoveThenInsert | src/set.rs:505-542 | removing a present index through its entry and inserting it again gives back the original set |
| SetOps.OrInsertIdempotent | src/set.rs:479-485 | a second `or_insert` of the same index leaves the store as it was |
| SetOps.Extend | src/set.rs:289-296 | extending adds every index of the iterator and nothing else |
| SetExtract.Retain | src/set.rs:1095-1108 | `retain` keeps exactly the indexes the predicate accepts |
| SetExtract.New | src/set.rs:1085-1092 | a new `extract_if` iterator yields every accepted index in increasing order |
| SetExtract.Next | src/set.rs:1261-1277 | `next` yields the least accepted index left, removes it from the store and moves past it |
| SetExtract.SizeHint | src/set.rs:1255-1259 | with the yielded indexes not counted twice, the upper bound is the number of indexes still to be walked and bounds what is still to be yielded |
| SetExtract.ExtractAll | src/set.rs:1261-1277 | running `extract_if` to the end yields the accepted indexes in increasing order and leaves the rejected ones in the store |
| SetExtract.NextAsWritten | src/set.rs:1261-1277 | as written, `next` counts every index it walks past, the yielded ones included, in `passed` |
| SetExtract.SizeHintAsWritten | src/set.rs:1255-1259 | as written, the upper bound subtracts the yielded indexes a second time, and underflows when they outnumber what is left |
| SetExtract.SizeHintAsWrittenCounterexample | src/set.rs:1255-1277 | on {0, 1} accepting all, the bound is 0 after the first `next` while one index is still to be yielded |
| SetAlgebra.Scan | src/set.rs:1446-1460 | the skip loop of the filtering iterators yields the first accepted index from the cursor on, and leaves the accepted ones after it |
| SetAlgebra.Difference | src/set.rs:1302-1312 | `difference` yields the indexes of `self` not in `other`, in increasing order |
| SetAlgebra.DifferenceNext | src/set.rs:1446-1460 | `next` yields the head of what the difference still owes |
| SetAlgebra.Intersection | src/set.rs:1331-1341 | `intersection` yields the indexes in both sets, in increasing order |
| SetAlgebra.IntersectionNext | src/set.rs:1554-1568 | `next` yields the head of what the intersection still owes |
| SetAlgebra.SymmetricDifference | src/set.rs:1315-1326 | `symmetric_difference` yields every index in exactly one set, each once |
| SetAlgebra.SymmetricDifferenceNext | src/set.rs:1492-1520 | `next` finishes the left scan before the right one and yields the head of what is owed |
| SetAlgebra.Union | src/set.rs:1344-1355 | `union` yields every index of either set, each once |
| SetAlgebra.UnionNext | src/set.rs:1600-1622 | `next` yields every left index, then the right indexes the left set lacks |
| SetAlgebraOrd.UnionOrd | src/set.rs:1411-1421 | the ordered union yields the union in increasing order |
| SetAlgebraOrd.UnionOrdNext | src/set.rs:1776-1808 | the merge step yields the least index of either pending part and drops it from both |
| SetAlgebraOrd.SymmetricDifferenceOrd | src/set.rs:1378-1391 | the ordered symmetric difference yields it in increasing order |
| SetAlgebraOrd.SymmetricDifferenceOrdNext | src/set.rs:1656-1690 | the merge step skips indexes on both sides and yields the least index on one side only |
| SetAlgebraOrd.IntersectionOrd | src/set.rs:1396-1406 | the ordered intersection yields it in increasing order |
| SetAlgebraOrd.IntersectionOrdNext | src/set.rs:1716-1750 | the leap-frog step yields the least common index, leaping each cursor to the other's position |
| SetAlgebraOrd.LeapLeft | src/set.rs:1728-1737 | leaping the left cursor past the right one's index drops only that index from the pending intersection, which holds it exactly when the left set does |
| SetAlgebraOrd.CollectUnionOrd | src/set.rs:1776-1808 | draining the ordered union gives the ascending enumeration of the union |
| SetAlgebraOrd.CollectIntersectionOrd | src/set.rs:1716-1750 | draining the ordered intersection gives the ascending enumeration of the intersection |
| SetBitwise.BitAndAssign | src/set.rs:1825-1831 | `&=` leaves the intersection |
| SetBitwise.BitOrAssign | src/set.rs:1834-1842 | `\|=` leaves the union |
| SetBitwise.SubAssign | src/set.rs:1845-1852 | `-=` leaves the difference |
| SetBitwise.BitXorAssign | src/set.rs:1892-1930 | the single-pass ordered `^=` leaves the symmetric difference |

## Left out

- The integer widths are not modelled. `u8`, `u16` and `usize` indexes are unbounded `nat`s, so index overflow and the `u16` cast of a chunk's outer position are not modelled. A store's count is assumed to fit in a `usize`.
- UnsignedChunks.Contains, UnsignedChunks.Insert, UnsignedChunks.NextAfter and UnsignedChunks.NextBefore require the index to be below the word's width. The source computes `1 << index` there, which overflows otherwise; callers always pass an inner index.
- DynamicStores.Insert, DynamicStores.SetChunk, DynamicStores.Reserve and DynamicStores.Grow take the allocator's extra capacity (`slack`) as a parameter. Allocation failure is not modelled: `Vec::try_reserve` and the other insertion errors are treated as succeeding.
- The nightly `try_fold`, `try_fold_after` and `try_fold_before` are left out. So are `count`, and the `size_hint` of every iterator but `ExtractIf`: they restate `len`. The `passed` counters of the unordered algebra iterators only feed those hints.
- The `IndexSet` and `IndexOrdSet` forwarding wrappers, `Default`, `FromIterator`, `as_store` and the by-value operator plumbing delegate to the modelled operations. So do `IntoIter` and `IntoIterRev`, which share the code of `Iter` and `IterRev`, and the duplicate `IndexOrdSet` versions of the unordered operations.
- SetIters.DrainPrefix models `Drain` over a dynamic store as `Iter` followed by DynamicStores.Clear, the `clear` of its `Drop`. Drain's own `nth` repeats the `Iter::nth` accounting, which SetIters.NthAsWritten covers.
- The entry API's `get` and `into_value` only return the entry's index and are not modelled.
- Predicates are pure functions of the index. A predicate with side effects or one that panics is not modelled.
- The chunk-level `_not` traversals of `UnsignedChunk` and `ArrayChunk` are reached through the complement, `Not`. `NotView`'s `fuse`, `split` and chunk traversal delegate unchanged to the store's, which are modelled in `DynamicStores`.
- `vault.rs`, `hash_set.rs`, `lib.rs` and the test modules are not part of this model.
- The release-build wrap-around of the `yielded` underflow in `nth` is not modelled. SetIters.NthAsWritten and SetIters.NthRevAsWritten report the underflow as an outcome.

## Findings

| source | as written | input that shows it | evidently intended | confidence | as-written member | corrected member |
|---|---|---|---|---|---|---|
| src/not.rs:252-254 | `NotView::is_empty` returns `!store.is_empty()` | a store holding only 0: the view contains 1 but reports empty | empty exactly when `len` (`len_not`) is zero | not executed | NotViews.IsEmptyAsWritten | NotViews.IsEmpty |
| src/set.rs:727-743 | on success `nth` adds `n - 1` to `yielded` and its final `next` adds 1, although n + 1 indexes were taken; on exhaustion it adds `(n - 1) - remainder`, which underflows when the cursor is on the last index | `{0, 1}` with `nth(1)`: `len` is 1 afterwards with nothing left; `{0}` with `nth(1)`: `0 - 1` | the count grows by the number of indexes taken: n + 1 on success | not executed | SetIters.NthAsWritten | SetIters.Nth |
| src/set.rs:819-835 | `IterRev::nth` repeats the accounting of `Iter::nth`: it adds `n - 1` on success before the final `next` adds 1, and `(n - 1) - remainder` on exhaustion | `{0, 1}` with reverse `nth(1)`: it yields 0 and `len` is 1 afterwards with nothing left; `{0}` with reverse `nth(1)`: `0 - 1` | the count grows by the number of indexes taken: n + 1 on success | not executed | SetIters.NthRevAsWritten | SetIters.NthRev |
| src/not.rs:262-282 | `NotView` is an `IndexVault`, but it contains every index past the allocated chunks while its traversal stops at them | `NotView` of a new dynamic store: contains 0, `first` is `None` | membership bounded to the indexes the traversal reaches | not executed | NotViews.NoTheftCounterexample | NotViews.NoTheftWithin |
| src/set.rs:1255-1259 | `size_hint` subtracts `passed` from the store's length, and `passed` counts the yielded indexes, which `next` has already removed | `{0, 1}` accepting all: the bound is 0 after one `next` with 1 left, and the subtraction underflows after the second | subtract only the indexes walked past and kept | not executed | SetExtract.SizeHintAsWritten | SetExtract.SizeHint |
