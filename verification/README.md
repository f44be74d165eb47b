# libvarbit: the variable-bit-width packed vector, in Dafny

libvarbit's core is `varbit::vector<T>`, which the benchmark calls `bitvector<T>`.
It is a growable vector of unsigned values. Each element occupies exactly `w` bits,
where 1 <= w <= B and B is the bit size of the word type `T`
(`uint8_t`, `uint16_t`, `uint32_t` or `uint64_t`). Elements are packed back to back into a buffer of words.
Element i occupies stream bits [i*w, (i+1)*w). Word k holds stream bits [k*B, (k+1)*B), least significant bit first.
An element may straddle two words.

The implementing headers `varbit/vector.h` and `bitvector.h` are not part of this model.
The model is of the behaviour the test suite (`test/vector.cc`) asserts and the consistency the summation benchmark (`benchmark/sum.cc`) prints.
Those files constrain element values, sizes, `capacity() >= size()` and the rejection of width B+1, and nothing more.
Everything below that level is this model's assumption about the unseen header:
- the packed layout above;
- the word-level read and write algorithms;
- the iterator's (word, offset) cursor;
- the capacity formula;
- the growth policy;
- the abort conditions.
The abort conditions are width 0, widths above B, and an index at or past `size()`.
Every contract about them is a statement about this layout, not a documented promise of the library.

Layers (one module per file):

- `Bits` (bits.dfy): naturals as little-endian bit strings.
  The C++ word operations are written bit by bit:
  - `>>` is `Shr`, `<<` is `Shl`;
  - `x & ((1 << n) - 1)` is `Low`;
  - the OR of disjoint fields is `Concat`;
  - the read-modify-write of a field is `Splice`;
  - `&` is `And`.
- `Stream` (stream.dfy): a word buffer read as one bitstream.
  - `ReadBits` is the meaning of a stretch of bits.
  - `Extract` and `Write` are the word-level algorithms: one shift and mask per word, and a second word only when the element straddles. Both are proved against that meaning.
- `Varbit` (vector.dfy): the `Vector` datatype (word type, width, size, buffer) and its invariant `Valid`.
  - The abstract contents `Elems(v)` are read off the stream.
  - Construction (`New`, `Create`), `Get` (const `v[i]`), `Set`, the subscript proxy (`ProxyRead`, `ProxyAssign`), `Capacity` and `PushBack` are each stated against `Elems`.
- `Cursor` (cursor.dfy): the forward iterator. It carries a (word, offset) bit cursor, and stepping it adds w and carries.
- `SumBench` (sum.dfy): the benchmark's pure helpers and the mask `~(~0 << w)`, with the element count n as a parameter.
- `VectorTests` (vector_test.dfy): the test suite's loops as functions, and its scenarios as lemmas over arbitrary values.
  - `ValuesFit` shows that the suite's own values meet the scenarios' preconditions.
  - The `Suite*` lemmas apply the scenarios to those 24 literal values.

## Model

| member | source | states |
|---|---|---|
| Varbit.New | test/vector.cc:19-48 | For every width 1 <= w <= B, including the full word w == B, construction yields a valid empty vector of that width with no elements and capacity for the reserved count |
| Varbit.Create | test/vector.cc:4-17 | Construction succeeds exactly when 1 <= w <= B; `None` is the assertion abort, and success yields an empty vector |
| Varbit.Get | test/vector.cc:60-63 | The const subscript is the i-th stored element, read from one word or two (under the assumed layout), and it is below 2^w |
| Varbit.Set | test/vector.cc:113-118 | Indexed assignment replaces element i by the low w bits of x; every other element, the size, the width and the buffer length stay the same |
| Varbit.SetKeepsOtherBits | test/vector.cc:113-118 | Writing element i changes no stream bit outside [i*w, (i+1)*w) |
| Varbit.ProxyRead | test/vector.cc:57-59 | Reading through the mutable subscript's proxy gives the same element as the const subscript |
| Varbit.ProxyAssign | test/vector.cc:113-115 | Assigning through the proxy stores the low w bits at its index and leaves the other elements alone |
| Varbit.PushBack | test/vector.cc:54-56 | push_back appends the low w bits of x, grows the size by exactly one, keeps every earlier element, and leaves size <= capacity |
| Varbit.CapacityIsGreatest | test/vector.cc:82-84 | `capacity()` is the largest element count whose bits fit the buffer. The tests only require capacity >= size, so this formula is assumed |
| Varbit.ToWord | test/vector.cc:125-127 | Converting an integer argument (such as -1) to the unsigned word type gives the one B-bit value congruent to it modulo 2^B |
| Varbit.CapacityCoversSize | test/vector.cc:77-86 | Every valid vector has capacity() >= size() |
| Varbit.PushBackOfConverted | test/vector.cc:125-127 | Converting the pushed value to the word type first, as for push_back(-1), stores the same element, because only w <= B low bits are kept |
| Stream.ExtractReads | test/vector.cc:50-59 | `Extract`, the assumed word-level read (shift and mask of word k, OR-ed with the low bits of word k+1 when the element straddles), equals the element's stream bits |
| Stream.WriteBits | test/vector.cc:113-115 | After `Write`, the assumed word-level write, the element's stream bits are the value's bits and every other stream bit is unchanged |
| Cursor.At | benchmark/sum.cc:69-70 | `iterator(v, i)` points at index i with a cursor at element i's first bit |
| Cursor.Carry | benchmark/sum.cc:70 | Carrying whole words out of the bit offset keeps the stream position word*B + offset and leaves the offset below B |
| Cursor.Next | benchmark/sum.cc:70 | `++it` moves to the next index and keeps the cursor at that element's first bit |
| Cursor.NextIsAt | benchmark/sum.cc:69-70 | Stepping from an iterator gives the same cursor as constructing `iterator(v, i+1)` |
| Cursor.SamePositionIsEquality | benchmark/sum.cc:69-70 | `it != end` compares indices (an assumed comparison). For iterators in step with one vector, equal indices means equal iterators, cursor included |
| Cursor.Deref | benchmark/sum.cc:71 | `*it` read straight from the cursor equals `v[it.index]` |
| SumBench.InsertElementwise | benchmark/sum.cc:25-30 | Pushing 0..n-1 adds exactly n elements, the i-th being i mod 2^w, after the existing ones |
| SumBench.SumLoop | benchmark/sum.cc:32-39 | sum_loop is the sum of the first n elements |
| SumBench.FillUncompressed | benchmark/sum.cc:41-48 | The plain vector has length n and holds i mod 2^w at index i |
| SumBench.SumUncompressed | benchmark/sum.cc:50-56 | sum_uncompressed is the sum of the first n entries |
| SumBench.SumIter | benchmark/sum.cc:66-74 | Iterating from `iterator(v)` to `iterator(v, v.size())` sums every element |
| SumBench.CheckSum | benchmark/sum.cc:76-84 | check_sum is the sum of i mod 2^w over i < n |
| SumBench.MaskIsLowOnes | benchmark/sum.cc:79 | `Mask`, the value of `~(~0 << w)` on an n-bit int, narrowed to b >= w bits, is exactly w one bits |
| SumBench.BitMaskIsLowOnes | benchmark/sum.cc:43 | For every w in 1..8, `BitMask`, the benchmark's 8-bit mask, is 2^w - 1, including w == 8 where it must not overflow |
| SumBench.MaskedIsResidue | benchmark/sum.cc:46 | `i & bitmask` is i mod 2^w and fits the 8-bit element type |
| SumBench.BitWidthRound | benchmark/sum.cc:102-128 | For each width, a vector built with reserve n and filled with 0..n-1 has sum_loop == sum_iter == sum_uncompressed == check_sum |
| VectorTests.PushAll | test/vector.cc:54-56 | Pushing a sequence grows the size by its length and appends each value's low w bits in order |
| VectorTests.AssignAll | test/vector.cc:113-115 | Assigning slots 0..m-1 left to right makes them the new values' low w bits and leaves the later slots alone |
| VectorTests.ValuesFit | test/vector.cc:51-52 | The suite's 24 pushed values are all below 2^7, so the width-7 scenarios apply to them |
| VectorTests.UpdateValuesFit | test/vector.cc:105-112 | The overwrite scenario's old and new values are all below 2^7 |
| VectorTests.CreationFailsForLargeBitWidths | test/vector.cc:4-17 | Width B+1 is rejected for B = 64, 32, 16 and 8 |
| VectorTests.CreationSucceedsForValidBitWidths | test/vector.cc:19-48 | Widths 1, 8, 16, 32 and 64, where they fit the word type, construct a vector of size 0 |
| VectorTests.StoresValuesWithPushBack | test/vector.cc:50-64 | Values that fit the width read back unchanged after push_back, through the const subscript and through the proxy |
| VectorTests.StraddlingElement | test/vector.cc:51-58 | At width 7 over 64-bit words, element 9 starts at bit 63 of word 0 and runs into word 1 |
| VectorTests.SizeIncreasesWithPushBack | test/vector.cc:66-75 | Before the i-th push the size is i, and after it the size is i+1 |
| VectorTests.CapacityIsAlwaysGreaterOrEqualThanSize | test/vector.cc:77-86 | After every prefix of pushes, capacity >= size |
| VectorTests.ReadIsAnd | test/vector.cc:95-101 | Element i of the pushed vector, by either subscript, is the i-th value AND a mask of w one bits |
| VectorTests.OnlyLeastSignificantBitsAreStored | test/vector.cc:88-101 | For any values and any w, with mask == 2^w - 1 (the suite's w == 2 and mask 3), the size is the count pushed and every read through both subscripts is the pushed value AND mask |
| VectorTests.UpdatesValues | test/vector.cc:104-123 | After a left-to-right overwrite, the assigned slots read the new values, the rest read the old ones, and both subscripts agree |
| VectorTests.SuiteStoresValues | test/vector.cc:50-64 | The suite's 24 values pushed at width 7 over 64-bit words read back unchanged by const subscript |
| VectorTests.SuiteMasksValues | test/vector.cc:88-101 | The suite's 24 values pushed at width 2 read back as the value AND 3 |
| VectorTests.SuiteUpdatesValues | test/vector.cc:104-123 | After pushing the 24 old values at width 7 and assigning the 24 new ones, every slot reads its new value |
| VectorTests.SuiteNegativeValue | test/vector.cc:125-128 | push_back(-1) onto a fresh width-7 vector of bytes reads back 127 |
| VectorTests.CorrectlyReturnsNegativeValues | test/vector.cc:125-128 | -1 converts to the 8-bit word 255, and pushing it at width 7 reads back 127 |

## Left out

- Varbit.New: the tests show only width B+1 aborting. This model assumes the header rejects every width outside 1..B, and that becomes a precondition of `New`. `Create` gives the same check as an outcome, and the abort and signal mechanics are not modelled.
- Varbit.PushBack: the growth policy of the header is not visible. The model keeps the buffer while size < capacity, and otherwise doubles the word count (one word when empty). Only capacity >= size is promised.
- VectorTests.CorrectlyReturnsNegativeValues: states the stored value 127 and does not encode the test's literal comparison with -1. Under the masking the suite asserts at test/vector.cc:88-101, that comparison cannot hold.
- SumBench.BitWidthRound: the element count n is a parameter, not the literal 512 Mi of benchmark/sum.cc:23. The sums are unbounded naturals, so the fixed-width `size_t` overflow is not modelled.
- SumBench.MaskIsLowOnes: the shift of the negative `int` `~0` is modelled on its 32-bit two's-complement pattern.
- Timing, printing and memory locking in benchmark/sum.cc: the `gettimeofday` shim, `printTimeDiff`, `mlockall` and all console output. They are I/O with no effect on the values.
- `inspect()` (benchmark/sum.cc:109): diagnostic output only.
- benchmark/benchmark.h: PAPI counters, argument parsing and CSV output. It is hardware and I/O plumbing.
- Heap allocation, the copying on reallocation, and the invalidation of proxies and iterators after a push. Values are immutable here, so a proxy or iterator is an index, or an index and a cursor, applied to a vector.
- Out-of-range indices: the tests never use one, and what the header does with them is unseen. The model assumes they are programming errors and excludes them by preconditions (`i < size`).
- Performance: the amortised cost of push_back and the iterator's speed advantage over indexing.
