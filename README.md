# btree.c test harness, modelled in Dafny

btree.c is a generic in-memory B-tree in C. Its test programs share one
header, `tests/tests.h`. That header wraps the tree's allocator in an
accounting allocator, shuffles test keys, formats counts with thousands
separators, and supplies the comparators and traversal callbacks the tests
hand to the tree. The tree engine itself (`btree.c`, `btree.h`) is not part
of this model. This project models the self-contained parts of the harness
and proves what they promise.

- `common.dfy` (`Common`): `Option`, the range of a C `int`, and C's
  truncating `%` (`CRem`).
- `allocator.dfy` (`Allocator`): `xmalloc`, `xfree`, `init_test_allocator`
  and `cleanup_test_allocator` are methods of the class `TestAllocator`.
  Its fields are the globals `total_allocs`, `total_mem`, `rand_alloc_fail`,
  the hook pointers, and the size header written in front of every live
  block (`heap`). `size_t` arithmetic wraps modulo 2^64. The invariant
  `Valid()` says the counters account exactly for the live blocks.
- `shuffle.dfy` (`Shuffle`): the in-place Fisher-Yates shuffle as a method
  on an array. The values `rand()` returns are a parameter. The index each
  step computes is proved to lie in `[i, numels)`. The result is proved to
  be a permutation, and each placed position is proved final.
- `commaize.dfy` (`Commaize`): the right-to-left copy loop of `commaize`
  (`GroupThousands`) is proved equal to a reference grouping (`Group`).
  Lemmas about `Group` give the digits back once commas are removed, the
  length `d + (d - 1) / 3`, and the exact positions of the commas.
- `visitors.dfy` (`Visitors`): `compare_ints` and `compare_pairs`; the
  contexts of `iter` and `pair_keep`/`pair_keep_desc` as classes whose
  methods are tied to step functions; folds of those steps over a stream of
  items, with lemmas that the callbacks accept exactly the strictly ordered
  streams; and `pair_update`, `pair_delete`, `pair_cycle`, with a lemma that
  a traversal applying their actions keeps the items in strict key order.

Where the code and its comments disagree, the model follows the code.
The comment above `rand_alloc_fail_odds` says "1 in 10", but the value is 3,
so the model injects a failure when `rand() % 3 == 0`. The harness passes
NULL as the tree's `realloc`, so only allocate and free are modelled.

## Model

| member | source | states |
|---|---|---|
| `Common.CRem` | tests/tests.h:333 | C's `%` by a positive divisor: the remainder lies strictly between `-b` and `b`, has the sign of the dividend, equals Dafny's `%` for a non-negative dividend, and differs from the dividend by a multiple of `b`; together these leave C's truncating value as the only one possible |
| `Allocator.AllocWraps` | tests/tests.h:106-107 | `total_allocs++` and `total_mem += size` on `size_t`: one more block and `size` more bytes, a counter that would reach 2^64 starting again from zero |
| `Allocator.FreeWraps` | tests/tests.h:113-114 | `total_mem -= size` and `total_allocs--` on `size_t`: one block and `size` bytes fewer, a counter that would drop below zero continuing from 2^64 - 1 downwards |
| `Allocator.LeakReported` | tests/tests.h:129 | the leak condition holds exactly when the counters are not both zero |
| `Allocator.InjectedFailure` | tests/tests.h:100 | a failure is never injected while random failures are off |
| `Allocator.FailureOdds` | tests/tests.h:96-100 | with random failures on, exactly one of any three consecutive values of `rand()` injects a failure: the odds are 1 in 3, not the 1 in 10 of the comment |
| `Allocator.HeapBytesRemove` | tests/tests.h:111-117 | the live-byte total is the freed block's recorded size plus the total of the remaining blocks, for any block |
| `Allocator.HeapBytesAdd` | tests/tests.h:103-107 | recording a new block adds exactly its size to the live-byte total |
| `Allocator.AllocAccounted` | tests/tests.h:105-107 | the `xmalloc` counter update (allocs + 1, mem + size, mod 2^64) keeps the counters equal to the count and byte total of the live blocks |
| `Allocator.FreeAccounted` | tests/tests.h:113-114 | the `xfree` counter update (allocs - 1, mem - recorded size, mod 2^64) keeps the counters equal to the count and byte total of the live blocks |
| `Allocator.FreeUndoesAlloc` | tests/tests.h:105-114 | an allocation of `size` followed by the free of that block restores both counters exactly, wrap-around included |
| `Allocator.LeakReportedExactly` | tests/tests.h:129 | with fewer than 2^64 live blocks, the leak condition (`total_allocs > 0` or `total_mem > 0`) holds if and only if some block is still live |
| `Allocator.TestAllocator.constructor` | tests/tests.h:86-87 | the globals start at zero counters, no live blocks, random failures off, hooks NULL |
| `Allocator.TestAllocator.Init` | tests/tests.h:122-126 | sets the random-failure switch and installs the hooks; counters and live blocks are untouched |
| `Allocator.TestAllocator.Malloc` | tests/tests.h:99-109 | an injected failure (switch on and `rand() % 3 == 0`) returns NULL and changes nothing; otherwise returns the new block, records its size, and advances the counters by one block and `size` bytes; the accounting invariant is kept |
| `Allocator.TestAllocator.Free` | tests/tests.h:111-117 | NULL changes nothing; a live block is removed and the counters drop by one block and by the size recorded in its header; the accounting invariant is kept |
| `Allocator.TestAllocator.Cleanup` | tests/tests.h:128-136 | succeeds exactly when both counters are zero, and then clears the hooks; on a leak the state is left as it was (the process exits); when the counters account for the live blocks (and fewer than 2^64 are live), it succeeds exactly when every block has been freed |
| `Shuffle.Pick` | tests/tests.h:76 | the index step `i` swaps with, `i + rand() / (RAND_MAX / (numels - i) + 1)`, is at least `i`, and below `numels` for every value `rand()` can return |
| `Shuffle.Swap` | tests/tests.h:77-79 | exchanging records `i` and `j`: the length is kept, the two records trade places, every other record stays |
| `Shuffle.Picks` | tests/tests.h:75-76 | the indices the loop computes from the draws, one per step, each within the records not yet placed |
| `Shuffle.Steps` | tests/tests.h:75-80 | the records after the first `k` swaps; their number is unchanged |
| `Shuffle.StepsPermutes` | tests/tests.h:75-80 | after any number of steps the records are a permutation of the original ones |
| `Shuffle.StepsKeepPlaced` | tests/tests.h:75-80 | once step `t` has placed a record at position `t`, no later step moves it |
| `Shuffle.StepDrawsFromRest` | tests/tests.h:76-79 | the record step `t` places is taken from the records not yet placed |
| `Shuffle.SwapRecords` | tests/tests.h:77-79 | the three copies through `tmp` exchange records `i` and `j` and leave the rest as they were, also when `i == j` |
| `Shuffle.Shuffle` | tests/tests.h:72-81 | the array ends as the sequence of swaps dictates and is a permutation of its original contents (for `numels >= 1`) |
| `Commaize.Decimal` | tests/tests.h:151 | the numeral of a non-negative value is non-empty, all digits, and has no leading zero |
| `Commaize.ValueOfDecimal` | tests/tests.h:151 | reading the numeral back gives the number |
| `Commaize.FormatD` | tests/tests.h:151 | `%d` on an unsigned int holds no comma and is the plain numeral for values up to `INT_MAX` |
| `Commaize.GroupPrepend` | tests/tests.h:154-163 | prepending a character to grouped text adds a comma after it exactly when the characters already copied form complete groups of three |
| `Commaize.StripGroup` | tests/tests.h:154-163 | removing the commas from the grouped text gives back the original characters |
| `Commaize.GroupLength` | tests/tests.h:154-163 | `d` characters grouped take `d + (d - 1) / 3` characters |
| `Commaize.GroupCommaPositions` | tests/tests.h:155-158 | a comma stands at position `k` exactly when `k > 0` and the number of characters from `k` to the end is a multiple of four; so the text never starts with a comma |
| `Commaize.GroupThousands` | tests/tests.h:152-164 | the copy loop produces the reference grouping of its input |
| `Commaize.Commaize` | tests/tests.h:146-165 | as written (with `%d`): the grouping of the `%d` text, commas exactly at the group boundaries; for `n <= INT_MAX` the commas removed give the digits of `n` and the length is `d + (d - 1) / 3` |
| `Commaize.CommaizeSignMisplaced` | tests/tests.h:151 | for 4294967173 the as-written result is `"-,123"` |
| `Commaize.CommaizeUnsigned` | tests/tests.h:146-165 | with `%u`: for every unsigned int, commas removed give its digits, whose value is `n`; the length is `d + (d - 1) / 3`; commas sit exactly at group boundaries; no leading comma |
| `Visitors.ChainIsOrdered` | tests/tests.h:232-243 | a stream in which every item follows its predecessor is strictly ordered throughout |
| `Visitors.CompareInts` | tests/tests.h:210-213 | the sign of the result orders the two ints (negative, zero, positive as `a < b`, `a == b`, `a > b`) when the subtraction cannot overflow |
| `Visitors.ComparePairs` | tests/tests.h:256-263 | the sign of the result orders the two pairs by key alone, whatever their values |
| `Visitors.FreshIter` | tests/tests.h:215-222 | a fresh scan context is not halted, has counted nothing and has no last item, so it accepts whatever item comes first, with `count` 1 |
| `Visitors.IterStep` | tests/tests.h:224-248 | one call of `iter`: it continues exactly when the context is not halted and the item follows `last` (in `rev` order); then the item becomes `last` and `count` goes up by one; when it stops, the context is halted and `last` and `count` are unchanged |
| `Visitors.IterRun` | tests/tests.h:224-248 | over a stream, `rev` and `stop_at` never change and `count` grows by at most the stream length |
| `Visitors.IterHaltedStays` | tests/tests.h:226-231 | once `bad` is set or `count == stop_at > 0`, further calls change nothing |
| `Visitors.IterRunAccepts` | tests/tests.h:224-248 | after a stream, `count` items were accepted and they are in order, `last` is the last of them, `bad` is set exactly when the next item is out of order, and otherwise the scan stopped only at the end or at `stop_at` |
| `Visitors.IterDetectsDisorder` | tests/tests.h:224-248 | on a full scan, `bad` is set if and only if the stream is not strictly increasing (strictly decreasing when `rev`), and otherwise `count` is the stream length |
| `Visitors.IterCtx.constructor` | tests/tests.h:215-222 | a fresh context: no last item, `count` 0, not bad |
| `Visitors.IterCtx.Iter` | tests/tests.h:224-248 | one call follows the step function; a halted context returns false and stays unchanged; an accepted item becomes `last` and increments `count` |
| `Visitors.KeepStep` | tests/tests.h:270-293 | one call of `pair_keep` (`pair_keep_desc`): the assertion fails exactly when `count > 0` and `compare_pairs_nudata(item, &last)` is not positive (not negative); otherwise the item is copied into `last` and `count` goes up by one |
| `Visitors.KeepRun` | tests/tests.h:270-293 | when no assertion fails over a stream, `count` has grown by the stream length and `last` is its last item |
| `Visitors.KeepRunChain` | tests/tests.h:270-293 | the keep callbacks see a stream without an assertion failure exactly when each key follows the previous one; then `count` is the stream length and `last` the last item |
| `Visitors.KeepRunAccepts` | tests/tests.h:270-293 | `pair_keep` (`pair_keep_desc`) passes a stream exactly when its keys are strictly increasing (decreasing); then `count` is the stream length and `last` the last item |
| `Visitors.PairKeepCtx.constructor` | tests/tests.h:265-268 | a context with `count` 0 |
| `Visitors.PairKeepCtx.PairKeep` | tests/tests.h:270-278 | fails its assertion exactly when the key does not exceed the previous key; otherwise copies the item into `last`, increments `count`, returns NONE |
| `Visitors.PairKeepCtx.PairKeepDesc` | tests/tests.h:280-293 | fails its assertion exactly when the key is not below the previous key; otherwise copies the item into `last`, increments `count`, returns NONE |
| `Visitors.Bumped` | tests/tests.h:298 | the edit of `pair_update` and `pair_cycle`: `val` goes up by one and `key` stays |
| `Visitors.PairUpdate` | tests/tests.h:296-300 | returns UPDATE; the value goes up by one and the key is unchanged |
| `Visitors.PairDelete` | tests/tests.h:324-327 | returns DELETE and leaves the item alone |
| `Visitors.CycleAction` | tests/tests.h:333-344 | for a counter `i` that is non-negative or a multiple of 3, the action is NONE, UPDATE, DELETE for `i % 3 = 0, 1, 2` (C's `%`, which is 0 for every multiple of 3); the unreachable branch is taken exactly for negative counters not divisible by 3 |
| `Visitors.PairCycle` | tests/tests.h:330-345 | the counter goes up by exactly one; the action is that of the old counter; only UPDATE edits the item, and only its value, by one |
| `Visitors.CycleActions` | tests/tests.h:330-341 | the actions of successive calls from counter `c` are those of `c`, `c + 1`, ... |
| `Visitors.SweepKeys` | tests/tests.h:296-300 | every key left after the actions are applied was a key before |
| `Visitors.SweepKeepsOrder` | tests/tests.h:296-300 | since UPDATE changes only the value, applying NONE/UPDATE/DELETE actions to strictly key-ordered items leaves them strictly key-ordered |
| `Visitors.CycleSweepKeepsOrder` | tests/tests.h:330-341 | a traversal driven by `pair_cycle` keeps strictly key-ordered items strictly key-ordered |

## Left out

- The B-tree engine (`btree.c`, `btree.h`) is not part of this model. This covers `btree_sane` and `btree_compare` (tests/tests.h:23-24) and `btree_new_for_test` (tests/tests.h:138-144). `iter` compares items as the tree's comparator would; the model uses integer order.
- `Visitors.Sweep` states how a traversal applies the callbacks' actions: NONE keeps the item, UPDATE keeps the edited item, DELETE removes it. This is how the engine interprets `enum btree_action`; the engine's code is not part of this model.
- `crand`, `seedrand` and the `seed` global (tests/tests.h:26-39): reading `/dev/urandom` is I/O, and `srand` is library randomness. The values `rand()` returns are parameters (`roll` in `Malloc`, `draws` in `Shuffle`).
- The `do_test0`, `do_test`, `do_test_rand` and `do_chaos_test` macros (tests/tests.h:41-70): argument and environment parsing and printing.
- `now` and the `bench` macro (tests/tests.h:89-93, 167-200): clocks, floating-point rates and `printf`.
- `cleanup` (tests/tests.h:83-84) has an empty body. The `OOM_WAIT` retry loop (tests/tests.h:206) is caller-side plumbing around the engine. `pair_update_check` and `pair_update_check_desc` (tests/tests.h:302-322) check the engine's results.
- `Allocator.TestAllocator.Malloc`: the address the system `malloc` returns is a parameter, assumed not to be a live block. `assert(mem)` (system allocation failure aborts) is not modelled.
- `Allocator.TestAllocator.Free`: a pointer that did not come from `xmalloc` is undefined behaviour in C, so the model requires a live block or NULL.
- `Allocator.TestAllocator.Cleanup`: the `fprintf` to stderr and `exit(1)` on a leak are modelled as returning `false`.
- `Shuffle.Shuffle`: a record of `elsize` bytes is one array element of a generic type, and the `memcpy`s copy whole elements. The conversion of `j` to `int` is not modelled; it would overflow only past `INT_MAX` records.
- `Commaize.Commaize`: the 64-byte buffers are sequences. `memset(s2, 0, sizeof(64))` clears only the first bytes, but the first NUL is all `strlen` needs, so the result buffer does start empty.
- `Visitors.IterCtx.Iter`: `last` is a pointer to the item in C; the model keeps the item's value. `count++` is unbounded, since C `int` overflow of the counters is not modelled. The same holds for `count` in `pair_keep`, the counter in `pair_cycle`, and `val++` in `pair_update`/`pair_cycle`.
- `Visitors.CompareInts`: the `assert(udata == nothing)` check on the context pointer is not modelled. Keys must be small enough that the subtraction cannot overflow, since overflow is undefined in C. The same holds for `Visitors.ComparePairs`.
- `Visitors.PairKeepCtx.PairKeep`: a failing `assert` aborts the process and is modelled as `None`. Builds with `NDEBUG` are not modelled. The same holds for `PairKeepDesc`, whose step compares keys directly (what the sign of `compare_pairs_nudata` means, as `ComparePairs` states).

## Findings

| source | as written | input that shows it | evidently intended | confidence | as-written member | corrected member |
|---|---|---|---|---|---|---|
| tests/tests.h:151 | `commaize` prints its `unsigned int` argument with `%d`, so values above `INT_MAX` print as negative numbers, and the grouping loop counts the minus sign as a digit | `n = 4294967173` gives `"-,123"` | `%u`, giving `"4,294,967,173"` | medium (on a two's-complement platform); not executed | `Commaize.Commaize`, `Commaize.CommaizeSignMisplaced` | `Commaize.CommaizeUnsigned` |
