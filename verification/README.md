# Parallel-programming exercises: a Dafny model of their integer and string cores

This project models, in Dafny, the computational cores of a collection of MPI
and OpenMP course programs and proves properties of the model.

- **Distributed merge sort** (`MPI/9_sort/main.cc`):
  - the serial primitives `merge`, `insertionSort` and `mergeSortSerial` over an `int` buffer and a scratch buffer;
  - the process-tree arithmetic `topmostLevel` and `helperRank = rank + 2^level`;
  - the parallel step `mergeSortParallel`, with `runHelperMPI` and `runRootMPI`, and the root's final `is_sorted` check.

  The message passing is simulated sequentially. The helper's run becomes a call, and the messages exchanged are recorded as a trace that is compared against a reference definition. Buffers are `seq<int>` values: each method returns the new contents of the buffers it was handed.
- **Block partition of the terms `1..N` over ranks**: `getInterval` in `MPI/4-Exp/main.cc` and the same arithmetic inline in `MPI/5_comm/main.cc`. Both use C's truncating integer division, which is modelled explicitly.
- **Factorial chain of the `e` series program** (`MPI/4-Exp/main.cc`):
  - the per-rank big-integer product/sum loop;
  - `mpz_set_ull`;
  - the rank-to-rank chaining of the product through `getPrevFact`.

  GMP integers are unbounded, so they are Dafny `int`.
- **Palindromic-substring counting** by centre expansion (`Open-MP/single-thread.cpp`, `Open-MP/multi-thread.cpp`):
  - both versions of `countPalindromesFromCenter`;
  - both versions of `countAllPalindromes`, including the null pointer, `strlen`, and the OpenMP reduction as per-thread partial sums under an arbitrary schedule.

Files, one module each:

| file | module |
|---|---|
| `sort_spec.dfy` | `SortSpec` |
| `serial_sort.dfy` | `SerialSort` |
| `topology.dfy` | `Topology` |
| `trace.dfy` | `MessageTrace` |
| `protocol.dfy` | `Protocol` |
| `partition.dfy` | `Partition` |
| `factorial.dfy` | `Factorial` |
| `palindromes.dfy` | `Palindromes` |
| `arith.dfy` | `Arith` (division facts) |

Two behaviours of the code that a reader might not expect:

- **Tie rule.** On equal keys the merge emits the right half's element first, because it compares with `<` (`MPI/9_sort/main.cc:159`). `SortSpec.MergeRuns` does the same.
- **Size of the right half.** The helper is sent `a[size/2..size)`. With five keys that is `a[2..5)`, three keys (`MessageTrace.TwoParticipantsFiveKeys`).

## Model

| member | source | states |
|---|---|---|
| SortSpec.MergeRunsPermutes | MPI/9_sort/main.cc:154-177 | The merged run holds exactly the elements of both runs: its multiset is the sum of theirs, and its length is the sum of their lengths. |
| SortSpec.MergeRunsSorted | MPI/9_sort/main.cc:154-177 | Merging two sorted runs gives a sorted run. |
| SerialSort.MergeRunsTakeRight | MPI/9_sort/main.cc:159-165 | When the left head is not strictly smaller (including equal keys), the merge emits the right head first. |
| SerialSort.MergeFromIsMergeRuns | MPI/9_sort/main.cc:155-177 | The index walk of the three merge loops over `a[i1..half)` and `a[i2..size)` yields the reference merge of those two slices. |
| SerialSort.MergeHeads | MPI/9_sort/main.cc:155-167 | The first merge loop stops with one half exhausted. What it has written, followed by the merge of what is left, is the whole merge. |
| SerialSort.MergeTails | MPI/9_sort/main.cc:168-177 | The two copy loops append exactly the merge of the remaining elements. |
| SerialSort.Merge | MPI/9_sort/main.cc:154-180 | `a[0..size)` becomes the merge of its two halves, and `tmp[0..size)` holds the same values. Nothing at or past `size` changes in either buffer. |
| SerialSort.ShiftInsert | MPI/9_sort/main.cc:184-191 | The inner loop moves `a[i]` left and stops at the first element, scanning left, that is `<=` it. The element before the hole is `<=` it, and every element it passed is `>` it. The rest of the buffer is untouched. |
| SerialSort.InsertionSort | MPI/9_sort/main.cc:182-193 | `a[0..size)` ends sorted and a permutation of its input, and the rest of the buffer is unchanged (size 0 changes nothing). |
| SerialSort.MergedHalves | MPI/9_sort/main.cc:148-151 | Merging a sorted permutation of the left half with a sorted permutation of the right half gives a sorted permutation of the whole range. |
| SerialSort.MergeSortSerial | MPI/9_sort/main.cc:142-152 | For every size, `a[0..size)` ends sorted and a permutation of its input. Both buffers are unchanged from `size` on, and at or below `SMALL` the scratch buffer is not touched. |
| SerialSort.SerialMatchesInsertionSort | MPI/9_sort/main.cc:142-152 | Serial merge sort leaves the same buffer as insertion sort, so at or below `SMALL` it is exactly insertion sort. |
| SerialSort.IsSorted | MPI/9_sort/main.cc:66-68 | The final check accepts exactly the sorted sequences. |
| Topology.LevelFrom | MPI/9_sort/main.cc:111-116 | The level loop stops at the first level, from its start on, whose power of two exceeds the rank. |
| Topology.TopmostLevel | MPI/9_sort/main.cc:111-116 | `topmostLevel(rank)` is a level `L` with `rank < 2^L` and, when `L > 0`, `2^(L-1) <= rank`. |
| Topology.TopmostLevelLeast | MPI/9_sort/main.cc:111-116 | `topmostLevel(rank)` is the least such level. |
| Topology.TopmostLevelOfRoot | MPI/9_sort/main.cc:108-116 | The root, rank 0, enters the tree at level 0. |
| Topology.HelperEntryLevel | MPI/9_sort/main.cc:121-131 | If `rank < 2^level`, then the helper `rank + 2^level` enters the tree at `level + 1`, which is exactly the level of its parent's left-half recursion. |
| MessageTrace.SubtreeWorkDests | MPI/9_sort/main.cc:119-139 | Work in a subtree goes to each rank `x` with `rank < x <= maxRank` and `x - rank` a multiple of `2^level` exactly once, and to no other rank. |
| MessageTrace.RootContactsEachHelperOnce | MPI/9_sort/main.cc:89-104 | In a whole run, every rank `1..maxRank` receives exactly one work message, and no other rank receives any. So every helper's probe is matched. |
| MessageTrace.RepliesAnswerWorks | MPI/9_sort/main.cc:127-136 | The replies are exactly the answers to the work messages: same pair of ranks, reversed, with the same count. The trace is twice as long as its work messages. |
| MessageTrace.TraceLength | MPI/9_sort/main.cc:119-139 | A whole run exchanges `2 * maxRank` messages. |
| MessageTrace.TwoParticipantsFiveKeys | MPI/9_sort/main.cc:121-136 | With five keys and two participants, the root sends three keys to rank 1 and receives three back, and nothing else is exchanged. |
| Protocol.MergeSortParallel | MPI/9_sort/main.cc:119-140 | `a[0..size)` ends sorted and a permutation of its input, with both buffers unchanged past `size`. The messages equal the reference trace, and there are none exactly when the helper rank exceeds `maxRank`, where the step is the serial sort. |
| Protocol.ReceiveInto | MPI/9_sort/main.cc:136 | The receive overwrites exactly `a[size/2..size)` with the received keys. |
| Protocol.RunHelper | MPI/9_sort/main.cc:89-106 | A helper returns a sorted permutation of the keys it was sent, as many as were sent. Its messages are the trace from its own topmost level. |
| Protocol.RunRoot | MPI/9_sort/main.cc:60-86 | Any rank other than 0 aborts with code 1. Rank 0 completes with a sorted permutation of the input, and its message trace is the reference one. |
| Protocol.SortsLikeSerial | MPI/9_sort/main.cc:119-140 | The root's result does not depend on the number of participants. |
| Partition.CDivNegative | MPI/4-Exp/main.cc:123-127 | C's truncating quotient of a negative dividend is at most 0, and its remainder lies in `(-c, 0]`. |
| Partition.GetIntervalClosedForm | MPI/4-Exp/main.cc:122-134 | For `t >= 0`, rank `r` starts at `1 + r*(t/c) + min(r, t%c)` and owns `t/c` terms, plus one when `r < t%c`. |
| Partition.FirstStartsAtOne | MPI/4-Exp/main.cc:122-134 | Rank 0 starts at term 1. |
| Partition.Contiguous | MPI/4-Exp/main.cc:122-134 | Each rank's range ends where the next rank's begins. |
| Partition.StartsAtOneOrLater | MPI/4-Exp/main.cc:122-134 | Every range is well formed and starts at term 1 or later. |
| Partition.LastEndsAfterTotal | MPI/4-Exp/main.cc:122-134 | Rank `c-1` ends at `t + 1`. |
| Partition.Balanced | MPI/4-Exp/main.cc:123-131 | Any two ranks' shares differ by at most one term. |
| Partition.StartMonotone | MPI/4-Exp/main.cc:122-134 | Starts never decrease with the rank. |
| Partition.FindOwner | MPI/4-Exp/main.cc:122-134 | For a term inside the covered span, it finds a rank at or after `r` whose range holds the term. |
| Partition.Covers | MPI/4-Exp/main.cc:122-134 | Every term `1..t` lies in some rank's range. |
| Partition.Disjoint | MPI/4-Exp/main.cc:122-134 | No term lies in two ranks' ranges. |
| Partition.NonPositiveCountIsEmpty | MPI/4-Exp/main.cc:122-134 | With a zero or negative count, every rank gets an empty or inverted range (truncating division). |
| Partition.CommRangeIsGetInterval | MPI/5_comm/main.cc:60-73 | For every input, the communicator program's inline partition equals `getInterval`. |
| Partition.CommRangePartition | MPI/5_comm/main.cc:60-73 | Rank 0 starts at 1, each range ends where the next starts, the last ends at `N + 1`, and each has `N/size` terms plus one below `N%size`. |
| Factorial.ScaledTermIsRatio | MPI/4-Exp/main.cc:51-64 | Term `n`'s contribution `(n+1)*...*(end-1)` times `n!` is `(end-1)!`, i.e. it is `(end-1)!/n!`. |
| Factorial.MpzSetUll | MPI/4-Exp/main.cc:115-120 | Rebuilding a signed 64-bit value from its two 32-bit halves gives the value modulo `2^64`, so non-negative values are set exactly. |
| Factorial.LocalProducts | MPI/4-Exp/main.cc:45-68 | The loop as written. For ranges of two or more terms, the product is `start*...*(end-1)` and the sum is the scaled terms. For one term it yields `start*start` and `start+1`, and for none `(start-1)*start` and `start`. |
| Factorial.WrittenChainIsFactorial | MPI/4-Exp/main.cc:68-78 | If every range up to rank `r` has at least two terms, the chained product of rank `r` is `(end_r - 1)!`. |
| Factorial.WideEnough | MPI/4-Exp/main.cc:122-134 | With `t >= 2c`, every rank owns at least two terms. |
| Factorial.ShortRangeBreaksChain | MPI/4-Exp/main.cc:45-71 | Three terms on three ranks: rank 1 owns `[2, 3)` and ends with 4 instead of `2! = 2`. |
| Factorial.ChainIsFactorial | MPI/4-Exp/main.cc:68-78 | With short ranges handled, every rank ends with `(end_r - 1)!`, whatever the term count. |
| Factorial.LocalProductsFixed | MPI/4-Exp/main.cc:45-68 | The corrected loop yields the product `start*...*(end-1)` and the scaled sum for every range, including those of zero or one term. |
| Palindromes.Strlen | Open-MP/single-thread.cpp:22 | `strlen` is the index of the first NUL: there is a NUL there and none before it. |
| Palindromes.ExpandSingle | Open-MP/single-thread.cpp:6-17 | The count is the largest `c` such that for all `k < c`, `left-k >= 0`, `right+k < n` and `str[left-k] == str[right+k]`. It is 0 exactly when `right >= n` or the centre characters differ, and it is at most `left + 1` and, when positive, at most `n - right`. |
| Palindromes.ExpandMulti | Open-MP/multi-thread.cpp:6-16 | The same largest-matching-run count for a start below `n`, and 0 for a start at or past `n`. |
| Palindromes.MultiAgreesWithSingle | Open-MP/multi-thread.cpp:6-16 | For a start below `n`, which every call site has, the threaded expansion counts what the single-threaded one counts. |
| Palindromes.PalindromeIffMirrors | Open-MP/single-thread.cpp:9-14 | Around an odd or even centre, the substring `k` places out is a palindrome exactly when the first `k+1` expansion steps match. |
| Palindromes.CentreSet | Open-MP/single-thread.cpp:26-27 | The expansion from a centre counts exactly the palindromic substrings centred there. |
| Palindromes.CentreSumCountsPalindromes | Open-MP/single-thread.cpp:25-28 | Summing both expansions over every centre counts every palindromic substring of `str[0..n)` exactly once. |
| Palindromes.PalindromesBound | Open-MP/multi-thread.cpp:25-28 | A text of length `n` has at most `n(n+1)/2` palindromic substrings. |
| Palindromes.CountAllSingle | Open-MP/single-thread.cpp:19-30 | A null pointer gives 0. Otherwise the result is the number of index pairs `s <= e < strlen(str)` whose substring is a palindrome, which is at most `n(n+1)/2`, so the empty string gives 0. |
| Palindromes.CountAllMulti | Open-MP/multi-thread.cpp:18-31 | A null pointer gives 0. Otherwise the result is the number of palindromic substrings of `str[0..n)`, for every thread count and every assignment of centres to threads. |
| Palindromes.AddToThread | Open-MP/multi-thread.cpp:24-28 | A thread's addition into its private copy raises the reduced total by exactly that amount and leaves the other threads' copies alone. |
| Palindromes.CentreCountMulti | Open-MP/multi-thread.cpp:26-27 | A centre's two threaded expansions add up to the single-threaded program's count for that centre. |
| Palindromes.ThreadedAgreesWithSerial | Open-MP/multi-thread.cpp:18-31 | When `n` is `strlen(str)`, the threaded count equals the single-threaded count. |

## Left out

- MPI runtime calls are not modelled: `Init`, `Finalize`, `Probe`, `Isend`, `Request::Free`, `Recv`, `Send`, `Bcast`, `Reduce`, `Split`, `Abort` and `Wtime`. They are inter-process I/O. In the sort they become the sequential helper call and the message trace. `Abort(1)` becomes the `Aborted(1)` outcome.
- The message tag and the probe's choice of sender are not modelled. The trace shows that each helper is sent exactly one message, so its probe sees that one.
- The `pow(2, level)` floating-point calls are modelled as the exact integer power `Pow2`. This is exact for the levels that occur.
- C `int` overflow is not modelled. This covers `rank + 2^level` near `INT_MAX`, `diff * rank` in `getInterval`, and the `long long` arithmetic of the communicator program. Sizes and counts are unbounded naturals.
- The random input keys, command-line parsing and printing in the sort's `main` are not modelled.
- Floating-point code is not modelled: `calculateMaxN`'s Newton iteration, the `mpf` precision setting and the division of the sum by the factorial, and `calcSum`.
- GMP serialisation is not modelled: the base-32 `get_str` and parse round trip between ranks, and the raw limb transfer in `sendLocSum`/`collect`. A chained value is passed as an integer.
- `Factorial.LocalProducts`: requires `1 <= start <= end < 2^31`. This covers the ranges `getInterval` produces for a non-negative term count, where the `int` loop index cannot overflow. Ranges with `end < start`, which come from a negative count, are not modelled.
- OpenMP threading mechanics are not modelled: `omp_set_num_threads`, the `dynamic` schedule with chunk 100000, and the timing calls. The schedule is the `owner` parameter, which may assign any thread to any centre. The reduction is per-thread partial sums added at the end.
- `Palindromes.CountAllMulti`: requires `numThreads >= 1`. What OpenMP does with a non-positive thread count is left unmodelled.
- `Palindromes.ExpandSingle`: requires `str[left]` to lie inside the buffer whenever `right < n`. This is the memory the source reads, and every call site meets it.
- `Protocol.MergeSortParallel`: requires `0 <= rank < 2^level`. Every call in the program meets it: the root starts at level 0, each helper at its topmost level, and each recursion goes one level deeper. Direct calls with other arguments are not modelled.
- `Protocol.RunHelper`: requires `rank > 0`, as in `main`, which runs the helper part only on non-zero ranks.
- File reading, timing and usage messages in all programs are not modelled.

## Findings

| source | as written | input that shows it | evidently intended | confidence | as-written member | corrected member |
|---|---|---|---|---|---|---|
| MPI/4-Exp/main.cc:45-68 | The loop is seeded with `a = end-1` and `s = end` and finishes with `locCurrFact *= start`. This assumes the range has at least two terms. For one term it gives product `start*start` and sum `start+1`; for none, `(start-1)*start` and `start`. | a one-term range `[2, 3)`: product 4 and sum 3, instead of 2 and 1 | the product `start*...*(end-1)` and the sum of `(end-1)!/n!` over the range, as the comment at line 67 says | not executed | Factorial.LocalProducts | Factorial.LocalProductsFixed |
| MPI/4-Exp/main.cc:68-78 | Each rank multiplies its own product by the value its predecessor sent. A short range corrupts its own value and every later rank's. | `termNum = 3` on 3 ranks: rank 1 owns `[2, 3)` and holds 4 instead of `2! = 2` | rank `r` holds `(end_r - 1)!`, the common denominator of its terms | not executed | Factorial.ShortRangeBreaksChain | Factorial.ChainIsFactorial |
