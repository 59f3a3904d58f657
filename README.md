# Radix sort of `uint32_t` arrays, modelled in Dafny

This project models the two sort routines of the Radix-Sort repository. Both are least-significant-digit-first (LSD) base-10 radix sorts of arrays of `uint32_t`:

- **Serial sort** (`radix_sort_serial.c`). `radixsort` finds the maximum and adds its decimal width to the global `maxlen`. It then runs `maxlen` passes. Each pass counts the digits into ten buckets, turns the counts into running sums, and scatters the array into `tmp` from right to left. The scatter pre-decrements the bucket of each element's digit. Each pass ends by copying `tmp` back. Powers of ten come from the recursive `p(base, exp)`.
- **OpenMP sort** (`radix_sort_parallel.c`). `radixsort_parallel` takes the pass count `K` from `main`, which computes it as the decimal width of the largest generated value. It fills a `K` x 10 matrix of shared buckets, counted for every pass from the *unsorted* input before the first pass. It accumulates every row, then runs the `K` passes, each with its own row. Powers of ten come from the table `tenPowers`.

The model has five modules, one per file:

- `Digits` (`digits.dfy`): `uint32_t` as `u32`, powers of ten, the decimal digit `Digit(v, j)`, and the key `Key(v, m)`, which is `v mod 10^m`. It also defines the decimal width and the arithmetic these rest on.
- `CountingSort` (`counting_sort.dfy`): one pass as a value, `Pass(s, j)`, which lays the ten digit buckets of `s` end to end. The module proves:
  - a pass permutes its input;
  - a pass orders the values by digit `j`;
  - a pass is stable;
  - a pass extends key order by one digit.

  It also defines the regions of the output that the running sums delimit, and the loop invariant of the right-to-left scatter.
- `Lsd` (`lsd.dfy`): `LsdSort(s, k)`, the result of passes `0 .. k-1`. It carries the theorems that the result is a permutation, ordered by `value mod 10^k`, and sorted once `k` reaches the width of the maximum.
- `RadixSortSerial` (`radix_sort_serial.dfy`): `p`, and each stage of `radixsort` as an imperative method over arrays. Each stage is proved against the functions above. The global `maxlen` is the field of the class `SerialSorter`.
- `RadixSortParallel` (`radix_sort_parallel.dfy`): `tenPowers`, `p`, the computation of `K`, and `radixsort_parallel`. Its bucket matrix is an `array2<int>`. The proof rests on one fact: the rows counted up front stay valid for every later pass, because each pass only permutes the array.

## Model

| member | source | states |
|---|---|---|
| RadixSortSerial.P | radix_sort_serial.c:14-17 | `p(base, exp)`, exp recursive multiplications by base in wrapping `uint32_t` arithmetic, is base^exp reduced modulo 2^32 |
| RadixSortSerial.PowerOfTenExact | radix_sort_serial.c:14-17 | for base 10 and exp at most 9 nothing wraps: `p(10, exp)` is exactly 10^exp |
| Digits.Pow10FitsU32 | radix_sort_serial.c:14-17 | 10^e fits in `uint32_t` exactly when e is at most 9 |
| Digits.DigitIsDivMod | radix_sort_serial.c:55 | the digit a pass buckets by, `v / 10^j % 10`, is the j-th decimal digit of v |
| Digits.KeyIsMod | radix_sort_serial.c:47-85 | the key of the m lowest digits is v mod 10^m |
| Digits.KeyOrderByDigit | radix_sort_serial.c:47-85 | a smaller digit j gives a smaller key on j+1 digits, whatever the lower digits |
| Digits.KeyOrderSameDigit | radix_sort_serial.c:47-85 | with the same digit j, keys on j+1 digits compare like keys on j digits |
| Digits.DecimalWidthBounds | radix_sort_serial.c:40-44 | the decimal width w of v is at least 1, v < 10^w, and 10^(w-1) <= v when v > 0; w is 1 exactly for v <= 9 |
| Digits.DecimalWidthU32 | radix_sort_serial.c:40-44 | every `uint32_t` has between 1 and 10 decimal digits |
| Lsd.MaxOfIsMaximum | radix_sort_serial.c:34-38 | the scanned maximum bounds every element, is one of them when there is one, and is 0 for no elements |
| RadixSortSerial.MaxScan | radix_sort_serial.c:34-38 | the loop returns a value at least every `in[i]`, equal to some `in[i]` when n > 0, and 0 when n = 0 |
| RadixSortSerial.SerialSorter.constructor | radix_sort_serial.c:11 | `maxlen` starts at 0 |
| RadixSortSerial.SerialSorter.AddWidth | radix_sort_serial.c:40-44 | the divide-by-10 loop adds exactly the decimal width of `max` to `maxlen` (1 for a maximum of 0) |
| RadixSortSerial.CountDigits | radix_sort_serial.c:50-55 | from all-zero buckets, `bucket[d]` becomes the number of elements whose digit j is d, and the buckets sum to n |
| CountingSort.CountsTotal | radix_sort_serial.c:53-55 | the ten digit counts of a sequence add up to its length |
| RadixSortSerial.Accumulate | radix_sort_serial.c:57-59 | after the running sums, `bucket[d]` is the number of elements whose digit is at most d, `bucket[9] == n`, and the buckets are non-decreasing |
| CountingSort.RegionFacts | radix_sort_serial.c:57-59 | the digit regions delimited by the running sums start at 0, end at n, and are as long as their buckets |
| CountingSort.RegionsOrdered | radix_sort_serial.c:57-59 | for digits d < e, region d ends no later than region e starts: the regions lie in digit order and do not overlap |
| CountingSort.RegionEndMonotone | radix_sort_serial.c:57-59 | the inclusive running counts are non-decreasing in the digit |
| CountingSort.CounterInRegion | radix_sort_serial.c:69-70 | every pre-decremented bucket index the scatter writes lies inside its digit's region, hence in [0, n) |
| CountingSort.ScatterStart | radix_sort_serial.c:57-70 | with the running sums as counters, the scatter invariant holds before the first element is placed |
| CountingSort.ScatterAdvance | radix_sort_serial.c:69-70 | placing element i at its pre-decremented counter keeps the invariant: each region's top slots hold that digit's elements after i, in input order |
| CountingSort.ScatterFinish | radix_sort_serial.c:69-70 | when all elements are placed, `tmp` is the stable counting sort on digit j, and each counter has come down to the start of its region |
| RadixSortSerial.Scatter | radix_sort_serial.c:68-70 | the right-to-left scatter leaves `tmp` equal to the stable counting sort of `in` on digit j, and each bucket at the start of its region |
| RadixSortSerial.CopyBack | radix_sort_serial.c:72-74 | after copying, `in` equals `tmp` |
| CountingSort.PassPermutes | radix_sort_serial.c:68-74 | a pass is a permutation of its input, of the same length |
| CountingSort.PassDigitOrdered | radix_sort_serial.c:68-70 | after a pass, digit j is non-decreasing along the sequence |
| CountingSort.PassStable | radix_sort_serial.c:68-70 | the elements with any one digit j appear after the pass exactly as they appeared before it, in the same order |
| CountingSort.PassSortsOneMoreDigit | radix_sort_serial.c:47-85 | a sequence ordered by `value mod 10^j` is, after pass j, ordered by `value mod 10^(j+1)` |
| CountingSort.CountsOfPermutation | radix_sort_parallel.c:58-72 | permuting a sequence does not change how many of its elements have digit d at position j |
| CountingSort.BelowOfPermutation | radix_sort_parallel.c:81-84 | permuting a sequence does not change how many of its elements have a digit j below d |
| RadixSortSerial.SortPass | radix_sort_serial.c:47-74 | one iteration of the pass loop turns the array into its stable counting sort on digit j |
| RadixSortSerial.SortPasses | radix_sort_serial.c:47-85 | passes 0 .. k-1 leave the array equal to the LSD sort of its old contents with k passes |
| Lsd.LsdSortPermutes | radix_sort_serial.c:47-85 | after any number of passes the array is a permutation of the input |
| Lsd.LsdSortSortedOnLow | radix_sort_serial.c:47-85 | after passes 0 .. k-1 the array is ordered by `value mod 10^k` |
| Lsd.LsdSortSorts | radix_sort_serial.c:47-85 | with at least as many passes as the maximum has digits, the result is ascending and a permutation of the input |
| Lsd.SortedUnique | radix_sort_serial.c:47-85 | two ascending arrangements of the same elements are equal, so the sorted output is determined by the input |
| Lsd.LsdSortIdempotent | radix_sort_serial.c:47-85 | sorting an already ascending array leaves it unchanged |
| Lsd.LsdSortPassesAgree | radix_sort_parallel.c:101-120 | any two sufficient pass counts give the same output, so the serial and the OpenMP sort agree whenever both have enough passes |
| RadixSortSerial.SerialSorter.RadixSort | radix_sort_serial.c:22-88 | `maxlen` grows by the width of the maximum, and the array becomes the result of `maxlen` passes: ascending and a permutation of the input |
| RadixSortParallel.TenPowersExact | radix_sort_parallel.c:9-14 | the table has ten entries, entry e is 10^e, and 10^10 no longer fits in `uint32_t` |
| RadixSortParallel.P | radix_sort_parallel.c:19-22 | `p(exp)` is 10^exp, and it is defined only for 0 <= exp <= 9 |
| RadixSortParallel.MaxDigitsSize | radix_sort_parallel.c:209-212 | `max_digits_size` becomes the decimal width of `max_value`: 1 exactly when it is at most 9, and never more than 10 |
| RadixSortParallel.InitBuckets | radix_sort_parallel.c:44-48 | every entry of the K x 10 bucket matrix is 0 |
| RadixSortParallel.CountAllDigits | radix_sort_parallel.c:58-72 | from a zero matrix, `shared_buckets[j][f]` becomes the number of input elements whose digit j is f, and each row sums to N |
| RadixSortParallel.AccumulateAll | radix_sort_parallel.c:81-84 | each row becomes the inclusive cumulative count of its digit, is non-decreasing, and ends with `shared_buckets[j][9] == N` |
| RadixSortParallel.HistogramSurvivesPasses | radix_sort_parallel.c:101-109 | after any number of passes the digit-j counts and running sums of the array equal those of the original input |
| RadixSortParallel.ScatterRow | radix_sort_parallel.c:104-109 | with row j as the counters, `tmp` becomes the stable counting sort on digit j, row j comes down to the region starts, and the other rows are untouched |
| RadixSortParallel.PassesWithBuckets | radix_sort_parallel.c:101-120 | the K passes, each using its row counted up front from the original input, leave the array equal to the LSD sort of the input with K passes |
| RadixSortParallel.RadixSortParallel | radix_sort_parallel.c:27-120 | the array becomes the result of K passes, a permutation of the input; it is ascending once K is at least the width of the maximum |
| RadixSortParallel.SortWithWidthOfMaximum | radix_sort_parallel.c:196-230 | the maximum of the values, K as its decimal width and the parallel sort with K passes leave the array ascending and a permutation of the input |

## Left out

- Both `main` functions (argument parsing, `rand`/`srand` generation, printing and the final ordered check) are input/output glue. Only the computation of `K` in the OpenMP `main` is modelled. In `SortWithWidthOfMaximum` the maximum comes from the scan of `MaxScan` rather than from the generation loop that tracks it in the same way.
- Timing through `omp_get_wtime`, all `printf`/`sprintf` output, the `DEBUG` blocks and the `debug` branches only observe. The `debug` and `chunksize` parameters of `radixsort_parallel` are dropped because they have no effect on the result.
- OpenMP `parallel for`, `schedule` and `atomic` are not modelled. `CountAllDigits` runs the counting loop in one sequential order. The atomic increments commute, so every interleaving gives the same matrix.
- `calloc`, `abort` and `cfree` are left out. `tmp` is a fresh array of length n, and the failure path that aborts is not modelled.
- C `int` arithmetic of counters and indices is not modelled bit by bit. The sort methods instead require n < 2^31, under which no `int` overflows and every signed/unsigned comparison behaves as on the mathematical integers.
- RadixSortSerial.SerialSorter.RadixSort: requires `maxlen` plus the width of the maximum to be at most 10. `maxlen` is a global that is never reset, so a later call in the same process runs the old passes as well. From pass 10 on, `p(10, j)` wraps modulo 2^32, and from pass 32 on it is 0, a division by zero. Those passes are not modelled. The contract of `P` states the wrapped value.
- RadixSortParallel.RadixSortParallel: requires K <= 10. The table lookup in `p` reads past `tenPowers` for K > 10; `main` never produces such a K (`MaxDigitsSize` proves K <= 10).
- The promise that each `tmp` slot is written exactly once is not stated on its own. It follows from `ScatterState`, the loop invariant of `Scatter` and `ScatterRow`: each write index lies just below its region's filled slots and outside every other region, so each region is filled from the top, one slot per element.
- A description of the algorithm could suggest that the bucket counters drain to 0 during the scatter. The code leaves each counter at the start of its digit's region, that is, the number of elements with a smaller digit. `Scatter` and `ScatterRow` state what the code does.
