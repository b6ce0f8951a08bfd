# lock-bench, sequential core

lock-bench times three reader/writer locks (`std::sync::RwLock`,
`parking_lot::RwLock`, `spin::RwLock`) under one workload. A run creates
`n_locks` locks, each guarding a `u32` counter that starts at 0. It starts
`n_readers` reader threads and `n_writers` writer threads. Each worker draws
its lock indexes from a xorshift32 stream. The stream's seed comes from a
prefix-XOR scan over a fixed stream, and readers and writers use the same
seed sequence. A reader reads `n_reads` locks and a writer performs
`n_writes` increments, several of which may hit the same counter. Once the workers are done, the run sums the counters
and asserts that the sum is `n_writers * n_writes`. `bench` runs `n_rounds`
rounds, sorts the times and reports their truncated average, the fastest
and the slowest. `main` benchmarks each implementation twice, in a fixed order.

This project models that core in Dafny, with the workers run one after
another:

- `base.dfy` (`Base`): `u32` with the wrapping `+` and `*` of an optimised
  build, the options, the ways a run can panic, and sums.
- `bits.dfy` (`Bits`): a `u32` as its 32 bits, least significant first.
  - XOR and the two shifts act bit by bit.
  - `Value` reads a word back as a number.
  - `ShlValue` and `ShrValue` prove that the shifts are Rust's `<<` and
    `>>` on `u32`.
  - Words are bit strings rather than machine bit-vectors because the
    verifier's cost on the latter grows too fast once `Step` is iterated.
- `xorshift.dfy` (`Xorshift`): `random_numbers`, as a step function and the
  stream of its iterates.
- `workload.dfy` (`Workload`): the thread seeds (the `scan`, run as a loop)
  and the lock indexes of every worker.
- `runner.dfy` (`Runner`): one run.
  - The counters are an `array<u32>` updated in place through `read` and
    `write(f)`.
  - Readers and writers are loops over their indexes, followed by the
    summing loop and the closing `assert_eq!`.
  - `ApplyWrites` is the specification of the writers.
- `aggregator.dfy` (`Aggregator`): `bench`'s in-place sort, average, minimum
  and maximum, and the six `bench` calls of `main`.

A run's clock reading is a parameter, in whole nanoseconds. `Bench` takes
one reading per round.

A panic is modelled as an `Err` result. `RemainderByZero` is `% n_locks` with
`n_locks == 0`; `take(0)` never pulls from the stream, so it happens only when
some worker draws at least one index. `DurationDivideByZero` is `sum /
n_rounds` with `n_rounds == 0`. `ConsistencyViolation` is a failing
`assert_eq!`, and `RunBench` proves it never happens.

## Model

| member | source | states |
|---|---|---|
| Base.WrappingAdd | src/main.rs:135 | the `u32` sum of two counters is their sum modulo 2^32, and exact when it fits |
| Bits.WordRoundTrip | src/main.rs:63 | words and `u32` values correspond one to one: every word's value is below 2^32, and converting either way and back is the identity |
| Bits.ShlValue | src/main.rs:66-68 | the bit-level left shift by `k` is multiplication by 2^k modulo 2^32, Rust's `<<` on `u32` |
| Bits.ShrValue | src/main.rs:67 | the bit-level right shift by `k` is division by 2^k, Rust's `>>` on `u32` |
| Bits.XorAssociative | src/main.rs:89 | XOR of words is associative |
| Xorshift.Step | src/main.rs:66-68 | one generator step: `x ^= x << 13`, then `x ^= x >> 17`, then `x ^= x << 5`, each on the updated state (the definition the lemmas below are about) |
| Xorshift.Outputs | src/main.rs:63-71 | `random_numbers(seed).take(n)` has `n` values, and value `k` is the state after `k + 1` steps from `seed` |
| Xorshift.IterateSucc | src/main.rs:65-70 | one more draw applies the 13/17/5 step to the current state |
| Xorshift.OutputsPrefix | src/main.rs:63-71 | determinism: two streams from the same seed agree on every common prefix |
| Xorshift.OutputsSplit | src/main.rs:64-70 | the stream keeps no state but its last value: after `n` draws, the rest is the stream seeded with the `n`-th value |
| Xorshift.StepZero | src/main.rs:66-68 | 0 is a fixed point of the step |
| Xorshift.ZeroStream | src/main.rs:63-71 | the stream seeded with 0 yields only 0 |
| Xorshift.StepZeroIff | src/main.rs:66-68 | the step sends a state to 0 if and only if the state is 0 |
| Xorshift.NonZeroStream | src/main.rs:63-71 | a stream with a non-zero seed never reaches 0 |
| Workload.SeedConstants | src/main.rs:88 | the seed stream starts from 0x6F4A955E and the accumulator from 0x9BA2BF27 |
| Workload.ScanStep | src/main.rs:89-90 | one scan step moves the stream one draw further and XORs that draw into the accumulator |
| Workload.ScanClosedForm | src/main.rs:88-91 | after `n` draws the scan's accumulator is the initial accumulator XOR the first `n` values of the stream |
| Workload.Scan | src/main.rs:88-91 | the scan loop yields `count` values, the accumulator after each draw |
| Workload.ThreadSeedFormula | src/main.rs:88-95 | thread seed `i` is 0x9BA2BF27 XOR the first `i + 1` values of the stream seeded with 0x6F4A955E |
| Workload.ThreadSeeds | src/main.rs:97 | `take(count)` of the scan gives `count` seeds, seed `i` being thread seed `i` |
| Workload.ThreadSeedPlan | src/main.rs:88-95 | the reader and the writer seed sequences have `n_readers` and `n_writers` seeds, and reader `i` and writer `i` get the same seed |
| Workload.ReduceModulo | src/main.rs:101-102 | every stream value is reduced modulo `n_locks`, in order, so every index is below `n_locks` |
| Workload.Indexes | src/main.rs:100-103 | a worker's index list panics exactly when it wants an index and `n_locks == 0`; otherwise it has exactly `count` indexes, index `k` being draw `k + 1` of the worker's stream modulo `n_locks` (the writers' pipeline at lines 115-118 is the same) |
| Runner.Increment | src/main.rs:121 | `*cnt += 1` is the successor modulo 2^32 |
| Runner.ApplyWrites | src/main.rs:120-122 | the counters after one `write` doing `*cnt += 1` per index, in list order; the counter list keeps its length (the definition the lemmas below are about) |
| Runner.ApplyWritesAt | src/main.rs:120-122 | after a list of writes, each counter has grown, modulo 2^32, by the number of times its index occurs |
| Runner.ApplyWritesUntouched | src/main.rs:120-122 | a counter whose index is not in the list keeps its value |
| Runner.WriteOrderIrrelevant | src/main.rs:112-125 | any two orders of the same writes, such as two interleavings of the writer threads, leave the same counters |
| Runner.ApplyWritesSum | src/main.rs:120-122 | a list of writes raises the sum of the counters by its length, modulo 2^32 |
| Runner.ApplyWritesSumBound | src/main.rs:120-122 | a list of writes never raises the sum by more than its length |
| Runner.ApplyWritesSumExact | src/main.rs:120-122 | while the sum stays below 2^32, a list of writes raises it by exactly its length |
| Runner.ApplyWritesAppend | src/main.rs:112-125 | running one write list after another is running their concatenation |
| Runner.ZeroCounters | src/main.rs:80-82 | a run starts with `n_locks` counters, all 0 |
| Runner.SumZeroCounters | src/main.rs:80-82 | the fresh counters add up to 0 |
| Runner.Read | src/main.rs:75 | `read` returns the counter behind the lock |
| Runner.Write | src/main.rs:76 | `write(f)` replaces that one counter by `f` of it and leaves all others unchanged |
| Runner.ReadLoop | src/main.rs:105-107 | a reader reads the counter of each of its indexes and can modify nothing |
| Runner.WriteLoop | src/main.rs:120-122 | a writer's loop leaves the counters as `ApplyWrites` of its index list |
| Runner.SumCounters | src/main.rs:133-136 | the summing loop returns the sum of all counters modulo 2^32 |
| Runner.RunReaders | src/main.rs:97-110 | the readers fail exactly when there is a reader, it reads something and `n_locks == 0`; they cannot change the counters |
| Runner.WriterThread | src/main.rs:113-124 | one writer fails exactly when it writes something and `n_locks == 0`; otherwise it increments exactly the counters at `Indexes(seed, n_locks, n_writes)`, its own drawn indexes, in order |
| Runner.WriterIndexes | src/main.rs:112-118 | the writers' index lists, concatenated writer by writer, panic exactly when there is a writer, it writes something and `n_locks == 0`; otherwise they hold `n_writers * n_writes` indexes, all below `n_locks` |
| Runner.RunWriters | src/main.rs:112-125 | the writers fail exactly when there is a writer, it writes something and `n_locks == 0`; otherwise the counters are `ApplyWrites` of `WriterIndexes(seeds, n_locks, n_writes)`: writer after writer, each at the indexes its own seed draws |
| Runner.WritesTotal | src/main.rs:137 | from zero counters, `n_writers * n_writes` writes leave counters whose wrapping sum is the wrapping product |
| Runner.RunWorkers | src/main.rs:80-136 | unless a worker takes `% 0`, the summing loop's total is `n_writers * n_writes`, wrapping |
| Runner.RunBench | src/main.rs:79-143 | a run panics (remainder by zero) exactly when a worker draws an index with no locks; otherwise it returns the measured time and the check at line 137 holds. The total is the wrapping product, exactly the product when that fits, and 0 without writers |
| Aggregator.LabelsDistinct | src/main.rs:148-176 | the three implementations have distinct labels |
| Aggregator.Sort | src/main.rs:34 | `times.sort()` leaves the times in ascending order and as the same multiset |
| Aggregator.SumPermutation | src/main.rs:34-36 | sorting does not change the sum of the times |
| Aggregator.SumBetween | src/main.rs:36 | a sum of `n` times, each between `lo` and `hi`, lies between `n * lo` and `n * hi` |
| Aggregator.DivBetween | src/main.rs:36 | truncating division of such a sum by `n` lies between `lo` and `hi` |
| Aggregator.AverageBetween | src/main.rs:36-38 | the truncated average of the times lies between any lower and any upper bound of the times |
| Aggregator.SortedSummary | src/main.rs:34-38 | after sorting, `times[0]` and `times.last()` are measured times, bound every measured time, have the same sum and bracket the average |
| Aggregator.Bench | src/main.rs:30-38 | `bench` fails with division by zero when `n_rounds == 0` and with remainder by zero when a worker panics, and only then; otherwise it reports the label, `sum / n_rounds` truncated, and the fastest and slowest round, with min <= avg <= max |
| Aggregator.BenchAll | src/main.rs:20-27 | `main`'s six benchmarks (Std, ParkingLot, Spin, twice) all report, in that order, unless `n_rounds == 0` or a worker panics |

## Left out

- Threads, the two barriers, `thread::sleep` and `Instant` (src/main.rs:84-87, 98-99, 108, 113-114, 123, 127-131): workers run sequentially. Readers run before writers, and writers run one after another. `WriteOrderIrrelevant` shows that the order of the increments does not change the final counters.
- The lock implementations (src/main.rs:145-187): a lock is its counter, `read` returns it and `write(f)` updates it. Lock poisoning through `.unwrap()` (src/main.rs:152, 156) is not modelled.
- `CachePadded` (src/main.rs:81) has no observable semantics and is not modelled.
- Argument parsing, `{:#?}` and the report `println!`/`format!` (src/main.rs:6-18, 24, 40-50) are I/O and formatting. `BenchAll` returns the reports instead of printing them.
- RunBench: when a worker panics, the worker's panic message is printed to stderr, but the panicking thread never reaches the end barrier, so the main thread blocks there forever and `bench` prints no report. The model returns `Err(RemainderByZero)` at that point instead of hanging.
- Debug-build overflow panics are not modelled. `*cnt += 1`, `total +=` and `n_writers * n_writes` wrap, as in a release build.
- Bench: durations are whole nanoseconds with no upper bound. The overflow panic of `Duration`'s `sum` is not modelled. `Duration / u32` is taken as the floor of the total nanoseconds.
- Sort: `sort` is a stable merge sort; the model uses an insertion sort. For natural numbers, being sorted and a permutation of the input determines the result, so both give the same times.
- `usize` conversions (src/main.rs:84-85, 97, 102-103, 112, 117-118) are not modelled, because every `u32` fits in a `usize`.
