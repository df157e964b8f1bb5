# Sample programs of Highlights.jl, modelled in Dafny

Highlights.jl keeps three small programs in its test data, as inputs to its
syntax-highlighting tests. Each holds one self-contained algorithm. This
project models those algorithms and proves what they compute.

- `sieve.dfy` (module `Sieve`, using `primality.dfy`, module `Primality`):
  the concurrent prime sieve of `test/samples/sieve.go`. A generator sends
  2, 3, 4, …; the coordinator reads a value from the tail of the pipeline,
  prints it, and splices in a filter that drops that value's multiples. Each
  channel has one writer and one reader, and every stage keeps the order of
  what it forwards. So the values on a channel form a sequence that does not
  depend on scheduling, and the model works on those sequences:
  - `Generate` is a loop that builds a prefix of the generator's output.
  - `FilterStage` is a loop that maps a stage's input to its output, as
    specified by the function `Filter`.
  - `Run` is the coordinator loop. It keeps the current tail and the list of
    divisors spliced in so far.
  - The proofs show that the tail always equals `Chain(prefix, divisors)`
    (generator → filter(p1) → … → filter(pk)). They show that the value read
    in each round is the next prime, and that ten rounds print
    2, 3, 5, …, 29.
- `quicksort.dfy` (module `Sorting`): the three-way quicksort of
  `test/samples/quicksort.py`. It is pure: three comprehensions and a
  recursive concatenation. It is modelled as functions on sequences, with
  sortedness, permutation and termination proved. Sequences are values, so
  the input cannot be modified, just as Python's list comprehensions leave
  `arr` untouched.
- `emitter.dfy` (module `Emitter`): the class `EventEmitter` of
  `test/samples/emitter.js`. It is a Dafny class whose field `events` maps
  event names to ordered callback lists. `On` updates the field in place and
  returns the emitter. `Emit` walks the list and returns the calls it would
  make, as `(callback, args)` records. Callbacks are opaque identifiers.

The coordinator's round count is the constant 10 in `sieve.go`. The model
takes it as the parameter `rounds` of `Run`, and `Program` fixes it at 10 as
the source does.

## Model

| member | source | states |
|---|---|---|
| `Sieve.Generate` | test/samples/sieve.go:6-9 | the first n values the generator sends are 2, 3, …, n + 1, in that order (`sent[k] == k + 2`) |
| `Sieve.RangeAt` | test/samples/sieve.go:7 | the counting sequence `Range(lo, hi)` has hi - lo entries and entry k is lo + k |
| `Sieve.Range` | test/samples/sieve.go:7 | no ensures; the counting sequence lo, lo + 1, …, hi - 1 that the generator's `i++` loop walks through (its properties are in `RangeAt`) |
| `Sieve.Filter` | test/samples/sieve.go:12-18 | no ensures; the values of `s` that `prime` does not divide, in order; requires `prime != 0` (its properties are in `FilterCounts`, `FilterIsSubsequence`, `FilterMembers`) |
| `Sieve.Chain` | test/samples/sieve.go:26-28 | no ensures; the output of generator → filter(p1) → … → filter(pk), defined as `Filter` applied once per divisor in order; requires non-zero divisors (its meaning is in `ChainIsSift`) |
| `Sieve.FilterStage` | test/samples/sieve.go:12-18 | the stage's loop forwards exactly `Filter(input, prime)`: the received values not divisible by `prime`, in order |
| `Sieve.FilterAppend` | test/samples/sieve.go:13-17 | a filter processes its input value by value: filtering a concatenation gives the concatenation of the filtered parts |
| `Sieve.FilterIsSubsequence` | test/samples/sieve.go:12-18 | a filter's output is a subsequence of its input: nothing is reordered or altered, only dropped |
| `Sieve.FilterCounts` | test/samples/sieve.go:14-15 | every occurrence of a value not divisible by `prime` is forwarded, and no occurrence of a divisible one |
| `Sieve.FilterMembers` | test/samples/sieve.go:14-15 | a value is forwarded if and only if it was received and `prime` does not divide it |
| `Sieve.FilterIncreasing` | test/samples/sieve.go:12-18 | a filter fed a strictly increasing stream sends a strictly increasing stream |
| `Sieve.DropsOwnDivisor` | test/samples/sieve.go:24-27 | the new filter is fed the tail after the coordinator consumed its head p; this is what the filter would send anyway, since p divides itself |
| `Sieve.FilterSift` | test/samples/sieve.go:27-28 | splicing a filter with divisor p after the stages keyed on `divisors` gives the stream of values that no divisor in `divisors + [p]` divides |
| `Sieve.ChainIsSift` | test/samples/sieve.go:26-28 | the pipeline generator → filter(p1) → … → filter(pk) forwards exactly the values that none of p1..pk divides, in order |
| `Sieve.TailHeadIsNextPrime` | test/samples/sieve.go:24-28 | when the filters are keyed on exactly the primes below lo, the first value out of the tail is the smallest prime ≥ lo |
| `Sieve.NextValueRead` | test/samples/sieve.go:23-25 | when the filters are keyed on exactly the primes below lo and a prime remains in the prefix, the tail is not empty and the value read is the first prime in [lo, hi) |
| `Sieve.PrimesInExtend` | test/samples/sieve.go:24-27 | appending the value just read to the divisors gives exactly the primes up to it |
| `Sieve.Splice` | test/samples/sieve.go:26-28 | the divisors stay non-zero, and the new filter, fed with the rest of the tail, sends the chain with that divisor added |
| `Sieve.Run` | test/samples/sieve.go:20-30 | after `rounds` rounds the printed values are the first `rounds` primes; they are strictly increasing; none is divisible by an earlier one; every divisor handed to a filter is ≥ 2; the divisors are exactly the printed values in order; the tail is generator → filter(p1) → … → filter(pk) |
| `Sieve.LongEnoughPrefix` | test/samples/sieve.go:6-9 | for every round count, some finite generator prefix is long enough for `Run`, so the model's finite prefix excludes no run of the coordinator |
| `Sieve.FirstTenPrimes` | test/samples/sieve.go:23-25 | the primes below 30 are 2, 3, 5, 7, 11, 13, 17, 19, 23, 29 |
| `Sieve.Program` | test/samples/sieve.go:20-30 | the program as written, with 10 rounds, prints 2, 3, 5, 7, 11, 13, 17, 19, 23, 29 |
| `Primality.PrimesInFacts` | test/samples/sieve.go:23-25 | the listed primes are each ≥ 2 and prime, strictly increasing, and none is a multiple of an earlier one, which is what trial division against the values printed before would confirm |
| `Primality.EnoughPrimes` | test/samples/sieve.go:6-9 | the generator's unbounded stream meets infinitely many primes: for every k some range [2, hi) holds k primes |
| `Sorting.LessThan` | test/samples/quicksort.py:9 | `left` holds every occurrence in `arr` of a value below the pivot, and nothing else |
| `Sorting.EqualTo` | test/samples/quicksort.py:10 | `middle` holds every occurrence of the pivot in `arr`, and nothing else |
| `Sorting.GreaterThan` | test/samples/quicksort.py:11 | `right` holds every occurrence in `arr` of a value above the pivot, and nothing else |
| `Sorting.PartitionCovers` | test/samples/quicksort.py:9-11 | the multisets of `left`, `middle` and `right` add up to the multiset of `arr` |
| `Sorting.PartitionSides` | test/samples/quicksort.py:9-11 | every element of `left` is < pivot, every element of `middle` == pivot, every element of `right` > pivot |
| `Sorting.PartitionShrinks` | test/samples/quicksort.py:8-12 | the pivot is drawn from `arr`, so `middle` is non-empty and `left` and `right` are strictly shorter than `arr`: the recursion terminates |
| `Sorting.SortedJoin` | test/samples/quicksort.py:12 | sorted pieces that lie below, at and above the pivot concatenate into a sorted list |
| `Sorting.QuickSort` | test/samples/quicksort.py:4-12 | lists of length ≤ 1 come back unchanged; the result is sorted in non-decreasing order and is a permutation of the input (same multiset, same length, duplicates kept) |
| `Sorting.SortedUnique` | test/samples/quicksort.py:4-12 | two sorted lists with the same multiset of elements are equal |
| `Sorting.QuickSortIsTheSortedPermutation` | test/samples/quicksort.py:4-12 | any sorted permutation of the input is exactly what quicksort returns |
| `Sorting.SampleList` | test/samples/quicksort.py:14-15 | `[3, 6, 8, 10, 1, 2, 1]` sorts to `[1, 1, 2, 3, 6, 8, 10]` |
| `Emitter.EventEmitter.constructor` | test/samples/emitter.js:3-5 | a new emitter has no events registered |
| `Emitter.EventEmitter.Listeners` | test/samples/emitter.js:14 | no ensures; the lookup with an empty-list default: the event's list if it was registered, otherwise the empty list |
| `Emitter.EventEmitter.On` | test/samples/emitter.js:7-11 | the event's list (empty if it was absent) gets the callback appended at its end, with earlier callbacks in their order and no de-duplication; every other event's list is unchanged; the emitter itself is returned |
| `Emitter.EventEmitter.Emit` | test/samples/emitter.js:13-16 | one call per registered callback, in registration order, each with the same arguments; no call for an event never registered; the registry is not modified |
| `Emitter.Dispatch` | test/samples/emitter.js:15 | `forEach` makes one call per list entry, in list order, each with the same arguments |
| `Emitter.DispatchAppend` | test/samples/emitter.js:9-15 | a callback appended to a list is called after all the earlier ones |
| `Emitter.EmitOnNewEmitter` | test/samples/emitter.js:3-14 | emitting on a fresh emitter calls nothing |
| `Emitter.Chaining` | test/samples/emitter.js:7-10 | `on` returns the emitter, so a chained second `on` registers on the same emitter after the first; the same callback registered twice is called twice |
| `Emitter.OtherEventUnaffected` | test/samples/emitter.js:7-9 | registering on one event changes nothing that `emit` does for another |
| `Emitter.EmitAfterOn` | test/samples/emitter.js:9-15 | after `on(e, cb)`, `emit(e, args)` makes the earlier calls and then one call to `cb` |
| `Emitter.Sample` | test/samples/emitter.js:19-21 | the script's one registration on "data" followed by `emit("data", 42)` makes exactly one call, with `[42]` |

## Left out

- Goroutines, rendezvous channels, blocking and scheduling in `sieve.go`. Each channel is modelled as the sequence of values it carries. This sequence is deterministic because every channel has one writer and one reader.
- The generator's unbounded loop. The model feeds a finite prefix of its output, of length `limit`.
- Run: requires that the prefix of length `limit` contain at least `rounds` primes. The real stream is infinite, so the real coordinator never runs short; `LongEnoughPrefix` proves such a `limit` exists for every `rounds`.
- The generator and filter goroutines that are still running when `main` returns. Their abandonment at process exit leaves no observable trace and is not modelled.
- The end of a filter's `range` loop when its input channel is closed. No channel is ever closed in the program.
- `fmt.Println`, `print` and `console.log` are output. The printed primes are returned as a sequence, and the sorted list and the emitted calls are returned as values.
- Overflow of Go's `int` (32 or 64 bits, depending on the platform) is not modelled. The values `main` reads are at most 29, and the stages left running send only a few dozen more before they block, far below any `int` bound. Go's truncating `%` is modelled by Dafny's Euclidean `%`. Only the test `i%prime != 0` is used, and the two operators agree on it.
- `Filter` requires a non-zero divisor. Go panics on `%` by zero, and every divisor the coordinator passes is at least 2.
- LessThan: the contract gives the multiset of the comprehension, not the order in which it keeps elements. Order inside the part does not affect the sorted result.
- GreaterThan: the contract gives the multiset of the comprehension, not the order in which it keeps elements. Order inside the part does not affect the sorted result.
- Python's dynamic typing. Lists hold integers, and comparisons are integer comparisons.
- The bodies of JavaScript callbacks. A callback that registers more callbacks or throws while `emit` runs is not modelled.
- Event arguments are modelled as a sequence of integers. The `...args` spread is not modelled beyond "every callback receives the same argument list".
- `this.events` is a plain JavaScript object. Event names that coincide with inherited `Object.prototype` properties (such as "toString") are treated as ordinary names here.
