# Benchmarked algorithms, modelled and verified in Dafny

The repository times three textbook algorithms in C++ and in Python:

- recursive Fibonacci;
- quicksort;
- naive dense square matrix multiplication.

It then writes the averaged timings to CSV files and plots them. This project
models the three algorithms, which are the part with a specification of its
own. It proves that each algorithm computes what it is meant to compute.

The algorithms appear in several copies. Each one is written once here, and
every copy maps onto it:

- `cpp/quicksort.cpp:9-37` is the same code as `cpp/benchmark.cpp:60-88`.
  Both are modelled by module `LomutoQuicksort`.
- `cpp/fibonacci.cpp:7-12` is the same code as `cpp/benchmark.cpp:105-110`.
  Both are modelled by `Fibonacci.FibonacciCpp`.
- `python/fibonacci.py:3-9` is modelled by `Fibonacci.FibonacciPy`.
- `cpp/matrix_mult.cpp:11-24`, `cpp/benchmark.cpp:113-126` and
  `python/matrix_mult.py:5-17` run the same triple loop. All three are
  modelled by `MatrixMultiply.MatrixMultiplicationStandard`.
- `python/quicksort.py:4-16` is a different algorithm: a functional
  three-way quicksort with the middle element as pivot. It is modelled by
  `FunctionalQuicksort.QuickSort`. Only the C++ sort uses a Lomuto
  partition.

The model is organised in five files:

- `sorting.dfy` (module `Sorting`) says what "sorted" and "sorted
  permutation" mean. It proves that a sequence has exactly one sorted
  permutation, so any two correct sorts return the same list.
- `lomuto_quicksort.dfy` (module `LomutoQuicksort`) is the C++ in-place
  sort on an `array<int>`. `partition` is a method with a `for` loop and
  its invariant; `std::swap` is a method; `quicksort(arr, low, high)` is a
  recursive method. The vector is never resized, so an array stands for it.
- `functional_quicksort.dfy` (module `FunctionalQuicksort`) is the Python
  sort as a recursive function on `seq<int>`. Each list comprehension is one
  call of `Select`.
- `fibonacci.dfy` (module `Fibonacci`) holds both Fibonacci functions. They
  are proved against an independent linear-time reference (`FibPair`).
  The C++ version has an `int` argument and an `unsigned long long` result,
  both modelled explicitly. A negative argument is converted to 2^64 + n,
  and every sum wraps modulo 2^64. The Python version works on unbounded
  integers and returns a negative argument unchanged.
- `matrix_multiply.dfy` (module `MatrixMultiply`) is the triple loop. The
  operands `A` and `B` are sequences of rows, so they cannot be modified;
  both sources promise this (`const&` in C++, no mutation in Python). The
  result `C` is a freshly allocated, zero-initialised `array2<int>` that the
  loop updates cell by cell. The multiply is proved against the sum
  definition of the product, and the identity laws are proved about that
  definition.

## Model

| member | source | states |
|---|---|---|
| `Sorting.SortedPermutationUnique` | python/quicksort.py:16 | two sorted sequences with the same multiset are equal, so a correct sort's output is determined by its input |
| `LomutoQuicksort.Swap` | cpp/benchmark.cpp:67 | `std::swap` exchanges exactly two cells, leaves all others alone and keeps the multiset of the vector |
| `LomutoQuicksort.SegmentPermutation` | cpp/benchmark.cpp:67-70 | swaps that only touch cells `low..high` permute the segment `low..high` as well as the whole vector |
| `LomutoQuicksort.PermutationKeepsBound` | cpp/benchmark.cpp:79-80 | sorting one side in place keeps that side's bound against the pivot (all `<=` it on the left, all `>` it on the right) |
| `LomutoQuicksort.JoinSortedSides` | cpp/benchmark.cpp:76-81 | a sorted left side `<=` the pivot, the pivot, then a sorted right side `>` the pivot make a sorted range |
| `LomutoQuicksort.Partition` | cpp/benchmark.cpp:60-72 | for `low <= high`: returns `p` in `[low, high]`; `arr[p]` is the old `arr[high]`; cells `low..p-1` are `<=` it, so equal keys go left; cells `p+1..high` are `>` it; the segment is permuted and nothing outside it changes; loop invariant: `low-1 <= i < j`, `arr[low..i] <= pivot`, `arr[i+1..j-1] > pivot`, pivot still at `high` |
| `LomutoQuicksort.QuicksortRange` | cpp/benchmark.cpp:75-82 | does nothing when `low >= high`; otherwise `arr[low..high]` ends sorted non-decreasingly, is a permutation of its old contents, and no cell outside it changes; terminates because both recursive ranges are strictly smaller |
| `LomutoQuicksort.Quicksort` | cpp/benchmark.cpp:85-88 | size 0 or 1: the vector is unchanged; otherwise it ends sorted with the same multiset; either way the result equals the Python quicksort of the old contents |
| `FunctionalQuicksort.Select` | python/quicksort.py:12-14 | a comprehension is no longer than its input and every element it returns passes its test |
| `FunctionalQuicksort.SelectMultiset` | python/quicksort.py:12-14 | a comprehension keeps exactly the elements passing its test, each with its full multiplicity, and drops every other element |
| `FunctionalQuicksort.SelectKeepsOrder` | python/quicksort.py:12-14 | a comprehension over a concatenation is the concatenation of the comprehensions, so selected elements keep their original relative order |
| `FunctionalQuicksort.SelectionsSplit` | python/quicksort.py:11-14 | `left`, `middle` and `right` together have the input's multiset and length; `middle` holds the pivot, so `left` and `right` are strictly shorter (termination) |
| `FunctionalQuicksort.SortedAroundPivot` | python/quicksort.py:16 | sorted smaller elements, then copies of the pivot, then sorted larger elements make a sorted list |
| `FunctionalQuicksort.QuickSort` | python/quicksort.py:4-16 | lists of length at most 1 are returned as they are; every result is sorted non-decreasingly and is a permutation of the input |
| `FunctionalQuicksort.QuickSortIsTheSortedPermutation` | python/quicksort.py:4-16 | the result equals any sorted permutation of the input, so it agrees with any trusted sort |
| `Fibonacci.FibRecurrence` | python/fibonacci.py:7-9 | the reference numbers satisfy `F(0)=0`, `F(1)=1` and `F(n)=F(n-1)+F(n-2)` for `n >= 2` |
| `Fibonacci.FibonacciPy` | python/fibonacci.py:3-9 | a negative `n` is returned unchanged; for `n >= 0` the result is the Fibonacci number `F(n)` |
| `Fibonacci.FibonacciCpp` | cpp/benchmark.cpp:105-110 | a negative `n` yields `2^64 + n` (the conversion to unsigned) without recursing; for `n >= 0` the result is `F(n) mod 2^64` |
| `Fibonacci.FibAroundTwo64` | cpp/fibonacci.cpp:7-12 | `F(93) < 2^64 <= F(94)`, with both values computed |
| `Fibonacci.FibonacciCppExact` | cpp/fibonacci.cpp:7-12 | for `0 <= n <= 93` the C++ result is exactly `F(n)` (this covers the sizes 20, 30 and 40 the benchmark uses) |
| `Fibonacci.FibonacciCppWrapsAt94` | cpp/fibonacci.cpp:7-12 | at `n = 94` the C++ result has wrapped and is `F(94) - 2^64`, so the bound 93 is tight |
| `Fibonacci.FibonacciVersionsAgree` | cpp/fibonacci.cpp:8-11 | up to `n = 93` the C++ and Python functions agree, except that a negative argument differs by `2^64` |
| `Fibonacci.FibonacciTen` | python/fibonacci.py:3-9 | `fibonacci(10) = 55` in both versions |
| `MatrixMultiply.MatrixMultiplicationStandard` | cpp/matrix_mult.cpp:11-24 | given `B` with at least `n = len(A)` rows and rows of length at least `n`: returns a fresh `n x n` buffer whose cell `(i, j)` is the sum over `k < n` of `A[i][k]*B[k][j]`; `n = 0` gives the empty matrix; the inner-loop invariant holds the partial sum over `k' < k`, and cells not yet visited in row-major order are still 0 |
| `MatrixMultiply.IdentityDotPrefix` | python/matrix_mult.py:14-15 | with the identity as left operand, the partial sum over `k' < k` is `B[i][j]` once `k > i` and 0 before |
| `MatrixMultiply.IdentityTimes` | python/matrix_mult.py:5-17 | identity times a square `B` is `B` |
| `MatrixMultiply.DotPrefixIdentity` | cpp/matrix_mult.cpp:17-19 | with the identity as right operand, the partial sum over `k' < k` is `A[i][j]` once `k > j` and 0 before |
| `MatrixMultiply.TimesIdentity` | cpp/matrix_mult.cpp:11-24 | a square `A` times the identity is `A` |
| `MatrixMultiply.MultiplyByIdentity` | python/matrix_mult.py:9-17 | the benchmark's multiply with the identity as `A` returns a buffer holding exactly `B` |

## Left out

- The timing harness is left out because it is clocks, floating-point averages and console output. This covers `run_quicksort_benchmark`, `run_fibonacci_benchmark` and `run_matrix_multiplication_benchmark` (cpp/benchmark.cpp:145-249), `python/benchmark.py`, and the `benchmark_*` functions of the standalone files.
- The random input generators are left out because they draw from nondeterministic sources (`std::random_device`, `mt19937`, Python `random`). These are `generate_random_array`, `generate_random_matrix` and `generate_random_matrix_numpy`.
- CSV writing, directory creation and CSV loading are left out because they are file I/O with floating-point text formatting (`save_results_to_csv`, `ensure_results_dir`, `load_csv_results`).
- `visualization/plot_results.py` is left out because it is plotting through matplotlib.
- `matrix_multiplication_numpy` is left out because it is a call into NumPy's `np.dot`.
- `main` and `benchmark_all` are left out because they are hard-coded configuration and orchestration.
- The element types are narrowed. The C++ sort is a template over `T` and the Python sort accepts any comparable values; both are modelled on `int`. Matrix entries are `double` in C++ and `float` in the benchmark's Python inputs; they are modelled as exact `int`, so floating-point rounding in the sums is not modelled.
- The width of C++ indices is not modelled. Indices and sizes are unbounded integers, so vectors longer than 2^31 - 1 are out of scope. This concerns the `int` conversions of `arr.size() - 1` and `A.size()`.
- Stack depth is not modelled: C++ stack overflow and Python's recursion limit on deep recursions are absent.
- Object identity is not modelled. Python's `quicksort` returns the very same list object for inputs of length at most 1; the model has value semantics, so it cannot tell a list from its copy.
- `LomutoQuicksort.Partition` requires `low <= high`. The source only calls it with `low < high`, and its behaviour for `low > high` is not modelled.
- `MatrixMultiply.MatrixMultiplicationStandard` models the result as one `n x n` buffer rather than a vector of separately allocated rows. The rows are therefore distinct by construction, and the layout is not modelled.
- `MatrixMultiply.MatrixMultiplicationStandard` requires `Conformant(A, B)`, so operands with fewer than `len(A)` rows in `B`, or with a row of `A` (or one of the first `len(A)` rows of `B`) shorter than `len(A)`, are excluded. On such operands Python raises `IndexError` and C++ indexes out of bounds (undefined behaviour); neither outcome is modelled. Every caller in the benchmark passes n x n operands.
