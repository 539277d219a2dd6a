/** Naive recursive Fibonacci, in the two flavours of the benchmark:
    the C++ one (an `int` argument, an `unsigned long long` result, so every
    sum wraps modulo 2^64 and a negative argument is converted to unsigned),
    and the Python one (unbounded integers, a negative argument is returned
    unchanged). Both are proved against an independent, linear-time
    reference definition of the Fibonacci numbers. */
module Fibonacci {

  const Two64: int := 0x1_0000_0000_0000_0000

  /** The C++ `int` argument. */
  newtype Int32 = x: int | -0x8000_0000 <= x < 0x8000_0000

  /** The C++ `unsigned long long` result. */
  newtype UInt64 = x: int | 0 <= x < 0x1_0000_0000_0000_0000

  /** Reference definition: the pair (F(n), F(n+1)), one step per index. */
  function FibPair(n: nat): (nat, nat)
  {
    if n == 0 then (0, 1)
    else
      var prev := FibPair(n - 1);
      (prev.1, prev.0 + prev.1)
  }

  /** The mathematical Fibonacci number F(n). */
  function Fib(n: nat): nat
  {
    FibPair(n).0
  }

  /** The reference satisfies the defining recurrence of the benchmark's
      recursion: F(0) = 0, F(1) = 1, F(n) = F(n-1) + F(n-2). */
  lemma FibRecurrence(n: nat)
    ensures Fib(0) == 0 && Fib(1) == 1
    ensures n >= 2 ==> Fib(n) == Fib(n - 1) + Fib(n - 2)
  {
  }

  /** The Python function: base case `n <= 1` returns `n` (also for negative
      `n`), otherwise the sum of the two recursive calls, on unbounded ints. */
  function FibonacciPy(n: int): (r: int)
    ensures n < 0 ==> r == n
    ensures n >= 0 ==> r == Fib(n)
    decreases if n < 0 then 0 else n
  {
    if n <= 1 then n
    else
      FibRecurrence(n);
      FibonacciPy(n - 1) + FibonacciPy(n - 2)
  }

  /** The C++ function: the base case converts the `int` to
      `unsigned long long` (a negative `n` becomes 2^64 + n), and the sum of
      the two recursive results wraps modulo 2^64. */
  function FibonacciCpp(n: Int32): (r: UInt64)
    ensures n < 0 ==> r as int == n as int + Two64
    ensures n >= 0 ==> r as int == Fib(n as int) % Two64
    decreases if n < 0 then 0 else n as int
  {
    if n <= 1 then
      (if n < 0 then n as int + Two64 else n as int) as UInt64
    else
      FibRecurrence(n as int);
      AddMod(Fib(n as int - 1), Fib(n as int - 2));
      ((FibonacciCpp(n - 1) as int + FibonacciCpp(n - 2) as int) % Two64) as UInt64
  }

  /** Wrap-around of an unsigned sum does not depend on whether the operands
      were reduced first. */
  lemma AddMod(a: nat, b: nat)
    ensures (a % Two64 + b % Two64) % Two64 == (a + b) % Two64
  {
  }

  /** The reference is non-decreasing. */
  lemma {:induction false} FibMonotone(m: nat, n: nat)
    requires m <= n
    ensures Fib(m) <= Fib(n)
  {
    if m < n {
      FibMonotone(m, n - 1);
      if n >= 2 {
        FibRecurrence(n);
      }
    }
  }

  // Checkpoints of the reference, each evaluated from the one before (the
  // verifier unfolds a call on a literal argument only some levels deep).
  lemma FibPair15() ensures FibPair(15) == (610, 987) { }
  lemma FibPair30() ensures FibPair(30) == (832040, 1346269) { FibPair15(); }
  lemma FibPair45() ensures FibPair(45) == (1134903170, 1836311903) { FibPair30(); }
  lemma FibPair60() ensures FibPair(60) == (1548008755920, 2504730781961) { FibPair45(); }
  lemma FibPair75() ensures FibPair(75) == (2111485077978050, 3416454622906707) { FibPair60(); }
  lemma FibPair90() ensures FibPair(90) == (2880067194370816120, 4660046610375530309) { FibPair75(); }

  /** F(93) and F(94), on either side of 2^64. */
  lemma FibAroundTwo64()
    ensures Fib(93) == 12200160415121876738
    ensures Fib(94) == 19740274219868223167
    ensures Fib(93) < Two64 <= Fib(94)
  {
    FibPair90();
    assert FibPair(94) == (19740274219868223167, 31940434634990099905);
  }

  /** Up to n = 93 the C++ result is exact: no 64-bit wrap-around has
      happened (the benchmark uses n = 20, 30 and 40). */
  lemma FibonacciCppExact(n: Int32)
    requires 0 <= n <= 93
    ensures FibonacciCpp(n) as int == Fib(n as int)
  {
    FibMonotone(n as int, 93);
    FibAroundTwo64();
  }

  /** At n = 94 the C++ result has wrapped and differs from F(94). */
  lemma FibonacciCppWrapsAt94()
    ensures FibonacciCpp(94) as int == Fib(94) - Two64
    ensures FibonacciCpp(94) as int != Fib(94)
  {
    FibAroundTwo64();
  }

  /** Both versions agree on every index where the C++ one is exact. */
  lemma FibonacciVersionsAgree(n: Int32)
    requires n <= 93
    ensures n >= 0 ==> FibonacciCpp(n) as int == FibonacciPy(n as int)
    ensures n < 0 ==> FibonacciCpp(n) as int == FibonacciPy(n as int) + Two64
  {
    if n >= 0 {
      FibonacciCppExact(n);
    }
  }

  /** fibonacci(10) = 55 in both versions. */
  lemma FibonacciTen()
    ensures FibonacciPy(10) == 55
    ensures FibonacciCpp(10) == 55
  {
  }
}
