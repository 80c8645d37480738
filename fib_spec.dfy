/** The Fibonacci sequence that every `fibonacci` variant computes, the
    error its callers see on negative input, and the predicates that describe
    a memo table during one top-level call. */
module FibSpec {

  /** F(0) = 0, F(1) = 1, F(k) = F(k-1) + F(k-2) for k >= 2. */
  function Fib(n: nat): (f: nat)
  {
    if n < 2 then n else Fib(n - 1) + Fib(n - 2)
  }

  /** Python's `ValueError`, carrying its message. */
  datatype ValueError = ValueError(message: string)

  /** What a call of `fibonacci` produces: a value, or the raised error. */
  datatype Result<T> = Ok(value: T) | Err(error: ValueError)

  /** The indices lo, lo + 1, ..., hi (empty when hi < lo). */
  function Range(lo: int, hi: int): (s: set<int>)
    ensures forall j :: j in s <==> lo <= j <= hi
    decreases hi - lo
  {
    if hi < lo then {} else Range(lo, hi - 1) + {hi}
  }

  /** Every memo entry holds the Fibonacci number of its index. */
  ghost predicate Faithful(memo: map<int, int>)
  {
    forall j :: j in memo ==> j >= 0 && memo[j] == Fib(j)
  }

  /** The indices lo, lo + 1, ..., hi in increasing order (empty when hi < lo). */
  function Span(lo: int, hi: int): (s: seq<int>)
    ensures |s| == if hi < lo then 0 else hi - lo + 1
    ensures forall i :: 0 <= i < |s| ==> s[i] == lo + i
    decreases hi - lo
  {
    if hi < lo then [] else Span(lo, hi - 1) + [hi]
  }

  /** `sub` occurs somewhere in `s`. */
  predicate Contains(s: string, sub: string)
  {
    exists i :: 0 <= i <= |s| && sub <= s[i..]
  }

  /** The Fibonacci numbers never decrease. */
  lemma {:induction false} FibMonotone(i: nat, j: nat)
    requires i <= j
    ensures Fib(i) <= Fib(j)
  {
    if i < j {
      FibMonotone(i, j - 1);
      if j >= 2 {
        assert Fib(j) == Fib(j - 1) + Fib(j - 2);
      }
    }
  }

  /** The values the three test suites check for n = 0..20. */
  lemma KnownValues()
    ensures Fib(0) == 0 && Fib(1) == 1 && Fib(2) == 1 && Fib(3) == 2
    ensures Fib(4) == 3 && Fib(5) == 5 && Fib(6) == 8 && Fib(7) == 13
    ensures Fib(10) == 55 && Fib(15) == 610 && Fib(20) == 6765
  {
  }

  // Checkpoints on the way to F(100): each pair of consecutive terms is
  // reached by unfolding the recurrence ten times from the pair before.

  lemma FibAt10()
    ensures Fib(9) == 34 && Fib(10) == 55
  {
  }

  lemma FibAt20()
    ensures Fib(19) == 4181 && Fib(20) == 6765
  {
    FibAt10();
  }

  lemma FibAt30()
    ensures Fib(29) == 514229 && Fib(30) == 832040
  {
    FibAt20();
  }

  lemma FibAt40()
    ensures Fib(39) == 63245986 && Fib(40) == 102334155
  {
    FibAt30();
  }

  lemma FibAt50()
    ensures Fib(49) == 7778742049 && Fib(50) == 12586269025
  {
    FibAt40();
  }

  lemma FibAt60()
    ensures Fib(59) == 956722026041 && Fib(60) == 1548008755920
  {
    FibAt50();
  }

  lemma FibAt70()
    ensures Fib(69) == 117669030460994 && Fib(70) == 190392490709135
  {
    FibAt60();
  }

  lemma FibAt80()
    ensures Fib(79) == 14472334024676221 && Fib(80) == 23416728348467685
  {
    FibAt70();
  }

  lemma FibAt90()
    ensures Fib(89) == 1779979416004714189 && Fib(90) == 2880067194370816120
  {
    FibAt80();
  }

  /** The exact F(100) the efficiency test expects. */
  lemma Fib100()
    ensures Fib(100) == 354224848179261915075
  {
    FibAt90();
  }

  /** n = 93 is the first index whose F(n) no longer fits a signed 64-bit
      integer: F(92) still fits, and every later value exceeds the maximum.
      The results are exact only because the integers are unbounded. */
  lemma FibExceedsInt64(n: nat)
    requires n >= 93
    ensures Fib(92) <= 0x7FFF_FFFF_FFFF_FFFF
    ensures Fib(n) > 0x7FFF_FFFF_FFFF_FFFF
  {
    FibAt90();
    assert Fib(93) == 12200160415121876738;
    FibMonotone(93, n);
  }
}
