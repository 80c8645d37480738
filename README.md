# Memoised Fibonacci, three variants

The repository holds three independently written Python versions of
`fibonacci(n)` (the haiku, opus and sonnet implementations). Each rejects a
negative `n` with `ValueError`, and otherwise returns the n-th Fibonacci
number (F(0) = 0, F(1) = 1, F(k) = F(k-1) + F(k-2)). Each computes it with a
nested recursive helper that closes over a dictionary `memo`, created afresh
for every top-level call.

The Dafny model has these parts:

- `fib_spec.dfy` (module `FibSpec`) holds the shared vocabulary:
  - the recursive specification `Fib`;
  - `ValueError` and the `Result` datatype standing for "returned a value
    or raised";
  - the predicate `Faithful` (every memo entry is correct);
  - the index sets and sequences `Range` and `Span`;
  - lemmas about `Fib`: monotonicity, the values the test suites check,
    including F(100), and the point where the values leave the signed
    64-bit range.
- `haiku.dfy`, `opus.dfy` and `sonnet.dfy` model one variant each.
  - The closed-over dictionary is a class `FibMemo` with a `memo: map<int, int>`
    field that the helper method updates in place.
  - The ghost field `top` is the largest memoised index, and `Valid()` is
    the memo's invariant.
  - The top-level `Fibonacci` allocates a fresh `FibMemo` and returns a
    `Result`. A ghost out-parameter reports the memo's final state.
  - haiku and opus never store the base cases. Their memo ends holding
    exactly 2..n, and a ghost write log shows each index is stored once, in
    increasing order.
  - sonnet consults the memo first and stores the base cases too. Its memo
    ends holding exactly 0..n (or just {n} when n < 2), and the answer is
    always read back from `memo[n]`.
- `agreement.dfy` (module `Agreement`) runs the three variants on the same
  input. They return the same value on every non-negative input, and all
  three reject every negative one, each with its own message.

sonnet stores both base cases in its memo. On a first call with n >= 2 its
stores run 1, 0, 2, 3, ..., n, because the recursion on n - 1 reaches 1
before the recursion on n - 2 reaches 0.

## Model

| member | source | states |
|---|---|---|
| FibSpec.Fib100 | benchmarks/token_usage_analysis/implementations/opus/test_fibonacci.py:36-40 | F(100) is exactly 354224848179261915075, the value the efficiency test expects |
| FibSpec.FibExceedsInt64 | benchmarks/token_usage_analysis/implementations/opus/test_fibonacci.py:36-40 | F(92) fits in a signed 64-bit integer and F(n) exceeds its maximum for every n >= 93, so the expected results rely on Python's unbounded integers, which the model keeps |
| FibSpec.KnownValues | benchmarks/token_usage_analysis/implementations/opus/test_fibonacci.py:7-25 | F at 0..7, 10, 15 and 20 equals the values the three test suites assert |
| Haiku.FibMemo.constructor | benchmarks/token_usage_analysis/implementations/haiku/fibonacci.py:19 | a new memo is empty and satisfies the invariant: entries correct, keys exactly 2..top, write log 2..top |
| Haiku.FibMemo.FibRec | benchmarks/token_usage_analysis/implementations/haiku/fibonacci.py:21-34 | fib(k) returns F(k); for k >= 2 the memo afterwards holds k with that value; the keys are exactly 2..max(k, old top); no entry changes; the write log only grows, in increasing order, each index once; base cases and memo hits change nothing |
| Haiku.Fibonacci | benchmarks/token_usage_analysis/implementations/haiku/fibonacci.py:14-36 | error exactly when n < 0, with the message "Input must be a non-negative integer"; otherwise Ok(F(n)), and the final memo holds correct entries for exactly 2..n, written in the order 2, 3, ..., n, with the result at n |
| Opus.MessageSaysNonNegative | benchmarks/token_usage_analysis/implementations/opus/fibonacci.py:14-15 | the rejection message contains "non-negative", as the negative-input test asserts |
| Opus.FibMemo.constructor | benchmarks/token_usage_analysis/implementations/opus/fibonacci.py:18 | a new memo is empty and satisfies the invariant: entries correct, keys exactly 2..top, write log 2..top |
| Opus.FibMemo.FibHelper | benchmarks/token_usage_analysis/implementations/opus/fibonacci.py:20-34 | fib_helper(num) returns F(num); for num >= 2 the stored memo[num] equals the returned result; the keys are exactly 2..max(num, old top); no entry changes; the write log only grows, in increasing order, each index once; base cases and memo hits change nothing |
| Opus.Fibonacci | benchmarks/token_usage_analysis/implementations/opus/fibonacci.py:14-36 | error exactly when n < 0, with the message "n must be a non-negative integer", which contains "non-negative"; otherwise Ok(F(n)), and the final memo holds correct entries for exactly 2..n, written in increasing order |
| Sonnet.Store | benchmarks/token_usage_analysis/implementations/sonnet/fibonacci.py:23-28 | storing F(n) at a missing n keeps the memo invariant, provided every index below n is already stored when n >= 2 |
| Sonnet.FibMemo.constructor | benchmarks/token_usage_analysis/implementations/sonnet/fibonacci.py:17 | a new memo is empty and satisfies the invariant |
| Sonnet.FibMemo.FibonacciHelper | benchmarks/token_usage_analysis/implementations/sonnet/fibonacci.py:19-30 | the helper returns F(n), and afterwards n is in the memo with the returned value; a memo hit changes nothing; a base case adds just itself; otherwise exactly the missing indices 0..n are added; no stored entry changes |
| Sonnet.Fibonacci | benchmarks/token_usage_analysis/implementations/sonnet/fibonacci.py:14-32 | error exactly when n < 0, with the message "負の数は受け付けません"; otherwise Ok(F(n)), read back from a final memo whose entries are correct and whose keys are {n} for n < 2 and exactly 0..n otherwise |
| Agreement.CompareVariants | benchmarks/token_usage_analysis/implementations/sonnet/fibonacci.py:1-32 | a corollary of the three `Fibonacci` contracts (haiku/fibonacci.py:14-36 and opus/fibonacci.py:14-36 as well as the cited file): on one input, the three variants return the same Ok(F(n)) for every n >= 0; all three reject every n < 0, with three different messages |

## Left out

- Python's closures are modelled as one `FibMemo` object per top-level call. Its `memo` field is the closed-over dictionary.
- Raising `ValueError` is modelled as returning `Err`. Python's exception propagation and the `unittest` harness are not modelled; the test files are used only for the expected values.
- Only integer arguments are modelled. Python's comparison `n < 0` on floats, booleans or other types is not.
- Haiku.Fibonacci, Opus.Fibonacci and Sonnet.Fibonacci return F(n) for every n >= 0. CPython's recursion limit, which makes a deep first call raise `RecursionError` (about a thousand frames by default), is an interpreter setting and is not modelled.
- Running time, and the linear number of helper calls that memoisation gives, are not modelled; only which entries the memo holds and when each is written.
- Sonnet.FibMemo.FibonacciHelper: it states which indices are stored and that none is overwritten, but not the order of the writes, which is 1, 0, 2, 3, ..., n for a first call with n >= 2.
