/** The sonnet variant of `fibonacci`: the memo is consulted first, every
    index is stored (base cases included), and the answer is read back from
    the memo. */
module Sonnet {
  import opened FibSpec

  /** "Negative numbers are not accepted." */
  const NegativeInputMessage := "負の数は受け付けません"

  /** The memo throughout a call: every entry is correct, the keys from 2 on
      are exactly 2..top, and both base cases are stored once any index above
      them is. */
  ghost predicate MemoInvariant(memo: map<int, int>, top: int)
  {
    top >= 1 &&
    Faithful(memo) &&
    (forall j :: 2 <= j ==> (j in memo <==> j <= top)) &&
    (top >= 2 ==> 0 in memo && 1 in memo)
  }

  /** Storing F(n) at a missing n keeps the invariant; for n >= 2 this needs
      every index below n stored, and n becomes the new top. */
  lemma Store(memo: map<int, int>, top: int, n: nat)
    requires MemoInvariant(memo, top) && n !in memo
    requires n >= 2 ==> top == n - 1 && 0 in memo && 1 in memo
    ensures MemoInvariant(memo[n := Fib(n)], if n >= 2 then n else top)
  {
  }

  /** The memo dict of one top-level call, which the nested
      `_fibonacci_helper` closes over. `top` is the largest memoised index
      above the base cases (1 while there is none). */
  class FibMemo {
    var memo: map<int, int>
    ghost var top: int

    /** Every entry is correct; the keys from 2 on are exactly 2..top, and
        both base cases are stored once any of them is. */
    ghost predicate Valid()
      reads this
    {
      MemoInvariant(memo, top)
    }

    /** `memo = {}`: a fresh, empty table for each top-level call. */
    constructor ()
      ensures Valid() && memo == map[]
    {
      memo := map[];
      top := 1;
    }

    /** `_fibonacci_helper(n)`. Returns F(n), read back from `memo[n]`. A
        memo hit changes nothing. Otherwise n is stored: alone when n < 2,
        together with every missing index 0..n when n >= 2. No stored entry
        changes. */
    method FibonacciHelper(n: nat) returns (v: int)
      requires Valid()
      modifies this
      ensures Valid()
      ensures n in memo && v == memo[n]
      ensures v == Fib(n)
      ensures forall j :: j in old(memo) ==> j in memo && memo[j] == old(memo)[j]
      ensures n in old(memo) ==> v == old(memo)[n] && unchanged(this)
      ensures n < 2 ==> memo.Keys == old(memo.Keys) + {n} && top == old(top)
      ensures n >= 2 ==>
        (forall j :: j in memo <==> j in old(memo) || 0 <= j <= n) &&
        top == if n > old(top) then n else old(top)
    {
      if n in memo {
        return memo[n];
      }
      if n == 0 {
        Store(memo, top, n);
        memo := memo[n := 0];
      } else if n == 1 {
        Store(memo, top, n);
        memo := memo[n := 1];
      } else {
        // n is missing, so every stored index above the base cases lies below it
        assert old(top) < n;
        var a := FibonacciHelper(n - 1);
        var b := FibonacciHelper(n - 2);
        Store(memo, top, n);
        memo := memo[n := a + b];
        top := n;
      }
      v := memo[n];
    }
  }

  /** `fibonacci(n)`: a negative n raises ValueError and computes nothing;
      otherwise the result is F(n), read back from a fresh memo that ends up
      holding n alone when n < 2 and exactly the indices 0..n otherwise.
      `memo` reports that final table. */
  method Fibonacci(n: int) returns (r: Result<int>, ghost memo: map<int, int>)
    ensures n < 0 <==> r.Err?
    ensures n < 0 ==> r.error == ValueError(NegativeInputMessage) && memo == map[]
    ensures n >= 0 ==> r == Ok(Fib(n))
    ensures n >= 0 ==> Faithful(memo) && n in memo && memo[n] == r.value
    ensures 0 <= n < 2 ==> memo.Keys == {n}
    ensures n >= 2 ==> memo.Keys == Range(0, n)
  {
    if n < 0 {
      return Err(ValueError(NegativeInputMessage)), map[];
    }
    var m := new FibMemo();
    var v := m.FibonacciHelper(n);
    r, memo := Ok(v), m.memo;
  }
}
