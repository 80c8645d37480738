/** The opus variant of `fibonacci`: base cases are returned directly and
    only indices k >= 2 are memoised; `fib_helper` binds the sum to `result`,
    stores it and returns it. */
module Opus {
  import opened FibSpec

  const NegativeInputMessage := "n must be a non-negative integer"

  /** The error message names the requirement: it contains "non-negative". */
  lemma MessageSaysNonNegative()
    ensures Contains(NegativeInputMessage, "non-negative")
  {
    assert "non-negative" <= NegativeInputMessage[12..];
  }

  /** The memo dict of one top-level call, which the nested `fib_helper`
      closes over. `top` is the largest memoised index (1 while nothing is stored) and
      `writes` logs, in order, every index stored into `memo`. */
  class FibMemo {
    var memo: map<int, int>
    ghost var top: int
    ghost var writes: seq<int>

    /** Every entry is correct, the base cases are never stored, the keys are
        exactly 2..top, and they were written once each, in increasing order. */
    ghost predicate Valid()
      reads this
    {
      top >= 1 &&
      Faithful(memo) &&
      (forall j :: j in memo <==> 2 <= j <= top) &&
      writes == Span(2, top)
    }

    /** `memo = {}`: a fresh, empty table for each top-level call. */
    constructor ()
      ensures Valid() && memo == map[] && writes == []
    {
      memo := map[];
      top := 1;
      writes := [];
    }

    /** `fib_helper(num)`. Returns F(num). For num >= 2 the memo afterwards
        holds num with the returned `result`, and its keys run up to the
        larger of num and the previous largest key: exactly the missing
        indices up to num were added, in increasing order, and no stored
        entry changed. A base case or a memo hit changes nothing. */
    method FibHelper(num: nat) returns (result: int)
      requires Valid()
      modifies this
      ensures Valid()
      ensures result == Fib(num)
      ensures num >= 2 ==> num in memo && memo[num] == result
      ensures top == if num > old(top) then num else old(top)
      ensures forall j :: j in old(memo) ==> j in memo && memo[j] == old(memo)[j]
      ensures old(writes) <= writes
      ensures num < 2 ==> unchanged(this)
      ensures num in old(memo) ==> result == old(memo)[num] && unchanged(this)
    {
      if num == 0 {
        return 0;
      }
      if num == 1 {
        return 1;
      }
      if num in memo {
        return memo[num];
      }
      // num is missing, so every stored index lies below it
      assert old(top) < num;
      var a := FibHelper(num - 1);
      var b := FibHelper(num - 2);
      assert top == num - 1 && writes + [num] == Span(2, num);
      result := a + b;
      memo := memo[num := result];
      top := num;
      writes := writes + [num];
    }
  }

  /** `fibonacci(n)`: a negative n raises ValueError and computes nothing;
      otherwise the result is F(n), computed with a fresh memo that ends up
      holding exactly the indices 2..n, stored once each in increasing order,
      with the result at n. `memo` and `stores` report that final table and
      its write log. */
  method Fibonacci(n: int) returns (r: Result<int>, ghost memo: map<int, int>, ghost stores: seq<int>)
    ensures n < 0 <==> r.Err?
    ensures n < 0 ==> r.error == ValueError(NegativeInputMessage) && memo == map[] && stores == []
    ensures n < 0 ==> Contains(r.error.message, "non-negative")
    ensures n >= 0 ==> r == Ok(Fib(n))
    ensures n >= 0 ==> Faithful(memo) && memo.Keys == Range(2, n) && stores == Span(2, n)
    ensures n >= 2 ==> memo[n] == r.value
  {
    if n < 0 {
      MessageSaysNonNegative();
      return Err(ValueError(NegativeInputMessage)), map[], [];
    }
    var m := new FibMemo();
    var v := m.FibHelper(n);
    r, memo, stores := Ok(v), m.memo, m.writes;
  }
}
