/** The haiku variant of `fibonacci`: base cases are returned directly and
    only indices k >= 2 are memoised; `fib` reads the sum back from the memo
    after storing it. */
module Haiku {
  import opened FibSpec

  const NegativeInputMessage := "Input must be a non-negative integer"

  /** The memo dict of one top-level call, which the nested `fib` closes over.
      `top` is the largest memoised index (1 while nothing is stored) and
      `writes` logs, in order, every index stored into `memo`. */
  class FibMemo {
    var memo: map<int, int>
    ghost var top: int
    ghost var writes: seq<int>

    /** Every entry is correct, the base cases are never stored, the keys are
        exactly 2..top, and they were written once each, in increasing order. */
    ghost predicate Valid()
      reads this
    {
      top >= 1 &&
      Faithful(memo) &&
      (forall j :: j in memo <==> 2 <= j <= top) &&
      writes == Span(2, top)
    }

    /** `memo = {}`: a fresh, empty table for each top-level call. */
    constructor ()
      ensures Valid() && memo == map[] && writes == []
    {
      memo := map[];
      top := 1;
      writes := [];
    }

    /** The nested `fib(k)`. Returns F(k). For k >= 2 the memo afterwards
        holds k with the returned value, and its keys run up to the larger of k and the
        previous largest key: exactly the missing indices up to k were added,
        in increasing order, and no stored entry changed. A base case or a
        memo hit changes nothing. */
    method FibRec(k: nat) returns (v: int)
      requires Valid()
      modifies this
      ensures Valid()
      ensures v == Fib(k)
      ensures k >= 2 ==> k in memo && memo[k] == v
      ensures top == if k > old(top) then k else old(top)
      ensures forall j :: j in old(memo) ==> j in memo && memo[j] == old(memo)[j]
      ensures old(writes) <= writes
      ensures k < 2 ==> unchanged(this)
      ensures k in old(memo) ==> v == old(memo)[k] && unchanged(this)
    {
      if k == 0 {
        return 0;
      }
      if k == 1 {
        return 1;
      }
      if k in memo {
        return memo[k];
      }
      // k is missing, so every stored index lies below it
      assert old(top) < k;
      var a := FibRec(k - 1);
      var b := FibRec(k - 2);
      assert top == k - 1 && writes + [k] == Span(2, k);
      memo := memo[k := a + b];
      top := k;
      writes := writes + [k];
      v := memo[k];
    }
  }

  /** `fibonacci(n)`: a negative n raises ValueError and computes nothing;
      otherwise the result is F(n), computed with a fresh memo that ends up
      holding exactly the indices 2..n, stored once each in increasing order,
      with the result at n. `memo` and `stores` report that final table and
      its write log. */
  method Fibonacci(n: int) returns (r: Result<int>, ghost memo: map<int, int>, ghost stores: seq<int>)
    ensures n < 0 <==> r.Err?
    ensures n < 0 ==> r.error == ValueError(NegativeInputMessage) && memo == map[] && stores == []
    ensures n >= 0 ==> r == Ok(Fib(n))
    ensures n >= 0 ==> Faithful(memo) && memo.Keys == Range(2, n) && stores == Span(2, n)
    ensures n >= 2 ==> memo[n] == r.value
  {
    if n < 0 {
      return Err(ValueError(NegativeInputMessage)), map[], [];
    }
    var m := new FibMemo();
    var v := m.FibRec(n);
    r, memo, stores := Ok(v), m.memo, m.writes;
  }
}
