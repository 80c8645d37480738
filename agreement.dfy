/** The three variants side by side: they implement one contract, so on
    every input they either return the same value or all reject the input,
    each with its own message. */
module Agreement {
  import opened FibSpec
  import Haiku
  import Opus
  import Sonnet

  /** Calls the three `fibonacci` variants on the same `n`. A non-negative
      `n` gets the same Ok result, F(n), from all three; a negative `n` is
      rejected by all three, and no two of them use the same message. This
      is a corollary of the three `Fibonacci` contracts: it adds no behaviour
      of its own. */
  method CompareVariants(n: int) returns (haiku: Result<int>, opus: Result<int>, sonnet: Result<int>)
    ensures n >= 0 ==> haiku == opus == sonnet == Ok(Fib(n))
    ensures n < 0 ==> haiku.Err? && opus.Err? && sonnet.Err?
    ensures n < 0 ==>
      haiku.error != opus.error && opus.error != sonnet.error && haiku.error != sonnet.error
  {
    ghost var memo: map<int, int>, stores: seq<int>;
    haiku, memo, stores := Haiku.Fibonacci(n);
    opus, memo, stores := Opus.Fibonacci(n);
    sonnet, memo := Sonnet.Fibonacci(n);
  }
}
