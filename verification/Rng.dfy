/** The generators of math/rand/v2: they may return anything in range, and what they returned is known. */
module Rng {
  import opened Int64

  class Rand {
    ghost var drawn: seq<int>           // every result so far, in order

    constructor ()
      ensures drawn == []
    {
      drawn := [];
    }

    /** rng.Int64 */
    method NextInt64() returns (v: int64)
      modifies this
      ensures drawn == old(drawn) + [v]
    {
      v := *;
      drawn := drawn + [v];
    }

    /** rng.IntN: panics unless n is positive. */
    method IntN(n: int) returns (r: nat)
      requires n > 0
      modifies this
      ensures r < n && drawn == old(drawn) + [r]
    {
      var k: int :| 0 <= k < n;
      r := k;
      drawn := drawn + [r];
    }

    /** Reading n bytes from a generator. */
    method NextBytes(n: nat) returns (bs: seq<byte>)
      modifies this
      ensures |bs| == n && drawn == old(drawn) + bs
    {
      bs := [];
      while |bs| < n
        invariant |bs| <= n && drawn == old(drawn) + bs
      {
        var b: byte := *;
        bs, drawn := bs + [b], drawn + [b];
      }
    }
  }
}
