/**
 The Ackermann function of the benchmarks (misc/bench.ideal.c:1876-1899), over unbounded integers.
*/
module Ackermann {
  /** The lowered body: three returns, the last one with a nested call. */
  function Ack(m: nat, n: nat): (r: nat)
    ensures r > n
    decreases m, n
  {
    if m == 0 then n + 1
    else if n == 0 then Ack(m - 1, 1)
    else Ack(m - 1, Ack(m, n - 1))
  }

  function Pow2(e: nat): nat {
    if e == 0 then 1 else 2 * Pow2(e - 1)
  }

  lemma {:induction false} AckOne(n: nat)
    ensures Ack(1, n) == n + 2
  {
    if n > 0 {
      AckOne(n - 1);
    }
  }

  lemma {:induction false} AckTwo(n: nat)
    ensures Ack(2, n) == 2 * n + 3
  {
    if n == 0 {
      AckOne(1);
    } else {
      AckTwo(n - 1);
      AckOne(2 * n + 1);
    }
  }

  lemma AckNext(m: nat, n: nat)
    ensures Ack(m + 1, 0) == Ack(m, 1) && Ack(m + 1, n + 1) == Ack(m, Ack(m + 1, n))
  {
  }

  lemma {:induction false} AckThree(n: nat)
    ensures Ack(3, n) == Pow2(n + 3) - 3
  {
    hide Ack;
    AckNext(2, if n == 0 then 0 else n - 1);
    if n == 0 {
      AckTwo(1);
      assert Pow2(3) == 8;
    } else {
      AckThree(n - 1);
      AckTwo(Pow2(n + 2) - 3);
    }
  }

  lemma {:induction false} AckUp(m: nat, a: nat, b: nat)
    requires a < b
    ensures Ack(m, a) < Ack(m, b)
    decreases b
  {
    assert m > 0 ==> Ack(m, b) == Ack(m - 1, Ack(m, b - 1));
    if a < b - 1 {
      AckUp(m, a, b - 1);
    }
  }

  /** Increasing in both arguments. */
  lemma {:induction false} AckGrows(m: nat, n: nat)
    ensures Ack(m, n) < Ack(m, n + 1) && Ack(m, n) < Ack(m + 1, n)
    decreases n
  {
    AckUp(m, n, n + 1);
    if n > 0 {
      AckGrows(m, n - 1);
      AckUp(m, n, Ack(m + 1, n - 1));
    }
  }
}
