/** How both daemons number their sessions: a counter that starts again behind 2^31 values, in
    network byte order. */
module Discriminators {
  import opened Common

  const COUNTER_LIMIT := 0x7fffffff
  /** The number of values before the counter starts again. */
  const PERIOD := 0x80000000

  /** htonl: the four bytes in reverse order. */
  function Htonl(n: nat): (r: nat)
    requires n < UINT32
    ensures r < UINT32
  {
    n % 256 * 16777216 + n / 256 % 256 * 65536 + n / 65536 % 256 * 256 + n / 16777216
  }

  /** The bytes come out in reverse order. */
  lemma HtonlReverses(a: nat, b: nat, c: nat, d: nat)
    requires a < 256 && b < 256 && c < 256 && d < 256
    ensures Htonl(a * 16777216 + b * 65536 + c * 256 + d) == d * 16777216 + c * 65536 + b * 256 + a
  {
    FourBytes(a, b, c, d);
  }

  lemma FourBytes(a: nat, b: nat, c: nat, d: nat)
    requires a < 256 && b < 256 && c < 256 && d < 256
    ensures var n := a * 16777216 + b * 65536 + c * 256 + d;
      n < UINT32 && n % 256 == d && n / 256 % 256 == c && n / 65536 % 256 == b && n / 16777216 == a
  {
    var n := a * 16777216 + b * 65536 + c * 256 + d;
    assert n / 256 == a * 65536 + b * 256 + c;
    assert n / 65536 == a * 256 + b;
  }

  /** Swapping twice gives the number back, so no two numbers have the same image, and only 0 has image 0. */
  lemma HtonlTwice(n: nat)
    requires n < UINT32
    ensures Htonl(Htonl(n)) == n
  {
    var a, b, c, d := n / 16777216, n / 65536 % 256, n / 256 % 256, n % 256;
    assert n == a * 16777216 + b * 65536 + c * 256 + d by {
      var q := n / 256;
      assert n / 65536 == q / 256 && n / 16777216 == q / 256 / 256;
    }
    FourBytes(d, c, b, a);
  }

  /** The counter after one allocation; the discriminator is made of the value in between. */
  function Bump(c: nat): (r: nat)
    requires c <= COUNTER_LIMIT
    ensures r <= COUNTER_LIMIT
  {
    if c + 1 > COUNTER_LIMIT then 0 else c + 1
  }

  /** The counter after `k` allocations. */
  function After(c: nat, k: nat): (r: nat)
    requires c <= COUNTER_LIMIT
    ensures r <= COUNTER_LIMIT
  {
    if k == 0 then c else Bump(After(c, k - 1))
  }

  /** The discriminator that allocation number `k` yields. */
  function Nth(c: nat, k: nat): (r: nat)
    requires c <= COUNTER_LIMIT
  {
    Htonl(After(c, k) + 1)
  }

  /** The counter goes round: it has been reset `rounds` times. */
  lemma {:induction false} Rounds(c: nat, k: nat) returns (rounds: nat)
    requires c <= COUNTER_LIMIT
    ensures c + k == rounds * PERIOD + After(c, k)
  {
    if k == 0 {
      rounds := 0;
    } else {
      var before := Rounds(c, k - 1);
      rounds := if After(c, k - 1) == COUNTER_LIMIT then before + 1 else before;
    }
  }

  /** No discriminator is zero, and those of any 2^31 allocations in a row are different. */
  lemma Distinct(c: nat, i: nat, j: nat)
    requires c <= COUNTER_LIMIT && i < j < i + PERIOD
    ensures Nth(c, i) != 0 && Nth(c, i) != Nth(c, j)
  {
    hide After;
    var p := Rounds(c, i);
    var q := Rounds(c, j);
    assert After(c, i) != After(c, j);
    SwapDistinct(After(c, i) + 1, After(c, j) + 1);
  }

  lemma SwapDistinct(a: nat, b: nat)
    requires a < UINT32 && b < UINT32
    ensures a != 0 ==> Htonl(a) != 0
    ensures a != b ==> Htonl(a) != Htonl(b)
  {
    HtonlTwice(a);
    HtonlTwice(b);
    HtonlTwice(0);
    assert Htonl(0) == 0;
    hide Htonl;
  }

  /** The discriminators that a new daemon hands out first are 1, 2, ... in network byte order. */
  lemma {:induction false} FirstOnes(k: nat)
    requires k < 255
    ensures Nth(0, k) == (k + 1) * 0x100_0000
  {
    CountsUp(0, k);
    HtonlReverses(0, 0, 0, k + 1);
    hide Htonl;
  }

  lemma {:induction false} CountsUp(c: nat, k: nat)
    requires c + k <= COUNTER_LIMIT
    ensures After(c, k) == c + k
  {
    if k > 0 {
      CountsUp(c, k - 1);
    }
  }

  /** The bound is sharp: 2^31 allocations later the same value comes again. */
  lemma Repeats(c: nat, k: nat)
    requires c <= COUNTER_LIMIT
    ensures Nth(c, k + PERIOD) == Nth(c, k)
  {
    hide After;
    hide Htonl;
    var p := Rounds(c, k);
    var q := Rounds(c, k + PERIOD);
    assert q == p + 1;
  }

  /** The counter as the daemons keep it, a 64-bit variable. */
  class Counter {
    var local_discriminator_incr: nat
    ghost var start: nat
    ghost var taken: nat

    ghost predicate Valid()
      reads this
    {
      start <= COUNTER_LIMIT && local_discriminator_incr == After(start, taken)
    }

    constructor ()
      ensures Valid() && start == 0 && taken == 0
    {
      local_discriminator_incr, start, taken := 0, 0, 0;
    }

    method Allocate() returns (discr: nat)
      requires Valid()
      modifies this
      ensures Valid() && start == old(start) && taken == old(taken) + 1
      ensures discr == Nth(start, old(taken)) && 0 < discr < UINT32
    {
      SwapDistinct(local_discriminator_incr + 1, 0);
      hide Htonl;
      local_discriminator_incr := local_discriminator_incr + 1;
      discr := Htonl(local_discriminator_incr);
      if local_discriminator_incr > COUNTER_LIMIT {
        local_discriminator_incr := 0;
      }
      taken := taken + 1;
    }
  }
}
