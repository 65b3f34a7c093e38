/** The reload timer that both `Blinker` designs (blink.py and tristate_blink.py) use: a
    `counter` that counts down to 0 and, on the cycle it reads 0, reloads `period`. The
    cycle on which the counter reads 0 is an expiry; the design does its work then. */
module ReloadTimer {
  import opened Bits

  /** The counter after one clock: `If(counter == 0, counter.eq(period)).Else(counter.eq(counter - 1))`.
      The decrement is only taken on a non-zero counter, so it never wraps. */
  function Next(c: nat, p: nat): (r: nat)
    ensures c <= p ==> r <= p
  {
    if c == 0 then p else c - 1
  }

  /** The counter after n clocks from c. */
  function Run(c: nat, p: nat, n: nat): nat
    decreases n
  {
    if n == 0 then c else Next(Run(c, p, n - 1), p)
  }

  /** Number of expiries among the first n cycles from c: the cycles on which the counter
      reads 0. */
  function Expirations(c: nat, p: nat, n: nat): nat
    decreases n
  {
    if n == 0 then 0 else Expirations(c, p, n - 1) + if Run(c, p, n - 1) == 0 then 1 else 0
  }

  /** Counting down from c, the counter reaches 0 after c clocks and from then on runs
      through p, p-1, ..., 0 with period p+1. */
  lemma {:induction false} RunClosedForm(c: nat, p: nat, n: nat)
    requires c <= p
    ensures Run(c, p, n) == if n <= c then c - n else p - (n - c - 1) % (p + 1)
    decreases n
  {
    if n > 0 {
      RunClosedForm(c, p, n - 1);
      if n - 1 == c {
        ModOfBelow(0, p + 1);
      } else if n - 1 > c {
        PastFirstExpiry(c, p, n);
      }
    }
  }

  /** One clock after the counter reads p - (n-1-c-1) % (p+1), it reads p - (n-c-1) % (p+1). */
  lemma PastFirstExpiry(c: nat, p: nat, n: nat)
    requires n - 1 > c
    ensures Next(p - (n - 1 - c - 1) % (p + 1), p) == p - (n - c - 1) % (p + 1)
  {
    var x := n - c - 2;
    ModAddMod(x, 1, p + 1);
    if x % (p + 1) == p {
      ModAddPeriod(0, p + 1);
    } else {
      ModOfBelow(x % (p + 1) + 1, p + 1);
    }
  }

  /** The timer expires on the first cycle where the counter reads 0 and then once every
      p+1 cycles. */
  lemma {:induction false} ExpirationsClosedForm(c: nat, p: nat, n: nat)
    requires c <= p
    ensures Expirations(c, p, n) == if n <= c then 0 else 1 + (n - c - 1) / (p + 1)
    decreases n
  {
    if n > 0 {
      ExpirationsClosedForm(c, p, n - 1);
      RunClosedForm(c, p, n - 1);
      if n - 1 == c {
        DivUnique(0, p + 1, 0, 0);
      } else if n - 1 > c {
        ExpiryCountStep(c, p, n);
      }
    }
  }

  /** The quotient by p+1 goes up by one exactly when the counter, p - (n-1-c-1) % (p+1),
      reads 0. */
  lemma ExpiryCountStep(c: nat, p: nat, n: nat)
    requires n - 1 > c
    ensures (n - c - 1) / (p + 1) ==
            (n - 1 - c - 1) / (p + 1) + if p - (n - 1 - c - 1) % (p + 1) == 0 then 1 else 0
  {
    var x, m := n - c - 2, p + 1;
    if x % m == p {
      DivUnique(x + 1, m, x / m + 1, 0);
    } else {
      DivUnique(x + 1, m, x / m, x % m + 1);
    }
  }

  /** From a counter at 0: an expiry on the first cycle and then one every p+1 cycles. */
  lemma ExpirationsFromZero(p: nat, n: nat)
    ensures Expirations(0, p, n) == if n == 0 then 0 else 1 + (n - 1) / (p + 1)
  {
    ExpirationsClosedForm(0, p, n);
    if n > 0 {
      assert n - 0 - 1 == n - 1;
    }
  }

  /** The counter expires on the cycle k exactly when k is c plus a multiple of p+1. */
  lemma ExpiresIff(c: nat, p: nat, k: nat)
    requires c <= p
    ensures Run(c, p, k) == 0 <==> k >= c && (k - c) % (p + 1) == 0
  {
    RunClosedForm(c, p, k);
    if k > c {
      var x := k - c - 1;
      ModAddMod(x, 1, p + 1);
      if x % (p + 1) == p {
        ModAddPeriod(0, p + 1);
      } else {
        ModOfBelow(x % (p + 1) + 1, p + 1);
      }
    } else if k == c {
      ModOfBelow(0, p + 1);
    }
  }

  /** From a counter at 0 the timer expires on exactly the cycles that are multiples of p+1. */
  lemma ExpiresFromZeroIff(p: nat, k: nat)
    ensures Run(0, p, k) == 0 <==> k % (p + 1) == 0
  {
    ExpiresIff(0, p, k);
    assert k - 0 == k;
  }

  /** A counter that starts within its period stays there. */
  lemma {:induction false} RunBounded(c: nat, p: nat, n: nat)
    requires c <= p
    ensures Run(c, p, n) <= p
    decreases n
  {
    if n > 0 {
      RunBounded(c, p, n - 1);
    }
  }
}
