/** Fixed-width unsigned signals, modelled as bounded naturals.
    A w-bit signal holds a value in [0, 2^w); arithmetic on it wraps modulo 2^w;
    `x[i]` is bit i; `x[lo:hi]` is a slice; `~x` is the bitwise complement on w bits. */
module Bits {

  /** 2^n, the number of values an n-bit signal can take. */
  function Pow2(n: nat): (r: nat)
    ensures r >= 1
    ensures n > 0 ==> r % 2 == 0
  {
    if n == 0 then 1 else 2 * Pow2(n - 1)
  }

  /** `x[i]`: bit i of x, as a one-bit signal. */
  predicate Bit(x: nat, i: nat) {
    x / Pow2(i) % 2 == 1
  }

  /** `x[0:w]`: the low w bits of x. */
  function Low(x: nat, w: nat): (r: nat)
    ensures r < Pow2(w)
  {
    x % Pow2(w)
  }

  /** `x[lo:lo+w]`: the w bits of x from bit lo up. */
  function Slice(x: nat, lo: nat, w: nat): (r: nat)
    ensures r < Pow2(w)
  {
    x / Pow2(lo) % Pow2(w)
  }

  /** `~x` for a w-bit signal x: every one of the w bits flipped (see NotIsBitwise). */
  function Not(x: nat, w: nat): (r: nat)
    requires x < Pow2(w)
    ensures r < Pow2(w)
  {
    Pow2(w) - 1 - x
  }

  /** `x + k` assigned to a w-bit register: the sum wraps modulo 2^w. */
  function Add(x: nat, k: nat, w: nat): (r: nat)
    ensures r < Pow2(w)
  {
    (x + k) % Pow2(w)
  }

  // ---------------------------------------------------------------------------
  // Arithmetic facts the solver does not find by itself.

  lemma MulSub(m: int, q: int, p: int)
    ensures (m - 1 - q) * p == m * p - p - p * q
  {
  }

  lemma MulLe(a: int, b: int, d: int)
    requires a <= b && d > 0
    ensures a * d <= b * d
  {
  }

  /** Quotient and remainder are unique. */
  lemma DivUnique(y: int, d: int, q: int, r: int)
    requires d > 0 && 0 <= r < d && y == q * d + r
    ensures y / d == q && y % d == r
  {
    var q', r' := y / d, y % d;
    assert y == q' * d + r';
    if q' > q { MulLe(q + 1, q', d); assert false; }
    if q' < q { MulLe(q' + 1, q, d); assert false; }
  }

  lemma ModAddMod(a: int, b: int, m: int)
    requires m > 0
    ensures (a % m + b) % m == (a + b) % m
  {
    var q, r := a / m, a % m;
    var q2, r2 := (r + b) / m, (r + b) % m;
    assert r + b == q2 * m + r2;
    assert a + b == (q + q2) * m + r2;
    DivUnique(a + b, m, q + q2, r2);
  }

  lemma ModAddPeriod(a: int, m: int)
    requires m > 0
    ensures (a + m) % m == a % m
  {
    DivUnique(a + m, m, a / m + 1, a % m);
  }

  lemma ModOfBelow(x: int, m: int)
    requires 0 <= x < m
    ensures x % m == x
  {
  }

  lemma ModOfNextRange(x: int, m: int)
    requires m <= x < 2 * m
    ensures x % m == x - m
  {
  }

  /** Reducing modulo 2m and then modulo m is reducing modulo m. */
  lemma ModMod(x: nat, m: nat)
    requires m > 0
    ensures x % (2 * m) % m == x % m
  {
    ModModMul(x, m, 2);
  }

  /** Reducing modulo m*k and then modulo m is reducing modulo m. */
  lemma ModModMul(x: nat, m: nat, k: nat)
    requires m > 0 && k > 0
    ensures x % (m * k) % m == x % m
  {
    var q, r := x / (m * k), x % (m * k);
    var s, t := r / m, r % m;
    assert r == s * m + t;
    assert x == (q * k + s) * m + t;
    DivUnique(x, m, q * k + s, t);
  }

  /** Dividing by a*b is dividing by a and then by b, and the remainder of x / a modulo b
      is what x modulo a*b holds above its low digit (base a). */
  lemma DivSplit(x: nat, a: nat, b: nat)
    requires a > 0 && b > 0
    ensures x / a / b == x / (a * b)
    ensures x / a % b == x % (a * b) / a
  {
    var q, r := x / (a * b), x % (a * b);
    var s, t := r / a, r % a;
    assert r == s * a + t;
    if s >= b {
      MulLe(b, s, a);
      assert false;
    }
    assert x == (q * b + s) * a + t;
    DivUnique(x, a, q * b + s, t);
    DivUnique(q * b + s, b, q, s);
  }

  /** Adding one does not change the quotient unless it reaches a multiple of m. */
  lemma DivStepSame(x: nat, m: nat)
    requires m > 0 && (x + 1) % m != 0
    ensures (x + 1) / m == x / m
  {
    var q, r := x / m, x % m;
    if r + 1 < m {
      DivUnique(x + 1, m, q, r + 1);
    } else {
      DivUnique(x + 1, m, q + 1, 0);
    }
  }

  lemma {:induction false} Pow2Add(a: nat, b: nat)
    ensures Pow2(a + b) == Pow2(a) * Pow2(b)
  {
    if a > 0 {
      var x, y := Pow2(a - 1), Pow2(b);
      Pow2Add(a - 1, b);
      assert Pow2(a + b) == 2 * Pow2(a - 1 + b);
      MulAssoc2(x, y);
    }
  }

  lemma MulAssoc2(x: int, y: int)
    ensures 2 * (x * y) == (2 * x) * y
  {
  }

  /** The powers of two that the designs' widths and slice offsets need, built up in
      small steps from Pow2Add. */
  lemma Powers()
    ensures Pow2(1) == 2 && Pow2(2) == 4 && Pow2(3) == 8 && Pow2(4) == 16 && Pow2(5) == 32
    ensures Pow2(12) == 0x1000 && Pow2(13) == 0x2000 && Pow2(21) == 0x20_0000
    ensures Pow2(24) == 0x100_0000 && Pow2(25) == 0x200_0000
    ensures Pow2(28) == 0x1000_0000 && Pow2(30) == 0x4000_0000
  {
    SmallPowers();
    Pow2Of13();
    Pow2Of21();
    Pow2Of30();
  }

  lemma SmallPowers()
    ensures Pow2(1) == 2 && Pow2(2) == 4 && Pow2(3) == 8 && Pow2(4) == 16 && Pow2(5) == 32
  {
  }

  lemma Pow2Of10()
    ensures Pow2(10) == 0x400
  {
    SmallPowers();
    Pow2Add(5, 5);
  }

  lemma Pow2Of13()
    ensures Pow2(12) == 0x1000 && Pow2(13) == 0x2000
  {
    Pow2Of10();
    SmallPowers();
    Pow2Add(10, 2);
    Pow2Add(10, 3);
  }

  lemma Pow2Of21()
    ensures Pow2(21) == 0x20_0000
  {
    Pow2Of10();
    Pow2Add(10, 10);
    SmallPowers();
    Pow2Add(20, 1);
  }

  lemma Pow2Of30()
    ensures Pow2(24) == 0x100_0000 && Pow2(25) == 0x200_0000
    ensures Pow2(28) == 0x1000_0000 && Pow2(30) == 0x4000_0000
  {
    Pow2Of13();
    Pow2Add(12, 12);
    SmallPowers();
    Pow2Add(24, 1);
    Pow2Add(24, 4);
    Pow2Add(25, 5);
  }

  // ---------------------------------------------------------------------------
  // Facts about the bit-level view.

  /** Below 2^(i+1), bit i is set exactly for the values from 2^i up. */
  lemma BitTop(x: nat, i: nat)
    requires x < 2 * Pow2(i)
    ensures Bit(x, i) <==> x >= Pow2(i)
  {
    if x < Pow2(i) {
      DivUnique(x, Pow2(i), 0, x);
    } else {
      DivUnique(x, Pow2(i), 1, x - Pow2(i));
    }
  }

  /** The low w bits of a (w+1)-bit value: itself below 2^w, otherwise minus 2^w. */
  lemma LowOfWide(x: nat, w: nat)
    requires x < 2 * Pow2(w)
    ensures Low(x, w) == if x < Pow2(w) then x else x - Pow2(w)
  {
    if x < Pow2(w) { ModOfBelow(x, Pow2(w)); } else { ModOfNextRange(x, Pow2(w)); }
  }

  /** Complementing inside m blocks of p values complements the block index. */
  lemma NotQuotient(x: nat, m: nat, p: nat)
    requires p >= 1 && x < m * p
    ensures (m * p - 1 - x) / p == m - 1 - x / p
  {
    var q, c := x / p, x % p;
    assert x == p * q + c;
    MulSub(m, q, p);
    DivUnique(m * p - 1 - x, p, m - 1 - q, p - 1 - c);
  }

  /** The same, read at the parity of the block index when the number of blocks is even. */
  lemma NotQuotientParity(x: nat, t: nat, p: nat)
    requires p >= 1 && x < 2 * t * p
    ensures (2 * t * p - 1 - x) / p % 2 == 1 <==> x / p % 2 == 0
  {
    NotQuotient(x, 2 * t, p);
    ParityFlip(t, x / p);
  }

  lemma ParityFlip(t: nat, q: nat)
    requires q < 2 * t
    ensures (2 * t - 1 - q) % 2 == 1 <==> q % 2 == 0
  {
  }

  /** `Not` is the bitwise complement: bit i of `~x` is the negation of bit i of x, for every i < w. */
  lemma NotIsBitwise(x: nat, w: nat, i: nat)
    requires x < Pow2(w) && i < w
    ensures Bit(Not(x, w), i) == !Bit(x, i)
  {
    var p, t := Pow2(i), Pow2(w - i - 1);
    Pow2Add(w - i, i);
    assert Pow2(w - i) == 2 * t;
    assert Pow2(w) == 2 * t * p;
    NotQuotientParity(x, t, p);
  }
}
