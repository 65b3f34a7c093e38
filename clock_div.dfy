/** `ClockDiv` (identical in tristate_fade.py and pwm_fade.py): a (d+1)-bit counter that
    increments on every clock, its top bit as a divided clock `divout`, and a one-cycle
    strobe `divtick` while its low d bits are all ones. */
module ClockDiv {
  import opened Bits

  /** `divcounter` fits its d+1 bits. */
  predicate Valid(c: nat, d: nat) {
    c < Pow2(d + 1)
  }

  /** `divout = divcounter[d]`. */
  predicate DivOut(c: nat, d: nat) {
    Bit(c, d)
  }

  /** `divtick = (divcounter_inv == 0)` with `divcounter_inv = ~divcounter[0:d]`. */
  predicate Strobe(c: nat, d: nat) {
    Not(Low(c, d), d) == 0
  }

  /** One clock edge: `divcounter + 1`, wrapping on d+1 bits. */
  function Next(c: nat, d: nat): (r: nat)
    ensures Valid(r, d)
  {
    Add(c, 1, d + 1)
  }

  /** Number of strobe cycles among the n cycles that start with the counter at c. */
  function StrobeCount(c: nat, d: nat, n: nat): nat
    decreases n
  {
    if n == 0 then 0 else (if Strobe(c, d) then 1 else 0) + StrobeCount(Next(c, d), d, n - 1)
  }

  /** The strobe is set exactly when the low d bits are all ones. */
  lemma StrobeIffAllOnes(c: nat, d: nat)
    ensures Strobe(c, d) <==> Low(c, d) == Pow2(d) - 1
  {
  }

  /** On every clock the low d bits count up by one modulo 2^d. */
  lemma LowStep(c: nat, d: nat)
    ensures Low(Next(c, d), d) == (Low(c, d) + 1) % Pow2(d)
  {
    var m := Pow2(d);
    assert Pow2(d + 1) == 2 * m;
    ModMod(c + 1, m);
    ModAddMod(c, 1, m);
  }

  /** Within the first 2^d cycles from c, the strobe fires once, on the cycle where the low
      bits have counted up to all ones, and on no other. */
  lemma {:induction false} StrobeWindow(c: nat, d: nat, n: nat)
    requires n <= Pow2(d)
    ensures StrobeCount(c, d, n) == if n > Pow2(d) - 1 - Low(c, d) then 1 else 0
    decreases n
  {
    if n > 0 {
      var m, next := Pow2(d), Next(c, d);
      LowStep(c, d);
      StrobeWindow(next, d, n - 1);
      if Low(c, d) == m - 1 {
        ModAddPeriod(0, m);
        assert Low(next, d) == 0;
      } else {
        ModOfBelow(Low(c, d) + 1, m);
      }
    }
  }

  /** The strobe fires exactly once in every 2^d consecutive cycles. */
  lemma StrobeOncePerPeriod(c: nat, d: nat)
    ensures StrobeCount(c, d, Pow2(d)) == 1
  {
    StrobeWindow(c, d, Pow2(d));
  }

  /** `divout` changes on the clock edge that ends a strobe cycle, and on no other. */
  lemma DivOutToggles(c: nat, d: nat)
    requires Valid(c, d)
    ensures DivOut(Next(c, d), d) != DivOut(c, d) <==> Strobe(c, d)
  {
    var m := Pow2(d);
    assert Pow2(d + 1) == 2 * m;
    LowOfWide(c, d);
    BitTop(c, d);
    if c == 2 * m - 1 {
      ModOfNextRange(c + 1, 2 * m);
    } else {
      ModOfBelow(c + 1, 2 * m);
    }
    BitTop(Next(c, d), d);
  }
}
