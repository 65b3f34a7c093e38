/** The `PWM` comparator: a free-running w-bit `pwm_counter`, incremented on every clock,
    compared with a brightness `value`. tristate_fade.py registers the comparison, pwm_fade.py
    drives it combinationally; both use `CounterNext` and `Output` from here. */
module Pwm {
  import opened Bits

  /** `pwm_counter + 1` on a w-bit register. */
  function CounterNext(c: nat, w: nat): (r: nat)
    ensures r < Pow2(w)
  {
    Add(c, 1, w)
  }

  /** `pwm_counter < value`. */
  predicate Output(c: nat, value: nat) {
    c < value
  }

  /** The counter after n clocks from c. */
  function Run(c: nat, w: nat, n: nat): nat
    decreases n
  {
    if n == 0 then c else Run(CounterNext(c, w), w, n - 1)
  }

  /** Number of cycles, among the n that start with the counter at c, on which the output is
      set while the value is held. */
  function OnCount(c: nat, value: nat, w: nat, n: nat): nat
    decreases n
  {
    if n == 0 then 0
    else (if Output(c, value) then 1 else 0) + OnCount(CounterNext(c, w), value, w, n - 1)
  }

  function Min(a: nat, b: nat): nat {
    if a < b then a else b
  }

  /** Before the counter wraps, the cycles that are on are those whose counter lies below
      the value. */
  lemma {:induction false} OnCountNoWrap(c: nat, value: nat, w: nat, n: nat)
    requires c + n <= Pow2(w)
    ensures OnCount(c, value, w, n) == Min(c + n, value) - Min(c, value)
    decreases n
  {
    if n > 0 {
      if c + 1 < Pow2(w) {
        ModOfBelow(c + 1, Pow2(w));
        OnCountNoWrap(c + 1, value, w, n - 1);
      }
    }
  }

  /** A window that runs past the wrap: the part up to the wrap, then a window from 0. */
  lemma {:induction false} OnCountWrap(c: nat, value: nat, w: nat, m: nat)
    requires c < Pow2(w)
    ensures OnCount(c, value, w, Pow2(w) - c + m) ==
            Min(Pow2(w), value) - Min(c, value) + OnCount(0, value, w, m)
    decreases Pow2(w) - c
  {
    var n := Pow2(w) - c + m;
    assert OnCount(c, value, w, n) ==
      (if Output(c, value) then 1 else 0) + OnCount(CounterNext(c, w), value, w, n - 1);
    if c + 1 < Pow2(w) {
      ModOfBelow(c + 1, Pow2(w));
      OnCountWrap(c + 1, value, w, m);
    } else {
      ModAddPeriod(0, Pow2(w));
      assert CounterNext(c, w) == 0;
    }
  }

  /** With the value held at v (a w-bit value, or 2^w), exactly v of every 2^w consecutive
      cycles have the output set, wherever the window starts. */
  lemma DutyCycle(c: nat, value: nat, w: nat)
    requires c < Pow2(w) && value <= Pow2(w)
    ensures OnCount(c, value, w, Pow2(w)) == value
  {
    OnCountWrap(c, value, w, c);
    OnCountNoWrap(0, value, w, c);
  }

  /** A value of 0 never sets the output. */
  lemma {:induction false} ZeroIsOff(c: nat, w: nat, n: nat)
    ensures OnCount(c, 0, w, n) == 0
    decreases n
  {
    if n > 0 {
      ZeroIsOff(CounterNext(c, w), w, n - 1);
    }
  }

  /** In the window that starts with the counter at 0, the on cycles are the first v. */
  lemma {:induction false} OnAtStartOfWindow(value: nat, w: nat, k: nat)
    requires k < Pow2(w)
    ensures Run(0, w, k) == k
    ensures Output(Run(0, w, k), value) <==> k < value
  {
    RunBelowWrap(0, w, k);
  }

  lemma {:induction false} RunBelowWrap(c: nat, w: nat, k: nat)
    requires c + k < Pow2(w)
    ensures Run(c, w, k) == c + k
    decreases k
  {
    if k > 0 {
      ModOfBelow(c + 1, Pow2(w));
      RunBelowWrap(c + 1, w, k - 1);
    }
  }
}
