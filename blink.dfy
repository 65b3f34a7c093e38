/** `Blinker` in blink.py: a reload timer of period `maxperiod` toggles the LED register on
    every expiry. */
module Blink {
  import ReloadTimer

  /** `counter` and the `led` register, both reset to 0. */
  datatype Regs = Regs(counter: nat, led: bool)

  /** The counter never leaves 0..maxperiod, so the `Signal(max=maxperiod+1)` is wide enough
      and holds it unchanged. */
  predicate Valid(r: Regs, maxperiod: nat) {
    r.counter <= maxperiod
  }

  const Reset := Regs(0, false)

  /** One clock edge; `period` is the constant `maxperiod`. */
  function Next(r: Regs, maxperiod: nat): (n: Regs)
    ensures Valid(r, maxperiod) ==> Valid(n, maxperiod)
  {
    if r.counter == 0 then Regs(counter := maxperiod, led := !r.led)
    else Regs(counter := r.counter - 1, led := r.led)
  }

  function Run(r: Regs, maxperiod: nat, n: nat): Regs
    decreases n
  {
    if n == 0 then r else Next(Run(r, maxperiod, n - 1), maxperiod)
  }

  predicate Odd(n: nat) {
    n % 2 == 1
  }

  // ---------------------------------------------------------------------------
  // Properties.

  /** The LED changes on exactly the clock edges where the counter reads 0. */
  lemma LedTogglesIffExpiry(r: Regs, maxperiod: nat)
    ensures Next(r, maxperiod).led != r.led <==> r.counter == 0
  {
  }

  /** After n clocks the counter is the reload timer's, and the LED has toggled once per
      expiry. */
  lemma {:induction false} RunIsTimer(r: Regs, maxperiod: nat, n: nat)
    ensures Run(r, maxperiod, n).counter == ReloadTimer.Run(r.counter, maxperiod, n)
    ensures Run(r, maxperiod, n).led ==
            (r.led != Odd(ReloadTimer.Expirations(r.counter, maxperiod, n)))
  {
    if n > 0 {
      var prev := Run(r, maxperiod, n - 1);
      RunIsTimer(r, maxperiod, n - 1);
      TimerStep(prev, maxperiod, r.led, ReloadTimer.Expirations(r.counter, maxperiod, n - 1),
                ReloadTimer.Expirations(r.counter, maxperiod, n));
    }
  }

  /** One more edge: the counter takes the timer's next value and the LED toggles once more
      exactly when this edge is an expiry. */
  lemma TimerStep(prev: Regs, maxperiod: nat, led0: bool, e: nat, e': nat)
    requires prev.led == (led0 != Odd(e))
    requires e' == e + if prev.counter == 0 then 1 else 0
    ensures Next(prev, maxperiod).counter == ReloadTimer.Next(prev.counter, maxperiod)
    ensures Next(prev, maxperiod).led == (led0 != Odd(e'))
  {
  }

  /** From reset the `led` register is set at the first clock edge and then stays in each
      state for maxperiod+1 cycles. */
  lemma {:induction false} FromReset(maxperiod: nat, n: nat)
    ensures Run(Reset, maxperiod, n).led <==> n >= 1 && (n - 1) / (maxperiod + 1) % 2 == 0
  {
    RunIsTimer(Reset, maxperiod, n);
    ReloadTimer.ExpirationsFromZero(maxperiod, n);
  }

  /** From reset the LED toggles on the edge after cycle k exactly when k is a multiple of
      maxperiod+1. */
  lemma {:induction false} ToggleEvery(maxperiod: nat, k: nat)
    ensures Run(Reset, maxperiod, k + 1).led != Run(Reset, maxperiod, k).led <==>
            k % (maxperiod + 1) == 0
  {
    RunIsTimer(Reset, maxperiod, k);
    ReloadTimer.ExpiresFromZeroIff(maxperiod, k);
  }

  // ---------------------------------------------------------------------------
  // The design as a register file clocked by Tick.

  class Blinker {
    const maxperiod: nat
    var counter: nat
    var led: bool

    function State(): Regs
      reads this
    {
      Regs(counter, led)
    }

    constructor (maxperiod: nat)
      ensures this.maxperiod == maxperiod
      ensures State() == Reset
    {
      this.maxperiod := maxperiod;
      counter, led := 0, false;
    }

    /** One clock edge. */
    method Tick()
      modifies this
      ensures State() == Next(old(State()), maxperiod)
    {
      if counter == 0 {
        led, counter := !led, maxperiod;
      } else {
        counter := counter - 1;
      }
    }
  }
}
