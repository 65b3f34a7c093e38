/** `Blinker` in tristate_blink.py: a reload timer of period `maxperiod` steps a 2-bit
    `state_counter` on every expiry; bit 0 of the state floats every pad, bit 1 is the level
    every pad is driven to. The pads thus go low, float, high, float, and again. */
module TristateBlink {
  import opened Bits
  import ReloadTimer
  import Tristate

  /** `counter` and the 2-bit `state_counter`, both reset to 0. */
  datatype Regs = Regs(counter: nat, stateCounter: nat)

  predicate Valid(r: Regs, maxperiod: nat) {
    r.counter <= maxperiod && r.stateCounter < 4
  }

  const Reset := Regs(0, 0)

  /** One clock edge: on expiry the state counter steps, wrapping on its 2 bits. */
  function Next(r: Regs, maxperiod: nat): (n: Regs)
    ensures Valid(r, maxperiod) ==> Valid(n, maxperiod)
  {
    if r.counter == 0 then Regs(counter := maxperiod, stateCounter := Add(r.stateCounter, 1, 2))
    else Regs(counter := r.counter - 1, stateCounter := r.stateCounter)
  }

  function Run(r: Regs, maxperiod: nat, n: nat): Regs
    decreases n
  {
    if n == 0 then r else Next(Run(r, maxperiod, n - 1), maxperiod)
  }

  /** `hiz[i] = state_counter[0]` for every pad. */
  predicate Hiz(r: Regs) {
    Bit(r.stateCounter, 0)
  }

  /** `on[i] = state_counter[1]` for every pad. */
  predicate On(r: Regs) {
    Bit(r.stateCounter, 1)
  }

  /** The tristate buffers of the n pads. */
  function Pads(r: Regs, n: nat): seq<Tristate.Triple> {
    Tristate.Pins(seq(n, _ => On(r)), seq(n, _ => Hiz(r)))
  }

  /** The intended four-phase pattern, written out per state. */
  function Phase(s: nat): Tristate.PadState {
    match s
    case 0 => Tristate.DrivenLow
    case 1 => Tristate.HighZ
    case 2 => Tristate.DrivenHigh
    case _ => Tristate.HighZ
  }

  // ---------------------------------------------------------------------------
  // Properties.

  /** Every pad is in the phase the state counter names. */
  lemma PadsFollowState(r: Regs, n: nat)
    requires r.stateCounter < 4
    ensures |Pads(r, n)| == n
    ensures forall i :: 0 <= i < n ==> Tristate.State(Pads(r, n)[i]) == Phase(r.stateCounter)
  {
    assert Pow2(1) == 2;
    var ts := Pads(r, n);
    forall i | 0 <= i < n
      ensures Tristate.State(ts[i]) == Phase(r.stateCounter)
    {
      assert Tristate.State(ts[i]) == Tristate.HighZ <==> Hiz(r);
      assert Tristate.State(ts[i]) == Tristate.DrivenHigh <==> !Hiz(r) && On(r);
    }
  }

  /** The state counter steps, modulo 4, on exactly the clock edges where the counter
      reads 0. */
  lemma StateStep(r: Regs, maxperiod: nat)
    requires Valid(r, maxperiod)
    ensures Next(r, maxperiod).stateCounter ==
            if r.counter == 0 then (r.stateCounter + 1) % 4 else r.stateCounter
  {
    assert Pow2(2) == 4;
  }

  /** After n clocks the counter is the reload timer's and the state has stepped once per
      expiry. */
  lemma {:induction false} RunIsTimer(r: Regs, maxperiod: nat, n: nat)
    requires Valid(r, maxperiod)
    ensures Run(r, maxperiod, n).counter == ReloadTimer.Run(r.counter, maxperiod, n)
    ensures Run(r, maxperiod, n).stateCounter ==
            (r.stateCounter + ReloadTimer.Expirations(r.counter, maxperiod, n)) % 4
  {
    if n == 0 {
      ModOfBelow(r.stateCounter, 4);
    } else {
      var prev := Run(r, maxperiod, n - 1);
      RunIsTimer(r, maxperiod, n - 1);
      RunValid(r, maxperiod, n - 1);
      TimerStep(prev, maxperiod, r.stateCounter,
                ReloadTimer.Expirations(r.counter, maxperiod, n - 1),
                ReloadTimer.Expirations(r.counter, maxperiod, n));
    }
  }

  /** One more edge: the counter takes the timer's next value and the state steps once more
      exactly when this edge is an expiry. */
  lemma TimerStep(prev: Regs, maxperiod: nat, s0: nat, e: nat, e': nat)
    requires Valid(prev, maxperiod) && prev.stateCounter == (s0 + e) % 4
    requires e' == e + if prev.counter == 0 then 1 else 0
    ensures Next(prev, maxperiod).counter == ReloadTimer.Next(prev.counter, maxperiod)
    ensures Next(prev, maxperiod).stateCounter == (s0 + e') % 4
  {
    StateStep(prev, maxperiod);
    ModAddMod(s0 + e, 1, 4);
  }

  lemma {:induction false} RunValid(r: Regs, maxperiod: nat, n: nat)
    requires Valid(r, maxperiod)
    ensures Valid(Run(r, maxperiod, n), maxperiod)
  {
    if n > 0 {
      RunValid(r, maxperiod, n - 1);
    }
  }

  /** From reset the state counter reads 1 after the first clock edge and then steps once
      every maxperiod+1 cycles. */
  lemma {:induction false} FromReset(maxperiod: nat, n: nat)
    ensures Run(Reset, maxperiod, n).stateCounter ==
            if n == 0 then 0 else (1 + (n - 1) / (maxperiod + 1)) % 4
  {
    RunIsTimer(Reset, maxperiod, n);
    ReloadTimer.ExpirationsFromZero(maxperiod, n);
  }

  /** From reset the pads change phase on the edge after cycle k exactly when k is a multiple
      of maxperiod+1. */
  lemma {:induction false} StepEvery(maxperiod: nat, k: nat)
    ensures Run(Reset, maxperiod, k + 1).stateCounter != Run(Reset, maxperiod, k).stateCounter
            <==> k % (maxperiod + 1) == 0
  {
    RunValid(Reset, maxperiod, k);
    RunIsTimer(Reset, maxperiod, k);
    StateStep(Run(Reset, maxperiod, k), maxperiod);
    ReloadTimer.ExpiresFromZeroIff(maxperiod, k);
  }

  // ---------------------------------------------------------------------------
  // The design as a register file clocked by Tick.

  class TristateBlinker {
    const maxperiod: nat
    var counter: nat
    var stateCounter: nat

    function State(): Regs
      reads this
    {
      Regs(counter, stateCounter)
    }

    constructor (maxperiod: nat)
      ensures this.maxperiod == maxperiod
      ensures State() == Reset
    {
      this.maxperiod := maxperiod;
      counter, stateCounter := 0, 0;
    }

    /** One clock edge. */
    method Tick()
      modifies this
      ensures State() == Next(old(State()), maxperiod)
    {
      if counter == 0 {
        stateCounter, counter := Add(stateCounter, 1, 2), maxperiod;
      } else {
        counter := counter - 1;
      }
    }
  }
}
