/** `PWMFade` in pwm_fade.py: one LED faded up and down. A clock divider of `div` bits
    strobes a reflecting ramp of `width` bits, whose value is compared combinationally with
    a free-running `width`-bit PWM counter; the debug output shows the divided clock. */
module PwmFade {
  import opened Bits
  import UpdownCounter
  import ClockDiv
  import Pwm

  /** Every register that a `self.sync` statement of PWMFade's submodules writes. */
  datatype Regs = Regs(
    pwmCounter: nat,  // pwm.pwm_counter, width bits
    valueRamp: nat,   // updown.icounter, width+1 bits
    divCounter: nat)  // updown_clk_div.divcounter, div+1 bits

  predicate Valid(r: Regs, width: nat, div: nat) {
    && r.pwmCounter < Pow2(width)
    && UpdownCounter.Valid(r.valueRamp, width)
    && ClockDiv.Valid(r.divCounter, div)
  }

  /** Every register at its reset value 0. */
  const Reset := Regs(0, 0, 0)

  // ---------------------------------------------------------------------------
  // Combinational signals.

  /** `pwm_value`, the ramp's visible value. */
  function PwmValue(r: Regs, width: nat): nat {
    UpdownCounter.Value(r.valueRamp, width)
  }

  /** `pwm_signal = pwm_counter < pwm_value`, in the same cycle. */
  predicate PwmOut(r: Regs, width: nat) {
    Pwm.Output(r.pwmCounter, PwmValue(r, width))
  }

  /** `updown_clock_strobe`. */
  predicate Strobe(r: Regs, div: nat) {
    ClockDiv.Strobe(r.divCounter, div)
  }

  /** `dbg = updown_clock`, the divider's top bit. */
  predicate Dbg(r: Regs, div: nat) {
    ClockDiv.DivOut(r.divCounter, div)
  }

  // ---------------------------------------------------------------------------
  // The clock edge.

  function Next(r: Regs, width: nat, div: nat): (n: Regs)
    ensures Valid(r, width, div) ==> Valid(n, width, div)
  {
    Regs(
      pwmCounter := Pwm.CounterNext(r.pwmCounter, width),
      valueRamp := UpdownCounter.TickAdvance(r.valueRamp, Strobe(r, div), width),
      divCounter := ClockDiv.Next(r.divCounter, div))
  }

  /** Number of cycles, among the n that start from r, on which the PWM output is set. */
  function OutCount(r: Regs, width: nat, div: nat, n: nat): nat
    decreases n
  {
    if n == 0 then 0
    else (if PwmOut(r, width) then 1 else 0) + OutCount(Next(r, width, div), width, div, n - 1)
  }

  // ---------------------------------------------------------------------------
  // Properties.

  /** `pwm_value` changes only on strobe cycles, and then by exactly one. */
  lemma ValueStep(r: Regs, width: nat, div: nat)
    requires width >= 1 && Valid(r, width, div)
    ensures PwmValue(Next(r, width, div), width) != PwmValue(r, width) <==> Strobe(r, div)
    ensures Strobe(r, div) ==>
      PwmValue(Next(r, width, div), width) == PwmValue(r, width) + 1 ||
      PwmValue(Next(r, width, div), width) == PwmValue(r, width) - 1
  {
    UpdownCounter.TickStep(r.valueRamp, Strobe(r, div), width);
  }

  /** The debug output toggles exactly on the edges that end a strobe cycle. */
  lemma DbgToggles(r: Regs, width: nat, div: nat)
    requires Valid(r, width, div)
    ensures Dbg(Next(r, width, div), div) != Dbg(r, div) <==> Strobe(r, div)
  {
    ClockDiv.DivOutToggles(r.divCounter, div);
  }

  /** While no strobe falls inside the window, the output over the window is the PWM
      comparator's with the value held. */
  lemma {:induction false} HeldWindow(r: Regs, width: nat, div: nat, n: nat)
    requires width >= 1 && Valid(r, width, div)
    requires Low(r.divCounter, div) + n <= Pow2(div)
    ensures OutCount(r, width, div, n) == Pwm.OnCount(r.pwmCounter, PwmValue(r, width), width, n)
    decreases n
  {
    if n > 1 {
      var next := Next(r, width, div);
      ClockDiv.StrobeIffAllOnes(r.divCounter, div);
      ValueStep(r, width, div);
      ClockDiv.LowStep(r.divCounter, div);
      ModOfBelow(Low(r.divCounter, div) + 1, Pow2(div));
      HeldWindow(next, width, div, n - 1);
    }
  }

  /** When a whole PWM period of 2^width cycles passes without a strobe (possible only when
      width <= div), the output is set on exactly `pwm_value` of its cycles. */
  lemma WindowDuty(r: Regs, width: nat, div: nat)
    requires width >= 1 && Valid(r, width, div)
    requires Low(r.divCounter, div) + Pow2(width) <= Pow2(div)
    ensures OutCount(r, width, div, Pow2(width)) == PwmValue(r, width)
  {
    HeldWindow(r, width, div, Pow2(width));
    Pwm.DutyCycle(r.pwmCounter, PwmValue(r, width), width);
  }

  // ---------------------------------------------------------------------------
  // The design as a register file clocked by Tick.

  class PwmFader {
    const width: nat
    const div: nat
    var pwmCounter: nat
    var valueRamp: nat
    var divCounter: nat

    function State(): Regs
      reads this
    {
      Regs(pwmCounter, valueRamp, divCounter)
    }

    constructor (width: nat, div: nat)
      ensures this.width == width && this.div == div
      ensures State() == Reset
    {
      this.width, this.div := width, div;
      pwmCounter, valueRamp, divCounter := 0, 0, 0;
    }

    /** One clock edge. */
    method Tick()
      modifies this
      ensures State() == Next(old(State()), width, div)
    {
      var strobe := ClockDiv.Strobe(divCounter, div);
      pwmCounter, valueRamp, divCounter :=
        Pwm.CounterNext(pwmCounter, width),
        UpdownCounter.TickAdvance(valueRamp, strobe, width),
        ClockDiv.Next(divCounter, div);
    }
  }
}
