/** `Fader` in tristate_fade.py: eight tristate LED pads faded in and out one at a time.

    A clock divider strobes a brightness ramp, a reflecting up/down counter of 11 bits.
    A registered PWM comparator turns the brightness into a duty cycle. Each time the ramp
    arrives at 0 an edge detector emits `led_tick`, which advances a 4-bit reflecting counter
    `led_counter`: its bit 0 is the output level of every pad and its bits 1..3 select the one
    pad whose output enable follows the PWM. All other pads are floating. */
module TristateFade {
  import opened Bits
  import UpdownCounter
  import ClockDiv
  import Pwm
  import Tristate

  /** `pwm_counter_size`: width of the brightness ramp, of the PWM counter and of the
      divider's strobe bits. */
  const PwmCounterSize: nat := 11

  /** Width of `led_counter`: one polarity bit and three channel bits. */
  const LedCounterSize: nat := 4

  /** Number of pads. */
  const LedCount: nat := 8

  /** Every register that a `self.sync` statement of Fader or of its submodules writes. */
  datatype Regs = Regs(
    divCounter: nat,  // updown_clk_div.divcounter, 12 bits
    valueRamp: nat,   // pwm_value_updown.icounter, 12 bits
    prevValue: nat,   // prev_pwm_val_cnt, 11 bits
    ledTick: bool,    // led_tick
    ledRamp: nat,     // tick_updown.icounter, 5 bits
    pwmCounter: nat,  // pwm.pwm_counter, 11 bits
    pwm: bool)        // pwm.pwm

  /** Each register within its width. */
  predicate Valid(r: Regs) {
    && ClockDiv.Valid(r.divCounter, PwmCounterSize)
    && UpdownCounter.Valid(r.valueRamp, PwmCounterSize)
    && r.prevValue < Pow2(PwmCounterSize)
    && UpdownCounter.Valid(r.ledRamp, LedCounterSize)
    && r.pwmCounter < Pow2(PwmCounterSize)
  }

  /** Every register at its reset value 0. */
  const Reset := Regs(0, 0, 0, false, 0, 0, false)

  // ---------------------------------------------------------------------------
  // Combinational signals, functions of the current registers.

  /** `updown_clk_strobe`. */
  predicate Strobe(r: Regs) {
    ClockDiv.Strobe(r.divCounter, PwmCounterSize)
  }

  /** `pwm_value_counter`: the brightness. */
  function PwmValue(r: Regs): nat {
    UpdownCounter.Value(r.valueRamp, PwmCounterSize)
  }

  /** `led_counter`. */
  function LedCounter(r: Regs): nat {
    UpdownCounter.Value(r.ledRamp, LedCounterSize)
  }

  /** `on[i] = led_counter[0]`, the same for every pad. */
  predicate On(r: Regs) {
    Bit(LedCounter(r), 0)
  }

  /** `led_active = led_counter[1:4]`, the selected pad. */
  function LedActive(r: Regs): (a: nat)
    ensures a < LedCount
  {
    Slice(LedCounter(r), 1, 3)
  }

  /** `hiz[i] = ~(pwm & (led_active == i))`. */
  predicate Hiz(r: Regs, i: nat) {
    !(r.pwm && LedActive(r) == i)
  }

  /** The eight pads. Only the selected pad can be driven, and only while `pwm` is set; it is
      then driven to the level of `led_counter[0]`; so no two pads are ever driven at once. */
  function Pads(r: Regs): (pads: seq<Tristate.Triple>)
    ensures |pads| == LedCount
    ensures forall i :: 0 <= i < LedCount ==>
      (Tristate.State(pads[i]) != Tristate.HighZ <==> r.pwm && LedActive(r) == i)
    ensures forall i :: 0 <= i < LedCount && Tristate.State(pads[i]) != Tristate.HighZ ==>
      (Tristate.State(pads[i]) == Tristate.DrivenHigh <==> On(r))
    ensures forall i, j :: 0 <= i < j < LedCount ==>
      Tristate.State(pads[i]) == Tristate.HighZ || Tristate.State(pads[j]) == Tristate.HighZ
  {
    Tristate.Pins(seq(LedCount, _ => On(r)), seq(LedCount, i requires 0 <= i < LedCount => Hiz(r, i)))
  }

  // ---------------------------------------------------------------------------
  // The clock edge: every register takes its next value from the current registers.

  function Next(r: Regs): (n: Regs)
    ensures Valid(r) ==> Valid(n)
  {
    Regs(
      divCounter := ClockDiv.Next(r.divCounter, PwmCounterSize),
      valueRamp := UpdownCounter.TickAdvance(r.valueRamp, Strobe(r), PwmCounterSize),
      prevValue := PwmValue(r),
      ledTick := r.prevValue != PwmValue(r) && PwmValue(r) == 0,
      ledRamp := UpdownCounter.TickAdvance(r.ledRamp, r.ledTick, LedCounterSize),
      pwmCounter := Pwm.CounterNext(r.pwmCounter, PwmCounterSize),
      pwm := Pwm.Output(r.pwmCounter, PwmValue(r)))
  }

  /** The registers after n clock edges from r. */
  function Run(r: Regs, n: nat): Regs
    decreases n
  {
    if n == 0 then r else Next(Run(r, n - 1))
  }

  // ---------------------------------------------------------------------------
  // Brightness ramp and led counter.

  /** The brightness changes exactly on strobe cycles, and then by one. */
  lemma ValueStep(r: Regs)
    requires Valid(r)
    ensures PwmValue(Next(r)) != PwmValue(r) <==> Strobe(r)
    ensures Strobe(r) ==> PwmValue(Next(r)) == PwmValue(r) + 1 || PwmValue(Next(r)) == PwmValue(r) - 1
  {
    UpdownCounter.TickStep(r.valueRamp, Strobe(r), PwmCounterSize);
  }

  /** The led counter holds except on `led_tick` cycles, when it moves by one. */
  lemma LedCounterStep(r: Regs)
    requires Valid(r)
    ensures !r.ledTick ==> Next(r).ledRamp == r.ledRamp
    ensures LedCounter(Next(r)) != LedCounter(r) <==> r.ledTick
    ensures r.ledTick ==> LedCounter(Next(r)) == LedCounter(r) + 1 || LedCounter(Next(r)) == LedCounter(r) - 1
  {
    UpdownCounter.TickStep(r.ledRamp, r.ledTick, LedCounterSize);
  }

  // ---------------------------------------------------------------------------
  // Edge detector.

  /** `led_tick` is set exactly one cycle after an edge on which the brightness stepped into 0. */
  lemma LedTickMarksArrivalAtZero(r: Regs)
    requires Valid(r)
    ensures Next(Next(r)).ledTick <==> Strobe(r) && PwmValue(Next(r)) == 0
  {
    ValueStep(r);
  }

  /** A `led_tick` lasts a single cycle. */
  lemma LedTickLastsOneCycle(r: Regs)
    ensures Next(r).ledTick ==> !Next(Next(r)).ledTick
  {
  }

  /** No `led_tick` comes out of the all-zero reset state. */
  lemma NoTickAfterReset()
    ensures !Next(Reset).ledTick && !Next(Next(Reset)).ledTick
  {
    assert Valid(Reset);
    LedTickMarksArrivalAtZero(Reset);
    ClockDiv.StrobeIffAllOnes(0, PwmCounterSize);
  }

  // ---------------------------------------------------------------------------
  // PWM periods. The PWM counter and the divider's low bits start together and count
  // together, so every strobe, and with it every brightness change, falls on the last
  // cycle of a PWM period.

  predicate Aligned(r: Regs) {
    r.pwmCounter == Low(r.divCounter, PwmCounterSize)
  }

  lemma AlignedStep(r: Regs)
    requires Aligned(r)
    ensures Aligned(Next(r))
  {
    ClockDiv.LowStep(r.divCounter, PwmCounterSize);
  }

  /** Every state reached from reset is valid and aligned. */
  lemma {:induction false} ReachableAligned(n: nat)
    ensures Valid(Run(Reset, n)) && Aligned(Run(Reset, n))
  {
    if n > 0 {
      ReachableAligned(n - 1);
      AlignedStep(Run(Reset, n - 1));
    } else {
      assert Pow2(PwmCounterSize) > 0;
    }
  }

  /** In an aligned state the strobe fires on the last count of the PWM period. */
  lemma StrobeEndsPwmPeriod(r: Regs)
    requires Aligned(r)
    ensures Strobe(r) <==> r.pwmCounter == Pow2(PwmCounterSize) - 1
  {
    ClockDiv.StrobeIffAllOnes(r.divCounter, PwmCounterSize);
  }

  /** Through a PWM period that starts at counter 0, the brightness holds. */
  lemma {:induction false} PeriodHolds(r: Regs, k: nat)
    requires Valid(r) && Aligned(r) && r.pwmCounter == 0
    requires k < Pow2(PwmCounterSize)
    ensures Valid(Run(r, k)) && Aligned(Run(r, k))
    ensures Run(r, k).pwmCounter == k
    ensures Run(r, k).valueRamp == r.valueRamp && PwmValue(Run(r, k)) == PwmValue(r)
  {
    if k > 0 {
      var s := Run(r, k - 1);
      PeriodHolds(r, k - 1);
      PeriodStep(s, k);
    }
  }

  /** One clock inside a PWM period: the counter steps to k and the brightness ramp holds. */
  lemma PeriodStep(s: Regs, k: nat)
    requires Valid(s) && Aligned(s) && 0 < k < Pow2(PwmCounterSize) && s.pwmCounter == k - 1
    ensures Valid(Next(s)) && Aligned(Next(s))
    ensures Next(s).pwmCounter == k
    ensures Next(s).valueRamp == s.valueRamp && PwmValue(Next(s)) == PwmValue(s)
  {
    StrobeEndsPwmPeriod(s);
    ValueStep(s);
    AlignedStep(s);
    ModOfBelow(k, Pow2(PwmCounterSize));
  }

  /** The last edge of a PWM period strobes: the ramp advances and the PWM counter wraps. */
  lemma LastEdge(s: Regs)
    requires Valid(s) && Aligned(s) && s.pwmCounter == Pow2(PwmCounterSize) - 1
    ensures Valid(Next(s)) && Aligned(Next(s)) && Next(s).pwmCounter == 0
    ensures Next(s).valueRamp == UpdownCounter.Advance(s.valueRamp, PwmCounterSize)
  {
    StrobeEndsPwmPeriod(s);
    AlignedStep(s);
    DivUnique(Pow2(PwmCounterSize), Pow2(PwmCounterSize), 1, 0);
  }

  /** The registered `pwm` lags the comparison by one cycle: on the k-th cycle of a PWM
      period (k from 1) it is set exactly when k is at most the brightness. */
  lemma PwmInPeriod(r: Regs, k: nat)
    requires Valid(r) && Aligned(r) && r.pwmCounter == 0
    requires 0 < k <= Pow2(PwmCounterSize)
    ensures Run(r, k).pwm <==> k <= PwmValue(r)
  {
    PeriodHolds(r, k - 1);
  }

  /** Number of cycles among Run(r, 1) .. Run(r, n) on which `pwm` is set. */
  function PwmOnCount(r: Regs, n: nat): nat
    decreases n
  {
    if n == 0 then 0 else PwmOnCount(r, n - 1) + (if Run(r, n).pwm then 1 else 0)
  }

  lemma {:induction false} PwmOnPrefix(r: Regs, n: nat)
    requires Valid(r) && Aligned(r) && r.pwmCounter == 0
    requires n <= Pow2(PwmCounterSize)
    ensures PwmOnCount(r, n) == Pwm.Min(n, PwmValue(r))
  {
    if n > 0 {
      PwmOnPrefix(r, n - 1);
      PwmInPeriod(r, n);
    }
  }

  /** Over a PWM period of 2^11 cycles `pwm` is set on exactly as many cycles as the
      period's brightness. */
  lemma DutyCyclePerPeriod(r: Regs)
    requires Valid(r) && Aligned(r) && r.pwmCounter == 0
    ensures PwmOnCount(r, Pow2(PwmCounterSize)) == PwmValue(r)
  {
    PwmOnPrefix(r, Pow2(PwmCounterSize));
  }

  // ---------------------------------------------------------------------------
  // The design as a register file clocked by Tick.

  class Fader {
    var divCounter: nat
    var valueRamp: nat
    var prevValue: nat
    var ledTick: bool
    var ledRamp: nat
    var pwmCounter: nat
    var pwm: bool

    function State(): Regs
      reads this
    {
      Regs(divCounter, valueRamp, prevValue, ledTick, ledRamp, pwmCounter, pwm)
    }

    constructor ()
      ensures State() == Reset
    {
      divCounter, valueRamp, prevValue, ledTick, ledRamp, pwmCounter, pwm := 0, 0, 0, false, 0, 0, false;
    }

    /** One clock edge: the combinational signals are read from the current registers, and
        all registers then take their new values together. */
    method Tick()
      modifies this
      ensures State() == Next(old(State()))
    {
      var strobe := ClockDiv.Strobe(divCounter, PwmCounterSize);
      var value := UpdownCounter.Value(valueRamp, PwmCounterSize);
      var tick', prev';
      if prevValue != value && value == 0 {
        tick', prev' := true, value;
      } else {
        tick', prev' := false, value;
      }
      divCounter, valueRamp, prevValue, ledTick, ledRamp, pwmCounter, pwm :=
        ClockDiv.Next(divCounter, PwmCounterSize),
        UpdownCounter.TickAdvance(valueRamp, strobe, PwmCounterSize),
        prev',
        tick',
        UpdownCounter.TickAdvance(ledRamp, ledTick, LedCounterSize),
        Pwm.CounterNext(pwmCounter, PwmCounterSize),
        Pwm.Output(pwmCounter, value);
    }
  }
}
