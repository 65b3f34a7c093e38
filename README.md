# icebreaker Migen examples, modelled in Dafny

Six small Migen designs for the iCEBreaker FPGA board, each a synchronous state machine.
The main one, `Fader` in tristate_fade.py, fades eight tristate LED pads in and out one at a
time. The others are variants of the same building blocks:

- `PWMFade`: one LED faded with a combinational PWM output.
- `SevenSegCounter`: a hex counter shown on a two-digit, seven-segment display that shares
  its segment lines between the digits.
- `RGBFade`: fades the red, green and blue channels through every combination.
- Two `Blinker`s: a plain LED toggle, and a four-phase tristate blink.

## How the hardware is modelled

- A design's registers (every signal a `self.sync` statement writes) form a datatype `Regs`.
  A signal is a bounded natural number, and every register resets to 0.
- `Next(r)` is one clock edge. Every register's new value is computed from the values
  before the edge, and all of them commit together, as Migen's `sync` does.
- `Run(r, n)` is n clock edges.
- A `self.comb` signal is a function of `Regs`.
- Each design also has a class with the same registers as fields. `Tick()` performs one
  edge, and its contract is `State() == Next(old(State()))`.
- Fixed-width arithmetic is written out in the `Bits` module:
  - `x + k` on a w-bit register wraps modulo 2^w;
  - `x[lo:hi]` is `x / 2^lo % 2^(hi-lo)`;
  - `~x` on w bits is `2^w - 1 - x`, and `Bits.NotIsBitwise` proves this is the bitwise
    complement.
- Shared logic gets a module of its own:
  - `UpdownCounter`, `ClockDiv` and `Tristate` model Migen classes that appear with the same
    code in more than one design file (`UpdownCounter`/`TickUpdownCounter` and `ClockDiv` in
    tristate_fade.py and pwm_fade.py, `TristatePins` in tristate_fade.py and
    tristate_blink.py).
  - The two `PWM` classes differ. The one in tristate_fade.py:5-9 registers the comparison,
    and the one in pwm_fade.py:6-10 drives it combinationally. `Pwm` holds only the counter
    step and the comparison that both use. Each design's `Next` decides whether the result
    is registered.
  - `ReloadTimer` is not a Migen submodule. Both `Blinker`s write the same `If` inline
    (blink.py:9-14, tristate_blink.py:22-27), and `ReloadTimer` factors it out so that its
    closed forms are proved once.
- A tristate pad is abstracted to its output enable and output level, and so to one of
  driven high, driven low and floating.

Three facts of the code that a reader could easily get wrong:

- **The brightness ramp never repeats an extreme.** `UpdownCounter` adds 2 at the turn, which
  skips the codes that would show 0 or 2^W-1 twice. Every advance moves the visible value by
  exactly 1. The period is 2(2^W-1) advances, not 2^(W+1).
- **`led_counter` reflects; it does not count through 16 states.** It is a 4-bit
  `TickUpdownCounter`, so it runs 1..15 and back down to 0. Its period is 30 `led_tick`s.
- **`tens` only shows bits 25..28.** In 7seg_count.py, `tens` is 4 bits wide, so assigning
  the 5-bit slice `counter[25:30]` to it keeps only bits 25..28.

The fields of `led_counter` are laid out as in tristate_fade/tristate_fade.py:100-101. Bit 0
is every pad's level (line 116). The three top bits, bits 1..3, pick the pad: `led_active`
is `led_counter[1:4]` (line 120). The "fourth bit" of the comment is therefore the
remaining bit 0, not bit 3.

## Model

| member | source | states |
|---|---|---|
| Bits.NotIsBitwise | tristate_fade/tristate_fade.py:22-23 | `~x` on w bits, written `2^w-1-x`, flips exactly the w bits |
| UpdownCounter.Direction | tristate_fade/tristate_fade.py:14-16 | `direction` is bit W of the (W+1)-bit `icounter` |
| UpdownCounter.AtTurn | tristate_fade/tristate_fade.py:22-24 | the turn condition `icounter_inv == 0`: the complement of the low W bits is 0, so the low W bits are all ones (characterised by AtTurnArith) |
| UpdownCounter.Value | tristate_fade/tristate_fade.py:16-20 | the visible ramp value always lies in [0, 2^W-1] |
| UpdownCounter.ValueArith | tristate_fade/tristate_fade.py:16-20 | the visible value is the (W+1)-bit register below 2^W, and its mirror image 2^(W+1)-1-ic above |
| UpdownCounter.Advance | tristate_fade/tristate_fade.py:22-27 | an advance keeps the register within its W+1 bits |
| UpdownCounter.AdvanceArith | tristate_fade/tristate_fade.py:22-27 | an advance adds 2 when the low W bits are all ones, 1 otherwise, wrapping on W+1 bits |
| UpdownCounter.StepIsUnit | pwm_fade/pwm_fade.py:12-28 | each ungated advance changes the visible value by exactly 1, up while the new direction bit is clear; from 0 it goes to 1 and from 2^W-1 to 2^W-2; the register never lands on 0 or 2^W |
| UpdownCounter.TickAdvance | tristate_fade/tristate_fade.py:40-46 | the gated advance keeps the register within its width |
| UpdownCounter.TickStep | tristate_fade/tristate_fade.py:29-46 | with `tick` clear the register holds; the visible value changes iff `tick` is set, and then by exactly 1 |
| UpdownCounter.Run | tristate_fade/tristate_fade.py:22-27 | any number of advances keeps the register within its width |
| UpdownCounter.Period | tristate_fade/tristate_fade.py:22-27 | the cycle length 2(2^W-1) is at least 2 |
| UpdownCounter.Phase | tristate_fade/tristate_fade.py:22-27 | every code the register reaches after its first advance has a position on that cycle |
| UpdownCounter.Triangle | tristate_fade/tristate_fade.py:16-20 | the reference triangle wave stays within W bits |
| UpdownCounter.PhaseStep | tristate_fade/tristate_fade.py:22-27 | an advance moves one position along the cycle, modulo its length, and stays on the cycle |
| UpdownCounter.ValueOnCycle | tristate_fade/tristate_fade.py:16-27 | on the cycle, the visible value is the triangle wave at the code's position |
| UpdownCounter.PhaseInjective | tristate_fade/tristate_fade.py:22-27 | distinct codes on the cycle have distinct positions |
| UpdownCounter.RunPhase | tristate_fade/tristate_fade.py:22-27 | n advances keep the register on the cycle and move it n positions along it, one position per advance |
| UpdownCounter.Walk | tristate_fade/tristate_fade.py:22-27 | walking positions round a cycle never leaves the cycle |
| UpdownCounter.WalkIsMod | tristate_fade/tristate_fade.py:22-27 | walking n positions from a is adding n modulo the cycle length |
| UpdownCounter.WalkReturns | tristate_fade/tristate_fade.py:22-27 | within one lap, a walk is back at its start only after 0 steps or the whole lap |
| UpdownCounter.CycleFromStart | tristate_fade/tristate_fade.py:22-27 | the code 1 is the start of the cycle, and k advances from it reach position k modulo the cycle length |
| UpdownCounter.ReturnsAfterPeriod | tristate_fade/tristate_fade.py:22-27 | after 2(2^W-1) advances the register is back where it started |
| UpdownCounter.NoEarlierReturn | tristate_fade/tristate_fade.py:22-27 | no smaller positive number of advances returns the register to its start |
| UpdownCounter.Periodic | tristate_fade/tristate_fade.py:22-27 | the ramp's exact period is 2(2^W-1) advances, not 2^(W+1) |
| UpdownCounter.FromReset | tristate_fade/tristate_fade.py:13-27 | from the reset code 0 the visible value is 0; after n ≥ 1 advances it is the triangle wave at position n-1 of the cycle (position (n-1) mod 2(2^W-1) by WalkIsMod): 1, 2, …, 2^W-1, then down to 0, and again |
| UpdownCounter.TriangleExtremes | tristate_fade/tristate_fade.py:16-27 | each period shows 0 at exactly one position and 2^W-1 at exactly one position |
| UpdownCounter.TriangleOnto | tristate_fade/tristate_fade.py:16-27 | every W-bit value is shown somewhere in each period |
| ClockDiv.DivOut | tristate_fade/tristate_fade.py:53-54 | `divout` is the top bit D of `divcounter` |
| ClockDiv.Strobe | tristate_fade/tristate_fade.py:55-58 | `divtick` is `~divcounter[0:D] == 0` (all ones by StrobeIffAllOnes) |
| ClockDiv.Next | tristate_fade/tristate_fade.py:50-52 | defined as `divcounter + 1` wrapping on D+1 bits; the contract ensures the result stays within D+1 bits |
| ClockDiv.StrobeIffAllOnes | tristate_fade/tristate_fade.py:56-58 | the strobe is set iff the low D bits are all ones |
| ClockDiv.LowStep | tristate_fade/tristate_fade.py:50-52 | the low D bits count up by one modulo 2^D on every clock |
| ClockDiv.StrobeWindow | tristate_fade/tristate_fade.py:50-58 | within 2^D cycles the strobe fires once, on the cycle where the low bits reach all ones |
| ClockDiv.StrobeOncePerPeriod | pwm_fade/pwm_fade.py:51-59 | the strobe fires exactly once in every 2^D consecutive cycles |
| ClockDiv.DivOutToggles | tristate_fade/tristate_fade.py:52-54 | `divout`, the top bit, changes on exactly the edges that end a strobe cycle |
| Pwm.Output | tristate_fade/tristate_fade.py:8 | the comparison `pwm_counter < value`, registered by tristate_fade.py and combinational in pwm_fade/pwm_fade.py:9 |
| Pwm.CounterNext | tristate_fade/tristate_fade.py:9 | defined as `pwm_counter + 1` wrapping on W bits; the contract ensures the result stays below 2^W |
| Pwm.OnCountNoWrap | tristate_fade/tristate_fade.py:7-9 | before the counter wraps, the cycles with output set are those whose count lies below the value |
| Pwm.OnCountWrap | tristate_fade/tristate_fade.py:7-9 | a window past the wrap counts its part up to the wrap and then a window from 0 |
| Pwm.DutyCycle | tristate_fade/tristate_fade.py:7-9 | with the value held at B, exactly B of every 2^W consecutive cycles have the comparison set, wherever the window starts |
| Pwm.ZeroIsOff | tristate_fade/tristate_fade.py:8 | a value of 0 never sets the comparison |
| Pwm.OnAtStartOfWindow | pwm_fade/pwm_fade.py:8-10 | in the window from counter 0, the output is set exactly on its first B cycles |
| Pwm.RunBelowWrap | tristate_fade/tristate_fade.py:9 | before the wrap, k clocks add k to the counter |
| Tristate.State | tristate_fade/tristate_fade.py:64-67 | a `TSTriple` with `oe` clear leaves its pad floating; with `oe` set it drives the pad to `o` |
| Tristate.Pins | tristate_fade/tristate_fade.py:60-67 | pad i floats iff `hiz[i]`, and otherwise is driven to `on[i]` (high or low) |
| TristateFade.Strobe | tristate_fade/tristate_fade.py:77-81 | `updown_clk_strobe` is the divider's strobe, on D = 11 bits |
| TristateFade.PwmValue | tristate_fade/tristate_fade.py:83-86 | `pwm_value_counter` is the 11-bit brightness ramp's visible value |
| TristateFade.LedCounter | tristate_fade/tristate_fade.py:99-103 | `led_counter` is the 4-bit ramp's visible value |
| TristateFade.On | tristate_fade/tristate_fade.py:114-116 | `on[i]` is `led_counter[0]` for every pad |
| TristateFade.Hiz | tristate_fade/tristate_fade.py:118-128 | `hiz[i]` is ¬(`pwm` ∧ `led_active` = i) |
| TristateFade.LedActive | tristate_fade/tristate_fade.py:119-120 | `led_active` names one of the 8 pads |
| TristateFade.Pads | tristate_fade/tristate_fade.py:110-128 | a pad is driven iff `pwm` is set and it is the selected pad; a driven pad is high iff `led_counter[0]` is set; no two pads are driven at once |
| TristateFade.Next | tristate_fade/tristate_fade.py:69-128 | one clock edge keeps every register within its width |
| TristateFade.ValueStep | tristate_fade/tristate_fade.py:77-86 | the brightness changes exactly on divider-strobe cycles, and then by 1 |
| TristateFade.LedCounterStep | tristate_fade/tristate_fade.py:102-103 | `led_counter` holds except on `led_tick` cycles, when it moves by 1 |
| TristateFade.LedTickMarksArrivalAtZero | tristate_fade/tristate_fade.py:88-97 | `led_tick` is set iff, one cycle earlier, the brightness stepped into 0 |
| TristateFade.LedTickLastsOneCycle | tristate_fade/tristate_fade.py:88-97 | `led_tick` never stays set for two cycles in a row |
| TristateFade.NoTickAfterReset | tristate_fade/tristate_fade.py:88-97 | the all-zero reset state does not produce a `led_tick` |
| TristateFade.AlignedStep | tristate_fade/tristate_fade.py:7-9 | the PWM counter keeps equal to the divider's low 11 bits |
| TristateFade.ReachableAligned | tristate_fade/tristate_fade.py:69-107 | every state reachable from reset is within its widths and has the PWM counter equal to the divider's low 11 bits |
| TristateFade.StrobeEndsPwmPeriod | tristate_fade/tristate_fade.py:50-58 | in such a state the strobe fires on the last count of every PWM period |
| TristateFade.PeriodHolds | tristate_fade/tristate_fade.py:77-107 | across a PWM period that starts at count 0, the PWM counter counts up from 0 and the brightness ramp register, and so the brightness, holds |
| TristateFade.PeriodStep | tristate_fade/tristate_fade.py:77-107 | one clock inside a PWM period steps the PWM counter by one, keeps the design aligned and keeps the brightness ramp register |
| TristateFade.LastEdge | tristate_fade/tristate_fade.py:77-107 | the last edge of a PWM period strobes: the brightness ramp makes one ungated advance and the PWM counter wraps to 0, still aligned |
| TristateFade.PwmInPeriod | tristate_fade/tristate_fade.py:5-9 | the registered `pwm` lags by one cycle: on cycle k of the period (k from 1) it is set iff k does not exceed the brightness |
| TristateFade.PwmOnPrefix | tristate_fade/tristate_fade.py:5-9 | in the first n cycles of the period `pwm` is set on min(n, brightness) of them |
| TristateFade.DutyCyclePerPeriod | tristate_fade/tristate_fade.py:105-107 | over each 2^11-cycle PWM period `pwm` is set on exactly as many cycles as the brightness |
| TristateFade.Fader.constructor | tristate_fade/tristate_fade.py:69-74 | every register starts at 0 |
| TristateFade.Fader.Tick | tristate_fade/tristate_fade.py:69-128 | one clock edge; on both branches of the edge detector `prev_pwm_val_cnt` takes the current brightness |
| PwmFade.PwmValue | pwm_fade/pwm_fade.py:63-72 | `pwm_value` is the width-bit ramp's visible value |
| PwmFade.PwmOut | pwm_fade/pwm_fade.py:6-10 | `pwm_signal` is `pwm_counter < pwm_value` in the same cycle, with no register between |
| PwmFade.Strobe | pwm_fade/pwm_fade.py:66-69 | `updown_clock_strobe` is the divider's strobe on `div` bits |
| PwmFade.Dbg | pwm_fade/pwm_fade.py:73 | `dbg` is `updown_clock`, the divider's top bit |
| PwmFade.Next | pwm_fade/pwm_fade.py:61-73 | one clock edge keeps every register within its width |
| PwmFade.ValueStep | pwm_fade/pwm_fade.py:43-47 | `pwm_value` changes only on divider-strobe cycles, and then by exactly 1 |
| PwmFade.DbgToggles | pwm_fade/pwm_fade.py:73 | the debug output is the divider's top bit and toggles exactly on the edges that end a strobe cycle |
| PwmFade.HeldWindow | pwm_fade/pwm_fade.py:8-10 | while no strobe falls in the window, the combinational output over the window is the comparator's with the value held |
| PwmFade.WindowDuty | pwm_fade/pwm_fade.py:61-72 | when a whole 2^width-cycle window passes without a strobe, the output is set on exactly `pwm_value` of its cycles |
| PwmFade.PwmFader.constructor | pwm_fade/pwm_fade.py:61-64 | every register starts at 0 |
| PwmFade.PwmFader.Tick | pwm_fade/pwm_fade.py:61-73 | one clock edge |
| ReloadTimer.Next | blink/blink.py:9-14 | the reload timer's counter never leaves [0, maxperiod] |
| ReloadTimer.RunClosedForm | tristate_blink/tristate_blink.py:22-27 | the counter reaches 0 after c clocks, then runs maxperiod, …, 0 with period maxperiod+1 |
| ReloadTimer.ExpirationsClosedForm | tristate_blink/tristate_blink.py:22-27 | the number of expiries in n cycles is 0 up to c, then 1 + (n-c-1)/(maxperiod+1) |
| ReloadTimer.ExpiresIff | blink/blink.py:9-14 | the timer expires on cycle k iff k is c plus a multiple of maxperiod+1 |
| ReloadTimer.RunBounded | blink/blink.py:6-14 | the counter stays in [0, maxperiod] for ever |
| ReloadTimer.ExpirationsFromZero | blink/blink.py:6-14 | from a counter of 0 there is one expiry on the first cycle and one more every maxperiod+1 cycles |
| ReloadTimer.ExpiresFromZeroIff | blink/blink.py:6-14 | from a counter of 0 the timer expires on cycle k iff k is a multiple of maxperiod+1 |
| Blink.Next | blink/blink.py:9-14 | the counter stays in [0, maxperiod] |
| Blink.LedTogglesIffExpiry | blink/blink.py:9-14 | the LED changes exactly on the edges where the counter reads 0, and holds otherwise |
| Blink.RunIsTimer | blink/blink.py:9-14 | after n clocks, the counter is the reload timer's and the LED has toggled once per expiry |
| Blink.TimerStep | blink/blink.py:9-14 | one more edge gives the counter the timer's next value and toggles the LED exactly when that edge is an expiry |
| Blink.FromReset | blink/blink.py:6-14 | from reset the `led` register (which drives the active-low `user_ledr_n`) is set at the first edge and then stays in each state for maxperiod+1 cycles |
| Blink.ToggleEvery | blink/blink.py:9-14 | from reset the LED toggles after cycle k iff k is a multiple of maxperiod+1 |
| Blink.Blinker.constructor | blink/blink.py:5-8 | both registers start at 0 |
| Blink.Blinker.Tick | blink/blink.py:9-14 | one clock edge |
| TristateBlink.Next | tristate_blink/tristate_blink.py:22-27 | the counter stays in [0, maxperiod] and the state counter within 2 bits |
| TristateBlink.Hiz | tristate_blink/tristate_blink.py:33-34 | every `hiz[i]` is `state_counter[0]` |
| TristateBlink.On | tristate_blink/tristate_blink.py:35-36 | every `on[i]` is `state_counter[1]` |
| TristateBlink.Pads | tristate_blink/tristate_blink.py:29-36 | the n pads are `TristatePins` fed with those `on` and `hiz` |
| TristateBlink.Phase | tristate_blink/tristate_blink.py:29-36 | the reference pattern that PadsFollowState compares against: low, floating, high, floating for states 0..3 |
| TristateBlink.PadsFollowState | tristate_blink/tristate_blink.py:29-36 | every pad is, by state 0/1/2/3, driven low / floating / driven high / floating |
| TristateBlink.StateStep | tristate_blink/tristate_blink.py:22-27 | the state counter steps modulo 4 on exactly the edges where the counter reads 0 |
| TristateBlink.RunIsTimer | tristate_blink/tristate_blink.py:22-27 | after n clocks, the state counter has stepped once per expiry of the timer |
| TristateBlink.TimerStep | tristate_blink/tristate_blink.py:22-27 | one more edge gives the counter the timer's next value and steps the state, modulo 4, exactly when that edge is an expiry |
| TristateBlink.RunValid | tristate_blink/tristate_blink.py:16-27 | the registers stay within their widths for ever |
| TristateBlink.FromReset | tristate_blink/tristate_blink.py:16-27 | from reset the state reads 1 after the first edge and then steps every maxperiod+1 cycles |
| TristateBlink.StepEvery | tristate_blink/tristate_blink.py:22-27 | from reset the pads change phase after cycle k iff k is a multiple of maxperiod+1 |
| TristateBlink.TristateBlinker.constructor | tristate_blink/tristate_blink.py:15-18 | both registers start at 0 |
| TristateBlink.TristateBlinker.Tick | tristate_blink/tristate_blink.py:22-27 | one clock edge |
| SevenSegCount.DigitToSegments | 7seg_count/7seg_count.py:36-54 | each digit's pattern fits the 7 segment bits |
| SevenSegCount.FindDigit | 7seg_count/7seg_count.py:36-54 | a reference inverse of the table at 36-54, which the source does not have: the search finds a digit from `from` up whose pattern is s, or proves that none has it |
| SevenSegCount.SegmentsToDigit | 7seg_count/7seg_count.py:36-54 | a reference inverse of the table at 36-54, which the source does not have and which gives DecodeEncode its round trip: reading a digit back off a pattern is correct, and fails only on patterns no digit has |
| SevenSegCount.PatternsDistinct | 7seg_count/7seg_count.py:38-53 | the 16 patterns are pairwise distinct |
| SevenSegCount.EightAndOne | 7seg_count/7seg_count.py:39-46 | 8 lights all seven segments; 1 lights segments b and c only |
| SevenSegCount.DecodeEncode | 7seg_count/7seg_count.py:36-54 | every digit reads back from its pattern as itself |
| SevenSegCount.Ones | 7seg_count/7seg_count.py:18 | `ones` is a hex digit |
| SevenSegCount.Tens | 7seg_count/7seg_count.py:19 | `tens` is a hex digit |
| SevenSegCount.DisplayState | 7seg_count/7seg_count.py:20 | the display state is one of 8 |
| SevenSegCount.SegmentPins | 7seg_count/7seg_count.py:16-17 | there is one pin per segment |
| SevenSegCount.NextSegments | 7seg_count/7seg_count.py:25-34 | `segments` after the `Case`: the ones pattern in states 0 and 1, the tens pattern in 4 and 5, 0 in 2 and 6, held in 3 and 7 |
| SevenSegCount.NextDigitSel | 7seg_count/7seg_count.py:25-34 | `digit_sel` after the `Case`: cleared in state 3, set in state 7, held otherwise |
| SevenSegCount.Next | 7seg_count/7seg_count.py:24-34 | one clock edge keeps every register within its width |
| SevenSegCount.SlicesAsWired | 7seg_count/7seg_count.py:18-24 | `ones`, `tens` and `display_state` are the counter slices [21:25], [25:30] truncated to 4 bits, and [2:5]; the counter increments modulo 2^30 |
| SevenSegCount.TensIsBits25To28 | 7seg_count/7seg_count.py:11-19 | only bits 25..28 reach `tens`; bit 29 is dropped |
| SevenSegCount.DisplayStateIsPhase | 7seg_count/7seg_count.py:20 | the display state is the counter's low 5 bits divided by 4 |
| SevenSegCount.CounterAfter | 7seg_count/7seg_count.py:24 | after k clocks the counter has advanced by k modulo 2^30 |
| SevenSegCount.DisplaySchedule | 7seg_count/7seg_count.py:20-24 | each display state lasts 4 cycles and the sequence 0..7 repeats every 32 cycles |
| SevenSegCount.DisplayStateStep | 7seg_count/7seg_count.py:20-24 | on each clock the display state holds or moves to the next, cyclically |
| SevenSegCount.NoWrap | 7seg_count/7seg_count.py:24 | the counter wraps only when its low 5 bits wrap |
| SevenSegCount.DigitsHold | 7seg_count/7seg_count.py:18-19 | the digits change only on the edge that enters display state 0 |
| SevenSegCount.LatchByState | 7seg_count/7seg_count.py:25-34 | states 0 and 1 latch the ones pattern, 4 and 5 the tens pattern, 2 and 6 clear the segments, 3 and 7 keep them; `digit_sel` changes only in states 3 (to 0) and 7 (to 1) |
| SevenSegCount.InvReset | 7seg_count/7seg_count.py:8-14 | the reset state has every reachable-state fact |
| SevenSegCount.InvStepBlank | 7seg_count/7seg_count.py:28-33 | the display stays blank throughout states 3 and 7 |
| SevenSegCount.InvStepDigits | 7seg_count/7seg_count.py:26-31 | in state 1 the display shows the ones digit, in state 5 the tens digit |
| SevenSegCount.StepWithinDigit | 7seg_count/7seg_count.py:18-24 | an edge that does not leave display state 7 does not wrap the counter, stays in its state or enters the next, and keeps both digits |
| SevenSegCount.SegmentsCleared | 7seg_count/7seg_count.py:25-34 | states 2 and 6 blank the display |
| SevenSegCount.SegmentsHeld | 7seg_count/7seg_count.py:25-34 | states 3 and 7 leave the segments as they are |
| SevenSegCount.InvStepSelCleared | 7seg_count/7seg_count.py:29-32 | `digit_sel` is 0 throughout states 4..6 |
| SevenSegCount.InvStepSelSet | 7seg_count/7seg_count.py:26-33 | `digit_sel` is 1 in states 0..2 once state 7 has passed |
| SevenSegCount.InvStep | 7seg_count/7seg_count.py:24-34 | one clock keeps all the reachable-state facts |
| SevenSegCount.InvReachable | 7seg_count/7seg_count.py:24-34 | every state reachable from reset has them |
| SevenSegCount.DigitSelSwitchesWhenBlank | 7seg_count/7seg_count.py:25-34 | `digit_sel` switches only while the display is blank, before and after the edge |
| SevenSegCount.DigitSelSwitchesWhenBlankFromReset | 7seg_count/7seg_count.py:25-34 | the same for every cycle from reset |
| SevenSegCount.PinsAreComplement | 7seg_count/7seg_count.py:16-17 | the active-low pins are the bitwise complement of the 7-bit `segments` register |
| SevenSegCount.BlankPinsHigh | 7seg_count/7seg_count.py:16-17 | a blank display drives every segment pin high |
| SevenSegCount.SevenSegCounter.constructor | 7seg_count/7seg_count.py:8-14 | every register starts at 0 |
| SevenSegCount.SevenSegCounter.Tick | 7seg_count/7seg_count.py:24-34 | one clock edge, the `Case` on the display state |
| RgbFade.Upper | rgb_fade/rgb_fade.py:14-16 | the part of `ctr` above its low 12 bits, which is all that `fade`, `direction` and `col` read |
| RgbFade.DirectionOf | rgb_fade/rgb_fade.py:15 | `direction` is `ctr[24]`, bit 12 of the upper part |
| RgbFade.FadeOf | rgb_fade/rgb_fade.py:16 | `fade` is a 12-bit level |
| RgbFade.ColOf | rgb_fade/rgb_fade.py:14 | `col` is one of 8 channel combinations |
| RgbFade.LevelOf | rgb_fade/rgb_fade.py:28-30 | the lit level is a 12-bit value |
| RgbFade.ChannelValue | rgb_fade/rgb_fade.py:28-30 | every channel value is a 12-bit value |
| RgbFade.Next | rgb_fade/rgb_fade.py:27-36 | one clock edge keeps every register within its width |
| RgbFade.SlicesAsWired | rgb_fade/rgb_fade.py:14-16 | `fade`, `direction` and `col` are `ctr[12:24]`, `ctr[24]` and `ctr[25:28]`; `ctr` increments modulo 2^28 |
| RgbFade.FallingIsComplement | rgb_fade/rgb_fade.py:28-30 | while `direction` is set the level is the bitwise NOT of `fade`, 4095-fade |
| RgbFade.ValueRegister | rgb_fade/rgb_fade.py:28-30 | a channel's value becomes 0 when its bit of `col` is clear; otherwise `fade` rising and its NOT falling |
| RgbFade.PwmCompare | rgb_fade/rgb_fade.py:33-36 | each PWM bit is registered as `pwm_ctr < value`; a value of 0 gives 0 |
| RgbFade.DarkWhenNoColour | rgb_fade/rgb_fade.py:28-36 | when `col` is 0, all three values are 0 one edge later and all three PWM bits the edge after |
| RgbFade.UpperStep | rgb_fade/rgb_fade.py:27 | the counter's bits 12..27 step only when its low 12 bits wrap |
| RgbFade.LevelStepOfUpper | rgb_fade/rgb_fade.py:14-16 | one step of bits 12..27 moves the level by at most 1; the colour changes only at level 0 |
| RgbFade.StepWithinFade | rgb_fade/rgb_fade.py:14-16 | below the top of a fade the fade rises by one and the direction and colour stay |
| RgbFade.StepToFalling | rgb_fade/rgb_fade.py:14-16 | at the top of a rising fade the fade restarts at 0, the direction turns to falling and the colour stays |
| RgbFade.StepToNextColour | rgb_fade/rgb_fade.py:14-16 | at the top of a falling fade the level is 0 before and after the edge |
| RgbFade.LevelContinuous | rgb_fade/rgb_fade.py:14-30 | the brightness changes by at most 1 per clock, only once every 4096 cycles, and the colour combination changes only at brightness 0 |
| RgbFade.InvReset | rgb_fade/rgb_fade.py:18-24 | the reset state has the reachable-state facts |
| RgbFade.InvStep | rgb_fade/rgb_fade.py:27-33 | one clock keeps `pwm_ctr` equal to the low 12 bits of `ctr` and each value register equal to the value of the previous counter |
| RgbFade.CountersStep | rgb_fade/rgb_fade.py:27-33 | the two counters stay in step on a clock, and the counter before the advanced `ctr` is `ctr` |
| RgbFade.InvReachable | rgb_fade/rgb_fade.py:27-33 | every state reachable from reset has those facts |
| RgbFade.RgbFader.constructor | rgb_fade/rgb_fade.py:10-24 | every register starts at 0 |
| RgbFade.RgbFader.Tick | rgb_fade/rgb_fade.py:27-36 | one clock edge |

## Left out

- Board pin tables, `plat.request`, `plat.build` and flashing are toolchain and board I/O.
- `run_simulation`, the `_test` generators and VCD dumping are a simulation harness, not
  logic.
- The `SB_RGBA_DRV` LED driver instance in rgb_fade.py is vendor hard IP. The model stops at
  the three PWM bits that feed it.
- The electrical behaviour of `TSTriple` and `get_tristate`. A pad is its output enable and
  level.
- Migen itself (`Signal`, `Module`, `If`, `Case`). Its semantics are written out as bounded
  arithmetic with a simultaneous commit.
- Which LEDs are active-low on the board (`user_ledr_n`, the segment pins) is part of the
  board, not the logic. Only the explicit `~segments[i]` inversion in 7seg_count.py is
  modelled.
- The width of `Signal(max=maxperiod+1)` in the Blinkers is not written out. The counter is
  proved to stay in [0, maxperiod], so it never overflows that width.
- PwmFade.WindowDuty: holds only when a whole 2^width-cycle PWM window passes without a
  divider strobe, which needs width <= div. That holds in the simulation configuration
  (4, 4) from a fresh divider period. In the board configuration (16, 9) the value changes
  128 times within every PWM period, so no per-window duty cycle exists there.
- RgbFade.PwmCompare: states the registered comparison cycle by cycle. No count over a PWM
  period is proved, because the value register lags the level change by one cycle.
- An end-to-end trace of `Fader` over many `led_tick`s is not proved as one lemma, and
  neither is "m PWM periods make m ramp advances". Within one PWM period that starts at
  count 0, `TristateFade.PeriodHolds` keeps the ramp register through cycles 0..2^11-1, and
  `TristateFade.LastEdge` advances it once on the last edge. Joining periods, which means
  splitting `Run(r, a + b)` at a, is done on paper only. So are the other pieces of the trace:
  the brightness ramp's period (`UpdownCounter.Periodic` with W = 11), the edge detector
  (`TristateFade.LedTickMarksArrivalAtZero`) and the 4-bit `led_counter` ramp
  (`UpdownCounter.Periodic` with W = 4, period 30 ticks).
