/** `RGBFade` in rgb_fade.py: a 28-bit counter whose top bits pick a combination of the red,
    green and blue channels (`col`, bits 25..27), a direction (bit 24) and a 12-bit fade
    level (bits 12..23). Every lit channel fades up and then down; each channel's value is
    registered and compared, registered again, with a free-running 12-bit PWM counter. The
    three PWM bits feed the board's RGB LED driver, which is not part of this model. */
module RgbFade {
  import opened Bits

  const PwmWidth := 12
  const CtrWidth := 28
  /** 2^28 and 2^12, the moduli of `ctr` and `pwm_ctr`. */
  const CtrModulus := 0x1000_0000
  const PwmModulus := 0x1000

  /** The channels, in the order of `col`'s bits and of `leds`. */
  const Red := 0
  const Green := 1
  const Blue := 2

  datatype Regs = Regs(
    ctr: nat,
    pwmCtr: nat,
    rVal: nat, gVal: nat, bVal: nat,
    pwmR: bool, pwmG: bool, pwmB: bool)

  predicate Valid(r: Regs) {
    && r.ctr < CtrModulus && r.pwmCtr < PwmModulus
    && r.rVal < PwmModulus && r.gVal < PwmModulus && r.bVal < PwmModulus
  }

  const Reset := Regs(0, 0, 0, 0, 0, false, false, false)

  /** Channel i's value register. */
  function Val(r: Regs, i: nat): nat
    requires i < 3
  {
    if i == Red then r.rVal else if i == Green then r.gVal else r.bVal
  }

  /** Channel i's PWM bit. */
  predicate PwmBit(r: Regs, i: nat)
    requires i < 3
  {
    if i == Red then r.pwmR else if i == Green then r.pwmG else r.pwmB
  }

  // ---------------------------------------------------------------------------
  // Combinational signals: slices of `ctr` above its low 12 bits.

  /** Bits 12..27 of the counter, the only ones the slices read. */
  function Upper(c: nat): nat {
    c / 0x1000
  }

  /** `fade = ctr[12:24]`. */
  function FadeOf(u: nat): (f: nat)
    ensures f < PwmModulus
  {
    u % 0x1000
  }

  /** `direction = ctr[24]`. */
  predicate DirectionOf(u: nat) {
    u / 0x1000 % 2 == 1
  }

  /** `col = ctr[25:28]`. */
  function ColOf(u: nat): (col: nat)
    ensures col < 8
  {
    u / 0x2000 % 8
  }

  function Fade(c: nat): nat { FadeOf(Upper(c)) }
  predicate Direction(c: nat) { DirectionOf(Upper(c)) }
  function Col(c: nat): nat { ColOf(Upper(c)) }

  /** `Mux(direction, ~fade, fade)`: the brightness of every lit channel. */
  function LevelOf(u: nat): (l: nat)
    ensures l < PwmModulus
  {
    if DirectionOf(u) then 0xfff - FadeOf(u) else FadeOf(u)
  }

  function Level(c: nat): nat { LevelOf(Upper(c)) }

  /** `Mux(col[i], Mux(direction, ~fade, fade), 0)`. */
  function ChannelValue(c: nat, i: nat): (v: nat)
    requires i < 3
    ensures v < PwmModulus
  {
    if Bit(Col(c), i) then Level(c) else 0
  }

  // ---------------------------------------------------------------------------
  // The clock edge.

  function Next(r: Regs): (n: Regs)
    ensures Valid(r) ==> Valid(n)
  {
    Regs(
      ctr := (r.ctr + 1) % CtrModulus,
      pwmCtr := (r.pwmCtr + 1) % PwmModulus,
      rVal := ChannelValue(r.ctr, Red),
      gVal := ChannelValue(r.ctr, Green),
      bVal := ChannelValue(r.ctr, Blue),
      pwmR := r.pwmCtr < r.rVal,
      pwmG := r.pwmCtr < r.gVal,
      pwmB := r.pwmCtr < r.bVal)
  }

  function Run(r: Regs, n: nat): Regs
    decreases n
  {
    if n == 0 then r else Next(Run(r, n - 1))
  }

  // ---------------------------------------------------------------------------
  // The slices are Migen's.

  lemma SlicesAsWired(c: nat)
    ensures Fade(c) == Slice(c, 12, 12)
    ensures Direction(c) == Bit(c, 24)
    ensures Col(c) == Slice(c, 25, 3)
    ensures (c + 1) % CtrModulus == Add(c, 1, CtrWidth)
  {
    Powers();
    DivSplit(c, 0x1000, 0x1000);
    DivSplit(c, 0x1000, 0x2000);
  }

  /** A falling channel is the bitwise complement of `fade` on 12 bits. */
  lemma FallingIsComplement(c: nat)
    requires Direction(c)
    ensures Level(c) == Not(Fade(c), PwmWidth)
  {
    Powers();
  }

  // ---------------------------------------------------------------------------
  // Value registers and PWM bits.

  /** One clock loads every channel's value register: 0 when the channel's bit of `col` is
      clear, the fade level when it is set (`fade` rising, its complement falling). */
  lemma ValueRegister(r: Regs, i: nat)
    requires i < 3
    ensures !Bit(Col(r.ctr), i) ==> Val(Next(r), i) == 0
    ensures Bit(Col(r.ctr), i) && !Direction(r.ctr) ==> Val(Next(r), i) == Fade(r.ctr)
    ensures Bit(Col(r.ctr), i) && Direction(r.ctr) ==>
            Val(Next(r), i) == Not(Fade(r.ctr), PwmWidth)
  {
    if Direction(r.ctr) {
      FallingIsComplement(r.ctr);
    }
  }

  /** Every PWM bit is the registered comparison of the PWM counter with the channel's
      value register, so a value of 0 gives a PWM bit of 0. */
  lemma PwmCompare(r: Regs, i: nat)
    requires i < 3
    ensures PwmBit(Next(r), i) <==> r.pwmCtr < Val(r, i)
    ensures Val(r, i) == 0 ==> !PwmBit(Next(r), i)
  {
  }

  /** When `col` is 0 every value register is 0 after the next clock, and every PWM bit is 0
      after the one after. */
  lemma DarkWhenNoColour(r: Regs)
    requires Col(r.ctr) == 0
    ensures forall i :: 0 <= i < 3 ==> Val(Next(r), i) == 0
    ensures forall i :: 0 <= i < 3 ==> !PwmBit(Next(Next(r)), i)
  {
    assert Pow2(0) == 1 && Pow2(1) == 2 && Pow2(2) == 4;
  }

  // ---------------------------------------------------------------------------
  // The fade over time.

  /** Bits 12..27 after one clock: unchanged unless the low 12 bits wrap, then one more,
      wrapping on their 16 bits. */
  lemma UpperStep(c: nat)
    requires c < CtrModulus
    ensures Upper((c + 1) % CtrModulus) ==
            if (c + 1) % 0x1000 == 0 then (Upper(c) + 1) % 0x1_0000 else Upper(c)
  {
    if (c + 1) % 0x1000 != 0 {
      DivStepSame(c, 0x1000);
    } else if c + 1 < CtrModulus {
      DivUnique(c + 1, 0x1000, Upper(c) + 1, 0);
    }
  }

  /** One step of bits 12..27 changes the level by at most one; the extremes are held for
      two steps, where the direction turns, so the brightness is continuous. A change of
      colour combination happens only at level 0, on both sides. */
  lemma LevelStepOfUpper(u: nat)
    requires u < 0x1_0000
    ensures var l, l' := LevelOf(u), LevelOf((u + 1) % 0x1_0000);
      l' == l || l' == l + 1 || l' + 1 == l
    ensures ColOf((u + 1) % 0x1_0000) != ColOf(u) ==>
            LevelOf(u) == 0 && LevelOf((u + 1) % 0x1_0000) == 0
  {
    if u < 0xffff {
      ModOfBelow(u + 1, 0x1_0000);
      if u % 0x1000 < 0xfff {
        StepWithinFade(u);
      } else if u / 0x1000 % 2 == 0 {
        StepToFalling(u);
      } else {
        StepToNextColour(u);
      }
    } else {
      assert (u + 1) % 0x1_0000 == 0;
    }
  }

  /** Below the top of the fade the fade goes up by one and nothing else changes. */
  lemma StepWithinFade(u: nat)
    requires u % 0x1000 < 0xfff
    ensures FadeOf(u + 1) == FadeOf(u) + 1
    ensures DirectionOf(u + 1) == DirectionOf(u) && ColOf(u + 1) == ColOf(u)
  {
    DivUnique(u + 1, 0x1000, u / 0x1000, u % 0x1000 + 1);
    DivSplit(u, 0x1000, 2);
    DivSplit(u + 1, 0x1000, 2);
  }

  /** At the top of a rising fade the direction turns and the colour stays. */
  lemma StepToFalling(u: nat)
    requires u % 0x1000 == 0xfff && u / 0x1000 % 2 == 0
    ensures FadeOf(u + 1) == 0 && DirectionOf(u + 1) && ColOf(u + 1) == ColOf(u)
  {
    var q := u / 0x1000;
    DivUnique(u + 1, 0x1000, q + 1, 0);
    DivSplit(u, 0x1000, 2);
    DivSplit(u + 1, 0x1000, 2);
    HalfOfEvenStep(q);
  }

  /** At the top of a falling fade both levels are 0, whatever the colour does. */
  lemma StepToNextColour(u: nat)
    requires u % 0x1000 == 0xfff && u / 0x1000 % 2 == 1
    ensures LevelOf(u) == 0 && LevelOf(u + 1) == 0
  {
    DivUnique(u + 1, 0x1000, u / 0x1000 + 1, 0);
  }

  lemma HalfOfEvenStep(q: nat)
    requires q % 2 == 0
    ensures (q + 1) / 2 == q / 2
  {
  }

  /** The brightness of every lit channel changes by at most one per clock, and only when
      the low 12 bits of the counter wrap, once every 4096 cycles; the colour combination
      changes only at brightness 0. */
  lemma LevelContinuous(c: nat)
    requires c < CtrModulus
    ensures var l, l' := Level(c), Level((c + 1) % CtrModulus);
      l' == l || l' == l + 1 || l' + 1 == l
    ensures (c + 1) % 0x1000 != 0 ==>
            Level((c + 1) % CtrModulus) == Level(c) && Col((c + 1) % CtrModulus) == Col(c)
    ensures Col((c + 1) % CtrModulus) != Col(c) ==>
            Level(c) == 0 && Level((c + 1) % CtrModulus) == 0
  {
    UpperStep(c);
    LevelStepOfUpper(Upper(c));
  }

  // ---------------------------------------------------------------------------
  // What every reachable state holds.

  /** The counter's value one clock earlier. */
  function Prev(c: nat): nat {
    (c + CtrModulus - 1) % CtrModulus
  }

  /** The PWM counter is the low 12 bits of `ctr` (both count from 0 on every clock), and
      every value register holds the value computed from the previous counter. */
  predicate Inv(r: Regs) {
    && r.pwmCtr == r.ctr % 0x1000
    && r.rVal == ChannelValue(Prev(r.ctr), Red)
    && r.gVal == ChannelValue(Prev(r.ctr), Green)
    && r.bVal == ChannelValue(Prev(r.ctr), Blue)
  }

  lemma InvReset()
    ensures Inv(Reset)
  {
    assert Prev(0) == 0xfff_ffff;
    assert Upper(0xfff_ffff) == 0xffff;
    assert LevelOf(0xffff) == 0;
  }

  lemma InvStep(r: Regs)
    requires Valid(r) && Inv(r)
    ensures Inv(Next(r))
  {
    CountersStep(r.ctr, r.pwmCtr);
  }

  /** Both counters advance together, and the earlier value of the advanced `ctr` is `ctr`. */
  lemma CountersStep(c: nat, p: nat)
    requires c < CtrModulus && p == c % 0x1000
    ensures (p + 1) % PwmModulus == (c + 1) % CtrModulus % 0x1000
    ensures Prev((c + 1) % CtrModulus) == c
  {
    ModModMul(c + 1, 0x1000, 0x1_0000);
    ModAddMod(c, 1, 0x1000);
    if c + 1 < CtrModulus {
      ModAddPeriod(c, CtrModulus);
    }
  }

  lemma {:induction false} InvReachable(n: nat)
    ensures Valid(Run(Reset, n)) && Inv(Run(Reset, n))
  {
    if n == 0 {
      InvReset();
    } else {
      InvReachable(n - 1);
      InvStep(Run(Reset, n - 1));
    }
  }

  // ---------------------------------------------------------------------------
  // The design as a register file clocked by Tick.

  class RgbFader {
    var ctr: nat
    var pwmCtr: nat
    var rVal: nat
    var gVal: nat
    var bVal: nat
    var pwmR: bool
    var pwmG: bool
    var pwmB: bool

    function State(): Regs
      reads this
    {
      Regs(ctr, pwmCtr, rVal, gVal, bVal, pwmR, pwmG, pwmB)
    }

    constructor ()
      ensures State() == Reset
    {
      ctr, pwmCtr := 0, 0;
      rVal, gVal, bVal := 0, 0, 0;
      pwmR, pwmG, pwmB := false, false, false;
    }

    /** One clock edge: all eight registers take their new values together. */
    method Tick()
      modifies this
      ensures State() == Next(old(State()))
    {
      ctr, pwmCtr, rVal, gVal, bVal, pwmR, pwmG, pwmB :=
        (ctr + 1) % CtrModulus, (pwmCtr + 1) % PwmModulus,
        ChannelValue(ctr, Red), ChannelValue(ctr, Green), ChannelValue(ctr, Blue),
        pwmCtr < rVal, pwmCtr < gVal, pwmCtr < bVal;
    }
  }
}
