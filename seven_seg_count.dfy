/** `SevenSegCounter` in 7seg_count.py: a 30-bit counter whose bits 21..24 and 25..28 are
    shown as two hex digits on a two-digit, seven-segment display that shares its segment
    lines. Bits 2..4 of the counter step an 8-state display sequence: load the ones pattern,
    blank, select the other digit, load the tens pattern, blank, select back. */
module SevenSegCount {
  import opened Bits

  datatype Option<T> = None | Some(value: T)

  const CounterWidth := 30
  const SegmentCount := 7

  /** 2^30, the modulus of the 30-bit counter. */
  const CounterModulus := 0x4000_0000

  /** The registers: `counter`, `segments` and the `digit_sel` output register. */
  datatype Regs = Regs(counter: nat, segments: nat, digitSel: bool)

  predicate Valid(r: Regs) {
    r.counter < CounterModulus && r.segments < Pow2(SegmentCount)
  }

  const Reset := Regs(0, 0, false)

  // ---------------------------------------------------------------------------
  // The hex decoder `digit_to_segments`: bit k of a pattern lights segment k (a..g).

  const Patterns: seq<nat> := [
    0x3f, 0x06, 0x5b, 0x4f, 0x66, 0x6d, 0x7d, 0x07,
    0x7f, 0x6f, 0x77, 0x7c, 0x39, 0x5e, 0x79, 0x71]

  /** The segment pattern of a 4-bit digit. */
  function DigitToSegments(d: nat): (s: nat)
    requires d < 16
    ensures s < Pow2(SegmentCount)
  {
    assert Pow2(SegmentCount) == 128;
    Patterns[d]
  }

  /** The digit whose pattern is s, searching the digits from `from` up. */
  function FindDigit(s: nat, from: nat): (d: Option<nat>)
    requires from <= 16
    ensures d.Some? ==> from <= d.value < 16 && DigitToSegments(d.value) == s
    ensures d.None? ==> forall k :: from <= k < 16 ==> DigitToSegments(k) != s
    decreases 16 - from
  {
    if from == 16 then None
    else if Patterns[from] == s then Some(from)
    else FindDigit(s, from + 1)
  }

  /** Reading a digit back off a segment pattern; `None` for a pattern no digit has. */
  function SegmentsToDigit(s: nat): (d: Option<nat>)
    ensures d.Some? ==> d.value < 16 && DigitToSegments(d.value) == s
    ensures d.None? ==> forall k :: 0 <= k < 16 ==> DigitToSegments(k) != s
  {
    FindDigit(s, 0)
  }

  /** No two digits share a pattern. */
  lemma PatternsDistinct(i: nat, j: nat)
    requires i < 16 && j < 16 && i != j
    ensures DigitToSegments(i) != DigitToSegments(j)
  {
  }

  /** 8 lights all seven segments, so every segment some digit lights is one that 8 lights;
      1 lights segments b and c only. */
  lemma EightAndOne(i: nat)
    requires i < SegmentCount
    ensures Bit(DigitToSegments(8), i)
    ensures Bit(DigitToSegments(1), i) <==> i == 1 || i == 2
  {
    assert Pow2(0) == 1 && Pow2(1) == 2 && Pow2(2) == 4 && Pow2(3) == 8;
    assert Pow2(4) == 16 && Pow2(5) == 32 && Pow2(6) == 64;
  }

  /** Every digit reads back as itself. */
  lemma DecodeEncode(d: nat)
    requires d < 16
    ensures SegmentsToDigit(DigitToSegments(d)) == Some(d)
  {
    var e := SegmentsToDigit(DigitToSegments(d));
    if e.value != d {
      PatternsDistinct(e.value, d);
    }
  }

  // ---------------------------------------------------------------------------
  // Combinational signals.

  /** `ones = counter[21:25]`, bits 21..24 (see `SlicesAsWired`). */
  function Ones(c: nat): (o: nat)
    ensures o < 16
  {
    c / 0x20_0000 % 16
  }

  /** `tens = counter[25:30]`: a 5-bit slice assigned to a 4-bit signal, which keeps its low
      4 bits. */
  function Tens(c: nat): (t: nat)
    ensures t < 16
  {
    c / 0x200_0000 % 32 % 16
  }

  /** `display_state = counter[2:5]`. */
  function DisplayState(c: nat): (s: nat)
    ensures s < 8
  {
    c / 4 % 8
  }

  /** The active-low segment pins: `segment_pins[i] = ~segments[i]`. */
  function SegmentPins(r: Regs): (p: seq<bool>)
    ensures |p| == SegmentCount
  {
    seq(SegmentCount, i requires 0 <= i < SegmentCount => !Bit(r.segments, i))
  }

  // ---------------------------------------------------------------------------
  // The clock edge.

  /** `segments` after one clock, by `Case(display_state, ...)`. */
  function NextSegments(r: Regs): nat {
    var c := r.counter;
    var ds := DisplayState(c);
    if ds == 0 || ds == 1 then DigitToSegments(Ones(c))
    else if ds == 4 || ds == 5 then DigitToSegments(Tens(c))
    else if ds == 2 || ds == 6 then 0
    else r.segments
  }

  /** `digit_sel` after one clock, by the same `Case`. */
  predicate NextDigitSel(r: Regs) {
    var ds := DisplayState(r.counter);
    if ds == 3 then false else if ds == 7 then true else r.digitSel
  }

  function Next(r: Regs): (n: Regs)
    ensures Valid(r) ==> Valid(n)
  {
    Regs(
      counter := (r.counter + 1) % CounterModulus,
      segments := NextSegments(r),
      digitSel := NextDigitSel(r))
  }

  function Run(r: Regs, n: nat): Regs
    decreases n
  {
    if n == 0 then r else Next(Run(r, n - 1))
  }

  // ---------------------------------------------------------------------------
  // Slices of the counter.

  /** The signals above are Migen's slices and the counter's 30-bit increment. */
  lemma SlicesAsWired(c: nat)
    ensures Ones(c) == Slice(c, 21, 4)
    ensures Tens(c) == Low(Slice(c, 25, 5), 4)
    ensures DisplayState(c) == Slice(c, 2, 3)
    ensures (c + 1) % CounterModulus == Add(c, 1, CounterWidth)
  {
    Powers();
  }

  /** Only bits 25..28 reach `tens`; bit 29 is dropped. */
  lemma TensIsBits25To28(c: nat)
    ensures Tens(c) == Slice(c, 25, 4)
  {
    Powers();
    ModMod(c / 0x200_0000, 16);
  }

  /** The display state is the counter modulo 32, in steps of 4 cycles. */
  lemma DisplayStateIsPhase(c: nat)
    ensures DisplayState(c) == c % 32 / 4
  {
    DivSplit(c, 4, 8);
  }

  /** After k clocks the counter has advanced by k, modulo 2^30. */
  lemma {:induction false} CounterAfter(r: Regs, k: nat)
    requires Valid(r)
    ensures Run(r, k).counter == (r.counter + k) % CounterModulus
  {
    if k > 0 {
      CounterAfter(r, k - 1);
      ModAddMod(r.counter + (k - 1), 1, CounterModulus);
    }
  }

  /** 32 divides 2^30, so wrapping the counter does not disturb its low 5 bits. */
  lemma Low5OfWrap(x: nat)
    ensures x % CounterModulus % 32 == x % 32
  {
    ModModMul(x, 32, 0x200_0000);
  }

  /** Each display state lasts 4 cycles and the 8 states repeat every 32 cycles, whatever
      the counter's value. */
  lemma DisplaySchedule(r: Regs, k: nat)
    requires Valid(r)
    ensures DisplayState(Run(r, k).counter) == (r.counter + k) % 32 / 4
    ensures DisplayState(Run(r, k + 32).counter) == DisplayState(Run(r, k).counter)
  {
    CounterAfter(r, k);
    CounterAfter(r, k + 32);
    Low5OfWrap(r.counter + k);
    Low5OfWrap(r.counter + k + 32);
    DisplayStateIsPhase(Run(r, k).counter);
    DisplayStateIsPhase(Run(r, k + 32).counter);
    ModAddPeriod(r.counter + k, 32);
  }

  /** Stepping the low 5 bits by one moves the quarter they lie in by at most one, cyclically. */
  lemma QuarterStep(b: nat, b': nat)
    requires b < 32 && b' == (b + 1) % 32
    ensures b' / 4 == b / 4 || b' / 4 == (b / 4 + 1) % 8
  {
    if b < 31 {
      ModOfBelow(b + 1, 32);
    }
  }

  /** On one clock the display state stays or moves on to the next, cyclically. */
  lemma DisplayStateStep(c: nat)
    ensures DisplayState((c + 1) % CounterModulus) == DisplayState(c) ||
            DisplayState((c + 1) % CounterModulus) == (DisplayState(c) + 1) % 8
  {
    var c' := (c + 1) % CounterModulus;
    DisplayStateIsPhase(c);
    DisplayStateIsPhase(c');
    Low5OfWrap(c + 1);
    ModAddMod(c, 1, 32);
    QuarterStep(c % 32, c' % 32);
  }

  /** The field of c above bit 21 (or 25) does not change on an increment that leaves the
      low 5 bits non-zero. */
  lemma FieldHolds(c: nat, m: nat)
    requires m == 0x20_0000 || m == 0x200_0000
    requires (c + 1) % 32 != 0
    ensures (c + 1) / m == c / m
  {
    ModModMul(c + 1, 32, m / 32);
    DivStepSame(c, m);
  }

  /** An increment that leaves the low 5 bits non-zero does not wrap the counter. */
  lemma NoWrap(c: nat)
    requires c < CounterModulus && (c + 1) % 32 != 0
    ensures (c + 1) % CounterModulus == c + 1
  {
  }

  /** The digits change only on a clock edge where the counter's low 5 bits wrap to 0,
      which is an entry into display state 0. */
  lemma DigitsHold(c: nat)
    requires (c + 1) % 32 != 0
    ensures Ones(c + 1) == Ones(c) && Tens(c + 1) == Tens(c)
  {
    FieldHolds(c, 0x20_0000);
    FieldHolds(c, 0x200_0000);
  }

  // ---------------------------------------------------------------------------
  // The display sequence.

  /** What one clock does to `segments` and `digit_sel`, state by state. */
  lemma LatchByState(r: Regs)
    ensures var ds, n := DisplayState(r.counter), Next(r);
      && (ds <= 1 ==> n.segments == DigitToSegments(Ones(r.counter)))
      && (ds == 4 || ds == 5 ==> n.segments == DigitToSegments(Tens(r.counter)))
      && (ds == 2 || ds == 6 ==> n.segments == 0)
      && (ds == 3 || ds == 7 ==> n.segments == r.segments)
      && (n.digitSel != r.digitSel ==> ds == 3 || ds == 7)
      && (ds == 3 ==> !n.digitSel)
      && (ds == 7 ==> n.digitSel)
  {
  }

  /** The facts every reachable state has: the display is blank in the selector states 3
      and 7; in state 1 it shows the ones digit and in state 5 the tens digit; `digit_sel`
      is 0 while the tens digit is loaded and shown (states 4..6), and 1 in states 0..2 once
      the sequence has passed state 7. */
  predicate Inv(r: Regs) {
    BlankWhileSelecting(r) && ShowsDigits(r) && SelClearedForTens(r) && SelSetForOnes(r)
  }

  predicate BlankWhileSelecting(r: Regs) {
    var ds := DisplayState(r.counter);
    (ds == 3 || ds == 7) ==> r.segments == 0
  }

  predicate ShowsDigits(r: Regs) {
    var ds := DisplayState(r.counter);
    && (ds == 1 ==> r.segments == DigitToSegments(Ones(r.counter)))
    && (ds == 5 ==> r.segments == DigitToSegments(Tens(r.counter)))
  }

  predicate SelClearedForTens(r: Regs) {
    var ds := DisplayState(r.counter);
    4 <= ds <= 6 ==> !r.digitSel
  }

  predicate SelSetForOnes(r: Regs) {
    var ds := DisplayState(r.counter);
    ds <= 2 && r.counter >= 32 ==> r.digitSel
  }

  lemma InvReset()
    ensures Inv(Reset)
  {
    assert DisplayState(0) == 0;
  }

  /** The low 5 bits wrap to 0 only on leaving display state 7. */
  lemma WrapOnlyFromState7(c: nat)
    requires (c + 1) % 32 == 0
    ensures DisplayState(c) == 7
  {
    DisplayStateIsPhase(c);
    ModAddMod(c, 1, 32);
    if c % 32 < 31 {
      ModOfBelow(c % 32 + 1, 32);
      assert false;
    }
  }

  /** The display is blank on entering, and throughout, states 3 and 7. */
  lemma InvStepBlank(r: Regs)
    requires BlankWhileSelecting(r)
    ensures BlankWhileSelecting(Next(r))
  {
    var ds, ds' := DisplayState(r.counter), DisplayState((r.counter + 1) % CounterModulus);
    DisplayStateStep(r.counter);
    if ds' == 3 || ds' == 7 {
      if ds == 2 || ds == 6 {
        SegmentsCleared(r);
      } else {
        assert ds == 3 || ds == 7;
        SegmentsHeld(r);
      }
    }
  }

  lemma SegmentsCleared(r: Regs)
    requires DisplayState(r.counter) == 2 || DisplayState(r.counter) == 6
    ensures Next(r).segments == 0
  {
  }

  lemma SegmentsHeld(r: Regs)
    requires DisplayState(r.counter) == 3 || DisplayState(r.counter) == 7
    ensures Next(r).segments == r.segments
  {
  }

  /** In states 1 and 5 the register holds the pattern latched in the state before, and the
      digit has not changed since, because only leaving state 7 changes it. */
  lemma InvStepDigits(r: Regs)
    requires r.counter < CounterModulus
    ensures ShowsDigits(Next(r))
  {
    var c := r.counter;
    var ds' := DisplayState((c + 1) % CounterModulus);
    if ds' == 1 || ds' == 5 {
      StepWithinDigit(c);
    }
  }

  /** An edge that does not leave state 7 is a plain increment, enters the state after or
      stays, and keeps both digits. */
  lemma StepWithinDigit(c: nat)
    requires c < CounterModulus && DisplayState(c) != 7
    ensures (c + 1) % CounterModulus == c + 1
    ensures DisplayState(c + 1) == DisplayState(c) || DisplayState(c + 1) == DisplayState(c) + 1
    ensures Ones(c + 1) == Ones(c) && Tens(c + 1) == Tens(c)
  {
    DisplayStateStep(c);
    if (c + 1) % 32 == 0 {
      WrapOnlyFromState7(c);
    }
    NoWrap(c);
    DigitsHold(c);
  }

  /** `digit_sel` is 0 in states 4..6, having been cleared in state 3. */
  lemma InvStepSelCleared(r: Regs)
    requires SelClearedForTens(r)
    ensures SelClearedForTens(Next(r))
  {
    DisplayStateStep(r.counter);
  }

  /** `digit_sel` is 1 in states 0..2 once state 7 has set it. */
  lemma InvStepSelSet(r: Regs)
    requires r.counter < CounterModulus && SelSetForOnes(r)
    ensures SelSetForOnes(Next(r))
  {
    var c := r.counter;
    if DisplayState(c) != 7 {
      StepWithinDigit(c);
    }
  }

  /** One clock keeps the facts. */
  lemma InvStep(r: Regs)
    requires Valid(r) && Inv(r)
    ensures Inv(Next(r))
  {
    InvStepBlank(r);
    InvStepDigits(r);
    InvStepSelCleared(r);
    InvStepSelSet(r);
  }

  /** Every state reachable from reset has the facts. */
  lemma {:induction false} InvReachable(n: nat)
    ensures Valid(Run(Reset, n)) && Inv(Run(Reset, n))
  {
    if n == 0 {
      InvReset();
    } else {
      InvReachable(n - 1);
      InvStep(Run(Reset, n - 1));
    }
  }

  /** The digit selector switches only while the display is blank, before and after the
      switching edge. */
  lemma DigitSelSwitchesWhenBlank(r: Regs)
    requires Valid(r) && Inv(r)
    requires Next(r).digitSel != r.digitSel
    ensures r.segments == 0 && Next(r).segments == 0
  {
    LatchByState(r);
  }

  /** The same from reset, for every cycle. */
  lemma DigitSelSwitchesWhenBlankFromReset(n: nat)
    requires Run(Reset, n + 1).digitSel != Run(Reset, n).digitSel
    ensures Run(Reset, n).segments == 0 && Run(Reset, n + 1).segments == 0
  {
    InvReachable(n);
    DigitSelSwitchesWhenBlank(Run(Reset, n));
  }

  // ---------------------------------------------------------------------------
  // The pins.

  /** The pins carry the bitwise complement of the 7-bit `segments` register. */
  lemma PinsAreComplement(r: Regs, i: nat)
    requires r.segments < Pow2(SegmentCount) && i < SegmentCount
    ensures SegmentPins(r)[i] == Bit(Not(r.segments, SegmentCount), i)
  {
    NotIsBitwise(r.segments, SegmentCount, i);
  }

  /** A blank display drives every (active-low) segment pin high. */
  lemma BlankPinsHigh(r: Regs)
    requires r.segments == 0
    ensures forall i :: 0 <= i < SegmentCount ==> SegmentPins(r)[i]
  {
  }

  // ---------------------------------------------------------------------------
  // The design as a register file clocked by Tick.

  class SevenSegCounter {
    var counter: nat
    var segments: nat
    var digitSel: bool

    function State(): Regs
      reads this
    {
      Regs(counter, segments, digitSel)
    }

    constructor ()
      ensures State() == Reset
    {
      counter, segments, digitSel := 0, 0, false;
    }

    /** One clock edge: the counter increments and `Case(display_state, ...)` updates one
        of the other two registers. */
    method Tick()
      modifies this
      ensures State() == Next(old(State()))
    {
      var ds := DisplayState(counter);
      var ones, tens := DigitToSegments(Ones(counter)), DigitToSegments(Tens(counter));
      counter := (counter + 1) % CounterModulus;
      match ds
      case 0 => segments := ones;
      case 1 => segments := ones;
      case 2 => segments := 0;
      case 3 => digitSel := false;
      case 4 => segments := tens;
      case 5 => segments := tens;
      case 6 => segments := 0;
      case 7 => digitSel := true;
    }
  }
}
