/** The reflecting ramp `UpdownCounter` and its gated form `TickUpdownCounter`
    (tristate_fade.py and pwm_fade.py carry identical copies).

    The register `icounter` has w+1 bits. Its top bit is the direction; the visible
    `counter` is the low w bits, complemented while the direction bit is set. Each
    advance adds 1, or 2 when the low w bits are all ones, so that the internal value
    jumps over the two codes (2^w and 0) that would repeat an extreme of the ramp. */
module UpdownCounter {
  import opened Bits

  /** `icounter` fits its w+1 bits. */
  predicate Valid(ic: nat, w: nat) {
    ic < Pow2(w + 1)
  }

  /** `direction = icounter[w]`: set while the ramp runs down. */
  predicate Direction(ic: nat, w: nat) {
    Bit(ic, w)
  }

  /** `counter`: `~icounter[0:w]` while the direction bit is set, `icounter[0:w]` otherwise. */
  function Value(ic: nat, w: nat): (v: nat)
    ensures v < Pow2(w)
  {
    if Direction(ic, w) then Not(Low(ic, w), w) else Low(ic, w)
  }

  /** `icounter_inv == 0`: the low w bits are all ones, the ramp is at a turn. */
  predicate AtTurn(ic: nat, w: nat) {
    Not(Low(ic, w), w) == 0
  }

  /** One clock edge of `UpdownCounter`. */
  function Advance(ic: nat, w: nat): (r: nat)
    ensures Valid(r, w)
  {
    if AtTurn(ic, w) then Add(ic, 2, w + 1) else Add(ic, 1, w + 1)
  }

  /** One clock edge of `TickUpdownCounter`: the register holds unless `tick` is set. */
  function TickAdvance(ic: nat, tick: bool, w: nat): (r: nat)
    ensures Valid(ic, w) ==> Valid(r, w)
  {
    if tick then Advance(ic, w) else ic
  }

  /** The register after n ungated advances from ic. */
  function Run(ic: nat, w: nat, n: nat): (r: nat)
    ensures Valid(ic, w) ==> Valid(r, w)
    decreases n
  {
    if n == 0 then ic else Run(Advance(ic, w), w, n - 1)
  }

  // ---------------------------------------------------------------------------
  // The ramp in plain arithmetic.

  lemma Pow2Wide(w: nat)
    ensures Pow2(w + 1) == 2 * Pow2(w)
    ensures w >= 1 ==> Pow2(w) >= 2
  {
  }

  lemma ValueArith(ic: nat, w: nat)
    requires Valid(ic, w)
    ensures Value(ic, w) == if ic < Pow2(w) then ic else 2 * Pow2(w) - 1 - ic
  {
    Pow2Wide(w);
    BitTop(ic, w);
    LowOfWide(ic, w);
  }

  lemma AdvanceArith(ic: nat, w: nat)
    requires w >= 1 && Valid(ic, w)
    ensures Advance(ic, w) ==
      if ic == Pow2(w) - 1 then Pow2(w) + 1
      else if ic == 2 * Pow2(w) - 1 then 1
      else ic + 1
  {
    Pow2Wide(w);
    AtTurnArith(ic, w);
    if AtTurn(ic, w) { AddArith(ic, 2, w); } else { AddArith(ic, 1, w); }
  }

  /** The low w bits are all ones exactly at the codes 2^w - 1 and 2^(w+1) - 1. */
  lemma AtTurnArith(ic: nat, w: nat)
    requires Valid(ic, w)
    ensures AtTurn(ic, w) <==> ic == Pow2(w) - 1 || ic == 2 * Pow2(w) - 1
  {
    Pow2Wide(w);
    LowOfWide(ic, w);
  }

  /** Adding at most 2 to the (w+1)-bit register wraps at most once. */
  lemma AddArith(ic: nat, k: nat, w: nat)
    requires Valid(ic, w) && k <= 2
    ensures Add(ic, k, w + 1) == if ic + k < Pow2(w + 1) then ic + k else ic + k - Pow2(w + 1)
  {
    var m := Pow2(w + 1);
    assert m >= 2;
    if ic + k < m { ModOfBelow(ic + k, m); } else { ModOfNextRange(ic + k, m); }
  }

  // ---------------------------------------------------------------------------
  // One advance.

  /** Every advance moves the visible value by exactly one, down when the new direction
      bit is set and up otherwise; so neither extreme is ever shown twice in a row, and
      the register never lands on 2^w or on 0. */
  lemma StepIsUnit(ic: nat, w: nat)
    requires w >= 1 && Valid(ic, w)
    ensures Value(Advance(ic, w), w) ==
            if Direction(Advance(ic, w), w) then Value(ic, w) - 1 else Value(ic, w) + 1
    ensures Value(ic, w) == 0 ==> Value(Advance(ic, w), w) == 1
    ensures Value(ic, w) == Pow2(w) - 1 ==> Value(Advance(ic, w), w) == Pow2(w) - 2
    ensures Advance(ic, w) != 0 && Advance(ic, w) != Pow2(w)
  {
    var next := Advance(ic, w);
    Pow2Wide(w);
    AdvanceArith(ic, w);
    ValueArith(ic, w);
    ValueArith(next, w);
    BitTop(next, w);
  }

  /** `TickUpdownCounter`: the visible value changes exactly on the cycles where `tick`
      is set, then by one; otherwise the register itself holds. */
  lemma TickStep(ic: nat, tick: bool, w: nat)
    requires w >= 1 && Valid(ic, w)
    ensures !tick ==> TickAdvance(ic, tick, w) == ic
    ensures Value(TickAdvance(ic, tick, w), w) != Value(ic, w) <==> tick
    ensures tick ==> (Value(TickAdvance(ic, tick, w), w) == Value(ic, w) + 1 ||
                      Value(TickAdvance(ic, tick, w), w) == Value(ic, w) - 1)
  {
    StepIsUnit(ic, w);
  }

  // ---------------------------------------------------------------------------
  // The cycle: after its first advance the register runs through the 2(2^w - 1) codes
  // other than 0 and 2^w, and the visible value is a triangle wave.

  function Period(w: nat): (p: nat)
    requires w >= 1
    ensures p >= 2
  {
    Pow2Wide(w);
    2 * (Pow2(w) - 1)
  }

  /** The codes the register takes after its first advance. */
  predicate OnCycle(ic: nat, w: nat) {
    Valid(ic, w) && ic != 0 && ic != Pow2(w)
  }

  /** Position of a code on the cycle, 0 for the code 1. */
  function Phase(ic: nat, w: nat): (p: nat)
    requires w >= 1 && OnCycle(ic, w)
    ensures p < Period(w)
  {
    Pow2Wide(w);
    if ic < Pow2(w) then ic - 1 else ic - 2
  }

  /** Reference triangle wave of height 2^w - 1: it climbs from 1 to 2^w - 1 over the first
      2^w - 1 positions, then descends to 0. */
  function Triangle(p: nat, w: nat): (v: nat)
    requires w >= 1 && p < Period(w)
    ensures v < Pow2(w)
  {
    if p < Pow2(w) - 1 then p + 1 else Period(w) - 1 - p
  }

  /** One position further round a cycle of p positions. */
  function NextPos(a: nat, p: nat): nat {
    if a + 1 >= p then 0 else a + 1
  }

  /** n positions further round a cycle of p positions, taken one at a time. */
  function Walk(a: nat, n: nat, p: nat): (r: nat)
    ensures a < p ==> r < p
    decreases n
  {
    if n == 0 then a else Walk(NextPos(a, p), n - 1, p)
  }

  /** Walking n positions from a is adding n modulo p. */
  lemma {:induction false} WalkIsMod(a: nat, n: nat, p: nat)
    requires a < p
    ensures Walk(a, n, p) == (a + n) % p
    decreases n
  {
    if n == 0 {
      ModOfBelow(a, p);
    } else {
      WalkIsMod(NextPos(a, p), n - 1, p);
      if a + 1 == p {
        ModAddPeriod(n - 1, p);
      }
    }
  }

  lemma PhaseStep(ic: nat, w: nat)
    requires w >= 1 && OnCycle(ic, w)
    ensures OnCycle(Advance(ic, w), w)
    ensures Phase(Advance(ic, w), w) == NextPos(Phase(ic, w), Period(w))
  {
    Pow2Wide(w);
    AdvanceArith(ic, w);
  }

  lemma ValueOnCycle(ic: nat, w: nat)
    requires w >= 1 && OnCycle(ic, w)
    ensures Value(ic, w) == Triangle(Phase(ic, w), w)
  {
    Pow2Wide(w);
    ValueArith(ic, w);
  }

  lemma PhaseInjective(a: nat, b: nat, w: nat)
    requires w >= 1 && OnCycle(a, w) && OnCycle(b, w)
    requires Phase(a, w) == Phase(b, w)
    ensures a == b
  {
  }

  /** n advances walk the phase n places round the cycle. */
  lemma {:induction false} RunPhase(ic: nat, w: nat, n: nat)
    requires w >= 1 && OnCycle(ic, w)
    ensures OnCycle(Run(ic, w, n), w)
    ensures Phase(Run(ic, w, n), w) == Walk(Phase(ic, w), n, Period(w))
    decreases n
  {
    if n > 0 {
      var next := Advance(ic, w);
      PhaseStep(ic, w);
      RunPhase(next, w, n - 1);
      assert Run(ic, w, n) == Run(next, w, n - 1);
    }
  }

  /** A walk of p places round a cycle of p positions comes back, and no shorter one does. */
  lemma WalkReturns(a: nat, k: nat, p: nat)
    requires a < p && k <= p
    ensures Walk(a, k, p) == a <==> k == 0 || k == p
  {
    WalkIsMod(a, k, p);
    if a + k < p { ModOfBelow(a + k, p); } else { ModOfNextRange(a + k, p); }
  }

  lemma ReturnsAfterPeriod(ic: nat, w: nat)
    requires w >= 1 && OnCycle(ic, w)
    ensures Run(ic, w, Period(w)) == ic
  {
    RunPhase(ic, w, Period(w));
    WalkReturns(Phase(ic, w), Period(w), Period(w));
    PhaseInjective(Run(ic, w, Period(w)), ic, w);
  }

  lemma NoEarlierReturn(ic: nat, w: nat, k: nat)
    requires w >= 1 && OnCycle(ic, w) && 0 < k < Period(w)
    ensures Run(ic, w, k) != ic
  {
    RunPhase(ic, w, k);
    WalkReturns(Phase(ic, w), k, Period(w));
  }

  /** Once on the cycle, the register repeats after exactly 2(2^w - 1) advances and no sooner. */
  lemma Periodic(ic: nat, w: nat)
    requires w >= 1 && OnCycle(ic, w)
    ensures Run(ic, w, Period(w)) == ic
    ensures forall k :: 0 < k < Period(w) ==> Run(ic, w, k) != ic
  {
    ReturnsAfterPeriod(ic, w);
    forall k | 0 < k < Period(w)
      ensures Run(ic, w, k) != ic
    {
      NoEarlierReturn(ic, w, k);
    }
  }

  /** From the reset value 0, the visible value after n advances is the triangle wave
      0, 1, ..., 2^w - 1, 2^w - 2, ..., 0, 1, ... */
  lemma {:induction false} FromReset(w: nat, n: nat)
    requires w >= 1
    ensures n == 0 ==> Value(Run(0, w, n), w) == 0
    ensures n >= 1 ==> Value(Run(0, w, n), w) == Triangle(Walk(0, n - 1, Period(w)), w)
  {
    if n == 0 {
      ResetValue(w);
    } else {
      var r := Run(1, w, n - 1);
      ResetRun(w, n);
      CycleFromStart(w, n - 1);
      ValueOnCycle(r, w);
    }
  }

  lemma ResetValue(w: nat)
    ensures Value(0, w) == 0
  {
    ValueArith(0, w);
  }

  /** The first advance from reset lands on the code 1. */
  lemma {:induction false} ResetRun(w: nat, n: nat)
    requires w >= 1 && n >= 1
    ensures Run(0, w, n) == Run(1, w, n - 1)
  {
    FirstAdvance(w);
  }

  lemma FirstAdvance(w: nat)
    requires w >= 1
    ensures Advance(0, w) == 1
  {
    Pow2Wide(w);
    AdvanceArith(0, w);
  }

  /** From the code 1, the start of the cycle, k advances lead to position k of the cycle. */
  lemma {:induction false} CycleFromStart(w: nat, k: nat)
    requires w >= 1
    ensures OnCycle(Run(1, w, k), w)
    ensures Phase(Run(1, w, k), w) == Walk(0, k, Period(w))
  {
    Pow2Wide(w);
    assert OnCycle(1, w) && Phase(1, w) == 0;
    RunPhase(1, w, k);
  }


  /** The triangle takes its extremes once per period: 0 only at the last position and
      2^w - 1 only at position 2^w - 2. */
  lemma TriangleExtremes(p: nat, w: nat)
    requires w >= 1 && p < Period(w)
    ensures Triangle(p, w) == 0 <==> p == Period(w) - 1
    ensures Triangle(p, w) == Pow2(w) - 1 <==> p == Pow2(w) - 2
  {
    Pow2Wide(w);
  }

  /** Every w-bit value occurs on the triangle. */
  lemma TriangleOnto(v: nat, w: nat)
    requires w >= 1 && v < Pow2(w)
    ensures exists p: nat :: p < Period(w) && Triangle(p, w) == v
  {
    Pow2Wide(w);
    if v == 0 {
      assert Triangle(Period(w) - 1, w) == v;
    } else {
      assert Triangle(v - 1, w) == v;
    }
  }
}
