/** `TristatePins` (identical in tristate_fade.py and tristate_blink.py): pad i is driven by
    a tristate buffer whose output level is `on[i]` and whose output enable is `~hiz[i]`.
    The buffer's electrical behaviour is abstracted to the three pad states. */
module Tristate {

  /** What a pad does in one cycle. */
  datatype PadState = DrivenHigh | DrivenLow | HighZ

  /** One `TSTriple`: output enable `oe` and output level `o`. */
  datatype Triple = Triple(oe: bool, o: bool)

  /** A disabled buffer leaves the pad floating, whatever its output level. */
  function State(t: Triple): PadState {
    if !t.oe then HighZ else if t.o then DrivenHigh else DrivenLow
  }

  /** The n buffers: `t[i].o = on[i]`, `t[i].oe = ~hiz[i]`. */
  function Pins(on: seq<bool>, hiz: seq<bool>): (ts: seq<Triple>)
    requires |on| == |hiz|
    ensures |ts| == |on|
    ensures forall i :: 0 <= i < |ts| ==> (State(ts[i]) == HighZ <==> hiz[i])
    ensures forall i :: 0 <= i < |ts| ==> (State(ts[i]) == DrivenHigh <==> !hiz[i] && on[i])
    ensures forall i :: 0 <= i < |ts| ==> (State(ts[i]) == DrivenLow <==> !hiz[i] && !on[i])
  {
    seq(|on|, i requires 0 <= i < |on| => Triple(!hiz[i], on[i]))
  }
}
