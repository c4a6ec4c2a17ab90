/**
 * Reversible circuits as `find_lines.hpp` and `write_qpic.cpp` see them: a
 * number of lines, the names of their inputs and outputs, and a list of
 * gates. A gate has control lines, each with a polarity (`variable`), and
 * target lines; its kind is its target tag.
 */
module Circuit {
  /** A control: a line and whether it controls on 1 (positive) or on 0. */
  datatype Control = Control(line: nat, polarity: bool)

  /** The target tags that matter here; every other tag is `OtherKind`. */
  datatype GateKind = Toffoli | Fredkin | OtherKind

  datatype Gate = Gate(controls: seq<Control>, targets: seq<nat>, kind: GateKind)

  datatype Circuit = Circuit(lines: nat, inputs: seq<string>, outputs: seq<string>, gates: seq<Gate>)

  /** Every line has an input name and an output name. */
  predicate WellFormed(circ: Circuit) {
    |circ.inputs| == circ.lines && |circ.outputs| == circ.lines
  }

  /** The lines of the controls, in order. */
  function ControlLines(g: Gate): (r: seq<nat>)
    ensures |r| == |g.controls| && forall k :: 0 <= k < |r| ==> r[k] == g.controls[k].line
  {
    seq(|g.controls|, k requires 0 <= k < |g.controls| => g.controls[k].line)
  }
}
