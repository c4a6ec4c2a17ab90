/**
 * `write_qpic.cpp`: a circuit as qpic text. One header line per circuit
 * line, `l<i> W <input> <output>`, then one line per gate: for a Toffoli
 * gate its controls and then its targets marked `+`; for a Fredkin gate its
 * two targets, `SWAP`, then its controls. Items are separated by single
 * spaces and every line ends with a newline.
 *
 * A decoder for gate lines shows that a line determines its gate.
 */
module Qpic {
  import opened Wrappers
  import opened Seqs
  import opened Text
  import opened Circuit

  /** The gates the writer rejects with an assertion, by their position. */
  datatype QpicError = FredkinTargets(gate: nat) | UnsupportedGate(gate: nat)

  /** A line reference: `l` and the line number. */
  function LineRef(l: nat): (s: string)
    ensures |s| >= 2 && s[0] == 'l' && s[1..] == NatToString(l)
  {
    "l" + NatToString(l)
  }

  /** `format_control`: `l<line>`, preceded by `-` when the control is negative. */
  function FormatControl(v: Control): string {
    (if v.polarity then "" else "-") + LineRef(v.line)
  }

  /** `format_target`: the prefix, then `l<line>`. */
  function FormatTarget(t: nat, prefix: string): string {
    prefix + LineRef(t)
  }

  /** Reads `l<digits>`. */
  function ParseLineRef(s: string): Option<nat> {
    if |s| >= 2 && s[0] == 'l' && forall c :: c in s[1..] ==> IsDigit(c) then Some(ParseNat(s[1..])) else None
  }

  function ParseControl(s: string): Option<Control> {
    if |s| > 0 && s[0] == '-' then
      match ParseLineRef(s[1..])
      case Some(l) => Some(Control(l, false))
      case None => None
    else
      match ParseLineRef(s)
      case Some(l) => Some(Control(l, true))
      case None => None
  }

  lemma ParseLineRefInverse(l: nat)
    ensures ParseLineRef(LineRef(l)) == Some(l)
  {
    ParseNatToString(l);
  }

  /** A control's text reads back as the control. */
  lemma ParseFormatControl(v: Control)
    ensures ParseControl(FormatControl(v)) == Some(v)
  {
    ParseLineRefInverse(v.line);
    if !v.polarity {
      assert FormatControl(v)[1..] == LineRef(v.line);
    } else {
      assert FormatControl(v) == LineRef(v.line);
    }
  }

  function FormatControls(cs: seq<Control>): (r: seq<string>)
    ensures |r| == |cs| && forall k :: 0 <= k < |cs| ==> r[k] == FormatControl(cs[k])
  {
    seq(|cs|, k requires 0 <= k < |cs| => FormatControl(cs[k]))
  }

  function FormatTargets(ts: seq<nat>, prefix: string): (r: seq<string>)
    ensures |r| == |ts| && forall k :: 0 <= k < |ts| ==> r[k] == FormatTarget(ts[k], prefix)
  {
    seq(|ts|, k requires 0 <= k < |ts| => FormatTarget(ts[k], prefix))
  }

  /** The gate can be written: a Toffoli gate, or a Fredkin gate with two targets. */
  predicate Supported(g: Gate) {
    g.kind == Toffoli || (g.kind == Fredkin && |g.targets| == 2)
  }

  /** The items of gate number `index`, or the assertion it fails. */
  function GateItems(g: Gate, index: nat): (r: Result<seq<string>, QpicError>)
    ensures r.Ok? <==> Supported(g)
    ensures r.Ok? && g.kind == Toffoli ==> |r.value| == |g.controls| + |g.targets|
    ensures r.Ok? && g.kind == Fredkin ==> |r.value| == |g.controls| + 3
  {
    match g.kind
    case Toffoli => Ok(FormatControls(g.controls) + FormatTargets(g.targets, "+"))
    case Fredkin =>
      if |g.targets| != 2 then Err(FredkinTargets(index))
      else Ok(FormatTargets(g.targets, "") + ["SWAP"] + FormatControls(g.controls))
    case OtherKind => Err(UnsupportedGate(index))
  }

  /** The header line of circuit line `i`. */
  function HeaderLine(circ: Circuit, i: nat): string
    requires WellFormed(circ) && i < circ.lines
  {
    LineRef(i) + " W " + circ.inputs[i] + " " + circ.outputs[i]
  }

  function Headers(circ: Circuit): (r: seq<string>)
    requires WellFormed(circ)
    ensures |r| == circ.lines && forall i :: 0 <= i < circ.lines ==> r[i] == HeaderLine(circ, i)
  {
    seq(circ.lines, i requires 0 <= i < circ.lines => HeaderLine(circ, i))
  }

  /** The lines of the gates, or the first assertion a gate fails. */
  function GateLines(gates: seq<Gate>): (r: Result<seq<string>, QpicError>)
    ensures r.Ok? ==> |r.value| == |gates|
  {
    if |gates| == 0 then Ok([])
    else
      match GateLines(gates[..|gates| - 1])
      case Err(e) => Err(e)
      case Ok(lines) =>
        match GateItems(gates[|gates| - 1], |gates| - 1)
        case Err(e) => Err(e)
        case Ok(items) => Ok(lines + [Join(items, " ")])
  }

  /** Once a prefix of the gates fails, the whole sequence fails with the same error. */
  lemma {:induction false} GateLinesFirstError(gates: seq<Gate>, j: nat)
    requires j <= |gates| && GateLines(gates[..j]).Err?
    ensures GateLines(gates) == GateLines(gates[..j])
    decreases |gates| - j
  {
    if j < |gates| {
      assert gates[..j + 1][..j] == gates[..j];
      GateLinesFirstError(gates, j + 1);
    } else {
      assert gates[..j] == gates;
    }
  }

  /** All lines written for the circuit: the headers, then the gate lines. */
  function QpicLines(circ: Circuit): Result<seq<string>, QpicError>
    requires WellFormed(circ)
  {
    match GateLines(circ.gates)
    case Err(e) => Err(e)
    case Ok(lines) => Ok(Headers(circ) + lines)
  }

  /** The items of one gate, collected in the order the writer streams them. */
  method WriteGate(g: Gate, index: nat) returns (r: Result<seq<string>, QpicError>)
    ensures r == GateItems(g, index)
  {
    var items: seq<string> := [];
    if g.kind == Toffoli {
      for j := 0 to |g.controls|
        invariant items == FormatControls(g.controls[..j])
      {
        items := items + [FormatControl(g.controls[j])];
      }
      assert g.controls[..|g.controls|] == g.controls;
      ghost var controls := items;
      for j := 0 to |g.targets|
        invariant items == controls + FormatTargets(g.targets[..j], "+")
      {
        items := items + [FormatTarget(g.targets[j], "+")];
      }
      assert g.targets[..|g.targets|] == g.targets;
    } else if g.kind == Fredkin {
      if |g.targets| != 2 {
        return Err(FredkinTargets(index));
      }
      for j := 0 to |g.targets|
        invariant items == FormatTargets(g.targets[..j], "")
      {
        items := items + [FormatTarget(g.targets[j], "")];
      }
      assert g.targets[..|g.targets|] == g.targets;
      items := items + ["SWAP"];
      ghost var front := items;
      for j := 0 to |g.controls|
        invariant items == front + FormatControls(g.controls[..j])
      {
        items := items + [FormatControl(g.controls[j])];
      }
      assert g.controls[..|g.controls|] == g.controls;
    } else {
      return Err(UnsupportedGate(index));
    }
    return Ok(items);
  }

  /**
   * `write_qpic(circ, os)`: the text streamed to `os`, each line followed by
   * a newline, or the assertion a gate fails.
   */
  method WriteQpic(circ: Circuit) returns (r: Result<string, QpicError>)
    requires WellFormed(circ)
    ensures QpicLines(circ).Ok? ==> r == Ok(Terminated(QpicLines(circ).value, '\n'))
    ensures QpicLines(circ).Err? ==> r == Err(QpicLines(circ).error)
  {
    var os := "";
    for i := 0 to circ.lines
      invariant os == Terminated(Headers(circ)[..i], '\n')
    {
      TerminatedAppend(Headers(circ)[..i], HeaderLine(circ, i), '\n');
      assert Headers(circ)[..i + 1] == Headers(circ)[..i] + [HeaderLine(circ, i)];
      os := os + HeaderLine(circ, i) + "\n";
    }
    assert Headers(circ)[..circ.lines] == Headers(circ);

    ghost var done: seq<string> := [];
    assert Headers(circ) + done == Headers(circ);
    for k := 0 to |circ.gates|
      invariant GateLines(circ.gates[..k]) == Ok(done)
      invariant os == Terminated(Headers(circ) + done, '\n')
    {
      var g := circ.gates[k];
      assert circ.gates[..k + 1][..k] == circ.gates[..k];
      var written := WriteGate(g, k);
      if written.Err? {
        GateLinesFirstError(circ.gates, k + 1);
        return Err(written.error);
      }
      var items := written.value;
      TerminatedAppend(Headers(circ) + done, Join(items, " "), '\n');
      assert Headers(circ) + done + [Join(items, " ")] == Headers(circ) + (done + [Join(items, " ")]);
      os := os + Join(items, " ") + "\n";
      done := done + [Join(items, " ")];
    }
    assert circ.gates[..|circ.gates|] == circ.gates;
    return Ok(os);
  }

  // ---------------------------------------------------------------------------
  // What the written text says
  // ---------------------------------------------------------------------------

  /** The line of a gate the writer accepts. */
  function GateLine(g: Gate): string
    requires Supported(g)
  {
    Join(GateItems(g, 0).value, " ")
  }

  /**
   * The gate lines exist exactly when every gate is supported; they are then
   * the gates' lines in order.
   */
  lemma {:induction false} GateLinesOk(gates: seq<Gate>)
    ensures GateLines(gates).Ok? <==> forall k :: 0 <= k < |gates| ==> Supported(gates[k])
    ensures GateLines(gates).Ok? ==> forall k :: 0 <= k < |gates| ==> GateLines(gates).value[k] == GateLine(gates[k])
    decreases |gates|
  {
    if |gates| > 0 {
      var n := |gates| - 1;
      var front := gates[..n];
      GateLinesOk(front);
      assert forall k :: 0 <= k < n ==> front[k] == gates[k];
      if GateItems(gates[n], n).Ok? {
        assert GateItems(gates[n], 0).value == GateItems(gates[n], n).value;
      }
    }
  }

  /**
   * When the gate lines fail, the error names the first gate that is not
   * supported, and says whether it is a Fredkin gate.
   */
  lemma {:induction false} GateLinesErr(gates: seq<Gate>)
    requires GateLines(gates).Err?
    ensures var k := GateLines(gates).error.gate;
      && k < |gates| && !Supported(gates[k])
      && (forall j :: 0 <= j < k ==> Supported(gates[j]))
      && (GateLines(gates).error.FredkinTargets? <==> gates[k].kind == Fredkin)
    decreases |gates|
  {
    var n := |gates| - 1;
    var front := gates[..n];
    assert forall k :: 0 <= k < n ==> front[k] == gates[k];
    if GateLines(front).Err? {
      GateLinesErr(front);
    } else {
      GateLinesOk(front);
    }
  }

  /**
   * `write_qpic` writes a circuit exactly when all its gates are Toffoli
   * gates or Fredkin gates with two targets. It then writes one header line
   * per circuit line, then one line per gate, in order.
   */
  lemma QpicLinesSpec(circ: Circuit)
    requires WellFormed(circ)
    ensures QpicLines(circ).Ok? <==> forall k :: 0 <= k < |circ.gates| ==> Supported(circ.gates[k])
    ensures QpicLines(circ).Ok? ==>
      var lines := QpicLines(circ).value;
      && |lines| == circ.lines + |circ.gates|
      && (forall i :: 0 <= i < circ.lines ==> lines[i] == HeaderLine(circ, i))
      && (forall k :: 0 <= k < |circ.gates| ==> lines[circ.lines + k] == GateLine(circ.gates[k]))
  {
    GateLinesOk(circ.gates);
  }

  /** Every character of a control or target item: a sign, `l` or a digit. */
  predicate ItemChar(c: char) {
    c == '-' || c == '+' || c == 'l' || IsDigit(c)
  }

  lemma ItemChars(v: Control, t: nat, prefix: string)
    requires prefix == "" || prefix == "+"
    ensures forall c :: c in FormatControl(v) ==> ItemChar(c)
    ensures forall c :: c in FormatTarget(t, prefix) ==> ItemChar(c)
    ensures |FormatControl(v)| > 0 && ' ' !in FormatControl(v) && '\n' !in FormatControl(v)
    ensures |FormatTarget(t, prefix)| > 0 && ' ' !in FormatTarget(t, prefix) && '\n' !in FormatTarget(t, prefix)
  {
    var a, b := LineRef(v.line), LineRef(t);
    assert forall c :: c in a ==> c == 'l' || c in a[1..];
    assert forall c :: c in b ==> c == 'l' || c in b[1..];
  }

  /** The items of a supported gate are non-empty and hold no space and no newline. */
  lemma GateItemsPlain(g: Gate)
    requires Supported(g)
    ensures SplittableBy(GateItems(g, 0).value, ' ')
    ensures forall k :: 0 <= k < |GateItems(g, 0).value| ==> '\n' !in GateItems(g, 0).value[k]
  {
    var items := GateItems(g, 0).value;
    forall k | 0 <= k < |items| ensures |items[k]| > 0 && ' ' !in items[k] && '\n' !in items[k] {
      if g.kind == Toffoli {
        var nc := |g.controls|;
        if k < nc {
          ItemChars(g.controls[k], 0, "");
          assert items[k] == FormatControl(g.controls[k]);
        } else {
          ItemChars(Control(0, true), g.targets[k - nc], "+");
          assert items[k] == FormatTarget(g.targets[k - nc], "+");
        }
      } else if k < 2 {
        ItemChars(Control(0, true), g.targets[k], "");
        assert items[k] == FormatTarget(g.targets[k], "");
      } else if k > 2 {
        ItemChars(g.controls[k - 3], 0, "");
        assert items[k] == FormatControl(g.controls[k - 3]);
      }
    }
  }

  /**
   * When no input or output name contains a newline, splitting the written
   * text at newlines gives back the lines.
   */
  lemma QpicTextLines(circ: Circuit)
    requires WellFormed(circ) && QpicLines(circ).Ok?
    requires forall i :: 0 <= i < circ.lines ==> '\n' !in circ.inputs[i] && '\n' !in circ.outputs[i]
    ensures Split(Terminated(QpicLines(circ).value, '\n'), '\n') == QpicLines(circ).value
  {
    var lines := QpicLines(circ).value;
    QpicLinesSpec(circ);
    forall k | 0 <= k < |lines| ensures '\n' !in lines[k] {
      if k < circ.lines {
        ParseLineRefInverse(k);
        var r := LineRef(k);
        assert forall c :: c in r ==> c == 'l' || c in r[1..];
        assert lines[k] == r + " W " + circ.inputs[k] + " " + circ.outputs[k];
      } else {
        var g := circ.gates[k - circ.lines];
        GateItemsPlain(g);
        JoinAvoids(GateItems(g, 0).value, " ", '\n');
      }
    }
    SplitTerminated(lines, '\n');
  }

  // ---------------------------------------------------------------------------
  // Reading gate lines back
  // ---------------------------------------------------------------------------

  function ParseControls(items: seq<string>): Option<seq<Control>> {
    if |items| == 0 then Some([])
    else
      match (ParseControl(items[0]), ParseControls(items[1..]))
      case (Some(c), Some(cs)) => Some([c] + cs)
      case _ => None
  }

  /** Reads a target item, which carries a leading `+` when `marked`. */
  function ParseTarget(s: string, marked: bool): Option<nat> {
    if !marked then ParseLineRef(s)
    else if |s| > 0 && s[0] == '+' then ParseLineRef(s[1..])
    else None
  }

  function ParseTargets(items: seq<string>, marked: bool): Option<seq<nat>> {
    if |items| == 0 then Some([])
    else
      match (ParseTarget(items[0], marked), ParseTargets(items[1..], marked))
      case (Some(t), Some(ts)) => Some([t] + ts)
      case _ => None
  }

  /** How many items come before the first one marked `+`. */
  function FirstMarked(items: seq<string>): (m: nat)
    ensures m <= |items|
  {
    if |items| == 0 || (|items[0]| > 0 && items[0][0] == '+') then 0
    else 1 + FirstMarked(items[1..])
  }

  /**
   * Reads a gate line: with a `SWAP` item, a Fredkin gate whose targets come
   * before it and whose controls follow it; otherwise a Toffoli gate whose
   * controls come before the first `+` item and whose targets are the rest.
   */
  function DecodeGateLine(line: string): Option<Gate> {
    var items := Split(line, ' ');
    var k := IndexOf(items, "SWAP");
    if k < |items| then
      match (ParseTargets(items[..k], false), ParseControls(items[k + 1..]))
      case (Some(ts), Some(cs)) => Some(Gate(cs, ts, Fredkin))
      case _ => None
    else
      var m := FirstMarked(items);
      match (ParseControls(items[..m]), ParseTargets(items[m..], true))
      case (Some(cs), Some(ts)) => Some(Gate(cs, ts, Toffoli))
      case _ => None
  }

  lemma {:induction false} ParseFormatControls(cs: seq<Control>)
    ensures ParseControls(FormatControls(cs)) == Some(cs)
    decreases |cs|
  {
    if |cs| > 0 {
      assert FormatControls(cs)[1..] == FormatControls(cs[1..]);
      ParseFormatControl(cs[0]);
      ParseFormatControls(cs[1..]);
      assert cs == [cs[0]] + cs[1..];
    }
  }

  lemma {:induction false} ParseFormatTargets(ts: seq<nat>, marked: bool)
    ensures ParseTargets(FormatTargets(ts, if marked then "+" else ""), marked) == Some(ts)
    decreases |ts|
  {
    if |ts| > 0 {
      var prefix := if marked then "+" else "";
      assert FormatTargets(ts, prefix)[1..] == FormatTargets(ts[1..], prefix);
      ParseLineRefInverse(ts[0]);
      if marked {
        assert FormatTarget(ts[0], prefix)[1..] == LineRef(ts[0]);
      } else {
        assert FormatTarget(ts[0], prefix) == LineRef(ts[0]);
      }
      ParseFormatTargets(ts[1..], marked);
      assert ts == [ts[0]] + ts[1..];
    }
  }

  lemma {:induction false} FirstMarkedAfter(a: seq<string>, b: seq<string>)
    requires forall k :: 0 <= k < |a| ==> |a[k]| > 0 && a[k][0] != '+'
    requires |b| > 0 ==> |b[0]| > 0 && b[0][0] == '+'
    ensures FirstMarked(a + b) == |a|
    decreases |a|
  {
    if |a| == 0 {
      assert a + b == b;
    } else {
      assert (a + b)[1..] == a[1..] + b;
      FirstMarkedAfter(a[1..], b);
    }
  }

  /** A Fredkin gate's items: `SWAP` third, after the two targets and before the controls. */
  lemma FredkinItems(g: Gate)
    requires g.kind == Fredkin && |g.targets| == 2
    ensures var items := GateItems(g, 0).value;
      && IndexOf(items, "SWAP") == 2
      && items[..2] == FormatTargets(g.targets, "")
      && items[3..] == FormatControls(g.controls)
  {
    var items := GateItems(g, 0).value;
    var targets := FormatTargets(g.targets, "");
    assert items == targets + ["SWAP"] + FormatControls(g.controls);
    assert items[0][0] == 'l' && items[1][0] == 'l';
    IndexOfFirst(items, "SWAP", 2);
  }

  /** A Toffoli gate's items: no `SWAP`, and the targets start at the first `+` item. */
  lemma ToffoliItems(g: Gate)
    requires g.kind == Toffoli
    ensures var items := GateItems(g, 0).value;
      && "SWAP" !in items
      && FirstMarked(items) == |g.controls|
      && items[..|g.controls|] == FormatControls(g.controls)
      && items[|g.controls|..] == FormatTargets(g.targets, "+")
  {
    var items := GateItems(g, 0).value;
    var controls, targets := FormatControls(g.controls), FormatTargets(g.targets, "+");
    assert items == controls + targets;
    forall k | 0 <= k < |controls| ensures |controls[k]| > 0 && controls[k][0] != '+' && controls[k] != "SWAP" {
      assert controls[k][0] == '-' || controls[k][0] == 'l';
    }
    forall k | 0 <= k < |targets| ensures targets[k] != "SWAP" {
      assert targets[k][0] == '+';
    }
    FirstMarkedAfter(controls, targets);
  }

  /** A written gate line reads back as the gate. */
  lemma DecodeGateLineInverse(g: Gate)
    requires Supported(g)
    ensures DecodeGateLine(GateLine(g)) == Some(g)
  {
    var items := GateItems(g, 0).value;
    GateItemsPlain(g);
    SplitJoin(items, ' ');
    assert Split(GateLine(g), ' ') == items;
    ParseFormatControls(g.controls);
    if g.kind == Fredkin {
      FredkinItems(g);
      ParseFormatTargets(g.targets, false);
    } else {
      ToffoliItems(g);
      ParseFormatTargets(g.targets, true);
    }
  }

  /** Different supported gates are written as different lines. */
  lemma GateLineInjective(g: Gate, h: Gate)
    requires Supported(g) && Supported(h) && GateLine(g) == GateLine(h)
    ensures g == h
  {
    DecodeGateLineInverse(g);
    DecodeGateLineInverse(h);
  }

  /**
   * When the names are non-empty and hold no space, a header line splits
   * into the line reference, `W`, the input name and the output name.
   */
  lemma HeaderItems(circ: Circuit, i: nat)
    requires WellFormed(circ) && i < circ.lines
    requires |circ.inputs[i]| > 0 && ' ' !in circ.inputs[i]
    requires |circ.outputs[i]| > 0 && ' ' !in circ.outputs[i]
    ensures Split(HeaderLine(circ, i), ' ') == [LineRef(i), "W", circ.inputs[i], circ.outputs[i]]
    ensures ParseLineRef(Split(HeaderLine(circ, i), ' ')[0]) == Some(i)
  {
    var items := [LineRef(i), "W", circ.inputs[i], circ.outputs[i]];
    ItemChars(Control(i, true), 0, "");
    assert FormatControl(Control(i, true)) == LineRef(i);
    assert Join(items, " ") == HeaderLine(circ, i) by {
      assert items[1..][1..][1..] == [circ.outputs[i]];
      assert Join(items[1..][1..], " ") == circ.inputs[i] + " " + circ.outputs[i];
      assert Join(items[1..], " ") == "W" + " " + (circ.inputs[i] + " " + circ.outputs[i]);
    }
    SplitJoin(items, ' ');
    ParseLineRefInverse(i);
  }
}
