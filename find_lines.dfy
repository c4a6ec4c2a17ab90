/**
 * `find_lines.hpp`: the lines a gate, a range of gates or a circuit uses
 * (controls and targets), and the lines it leaves empty, which are
 * `[0, line_size)` minus the used lines, in ascending order.
 *
 * The source writes through output iterators. The functions here give the
 * sequence that reaches the iterator; `std::set_difference` over the
 * counting range is `Difference`. The last section models a plain
 * positional output iterator, under which the source's discarded return
 * values make later lines overwrite earlier ones.
 */
module FindLines {
  import opened Circuit

  /** `find_non_empty_lines(gate)`: the control lines followed by the targets. */
  function NonEmptyLines(g: Gate): (r: seq<nat>)
    ensures |r| == |g.controls| + |g.targets|
    ensures forall k :: 0 <= k < |g.controls| ==> r[k] == g.controls[k].line
    ensures forall k :: 0 <= k < |g.targets| ==> r[|g.controls| + k] == g.targets[k]
    ensures forall l :: l in r <==> l in ControlLines(g) || l in g.targets
  {
    ControlLines(g) + g.targets
  }

  /** `find_non_empty_lines(first, last)`: each gate's lines, gate after gate. */
  function RangeNonEmptyLines(gates: seq<Gate>): seq<nat> {
    if |gates| == 0 then [] else NonEmptyLines(gates[0]) + RangeNonEmptyLines(gates[1..])
  }

  /** The range version lists exactly the lines some gate of the range uses. */
  lemma {:induction false} RangeNonEmptyLinesMembers(gates: seq<Gate>)
    ensures forall l :: l in RangeNonEmptyLines(gates) <==> exists k :: 0 <= k < |gates| && l in NonEmptyLines(gates[k])
    decreases |gates|
  {
    if |gates| > 0 {
      var rest := RangeNonEmptyLines(gates[1..]);
      RangeNonEmptyLinesMembers(gates[1..]);
      forall l | l in rest ensures exists k :: 1 <= k < |gates| && l in NonEmptyLines(gates[k]) {
        var k :| 0 <= k < |gates[1..]| && l in NonEmptyLines(gates[1..][k]);
        assert gates[1..][k] == gates[k + 1];
      }
      forall l, k | 1 <= k < |gates| && l in NonEmptyLines(gates[k]) ensures l in rest {
        assert gates[k] == gates[1..][k - 1];
      }
    }
  }

  /** `find_non_empty_lines(circ)`: the lines used by the circuit's gates. */
  function CircuitNonEmptyLines(circ: Circuit): (r: seq<nat>)
    ensures forall l :: l in r <==> exists k :: 0 <= k < |circ.gates| && l in NonEmptyLines(circ.gates[k])
  {
    RangeNonEmptyLinesMembers(circ.gates);
    RangeNonEmptyLines(circ.gates)
  }

  /** The range version over the gates of `a + b` lists `a`'s lines, then `b`'s. */
  lemma {:induction false} RangeNonEmptyLinesAppend(a: seq<Gate>, b: seq<Gate>)
    ensures RangeNonEmptyLines(a + b) == RangeNonEmptyLines(a) + RangeNonEmptyLines(b)
    decreases |a|
  {
    if |a| > 0 {
      assert (a + b)[1..] == a[1..] + b;
      RangeNonEmptyLinesAppend(a[1..], b);
    } else {
      assert a + b == b;
    }
  }

  /** The elements of a sequence, as the `std::set` that collects them. */
  function Collect(s: seq<nat>): (r: set<nat>)
    ensures forall x :: x in r <==> x in s
  {
    set x | x in s
  }

  /** Strictly increasing, hence without repetitions. */
  predicate Ascending(s: seq<nat>) {
    forall i, j :: 0 <= i < j < |s| ==> s[i] < s[j]
  }

  /**
   * `std::set_difference` of the counting range `[lo, hi)` and `used`: the
   * numbers of the range that are not used, in ascending order.
   */
  function Difference(lo: nat, hi: nat, used: set<nat>): (r: seq<nat>)
    ensures forall l :: l in r <==> lo <= l < hi && l !in used
    ensures Ascending(r)
    ensures forall k :: 0 <= k < |r| ==> lo <= r[k]
    decreases hi - lo
  {
    if hi <= lo then []
    else (if lo in used then [] else [lo]) + Difference(lo + 1, hi, used)
  }

  /** `find_empty_lines(gate, line_size)`. */
  function EmptyLines(g: Gate, lineSize: nat): seq<nat> {
    Difference(0, lineSize, Collect(NonEmptyLines(g)))
  }

  /** `find_empty_lines(first, last, line_size)`. */
  function RangeEmptyLines(gates: seq<Gate>, lineSize: nat): seq<nat> {
    Difference(0, lineSize, Collect(RangeNonEmptyLines(gates)))
  }

  /** `find_empty_lines(circ)`: the range version with `line_size = circ.lines()`. */
  function CircuitEmptyLines(circ: Circuit): seq<nat> {
    RangeEmptyLines(circ.gates, circ.lines)
  }

  /**
   * The empty lines of a range are exactly the lines below `line_size` that
   * no gate uses as a control or a target, listed in ascending order.
   */
  lemma RangeEmptyLinesSpec(gates: seq<Gate>, lineSize: nat)
    ensures Ascending(RangeEmptyLines(gates, lineSize))
    ensures forall l: nat :: l in RangeEmptyLines(gates, lineSize) <==>
      l < lineSize && forall k :: 0 <= k < |gates| ==> l !in ControlLines(gates[k]) && l !in gates[k].targets
  {
    RangeNonEmptyLinesMembers(gates);
    forall l: nat | l < lineSize && l !in RangeEmptyLines(gates, lineSize)
      ensures exists k :: 0 <= k < |gates| && (l in ControlLines(gates[k]) || l in gates[k].targets)
    {
      var k :| 0 <= k < |gates| && l in NonEmptyLines(gates[k]);
    }
    forall l: nat, k | l in RangeEmptyLines(gates, lineSize) && 0 <= k < |gates|
      ensures l !in ControlLines(gates[k]) && l !in gates[k].targets
    {
      assert l !in NonEmptyLines(gates[k]);
    }
  }

  /** A gate's empty lines are those of the one-gate range. */
  lemma EmptyLinesOneGate(g: Gate, lineSize: nat)
    ensures EmptyLines(g, lineSize) == RangeEmptyLines([g], lineSize)
  {
    assert RangeNonEmptyLines([g]) == NonEmptyLines(g) + RangeNonEmptyLines([]);
    assert RangeNonEmptyLines([g]) == NonEmptyLines(g);
  }

  lemma {:induction false} DifferenceAgrees(lo: nat, hi: nat, a: set<nat>, b: set<nat>)
    requires forall l :: lo <= l < hi ==> (l in a <==> l in b)
    ensures Difference(lo, hi, a) == Difference(lo, hi, b)
    decreases hi - lo
  {
    if lo < hi {
      DifferenceAgrees(lo + 1, hi, a, b);
    }
  }

  /**
   * Used lines at or above `line_size` do not matter: two ranges that use
   * the same lines below `line_size` have the same empty lines.
   */
  lemma EmptyLinesIgnoreHighLines(a: seq<Gate>, b: seq<Gate>, lineSize: nat)
    requires forall l :: l < lineSize ==> (l in RangeNonEmptyLines(a) <==> l in RangeNonEmptyLines(b))
    ensures RangeEmptyLines(a, lineSize) == RangeEmptyLines(b, lineSize)
  {
    DifferenceAgrees(0, lineSize, Collect(RangeNonEmptyLines(a)), Collect(RangeNonEmptyLines(b)));
  }

  /** The numbers `lo, lo + 1, ..., hi - 1`. */
  function Iota(lo: nat, hi: nat): (r: seq<nat>)
    ensures |r| == if lo <= hi then hi - lo else 0
    ensures forall k :: 0 <= k < |r| ==> r[k] == lo + k
    decreases hi - lo
  {
    if hi <= lo then [] else [lo] + Iota(lo + 1, hi)
  }

  lemma {:induction false} DifferenceNothing(lo: nat, hi: nat, used: set<nat>)
    requires forall l :: l in used ==> l < lo || hi <= l
    ensures Difference(lo, hi, used) == Iota(lo, hi)
    decreases hi - lo
  {
    if lo < hi {
      DifferenceNothing(lo + 1, hi, used);
    }
  }

  /** With no gates, every line is empty. */
  lemma EmptyRangeAllEmpty(lineSize: nat)
    ensures RangeEmptyLines([], lineSize) == Iota(0, lineSize)
  {
    DifferenceNothing(0, lineSize, Collect(RangeNonEmptyLines([])));
  }

  /** More gates leave fewer lines empty: an empty line of `a + b` is empty in `a` and in `b`. */
  lemma EmptyLinesShrink(a: seq<Gate>, b: seq<Gate>, lineSize: nat, l: nat)
    requires l in RangeEmptyLines(a + b, lineSize)
    ensures l in RangeEmptyLines(a, lineSize) && l in RangeEmptyLines(b, lineSize)
  {
    RangeNonEmptyLinesAppend(a, b);
  }

  /** Every line below `line_size` is either used or reported empty, never both. */
  lemma UsedOrEmpty(gates: seq<Gate>, lineSize: nat, l: nat)
    requires l < lineSize
    ensures l in RangeEmptyLines(gates, lineSize) <==> l !in RangeNonEmptyLines(gates)
  {
  }

  // ---------------------------------------------------------------------------
  // Writing through a plain output iterator
  // ---------------------------------------------------------------------------

  /**
   * A plain output iterator (a pointer into a buffer, say): the buffer's
   * contents and the position the iterator writes next.
   */
  datatype Out = Out(buffer: seq<nat>, pos: nat)

  /** `xs` written over `buffer` from `pos` on; the buffer grows where needed. */
  function Overwrite(buffer: seq<nat>, pos: nat, xs: seq<nat>): (r: seq<nat>)
    requires pos <= |buffer|
    ensures |r| >= pos + |xs| && r[..pos] == buffer[..pos] && r[pos..pos + |xs|] == xs
  {
    buffer[..pos] + xs + (if pos + |xs| <= |buffer| then buffer[pos + |xs|..] else [])
  }

  /** `boost::copy(xs, out)`: writes `xs` and returns the iterator one past them. */
  function Copy(xs: seq<nat>, out: Out): (r: Out)
    requires out.pos <= |out.buffer|
    ensures r.pos == out.pos + |xs| <= |r.buffer|
  {
    Out(Overwrite(out.buffer, out.pos, xs), out.pos + |xs|)
  }

  /**
   * The gate version as written: the iterator returned by the first copy
   * is dropped, so the targets are written from where the controls began.
   */
  function GateCopyAsWritten(g: Gate, out: Out): (r: Out)
    requires out.pos <= |out.buffer|
    ensures r.pos == out.pos + |g.targets|
  {
    var afterControls := Copy(ControlLines(g), out);
    Copy(g.targets, Out(afterControls.buffer, out.pos))
  }

  /**
   * The range version as written: each gate writes from the same iterator,
   * which is also what is returned.
   */
  function RangeCopyAsWritten(gates: seq<Gate>, out: Out): (r: Out)
    requires out.pos <= |out.buffer|
    ensures r.pos == out.pos && |r.buffer| >= |out.buffer|
  {
    if |gates| == 0 then out
    else
      var first := GateCopyAsWritten(gates[0], out);
      RangeCopyAsWritten(gates[1..], Out(first.buffer, out.pos))
  }

  /** A gate controlled on line 0 with target line 1; and a gate with target line 2. */
  const ExampleFirst: Gate := Gate([Control(0, true)], [1], Toffoli)
  const ExampleSecond: Gate := Gate([], [2], Toffoli)

  /**
   * As written, a plain output iterator loses lines: the control line 0 of
   * the first gate is overwritten by its target, and the whole first gate
   * by the second; the returned iterator has not moved.
   */
  lemma NonEmptyLinesOverwritten()
    ensures GateCopyAsWritten(ExampleFirst, Out([], 0)).buffer == [1]
    ensures RangeCopyAsWritten([ExampleFirst, ExampleSecond], Out([], 0)) == Out([2], 0)
    ensures NonEmptyLines(ExampleFirst) == [0, 1]
    ensures RangeNonEmptyLines([ExampleFirst, ExampleSecond]) == [0, 1, 2]
  {
    var none: seq<nat> := [];
    assert ControlLines(ExampleFirst) == [0];
    assert ControlLines(ExampleSecond) == none;
    assert Overwrite([], 0, [0]) == [0];
    assert Overwrite([0], 0, [1]) == [1];
    var first := GateCopyAsWritten(ExampleFirst, Out([], 0));
    assert first.buffer == [1];
    assert Overwrite([1], 0, none) == [1];
    assert Overwrite([1], 0, [2]) == [2];
    var second := GateCopyAsWritten(ExampleSecond, Out([1], 0));
    assert second.buffer == [2];
    assert [ExampleFirst, ExampleSecond][1..] == [ExampleSecond];
    assert RangeCopyAsWritten([ExampleSecond], Out([1], 0)) == Out([2], 0) by {
      assert [ExampleSecond][1..] == [];
    }
    assert RangeNonEmptyLines([ExampleSecond]) == [2] by {
      assert [ExampleSecond][1..] == [];
    }
  }

  /** Writing `xs` and then `ys` right after them writes `xs + ys`. */
  lemma OverwriteTwice(buffer: seq<nat>, pos: nat, xs: seq<nat>, ys: seq<nat>)
    requires pos <= |buffer|
    ensures Overwrite(Overwrite(buffer, pos, xs), pos + |xs|, ys) == Overwrite(buffer, pos, xs + ys)
  {
    var once := Overwrite(buffer, pos, xs);
    var twice := Overwrite(once, pos + |xs|, ys);
    var whole := Overwrite(buffer, pos, xs + ys);
    assert |twice| == |whole|;
    forall k | 0 <= k < |twice| ensures twice[k] == whole[k] {
      if k < pos {
        assert twice[k] == twice[..pos][k] && whole[k] == whole[..pos][k];
      } else if k < pos + |xs| {
        assert twice[k] == once[k] == once[pos..pos + |xs|][k - pos];
        assert whole[k] == whole[pos..pos + |xs + ys|][k - pos];
      } else if k < pos + |xs| + |ys| {
        assert twice[k] == twice[pos + |xs|..pos + |xs| + |ys|][k - pos - |xs|];
        assert whole[k] == whole[pos..pos + |xs + ys|][k - pos];
      }
    }
  }

  /**
   * The gate version with the iterator advanced past the controls: the
   * controls and then the targets, with the iterator one past them.
   */
  function GateCopy(g: Gate, out: Out): (r: Out)
    requires out.pos <= |out.buffer|
    ensures r == Copy(NonEmptyLines(g), out)
  {
    OverwriteTwice(out.buffer, out.pos, ControlLines(g), g.targets);
    Copy(g.targets, Copy(ControlLines(g), out))
  }

  /** The range version with each gate's iterator passed on to the next. */
  function RangeCopy(gates: seq<Gate>, out: Out): (r: Out)
    requires out.pos <= |out.buffer|
    ensures r == Copy(RangeNonEmptyLines(gates), out)
  {
    if |gates| == 0 then
      assert Overwrite(out.buffer, out.pos, []) == out.buffer;
      out
    else
      var lines, rest := NonEmptyLines(gates[0]), RangeNonEmptyLines(gates[1..]);
      assert RangeNonEmptyLines(gates) == lines + rest;
      var first := GateCopy(gates[0], out);
      OverwriteTwice(out.buffer, out.pos, lines, rest);
      assert Copy(rest, first) == Copy(lines + rest, out);
      RangeCopy(gates[1..], first)
  }
}
