/**
 * The domain adapters of `simulate_aig.hpp`: `aig_lambda_simulator`,
 * `partial_simulator` and `aig_partial_node_assignment_simulator`. Each is a
 * `Simulator` record built from a base domain; the lemmas say what a graph
 * evaluates to under each of them.
 */
module Simulators {
  import opened Seqs
  import opened Aig

  /**
   * `aig_lambda_simulator`: the four operations given as functions, with the
   * default `terminate`, which never holds. Such a domain is always
   * overriding, so the engine computes the meaning of every node under it.
   */
  function Lambda<T(!new)>(getInput: (Node, string, nat, Graph) -> T, getConstant: () -> T,
                           invert: T -> T, andOp: (Node, T, T) -> T): (sim: Simulator<T>)
    ensures forall n, g :: !sim.terminate(n, g)
    ensures forall g :: Overriding(sim, g)
  {
    Simulator(getInput, getConstant, invert, andOp, (n: Node, g: Graph) => false)
  }

  /**
   * The inputs that `assignment` leaves open, in their original order
   * (`real_inputs`).
   */
  function Unassigned<T>(inputs: seq<Node>, assignment: map<Node, T>): seq<Node> {
    if |inputs| == 0 then []
    else
      var last := inputs[|inputs| - 1];
      Unassigned(inputs[..|inputs| - 1], assignment) + (if last in assignment then [] else [last])
  }

  /** `Unassigned` keeps exactly the inputs that are not assigned. */
  lemma {:induction false} UnassignedMembers<T>(inputs: seq<Node>, assignment: map<Node, T>)
    ensures forall x :: x in Unassigned(inputs, assignment) <==> x in inputs && x !in assignment
    decreases |inputs|
  {
    if |inputs| > 0 {
      var init, last := inputs[..|inputs| - 1], inputs[|inputs| - 1];
      UnassignedMembers(init, assignment);
      assert inputs == init + [last];
      assert forall x :: x in inputs <==> x in init || x == last;
    }
  }

  lemma {:induction false} UnassignedAppend<T>(p: seq<Node>, q: seq<Node>, assignment: map<Node, T>)
    ensures Unassigned(p + q, assignment) == Unassigned(p, assignment) + Unassigned(q, assignment)
    decreases |q|
  {
    if |q| == 0 {
      assert p + q == p;
    } else {
      var q', last := q[..|q| - 1], q[|q| - 1];
      assert (p + q)[..|p + q| - 1] == p + q';
      assert (p + q)[|p + q| - 1] == last;
      UnassignedAppend(p, q', assignment);
      var tail := if last in assignment then [] else [last];
      assert Unassigned(q, assignment) == Unassigned(q', assignment) + tail;
      assert Unassigned(p + q, assignment) == Unassigned(p + q', assignment) + tail;
    }
  }

  /**
   * An open input is found in `real_inputs` at the number of open inputs
   * that come before it in the graph's input order.
   */
  lemma UnassignedPosition<T>(inputs: seq<Node>, assignment: map<Node, T>, x: Node)
    requires x in inputs && x !in assignment
    ensures IndexOf(Unassigned(inputs, assignment), x) == |Unassigned(inputs[..IndexOf(inputs, x)], assignment)|
  {
    var k := IndexOf(inputs, x);
    var pre, post := inputs[..k], inputs[k + 1..];
    assert inputs == pre + [x] + post;
    UnassignedAppend(pre + [x], post, assignment);
    UnassignedAppend(pre, [x], assignment);
    assert Unassigned([x], assignment) == [x] by {
      assert [x][..0] == [];
    }
    assert x !in pre;
    UnassignedMembers(pre, assignment);
    IndexOfAfter(Unassigned(pre, assignment), x, Unassigned(post, assignment));
  }

  /** The real inputs, collected by the constructor's loop. */
  method RealInputs<T>(inputs: seq<Node>, assignment: map<Node, T>) returns (r: seq<Node>)
    ensures r == Unassigned(inputs, assignment)
  {
    r := [];
    for i := 0 to |inputs|
      invariant r == Unassigned(inputs[..i], assignment)
    {
      assert inputs[..i + 1][..i] == inputs[..i];
      if inputs[i] !in assignment {
        r := r + [inputs[i]];
      }
    }
    assert inputs[..|inputs|] == inputs;
  }

  /**
   * The domain of a `partial_simulator` whose real inputs are `realInputs`:
   * an assigned input reads its assigned value; any other input is passed to
   * the base domain with its position among `realInputs` (the position the
   * engine supplies is not used). The other operations are the base
   * domain's, and `terminate` is the default, which never holds.
   */
  function Partial<T>(total: Simulator<T>, assignment: map<Node, T>, realInputs: seq<Node>): Simulator<T> {
    Simulator(
      (n: Node, name: string, pos: nat, g: Graph) =>
        if n in assignment then assignment[n] else total.getInput(n, name, IndexOf(realInputs, n), g),
      total.getConstant,
      total.invert,
      total.andOp,
      (n: Node, g: Graph) => false)
  }

  /** The `partial_simulator` constructor: collects the real inputs of `g`. */
  method NewPartial<T>(total: Simulator<T>, assignment: map<Node, T>, g: Graph) returns (sim: Simulator<T>)
    ensures sim == Partial(total, assignment, Unassigned(g.inputs, assignment))
  {
    var realInputs := RealInputs(g.inputs, assignment);
    sim := Partial(total, assignment, realInputs);
  }

  /**
   * Under a partial simulator, a primary input reads its assigned value, or
   * else the base domain's value at its position among the open inputs.
   */
  lemma PartialInput<T>(g: Graph, total: Simulator<T>, assignment: map<Node, T>, u: Node)
    requires WellFormed(g) && u < |g.nodes| && g.nodes[u].Input? && u in g.inputs
    ensures NodeValue(g, Partial(total, assignment, Unassigned(g.inputs, assignment)), u) ==
      if u in assignment then assignment[u]
      else total.getInput(u, g.nodes[u].name, |Unassigned(g.inputs[..InputPosition(g, u)], assignment)|, g)
  {
    if u !in assignment {
      UnassignedPosition(g.inputs, assignment, u);
    }
  }

  /** A partial simulator never terminates, so the engine computes every node's meaning under it. */
  lemma PartialOverriding<T(!new)>(g: Graph, total: Simulator<T>, assignment: map<Node, T>, realInputs: seq<Node>)
    ensures Overriding(Partial(total, assignment, realInputs), g)
  {
  }

  /** With nothing assigned, a partial simulator evaluates every node as the base domain does. */
  lemma {:induction false} PartialEmpty<T>(g: Graph, total: Simulator<T>, n: Node)
    requires WellFormed(g) && n < |g.nodes|
    ensures NodeValue(g, Partial(total, map[], Unassigned<T>(g.inputs, map[])), n) == NodeValue(g, total, n)
    decreases n
  {
    var none: map<Node, T> := map[];
    match g.nodes[n]
    case Constant =>
    case Input(name) =>
      UnassignedNone(g.inputs, none);
    case And(l, r) =>
      PartialEmpty(g, total, l.node);
      PartialEmpty(g, total, r.node);
  }

  lemma {:induction false} UnassignedNone<T>(inputs: seq<Node>, assignment: map<Node, T>)
    requires assignment == map[]
    ensures Unassigned(inputs, assignment) == inputs
    decreases |inputs|
  {
    if |inputs| > 0 {
      UnassignedNone(inputs[..|inputs| - 1], assignment);
      assert inputs == inputs[..|inputs| - 1] + [inputs[|inputs| - 1]];
    }
  }

  /**
   * `aig_partial_node_assignment_simulator`: an assigned node's value is
   * given. Its `and_op` returns the assigned value, and `terminate` holds
   * exactly at assigned nodes, so the engine does not enter their fan-in; an
   * input reads its assigned value or else `default_value`. Constants and
   * inversion are the base domain's.
   */
  function NodeAssignment<T(!new)>(total: Simulator<T>, assignment: map<Node, T>, default: T): (sim: Simulator<T>)
    ensures forall n, g :: sim.terminate(n, g) <==> n in assignment
    ensures forall g :: Overriding(sim, g)
  {
    Simulator(
      (n: Node, name: string, pos: nat, g: Graph) => if n in assignment then assignment[n] else default,
      total.getConstant,
      total.invert,
      (n: Node, v1: T, v2: T) => if n in assignment then assignment[n] else total.andOp(n, v1, v2),
      (n: Node, g: Graph) => n in assignment)
  }

  /**
   * The value of a node under a node assignment: the assigned value for an
   * assigned input or AND node; otherwise the default for an input, the
   * base constant for the constant node (assigned or not), and the base
   * `and_op` of the fan-in values for an AND node.
   */
  lemma NodeAssignmentValue<T(!new)>(g: Graph, total: Simulator<T>, assignment: map<Node, T>, default: T, n: Node)
    requires WellFormed(g) && n < |g.nodes|
    ensures g.nodes[n].Constant? ==>
      NodeValue(g, NodeAssignment(total, assignment, default), n) == total.getConstant()
    ensures g.nodes[n].Input? ==>
      NodeValue(g, NodeAssignment(total, assignment, default), n) == if n in assignment then assignment[n] else default
    ensures g.nodes[n].And? && n in assignment ==>
      NodeValue(g, NodeAssignment(total, assignment, default), n) == assignment[n]
    ensures g.nodes[n].And? && n !in assignment ==>
      var sim, l, r := NodeAssignment(total, assignment, default), g.nodes[n].left, g.nodes[n].right;
      NodeValue(g, sim, n) == total.andOp(n, Through(total, NodeValue(g, sim, l.node), l.complemented),
                                             Through(total, NodeValue(g, sim, r.node), r.complemented))
  {
  }

  /**
   * Assigning nodes the values the base domain gives them changes nothing:
   * when every assigned node carries its base value and every open input's
   * base value is the default, the node assignment simulator agrees with the
   * base domain on every node.
   */
  lemma {:induction false} NodeAssignmentConsistent<T(!new)>(g: Graph, total: Simulator<T>, assignment: map<Node, T>,
                                                            default: T, n: Node)
    requires WellFormed(g) && n < |g.nodes|
    requires forall k :: k in assignment && k < |g.nodes| ==> assignment[k] == NodeValue(g, total, k)
    requires forall k :: 0 <= k < |g.nodes| && g.nodes[k].Input? && k !in assignment ==> default == NodeValue(g, total, k)
    ensures NodeValue(g, NodeAssignment(total, assignment, default), n) == NodeValue(g, total, n)
    decreases n
  {
    match g.nodes[n]
    case Constant =>
    case Input(_) =>
    case And(l, r) =>
      if n !in assignment {
        NodeAssignmentConsistent(g, total, assignment, default, l.node);
        NodeAssignmentConsistent(g, total, assignment, default, r.node);
      }
  }
}
