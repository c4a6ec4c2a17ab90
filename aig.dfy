/**
 * And-inverter graphs and the evaluation domain of `simulate_aig.hpp`.
 *
 * The graph is an arena: node `n` is an index into `nodes`, and an AND node's
 * fan-ins always have smaller indices, which makes the graph acyclic by
 * construction. A signal (`aig_function`) is a node with a complement flag.
 *
 * The domain `aig_simulator<T>` is a record of its five operations. Each
 * operation also receives the graph, as in the source; `terminate` is the
 * optional one (the source's default answers false).
 */
module Aig {
  import opened Seqs

  type Node = nat

  /** A node reference with an inversion flag (`aig_function`). */
  datatype Signal = Signal(node: Node, complemented: bool)

  datatype NodeKind =
    | Constant
    | Input(name: string)
    | And(left: Signal, right: Signal)

  /** A declared primary output: the signal that drives it and its name. */
  datatype Output = Output(signal: Signal, name: string)

  /**
   * The node table with the ordered primary inputs and outputs
   * (`aig_info(aig).inputs` and `aig_info(aig).outputs`).
   */
  datatype Graph = Graph(nodes: seq<NodeKind>, inputs: seq<Node>, outputs: seq<Output>)

  /** Fan-ins point backwards in the arena and outputs name existing nodes. */
  predicate WellFormed(g: Graph) {
    && (forall n :: 0 <= n < |g.nodes| && g.nodes[n].And? ==>
          g.nodes[n].left.node < n && g.nodes[n].right.node < n)
    && (forall k :: 0 <= k < |g.outputs| ==> g.outputs[k].signal.node < |g.nodes|)
  }

  /** The evaluation domain: the four required operations and `terminate`. */
  datatype Simulator<!T> = Simulator(
    getInput: (Node, string, nat, Graph) -> T,
    getConstant: () -> T,
    invert: T -> T,
    andOp: (Node, T, T) -> T,
    terminate: (Node, Graph) -> bool)

  /** A value read through an edge: inverted exactly when the edge is complemented. */
  function Through<T>(sim: Simulator<T>, v: T, complemented: bool): T {
    if complemented then sim.invert(v) else v
  }

  /** Position of an input node in the graph's ordered input list. */
  function InputPosition(g: Graph, n: Node): nat {
    IndexOf(g.inputs, n)
  }

  /**
   * The value the domain gives node `n`: its meaning, independent of any
   * traversal or cache.
   */
  function NodeValue<T>(g: Graph, sim: Simulator<T>, n: Node): T
    requires WellFormed(g) && n < |g.nodes|
    decreases n
  {
    match g.nodes[n]
    case Constant => sim.getConstant()
    case Input(name) => sim.getInput(n, name, InputPosition(g, n), g)
    case And(l, r) =>
      sim.andOp(n, Through(sim, NodeValue(g, sim, l.node), l.complemented),
                   Through(sim, NodeValue(g, sim, r.node), r.complemented))
  }

  /** The value of a signal: its node's value, inverted once more if complemented. */
  function SignalValue<T>(g: Graph, sim: Simulator<T>, s: Signal): T
    requires WellFormed(g) && s.node < |g.nodes|
  {
    Through(sim, NodeValue(g, sim, s.node), s.complemented)
  }

  /**
   * A domain whose `terminate` only holds where `and_op` supplies the node's
   * value by itself, whatever operands it is given. The traversal does not
   * evaluate the fan-in of such a node, so only then is its result the
   * node's meaning.
   */
  ghost predicate Overriding<T(!new)>(sim: Simulator<T>, g: Graph) {
    forall n, a1, b1, a2, b2 :: sim.terminate(n, g) ==> sim.andOp(n, a1, b1) == sim.andOp(n, a2, b2)
  }

  /**
   * `k` is reached from `n` by a walk that never enters the fan-in of a node
   * on which the domain terminates.
   */
  ghost predicate Reaches<T>(g: Graph, sim: Simulator<T>, n: Node, k: Node)
    requires WellFormed(g) && n < |g.nodes|
    decreases n
  {
    || k == n
    || (g.nodes[n].And? && !sim.terminate(n, g) &&
        (Reaches(g, sim, g.nodes[n].left.node, k) || Reaches(g, sim, g.nodes[n].right.node, k)))
  }

  /** Walks compose: a fan-in of a reached, non-terminating AND node is reached. */
  lemma {:induction false} ReachesFanIn<T>(g: Graph, sim: Simulator<T>, n: Node, u: Node, c: Node)
    requires WellFormed(g) && n < |g.nodes| && u < |g.nodes|
    requires Reaches(g, sim, n, u)
    requires g.nodes[u].And? && !sim.terminate(u, g)
    requires c == g.nodes[u].left.node || c == g.nodes[u].right.node
    ensures Reaches(g, sim, n, c)
    decreases n
  {
    if n == u {
      assert Reaches(g, sim, c, c);
    } else {
      var l, r := g.nodes[n].left.node, g.nodes[n].right.node;
      if Reaches(g, sim, l, u) {
        ReachesFanIn(g, sim, l, u, c);
      } else {
        ReachesFanIn(g, sim, r, u, c);
      }
    }
  }

  /** Every reached node has an index no larger than the start. */
  lemma {:induction false} ReachesBelow<T>(g: Graph, sim: Simulator<T>, n: Node, k: Node)
    requires WellFormed(g) && n < |g.nodes|
    requires Reaches(g, sim, n, k)
    ensures k <= n
    decreases n
  {
    if k != n {
      var l, r := g.nodes[n].left.node, g.nodes[n].right.node;
      if Reaches(g, sim, l, k) {
        ReachesBelow(g, sim, l, k);
      } else {
        ReachesBelow(g, sim, r, k);
      }
    }
  }
}
