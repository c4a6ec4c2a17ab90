/**
 * The memoised depth-first evaluation engine of `simulate_aig.hpp`: the DFS
 * visitor (`simulate_aig_node_visitor`) driven by an explicit stack, and the
 * entry points `simulate_aig_node`, `simulate_aig_function` and
 * `simulate_aig`.
 *
 * The colour map and the value map are owned by the caller and shared
 * between calls; the model passes them in and returns their new contents. A
 * node missing from the colour map is white.
 */
module SimulateAig {
  import opened Seqs
  import opened Aig

  datatype Color = White | Gray | Black

  function ColorOf(colors: map<Node, Color>, n: Node): Color {
    if n in colors then colors[n] else White
  }

  /** A cache between two traversals: nothing is in progress and every finished node has a value. */
  predicate CacheReady<T>(colors: map<Node, Color>, nodeValues: map<Node, T>) {
    forall k :: k in colors ==> colors[k] != Gray && (colors[k] == Black ==> k in nodeValues)
  }

  /** Every cached value is the node's meaning. */
  ghost predicate Sound<T>(g: Graph, sim: Simulator<T>, nodeValues: map<Node, T>)
    requires WellFormed(g)
  {
    forall k :: k in nodeValues ==> k < |g.nodes| && nodeValues[k] == NodeValue(g, sim, k)
  }

  ghost function Unvisited(colors: map<Node, Color>, size: nat): set<Node> {
    set k | 0 <= k < size && ColorOf(colors, k) == White
  }

  lemma OverridingAt<T(!new)>(sim: Simulator<T>, g: Graph, n: Node, a1: T, b1: T, a2: T, b2: T)
    requires Overriding(sim, g) && sim.terminate(n, g)
    ensures sim.andOp(n, a1, b1) == sim.andOp(n, a2, b2)
  {
  }

  /**
   * The visitor's `finish_constant`, `finish_input` and `finish_aig_node`:
   * the value of `u` from the values already cached for its fan-in. A fan-in
   * with no cached value (possible only below a terminated node) contributes
   * an arbitrary value of `T`, where the source uses a default-constructed
   * one; the contracts hold for every such value, so the model is more
   * general than the source here.
   */
  method FinishNode<T(0,!new)>(g: Graph, sim: Simulator<T>, u: Node, nodeValues: map<Node, T>) returns (value: T)
    requires WellFormed(g) && u < |g.nodes|
    ensures g.nodes[u].Constant? ==> value == sim.getConstant()
    ensures g.nodes[u].Input? ==> value == sim.getInput(u, g.nodes[u].name, InputPosition(g, u), g)
    ensures g.nodes[u].And? && g.nodes[u].left.node in nodeValues && g.nodes[u].right.node in nodeValues ==>
      value == sim.andOp(u, Through(sim, nodeValues[g.nodes[u].left.node], g.nodes[u].left.complemented),
                            Through(sim, nodeValues[g.nodes[u].right.node], g.nodes[u].right.complemented))
    ensures Overriding(sim, g) && Sound(g, sim, nodeValues) &&
            (g.nodes[u].And? && !sim.terminate(u, g) ==>
               g.nodes[u].left.node in nodeValues && g.nodes[u].right.node in nodeValues)
            ==> value == NodeValue(g, sim, u)
  {
    match g.nodes[u]
    case Constant =>
      value := sim.getConstant();
    case Input(name) =>
      var pos := IndexOf(g.inputs, u);
      value := sim.getInput(u, name, pos, g);
    case And(left, right) =>
      var tleft: T := *;
      var tright: T := *;
      if left.node in nodeValues {
        tleft := if left.complemented then sim.invert(nodeValues[left.node]) else nodeValues[left.node];
      }
      if right.node in nodeValues {
        tright := if right.complemented then sim.invert(nodeValues[right.node]) else nodeValues[right.node];
      }
      value := sim.andOp(u, tleft, tright);
      if Overriding(sim, g) && sim.terminate(u, g) {
        OverridingAt(sim, g, u, tleft, tright, Through(sim, NodeValue(g, sim, left.node), left.complemented),
                     Through(sim, NodeValue(g, sim, right.node), right.complemented));
      }
  }

  /**
   * The shape of the DFS stack during a walk from `n`: the nodes in progress
   * (grey), strictly decreasing from the root, each reached from `n`, and
   * each other than the root white when the walk started.
   */
  ghost predicate StackShape<T>(g: Graph, sim: Simulator<T>, n: Node, colors0: map<Node, Color>,
                                colors: map<Node, Color>, stack: seq<Node>)
    requires WellFormed(g) && n < |g.nodes|
  {
    && (forall i :: 0 <= i < |stack| ==> stack[i] <= n)
    && (forall i, j :: 0 <= i < j < |stack| ==> stack[j] < stack[i])
    && (stack != [] ==> stack[0] == n)
    && (forall k :: k in colors && colors[k] == Gray ==> k in stack)
    && (forall k :: k in stack ==> k in colors && colors[k] == Gray)
    && (forall k :: k in stack ==> Reaches(g, sim, n, k))
    && (forall k :: k in stack && k != n ==> ColorOf(colors0, k) == White)
  }

  /** The value cache during a walk: black nodes are cached and earlier entries are kept. */
  ghost predicate CacheState<T(!new)>(g: Graph, sim: Simulator<T>, values0: map<Node, T>,
                                      colors: map<Node, Color>, nodeValues: map<Node, T>,
                                      finished: seq<Node>)
    requires WellFormed(g)
  {
    && (forall k :: k in colors && colors[k] == Black ==> k in nodeValues)
    && (Overriding(sim, g) ==> Sound(g, sim, nodeValues))
    && (forall k :: k in values0 ==> k in nodeValues)
    && (forall k :: k in values0 && k !in finished ==> nodeValues[k] == values0[k])
  }

  /**
   * What the walk has done so far: black stays black, only reached nodes
   * change colour, and each node finished is finished once, is black, and
   * was white at the start unless it is the root.
   */
  ghost predicate History<T>(g: Graph, sim: Simulator<T>, n: Node, colors0: map<Node, Color>,
                             colors: map<Node, Color>, stack: seq<Node>, finished: seq<Node>)
    requires WellFormed(g) && n < |g.nodes|
  {
    && (forall k :: k in colors0 ==> colors0[k] != Gray)
    && (forall k :: ColorOf(colors0, k) == Black && k !in stack ==> ColorOf(colors, k) == Black)
    && (forall k :: ColorOf(colors, k) != ColorOf(colors0, k) ==> Reaches(g, sim, n, k))
    && Distinct(finished)
    && (forall k :: k in finished ==> ColorOf(colors, k) == Black)
    && (forall k :: k in finished && k != n ==> ColorOf(colors0, k) == White)
    && (stack == [] ==> n in finished)
  }

  ghost predicate DfsState<T(!new)>(g: Graph, sim: Simulator<T>, n: Node,
                                    colors0: map<Node, Color>, values0: map<Node, T>,
                                    colors: map<Node, Color>, nodeValues: map<Node, T>,
                                    stack: seq<Node>, finished: seq<Node>)
    requires WellFormed(g) && n < |g.nodes|
  {
    && StackShape(g, sim, n, colors0, colors, stack)
    && CacheState(g, sim, values0, colors, nodeValues, finished)
    && History(g, sim, n, colors0, colors, stack, finished)
  }

  /** Starting the walk: the root turns grey and is the whole stack. */
  lemma DfsStart<T(!new)>(g: Graph, sim: Simulator<T>, n: Node, colors0: map<Node, Color>, values0: map<Node, T>)
    requires WellFormed(g) && n < |g.nodes|
    requires CacheReady(colors0, values0)
    requires Overriding(sim, g) ==> Sound(g, sim, values0)
    ensures DfsState(g, sim, n, colors0, values0, colors0[n := Gray], values0, [n], [])
  {
  }

  lemma DiscoverShape<T>(g: Graph, sim: Simulator<T>, n: Node, colors0: map<Node, Color>,
                         colors: map<Node, Color>, stack: seq<Node>, finished: seq<Node>, next: Node)
    requires WellFormed(g) && n < |g.nodes|
    requires StackShape(g, sim, n, colors0, colors, stack)
    requires History(g, sim, n, colors0, colors, stack, finished)
    requires stack != []
    requires g.nodes[stack[|stack| - 1]].And? && !sim.terminate(stack[|stack| - 1], g)
    requires next == g.nodes[stack[|stack| - 1]].left.node || next == g.nodes[stack[|stack| - 1]].right.node
    requires ColorOf(colors, next) == White
    ensures StackShape(g, sim, n, colors0, colors[next := Gray], stack + [next])
  {
    var u := stack[|stack| - 1];
    ReachesFanIn(g, sim, n, u, next);
    assert next < u;
    var stack' := stack + [next];
    assert forall i, j :: 0 <= i < j < |stack'| ==> stack'[j] < stack'[i];
    // grey nodes are on the stack, and an initially black node off the stack is still black
    assert next !in stack;
    assert ColorOf(colors0, next) == White;
  }

  lemma DiscoverHistory<T>(g: Graph, sim: Simulator<T>, n: Node, colors0: map<Node, Color>,
                           colors: map<Node, Color>, stack: seq<Node>, finished: seq<Node>, next: Node)
    requires WellFormed(g) && n < |g.nodes|
    requires History(g, sim, n, colors0, colors, stack, finished)
    requires stack != []
    requires Reaches(g, sim, n, next)
    requires ColorOf(colors, next) == White
    ensures History(g, sim, n, colors0, colors[next := Gray], stack + [next], finished)
  {
    assert next !in finished;
  }

  /** Following a tree edge from the top of the stack to a white fan-in. */
  lemma DfsDiscover<T(!new)>(g: Graph, sim: Simulator<T>, n: Node,
                             colors0: map<Node, Color>, values0: map<Node, T>,
                             colors: map<Node, Color>, nodeValues: map<Node, T>,
                             stack: seq<Node>, finished: seq<Node>, next: Node)
    requires WellFormed(g) && n < |g.nodes|
    requires DfsState(g, sim, n, colors0, values0, colors, nodeValues, stack, finished)
    requires stack != []
    requires g.nodes[stack[|stack| - 1]].And? && !sim.terminate(stack[|stack| - 1], g)
    requires next == g.nodes[stack[|stack| - 1]].left.node || next == g.nodes[stack[|stack| - 1]].right.node
    requires ColorOf(colors, next) == White
    ensures DfsState(g, sim, n, colors0, values0, colors[next := Gray], nodeValues, stack + [next], finished)
  {
    DiscoverShape(g, sim, n, colors0, colors, stack, finished, next);
    ReachesFanIn(g, sim, n, stack[|stack| - 1], next);
    DiscoverHistory(g, sim, n, colors0, colors, stack, finished, next);
  }

  lemma FinishShape<T>(g: Graph, sim: Simulator<T>, n: Node, colors0: map<Node, Color>,
                       colors: map<Node, Color>, stack: seq<Node>)
    requires WellFormed(g) && n < |g.nodes|
    requires StackShape(g, sim, n, colors0, colors, stack)
    requires stack != []
    ensures StackShape(g, sim, n, colors0, colors[stack[|stack| - 1] := Black], stack[..|stack| - 1])
  {
    var u, rest := stack[|stack| - 1], stack[..|stack| - 1];
    assert u !in rest;
    assert forall k :: k in rest ==> k in stack;
  }

  lemma FinishCache<T(!new)>(g: Graph, sim: Simulator<T>, values0: map<Node, T>,
                             colors: map<Node, Color>, nodeValues: map<Node, T>,
                             finished: seq<Node>, u: Node, value: T)
    requires WellFormed(g) && u < |g.nodes|
    requires CacheState(g, sim, values0, colors, nodeValues, finished)
    requires Overriding(sim, g) ==> value == NodeValue(g, sim, u)
    ensures CacheState(g, sim, values0, colors[u := Black], nodeValues[u := value], finished + [u])
  {
  }

  lemma FinishHistory<T>(g: Graph, sim: Simulator<T>, n: Node, colors0: map<Node, Color>,
                         colors: map<Node, Color>, stack: seq<Node>, finished: seq<Node>)
    requires WellFormed(g) && n < |g.nodes|
    requires StackShape(g, sim, n, colors0, colors, stack)
    requires History(g, sim, n, colors0, colors, stack, finished)
    requires stack != []
    ensures History(g, sim, n, colors0, colors[stack[|stack| - 1] := Black], stack[..|stack| - 1],
                    finished + [stack[|stack| - 1]])
  {
    var u, rest := stack[|stack| - 1], stack[..|stack| - 1];
    assert u !in rest;
    assert u !in finished;
    assert Reaches(g, sim, n, u);
    assert rest == [] ==> u == n;
  }

  /** Finishing the top of the stack with the value computed for it. */
  lemma DfsFinish<T(!new)>(g: Graph, sim: Simulator<T>, n: Node,
                           colors0: map<Node, Color>, values0: map<Node, T>,
                           colors: map<Node, Color>, nodeValues: map<Node, T>,
                           stack: seq<Node>, finished: seq<Node>, value: T)
    requires WellFormed(g) && n < |g.nodes|
    requires DfsState(g, sim, n, colors0, values0, colors, nodeValues, stack, finished)
    requires stack != []
    requires Overriding(sim, g) ==> value == NodeValue(g, sim, stack[|stack| - 1])
    ensures DfsState(g, sim, n, colors0, values0, colors[stack[|stack| - 1] := Black],
                     nodeValues[stack[|stack| - 1] := value], stack[..|stack| - 1],
                     finished + [stack[|stack| - 1]])
  {
    FinishShape(g, sim, n, colors0, colors, stack);
    FinishCache(g, sim, values0, colors, nodeValues, finished, stack[|stack| - 1], value);
    FinishHistory(g, sim, n, colors0, colors, stack, finished);
  }

  /** A fan-in of the top of the stack that is not white is finished and cached. */
  lemma DfsFanInCached<T(!new)>(g: Graph, sim: Simulator<T>, n: Node,
                                colors0: map<Node, Color>, values0: map<Node, T>,
                                colors: map<Node, Color>, nodeValues: map<Node, T>,
                                stack: seq<Node>, finished: seq<Node>, c: Node)
    requires WellFormed(g) && n < |g.nodes|
    requires DfsState(g, sim, n, colors0, values0, colors, nodeValues, stack, finished)
    requires stack != [] && g.nodes[stack[|stack| - 1]].And?
    requires c == g.nodes[stack[|stack| - 1]].left.node || c == g.nodes[stack[|stack| - 1]].right.node
    requires ColorOf(colors, c) != White
    ensures c in nodeValues
  {
    assert c !in stack;
  }

  lemma UnvisitedShrinks(colors: map<Node, Color>, size: nat, next: Node)
    requires next < size && ColorOf(colors, next) == White
    ensures Unvisited(colors[next := Gray], size) < Unvisited(colors, size)
  {
    assert Unvisited(colors[next := Gray], size) == Unvisited(colors, size) - {next};
  }

  lemma UnvisitedKept(colors: map<Node, Color>, size: nat, u: Node)
    requires ColorOf(colors, u) == Gray
    ensures Unvisited(colors[u := Black], size) == Unvisited(colors, size)
  {
  }

  /**
   * Finishing the node on top of the stack, once its fan-in is no longer
   * white (or the domain terminates there), with the value the visitor
   * computes from the cache.
   */
  lemma DfsPop<T(!new)>(g: Graph, sim: Simulator<T>, n: Node,
                        colors0: map<Node, Color>, values0: map<Node, T>,
                        colors: map<Node, Color>, nodeValues: map<Node, T>,
                        stack: seq<Node>, finished: seq<Node>, value: T)
    requires WellFormed(g) && n < |g.nodes|
    requires DfsState(g, sim, n, colors0, values0, colors, nodeValues, stack, finished)
    requires stack != []
    requires var u := stack[|stack| - 1];
      g.nodes[u].And? && !sim.terminate(u, g) ==>
        ColorOf(colors, g.nodes[u].left.node) != White && ColorOf(colors, g.nodes[u].right.node) != White
    requires var u := stack[|stack| - 1];
      Overriding(sim, g) && Sound(g, sim, nodeValues) &&
      (g.nodes[u].And? && !sim.terminate(u, g) ==>
         g.nodes[u].left.node in nodeValues && g.nodes[u].right.node in nodeValues)
      ==> value == NodeValue(g, sim, u)
    ensures var u := stack[|stack| - 1];
      && DfsState(g, sim, n, colors0, values0, colors[u := Black], nodeValues[u := value], stack[..|stack| - 1], finished + [u])
      && Unvisited(colors[u := Black], |g.nodes|) == Unvisited(colors, |g.nodes|)
  {
    var u := stack[|stack| - 1];
    if g.nodes[u].And? && !sim.terminate(u, g) {
      DfsFanInCached(g, sim, n, colors0, values0, colors, nodeValues, stack, finished, g.nodes[u].left.node);
      DfsFanInCached(g, sim, n, colors0, values0, colors, nodeValues, stack, finished, g.nodes[u].right.node);
    }
    DfsFinish(g, sim, n, colors0, values0, colors, nodeValues, stack, finished, value);
    UnvisitedKept(colors, |g.nodes|, u);
  }

  /** A walk whose stack is empty has finished the root and left the cache ready. */
  lemma DfsEnd<T(!new)>(g: Graph, sim: Simulator<T>, n: Node,
                        colors0: map<Node, Color>, values0: map<Node, T>,
                        colors: map<Node, Color>, nodeValues: map<Node, T>, finished: seq<Node>)
    requires WellFormed(g) && n < |g.nodes|
    requires DfsState(g, sim, n, colors0, values0, colors, nodeValues, [], finished)
    ensures CacheReady(colors, nodeValues)
    ensures ColorOf(colors, n) == Black && n in nodeValues
    ensures Overriding(sim, g) ==> Sound(g, sim, nodeValues) && nodeValues[n] == NodeValue(g, sim, n)
    ensures forall k :: k in values0 ==> k in nodeValues
    ensures forall k :: k in values0 && k !in finished ==> nodeValues[k] == values0[k]
    ensures forall k :: ColorOf(colors0, k) == Black ==> ColorOf(colors, k) == Black
    ensures Distinct(finished) && n in finished
    ensures forall k :: k in finished && k != n ==> ColorOf(colors0, k) == White
    ensures forall k :: ColorOf(colors, k) != ColorOf(colors0, k) ==> Reaches(g, sim, n, k)
    ensures forall k :: k in finished ==> Reaches(g, sim, n, k) && ColorOf(colors, k) == Black
  {
    forall k | k in finished ensures Reaches(g, sim, n, k) {
      if k != n {
        assert ColorOf(colors, k) != ColorOf(colors0, k);
      }
    }
  }

  /**
   * `simulate_aig_node` with a caller-supplied colour map and value map.
   *
   * The root is discovered again even when an earlier call finished it (the
   * source's `depth_first_visit` starts from it without looking at its
   * colour), so its value is recomputed from its cached fan-in; every other
   * node already finished keeps its value and is not visited again. The walk
   * does not enter the fan-in of a node on which the domain terminates.
   * `finished` lists the nodes whose value this call computed, in order.
   */
  method SimulateNodeCached<T(0,!new)>(g: Graph, n: Node, sim: Simulator<T>,
                                       colors: map<Node, Color>, nodeValues: map<Node, T>)
    returns (v: T, colors': map<Node, Color>, nodeValues': map<Node, T>, ghost finished: seq<Node>)
    requires WellFormed(g) && n < |g.nodes|
    requires CacheReady(colors, nodeValues)
    requires Overriding(sim, g) ==> Sound(g, sim, nodeValues)
    ensures CacheReady(colors', nodeValues')
    ensures ColorOf(colors', n) == Black && n in nodeValues' && v == nodeValues'[n]
    ensures Overriding(sim, g) ==> Sound(g, sim, nodeValues') && v == NodeValue(g, sim, n)
    // the cache only grows, and only the nodes finished here change value
    ensures forall k :: k in nodeValues ==> k in nodeValues'
    ensures forall k :: k in nodeValues && k !in finished ==> nodeValues'[k] == nodeValues[k]
    ensures forall k :: ColorOf(colors, k) == Black ==> ColorOf(colors', k) == Black
    // memoisation: nothing finished before is finished again, except the root
    ensures Distinct(finished) && n in finished
    ensures forall k :: k in finished && k != n ==> ColorOf(colors, k) == White
    // termination cuts the walk: only nodes reached without entering a terminated fan-in are touched
    ensures forall k :: ColorOf(colors', k) != ColorOf(colors, k) ==> Reaches(g, sim, n, k)
    ensures forall k :: k in finished ==> Reaches(g, sim, n, k) && ColorOf(colors', k) == Black
  {
    colors' := colors[n := Gray];
    nodeValues' := nodeValues;
    finished := [];
    var stack := [n];
    DfsStart(g, sim, n, colors, nodeValues);
    while stack != []
      invariant DfsState(g, sim, n, colors, nodeValues, colors', nodeValues', stack, finished)
      decreases Unvisited(colors', |g.nodes|), |stack|
    {
      var u := stack[|stack| - 1];
      var node := g.nodes[u];
      // examine the out-edges in order (left, then right) unless the domain terminates here
      var next: Node := u;
      if node.And? && !sim.terminate(u, g) {
        if ColorOf(colors', node.left.node) == White {
          next := node.left.node;
        } else if ColorOf(colors', node.right.node) == White {
          next := node.right.node;
        }
      }
      if next != u {
        // tree edge: discover the fan-in
        DfsDiscover(g, sim, n, colors, nodeValues, colors', nodeValues', stack, finished, next);
        UnvisitedShrinks(colors', |g.nodes|, next);
        colors' := colors'[next := Gray];
        stack := stack + [next];
      } else {
        // every fan-in left to read is finished: compute the node's value
        var value := FinishNode(g, sim, u, nodeValues');
        DfsPop(g, sim, n, colors, nodeValues, colors', nodeValues', stack, finished, value);
        nodeValues' := nodeValues'[u := value];
        colors' := colors'[u := Black];
        stack := stack[..|stack| - 1];
        finished := finished + [u];
      }
    }
    DfsEnd(g, sim, n, colors, nodeValues, colors', nodeValues', finished);
    v := nodeValues'[n];
  }

  /** `simulate_aig_node` with a fresh colour map and value map. */
  method SimulateNode<T(0,!new)>(g: Graph, n: Node, sim: Simulator<T>) returns (v: T)
    requires WellFormed(g) && n < |g.nodes|
    ensures Overriding(sim, g) ==> v == NodeValue(g, sim, n)
  {
    var colors', nodeValues';
    ghost var visited;
    v, colors', nodeValues', visited := SimulateNodeCached(g, n, sim, map[], map[]);
  }

  /** `simulate_aig_function` with shared maps: the node's value read through the signal's polarity. */
  method SimulateFunctionCached<T(0,!new)>(g: Graph, f: Signal, sim: Simulator<T>,
                                           colors: map<Node, Color>, nodeValues: map<Node, T>)
    returns (v: T, colors': map<Node, Color>, nodeValues': map<Node, T>)
    requires WellFormed(g) && f.node < |g.nodes|
    requires CacheReady(colors, nodeValues)
    requires Overriding(sim, g) ==> Sound(g, sim, nodeValues)
    ensures CacheReady(colors', nodeValues') && f.node in nodeValues'
    ensures v == Through(sim, nodeValues'[f.node], f.complemented)
    ensures Overriding(sim, g) ==> Sound(g, sim, nodeValues') && v == SignalValue(g, sim, f)
  {
    var value;
    ghost var visited;
    value, colors', nodeValues', visited := SimulateNodeCached(g, f.node, sim, colors, nodeValues);
    v := if f.complemented then sim.invert(value) else value;
  }

  /** `simulate_aig_function` with fresh maps. */
  method SimulateFunction<T(0,!new)>(g: Graph, f: Signal, sim: Simulator<T>) returns (v: T)
    requires WellFormed(g) && f.node < |g.nodes|
    ensures Overriding(sim, g) ==> v == SignalValue(g, sim, f)
  {
    var value := SimulateNode(g, f.node, sim);
    v := if f.complemented then sim.invert(value) else value;
  }

  /** The nodes that drive a primary output. */
  ghost function OutputNodes(g: Graph): set<Node> {
    set k | 0 <= k < |g.outputs| :: g.outputs[k].signal.node
  }

  /** The signals that drive a primary output. */
  ghost function OutputSignals(g: Graph): set<Signal> {
    set k | 0 <= k < |g.outputs| :: g.outputs[k].signal
  }

  /** A node is computed twice only when it drives an output. */
  ghost predicate RepeatsAtOutputs(g: Graph, visits: seq<Node>) {
    forall i, j :: 0 <= i < j < |visits| && visits[i] == visits[j] ==> visits[i] in OutputNodes(g)
  }

  /** Every result is the value of its signal. */
  ghost predicate ResultsSound<T>(g: Graph, sim: Simulator<T>, results: map<Signal, T>)
    requires WellFormed(g)
  {
    forall s :: s in results ==> s.node < |g.nodes| && results[s] == SignalValue(g, sim, s)
  }

  lemma VisitsExtend(g: Graph, o: nat, colors: map<Node, Color>, colors': map<Node, Color>,
                     visits: seq<Node>, finished: seq<Node>)
    requires o < |g.outputs|
    requires forall k :: k in visits ==> ColorOf(colors, k) == Black
    requires RepeatsAtOutputs(g, visits)
    requires Distinct(finished)
    requires forall k :: k in finished && k != g.outputs[o].signal.node ==> ColorOf(colors, k) == White
    requires forall k :: ColorOf(colors, k) == Black ==> ColorOf(colors', k) == Black
    requires forall k :: k in finished ==> ColorOf(colors', k) == Black
    ensures forall k :: k in visits + finished ==> ColorOf(colors', k) == Black
    ensures RepeatsAtOutputs(g, visits + finished)
  {
    var all := visits + finished;
    assert g.outputs[o].signal.node in OutputNodes(g);
    forall i, j | 0 <= i < j < |all| && all[i] == all[j] ensures all[i] in OutputNodes(g) {
      if j >= |visits| && i < |visits| {
        assert all[i] in visits && all[j] in finished;
      }
    }
  }

  /**
   * `simulate_aig`: every primary output, simulated in order with one colour
   * map and one value map shared by all of them. The result maps each output
   * signal to its value. `visits` lists, in order, every node whose value was
   * computed: a node is computed twice only when it drives an output (the
   * root of a later walk is always recomputed); every other node is computed
   * at most once over the whole run.
   */
  method Simulate<T(0,!new)>(g: Graph, sim: Simulator<T>) returns (results: map<Signal, T>, ghost visits: seq<Node>)
    requires WellFormed(g)
    ensures results.Keys == OutputSignals(g)
    ensures Overriding(sim, g) ==> forall s :: s in results ==> s.node < |g.nodes| && results[s] == SignalValue(g, sim, s)
    ensures forall i, j :: 0 <= i < j < |visits| && visits[i] == visits[j] ==> visits[i] in OutputNodes(g)
  {
    var colors: map<Node, Color> := map[];
    var nodeValues: map<Node, T> := map[];
    results := map[];
    visits := [];
    for o := 0 to |g.outputs|
      invariant CacheReady(colors, nodeValues)
      invariant Overriding(sim, g) ==> Sound(g, sim, nodeValues)
      invariant results.Keys == set k | 0 <= k < o :: g.outputs[k].signal
      invariant Overriding(sim, g) ==> ResultsSound(g, sim, results)
      invariant forall k :: k in visits ==> ColorOf(colors, k) == Black
      invariant RepeatsAtOutputs(g, visits)
    {
      var f := g.outputs[o].signal;
      var value, colors', nodeValues', finished := SimulateNodeCached(g, f.node, sim, colors, nodeValues);
      // value may need to be inverted
      results := results[f := if f.complemented then sim.invert(value) else value];
      VisitsExtend(g, o, colors, colors', visits, finished);
      colors, nodeValues := colors', nodeValues';
      visits := visits + finished;
    }
  }
}
