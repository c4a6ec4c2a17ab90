/**
 * Permutations of `[0, n)` as sequences (`permutation_t`), and their
 * decomposition into cycles (`permutation_to_cycles`), the cycle type and the
 * involution test of `permutation.cpp`.
 */
module Permutation {
  import opened Seqs

  /** `perm` maps `[0, n)` one-to-one into `[0, n)`. */
  predicate IsPermutation(perm: seq<nat>) {
    && (forall i :: 0 <= i < |perm| ==> perm[i] < |perm|)
    && (forall i, j :: 0 <= i < j < |perm| ==> perm[i] != perm[j])
  }

  /**
   * `c` is a cycle of `perm` listed from its first element: every element is
   * followed by its image and the image of the last is the first.
   */
  predicate IsCycleOf(perm: seq<nat>, c: seq<nat>) {
    && |c| > 0
    && (forall k :: 0 <= k < |c| ==> c[k] < |perm|)
    && (forall k :: 0 <= k < |c| - 1 ==> perm[c[k]] == c[k + 1])
    && perm[c[|c| - 1]] == c[0]
    && Distinct(c)
  }

  /** The cycles' elements, one cycle after the other. */
  function Flat(cycles: seq<seq<nat>>): seq<nat> {
    if |cycles| == 0 then [] else Flat(cycles[..|cycles| - 1]) + cycles[|cycles| - 1]
  }

  /** Disjoint cycles of `perm` that together hold every index of `[0, n)`. */
  predicate Decomposition(perm: seq<nat>, cycles: seq<seq<nat>>) {
    && (forall i :: 0 <= i < |cycles| ==> IsCycleOf(perm, cycles[i]))
    && Distinct(Flat(cycles))
    && (forall k :: 0 <= k < |perm| ==> k in Flat(cycles))
  }

  /**
   * Every cycle starts with an element no larger than any element of itself
   * or of a later cycle: each cycle starts at the smallest index that no
   * earlier cycle holds.
   */
  predicate StartsAscending(cycles: seq<seq<nat>>) {
    forall i, j, k :: 0 <= i <= j < |cycles| && 0 <= k < |cycles[j]| && |cycles[i]| > 0 ==>
      cycles[i][0] <= cycles[j][k]
  }

  /** Every cycle is written from its smallest index. */
  predicate StartsAtSmallest(cycles: seq<seq<nat>>) {
    forall i, k :: 0 <= i < |cycles| && 0 <= k < |cycles[i]| ==> cycles[i][0] <= cycles[i][k]
  }

  /** The sort key of `permutation_to_cycles(perm, true)`: longer cycles first. */
  function LongerFirst(c: seq<nat>): int {
    -|c|
  }

  // ---------------------------------------------------------------------------
  // Facts about `Flat`
  // ---------------------------------------------------------------------------

  lemma {:induction false} FlatAppend(p: seq<seq<nat>>, q: seq<seq<nat>>)
    ensures Flat(p + q) == Flat(p) + Flat(q)
    decreases |q|
  {
    if |q| == 0 {
      assert p + q == p;
    } else {
      var q' := q[..|q| - 1];
      assert (p + q)[..|p + q| - 1] == p + q';
      assert (p + q)[|p + q| - 1] == q[|q| - 1];
      FlatAppend(p, q');
      assert Flat(p + q) == Flat(p + q') + q[|q| - 1];
    }
  }

  /** An element of the flattened cycles sits in one of the cycles. */
  lemma {:induction false} FlatMember(cycles: seq<seq<nat>>, x: nat) returns (j: nat, m: nat)
    requires x in Flat(cycles)
    ensures j < |cycles| && m < |cycles[j]| && cycles[j][m] == x
    decreases |cycles|
  {
    var init, last := cycles[..|cycles| - 1], cycles[|cycles| - 1];
    if x in last {
      j, m := |cycles| - 1, IndexOf(last, x);
    } else {
      j, m := FlatMember(init, x);
    }
  }

  lemma {:induction false} MemberFlat(cycles: seq<seq<nat>>, j: nat, m: nat)
    requires j < |cycles| && m < |cycles[j]|
    ensures cycles[j][m] in Flat(cycles)
    decreases |cycles|
  {
    if j < |cycles| - 1 {
      MemberFlat(cycles[..|cycles| - 1], j, m);
    }
  }

  /**
   * The cycles found so far are closed under taking preimages: an index
   * that maps into them lies in them.
   */
  lemma PreimageInFlat(perm: seq<nat>, cycles: seq<seq<nat>>, x: nat)
    requires IsPermutation(perm) && x < |perm|
    requires forall i :: 0 <= i < |cycles| ==> IsCycleOf(perm, cycles[i])
    requires perm[x] in Flat(cycles)
    ensures x in Flat(cycles)
  {
    var j, m := FlatMember(cycles, perm[x]);
    var c := cycles[j];
    var p := if m == 0 then |c| - 1 else m - 1;
    assert perm[c[p]] == perm[x];
    assert c[p] == x;
    MemberFlat(cycles, j, p);
  }

  // ---------------------------------------------------------------------------
  // The state of `permutation_to_cycles`
  // ---------------------------------------------------------------------------

  /** Indices still set in `vismask`. */
  ghost function Unvisited(mask: seq<bool>): set<nat> {
    set k | 0 <= k < |mask| && mask[k]
  }

  /** Between cycles: the mask is clear exactly at the indices already in a cycle. */
  ghost predicate OuterInv(perm: seq<nat>, cycles: seq<seq<nat>>, mask: seq<bool>) {
    && IsPermutation(perm)
    && |mask| == |perm|
    && (forall i :: 0 <= i < |cycles| ==> IsCycleOf(perm, cycles[i]))
    && Distinct(Flat(cycles))
    && (forall k :: 0 <= k < |perm| ==> (!mask[k] <==> k in Flat(cycles)))
    && StartsAscending(cycles)
    && (forall i, k :: 0 <= i < |cycles| && 0 <= k < |perm| && mask[k] ==> cycles[i][0] < k)
  }

  /**
   * While following the cycle from `start`: `cycle` lists the indices met so
   * far, `current` is the image of the last one, and the mask has been
   * cleared at every index met after `start` and at `current`.
   */
  ghost predicate InnerInv(perm: seq<nat>, cycles: seq<seq<nat>>, mask0: seq<bool>, start: nat,
                           cycle: seq<nat>, current: nat, mask: seq<bool>) {
    && OuterInv(perm, cycles, mask0)
    && start < |perm| && mask0[start] && (forall k :: 0 <= k < start ==> !mask0[k])
    && |cycle| > 0 && cycle[0] == start
    && (forall k :: 0 <= k < |cycle| ==> cycle[k] < |perm| && mask0[cycle[k]])
    && (forall k :: 0 <= k < |cycle| - 1 ==> perm[cycle[k]] == cycle[k + 1])
    && current == perm[cycle[|cycle| - 1]]
    && Distinct(cycle)
    && (current == start || (current !in cycle && mask0[current]))
    && |mask| == |perm|
    && (forall k :: 0 <= k < |perm| ==> mask[k] == (mask0[k] && k !in cycle[1..] && k != current))
  }

  lemma InnerStart(perm: seq<nat>, cycles: seq<seq<nat>>, mask0: seq<bool>)
    requires OuterInv(perm, cycles, mask0) && true in mask0
    ensures var start := IndexOf(mask0, true);
      start < |perm| && perm[start] < |perm| &&
      InnerInv(perm, cycles, mask0, start, [start], perm[start], mask0[perm[start] := false]) &&
      Unvisited(mask0[perm[start] := false]) < Unvisited(mask0)
  {
    var start := IndexOf(mask0, true);
    var current := perm[start];
    if current != start && !mask0[current] {
      PreimageInFlat(perm, cycles, start);
    }
    var mask := mask0[current := false];
    assert [start][1..] == [];
    assert current !in Unvisited(mask) && current in Unvisited(mask0);
  }

  /** Following the cycle: the next index closes the cycle or has not been met yet. */
  lemma InnerNext(perm: seq<nat>, cycles: seq<seq<nat>>, mask0: seq<bool>, start: nat,
                  cycle: seq<nat>, current: nat, mask: seq<bool>)
    requires InnerInv(perm, cycles, mask0, start, cycle, current, mask) && current != start
    ensures current < |perm| && perm[current] < |perm|
    ensures perm[current] == start || (perm[current] !in cycle + [current] && mask0[perm[current]])
  {
    var cycle', next := cycle + [current], perm[current];
    forall m | 1 <= m < |cycle'| ensures cycle'[m] != next {
      assert perm[cycle'[m - 1]] == cycle'[m];
    }
    if next != start && !mask0[next] {
      PreimageInFlat(perm, cycles, current);
      assert false;
    }
  }

  lemma InnerStep(perm: seq<nat>, cycles: seq<seq<nat>>, mask0: seq<bool>, start: nat,
                  cycle: seq<nat>, current: nat, mask: seq<bool>)
    requires InnerInv(perm, cycles, mask0, start, cycle, current, mask) && current != start
    ensures current < |perm| && perm[current] < |perm|
    ensures InnerInv(perm, cycles, mask0, start, cycle + [current], perm[current], mask[perm[current] := false])
    ensures Unvisited(mask[perm[current] := false]) < Unvisited(mask)
  {
    InnerNext(perm, cycles, mask0, start, cycle, current, mask);
    var cycle', next := cycle + [current], perm[current];
    assert Distinct(cycle');
    assert cycle'[1..] == cycle[1..] + [current];
    forall k | 1 <= k < |cycle| ensures cycle[k] != next {
      assert cycle[k] == cycle'[k];
    }
    assert mask[next];
    assert next !in Unvisited(mask[next := false]) && next in Unvisited(mask);
  }

  /** Closing the cycle: the mask is clear exactly at the indices now in a cycle. */
  lemma InnerEndMask(perm: seq<nat>, cycles: seq<seq<nat>>, mask0: seq<bool>, start: nat,
                     cycle: seq<nat>, mask: seq<bool>)
    requires InnerInv(perm, cycles, mask0, start, cycle, start, mask)
    ensures forall k :: 0 <= k < |perm| ==> (!mask[k] <==> k in Flat(cycles) + cycle)
  {
    forall k | 0 <= k < |perm|
      ensures !mask[k] <==> k in Flat(cycles) + cycle
    {
      if k in cycle && k != start {
        var m := IndexOf(cycle, k);
        assert k == cycle[1..][m - 1];
      }
    }
  }

  /** Closing the cycle: its indices were unvisited, so they are new to the flattened cycles. */
  lemma InnerEndDistinct(perm: seq<nat>, cycles: seq<seq<nat>>, mask0: seq<bool>, start: nat,
                         cycle: seq<nat>, mask: seq<bool>)
    requires InnerInv(perm, cycles, mask0, start, cycle, start, mask)
    ensures Distinct(Flat(cycles) + cycle)
  {
    var f := Flat(cycles) + cycle;
    forall i, j | 0 <= i < j < |f| ensures f[i] != f[j] {
      if i < |Flat(cycles)| && j >= |Flat(cycles)| {
        assert f[j] in cycle;
        assert f[i] in Flat(cycles);
      }
    }
  }

  /** Closing the cycle: it starts at the smallest unvisited index. */
  lemma InnerEndAscending(perm: seq<nat>, cycles: seq<seq<nat>>, mask0: seq<bool>, start: nat,
                          cycle: seq<nat>, mask: seq<bool>)
    requires InnerInv(perm, cycles, mask0, start, cycle, start, mask)
    ensures StartsAscending(cycles + [cycle])
  {
    var cycles' := cycles + [cycle];
    forall i, j, k | 0 <= i <= j < |cycles'| && 0 <= k < |cycles'[j]| && |cycles'[i]| > 0
      ensures cycles'[i][0] <= cycles'[j][k]
    {
      if j == |cycles| {
        var x := cycle[k];
        assert mask0[x];
        if i < |cycles| {
          assert cycles[i][0] < x;
        } else {
          assert start <= x;
        }
      }
    }
  }

  lemma InnerEnd(perm: seq<nat>, cycles: seq<seq<nat>>, mask0: seq<bool>, start: nat,
                 cycle: seq<nat>, mask: seq<bool>)
    requires InnerInv(perm, cycles, mask0, start, cycle, start, mask)
    ensures OuterInv(perm, cycles + [cycle], mask)
    ensures Unvisited(mask) < Unvisited(mask0)
  {
    var cycles' := cycles + [cycle];
    assert cycles'[..|cycles|] == cycles;
    assert Flat(cycles') == Flat(cycles) + cycle;
    assert IsCycleOf(perm, cycle);
    InnerEndMask(perm, cycles, mask0, start, cycle, mask);
    InnerEndDistinct(perm, cycles, mask0, start, cycle, mask);
    InnerEndAscending(perm, cycles, mask0, start, cycle, mask);
    assert start in Unvisited(mask0) && start !in Unvisited(mask);
  }

  /**
   * `permutation_to_cycles`: the cycles of `perm`, each followed from the
   * smallest index not yet visited; with `sort`, reordered so that longer
   * cycles come first.
   */
  method PermutationToCycles(perm: seq<nat>, sort: bool) returns (cycles: seq<seq<nat>>)
    requires IsPermutation(perm)
    ensures Decomposition(perm, cycles)
    ensures StartsAtSmallest(cycles)
    ensures !sort ==> StartsAscending(cycles)
    ensures sort ==> SortedBy(cycles, LongerFirst)
  {
    var vismask := new bool[|perm|](_ => true);
    cycles := [];
    while true in vismask[..]
      invariant OuterInv(perm, cycles, vismask[..])
      decreases Unvisited(vismask[..])
    {
      ghost var mask0 := vismask[..];
      InnerStart(perm, cycles, mask0);
      var start := IndexOf(vismask[..], true);
      var cycle := [start];
      var current := perm[start];
      vismask[current] := false;
      while current != start
        invariant InnerInv(perm, cycles, mask0, start, cycle, current, vismask[..])
        decreases Unvisited(vismask[..])
      {
        InnerStep(perm, cycles, mask0, start, cycle, current, vismask[..]);
        cycle := cycle + [current];
        current := perm[current];
        vismask[current] := false;
      }
      InnerEnd(perm, cycles, mask0, start, cycle, vismask[..]);
      cycles := cycles + [cycle];
    }
    assert forall k :: 0 <= k < |perm| ==> !vismask[..][k];
    if sort {
      var sorted := SortBy(cycles, LongerFirst);
      DecompositionReordered(perm, cycles, sorted);
      StartsAtSmallestReordered(cycles, sorted);
      cycles := sorted;
    }
  }

  // ---------------------------------------------------------------------------
  // Reordering cycles keeps a decomposition
  // ---------------------------------------------------------------------------

  lemma {:induction false} DistinctCount<T>(s: seq<T>, x: T)
    requires Distinct(s)
    ensures multiset(s)[x] <= 1
    decreases |s|
  {
    if |s| > 0 {
      var init := s[..|s| - 1];
      assert s == init + [s[|s| - 1]];
      assert s[|s| - 1] !in init;
      DistinctCount(init, x);
    }
  }

  lemma CountDistinct<T>(s: seq<T>)
    requires forall x :: multiset(s)[x] <= 1
    ensures Distinct(s)
  {
    forall i, j | 0 <= i < j < |s| ensures s[i] != s[j] {
      assert s == s[..i] + [s[i]] + s[i + 1..j] + [s[j]] + s[j + 1..];
      assert multiset(s) == multiset(s[..i]) + multiset{s[i]} + multiset(s[i + 1..j]) + multiset{s[j]} + multiset(s[j + 1..]);
      assert multiset(s)[s[i]] >= multiset{s[i]}[s[i]] + multiset{s[j]}[s[i]];
    }
  }

  lemma FlatSplit(front: seq<seq<nat>>, x: seq<nat>, back: seq<seq<nat>>)
    ensures multiset(Flat(front + [x] + back)) == multiset(Flat(front + back)) + multiset(x)
  {
    FlatAppend(front + [x], back);
    FlatAppend(front, [x]);
    FlatAppend(front, back);
    var none: seq<seq<nat>> := [];
    assert [x][..0] == none;
  }

  /** Cycles with the same multiset of members flatten to the same multiset of indices. */
  lemma {:induction false} FlatMultiset(a: seq<seq<nat>>, b: seq<seq<nat>>)
    requires multiset(a) == multiset(b)
    ensures multiset(Flat(a)) == multiset(Flat(b))
    decreases |a|
  {
    if |a| == 0 {
      assert |b| == |multiset(b)| == 0;
    } else {
      var init, last := a[..|a| - 1], a[|a| - 1];
      MultisetRemove(a, |a| - 1);
      assert a[..|a| - 1] + a[|a|..] == init;
      assert last in multiset(b);
      var m := IndexOf(b, last);
      MultisetRemove(b, m);
      FlatMultiset(init, b[..m] + b[m + 1..]);
      SplitAt(b, m);
      FlatSplit(b[..m], last, b[m + 1..]);
    }
  }

  /** Reordering whole cycles keeps each one written from its smallest index. */
  lemma {:induction false} StartsAtSmallestReordered(a: seq<seq<nat>>, b: seq<seq<nat>>)
    requires StartsAscending(a)
    requires multiset(a) == multiset(b)
    ensures StartsAtSmallest(b)
  {
    forall i, k | 0 <= i < |b| && 0 <= k < |b[i]|
      ensures b[i][0] <= b[i][k]
    {
      assert b[i] in multiset(b);
      assert b[i] in a;
      var j :| 0 <= j < |a| && a[j] == b[i];
      assert 0 <= j <= j < |a| && 0 <= k < |a[j]| && |a[j]| > 0;
    }
  }

  lemma DecompositionReordered(perm: seq<nat>, a: seq<seq<nat>>, b: seq<seq<nat>>)
    requires Decomposition(perm, a) && multiset(a) == multiset(b)
    ensures Decomposition(perm, b)
  {
    forall i | 0 <= i < |b| ensures IsCycleOf(perm, b[i]) {
      assert b[i] in multiset(a);
    }
    FlatMultiset(a, b);
    forall x ensures multiset(Flat(b))[x] <= 1 {
      DistinctCount(Flat(a), x);
    }
    CountDistinct(Flat(b));
    forall k | 0 <= k < |perm| ensures k in Flat(b) {
      assert k in Flat(a);
      assert k in multiset(Flat(a));
    }
  }

  // ---------------------------------------------------------------------------
  // `cycles_type`
  // ---------------------------------------------------------------------------

  function Lengths(cycles: seq<seq<nat>>): (r: seq<nat>)
    ensures |r| == |cycles| && forall i :: 0 <= i < |cycles| ==> r[i] == |cycles[i]|
  {
    seq(|cycles|, i requires 0 <= i < |cycles| => |cycles[i]|)
  }

  function Identity(x: nat): int { x }

  /** `cycles_type`: the cycle lengths in ascending order. */
  function CyclesType(cycles: seq<seq<nat>>): (t: seq<nat>)
    ensures SortedBy(t, Identity)
    ensures multiset(t) == multiset(Lengths(cycles))
    ensures |t| == |cycles|
  {
    SortBy(Lengths(cycles), Identity)
  }

  function Sum(s: seq<nat>): nat {
    if |s| == 0 then 0 else Sum(s[..|s| - 1]) + s[|s| - 1]
  }

  lemma {:induction false} SumAppend(p: seq<nat>, q: seq<nat>)
    ensures Sum(p + q) == Sum(p) + Sum(q)
    decreases |q|
  {
    if |q| == 0 {
      assert p + q == p;
    } else {
      assert (p + q)[..|p + q| - 1] == p + q[..|q| - 1];
      SumAppend(p, q[..|q| - 1]);
    }
  }

  /** Removing one element from a sequence removes it from the multiset. */
  lemma MultisetRemove<T>(b: seq<T>, m: nat)
    requires m < |b|
    ensures multiset(b[..m] + b[m + 1..]) == multiset(b) - multiset{b[m]}
  {
    SplitAt(b, m);
  }

  lemma SumSingle(x: nat)
    ensures Sum([x]) == x
  {
    var none: seq<nat> := [];
    assert [x][..0] == none;
  }

  lemma SumRemove(b: seq<nat>, m: nat)
    requires m < |b|
    ensures Sum(b) == Sum(b[..m] + b[m + 1..]) + b[m]
  {
    SplitAt(b, m);
    SumSplit(b[..m], b[m], b[m + 1..]);
  }

  lemma SumSplit(front: seq<nat>, x: nat, back: seq<nat>)
    ensures Sum(front + [x] + back) == Sum(front + back) + x
  {
    SumAppend(front + [x], back);
    SumAppend(front, [x]);
    SumAppend(front, back);
    SumSingle(x);
  }

  /** Rearranging numbers keeps their sum. */
  lemma {:induction false} SumMultiset(a: seq<nat>, b: seq<nat>)
    requires multiset(a) == multiset(b)
    ensures Sum(a) == Sum(b)
    decreases |a|
  {
    if |a| == 0 {
      assert |b| == |multiset(b)| == 0;
    } else {
      var last := a[|a| - 1];
      assert last in multiset(b);
      var m := IndexOf(b, last);
      MultisetRemove(a, |a| - 1);
      assert a[..|a| - 1] + a[|a|..] == a[..|a| - 1];
      MultisetRemove(b, m);
      SumMultiset(a[..|a| - 1], b[..m] + b[m + 1..]);
      SumRemove(b, m);
    }
  }

  lemma {:induction false} FlatLength(cycles: seq<seq<nat>>)
    ensures |Flat(cycles)| == Sum(Lengths(cycles))
    decreases |cycles|
  {
    if |cycles| > 0 {
      var init := cycles[..|cycles| - 1];
      FlatLength(init);
      assert Lengths(cycles) == Lengths(init) + [|cycles[|cycles| - 1]|];
      SumAppend(Lengths(init), [|cycles[|cycles| - 1]|]);
      SumSingle(|cycles[|cycles| - 1]|);
    }
  }

  /** The elements of a sequence, as a set. */
  function Elements(s: seq<nat>): (r: set<nat>)
    ensures forall x :: x in r <==> x in s
  {
    if |s| == 0 then {}
    else
      var init := s[..|s| - 1];
      assert forall x :: x in s <==> x in init || x == s[|s| - 1];
      Elements(init) + {s[|s| - 1]}
  }

  /** Distinct numbers make a set of the same size. */
  lemma {:induction false} ElementsDistinct(s: seq<nat>)
    requires Distinct(s)
    ensures |Elements(s)| == |s|
    decreases |s|
  {
    if |s| > 0 {
      var init := s[..|s| - 1];
      assert Distinct(init);
      assert s[|s| - 1] !in init;
      ElementsDistinct(init);
    }
  }

  /** The numbers below `n`. */
  function Below(n: nat): (r: set<nat>)
    ensures forall k: nat :: k in r <==> k < n
    ensures |r| == n
  {
    if n == 0 then {} else Below(n - 1) + {n - 1}
  }

  /**
   * The cycle type is a partition of `n`: the lengths of the cycles of a
   * permutation of `[0, n)` add up to `n`.
   */
  lemma CyclesTypeSum(perm: seq<nat>, cycles: seq<seq<nat>>)
    requires Decomposition(perm, cycles)
    ensures Sum(CyclesType(cycles)) == |perm|
  {
    var f := Flat(cycles);
    FlatLength(cycles);
    SumMultiset(CyclesType(cycles), Lengths(cycles));
    forall x | x in f ensures x < |perm| {
      var j, m := FlatMember(cycles, x);
    }
    ElementsDistinct(f);
    assert Elements(f) == Below(|perm|);
  }

  // ---------------------------------------------------------------------------
  // `is_involution`
  // ---------------------------------------------------------------------------

  /** A permutation is an involution when applying it twice gives the identity. */
  predicate Involution(perm: seq<nat>)
    requires IsPermutation(perm)
  {
    forall i :: 0 <= i < |perm| ==> perm[perm[i]] == i
  }

  lemma ShortCyclesInvolution(perm: seq<nat>, cycles: seq<seq<nat>>)
    requires IsPermutation(perm) && Decomposition(perm, cycles)
    requires forall j :: 0 <= j < |cycles| ==> |cycles[j]| <= 2
    ensures Involution(perm)
  {
    forall i | 0 <= i < |perm| ensures perm[perm[i]] == i {
      var j, m := FlatMember(cycles, i);
      var c := cycles[j];
      assert IsCycleOf(perm, c);
    }
  }

  lemma LongCycleNotInvolution(perm: seq<nat>, cycles: seq<seq<nat>>, j: nat)
    requires IsPermutation(perm) && Decomposition(perm, cycles)
    requires j < |cycles| && |cycles[j]| > 2
    ensures !Involution(perm)
  {
    var c := cycles[j];
    assert IsCycleOf(perm, c);
    assert perm[c[0]] == c[1] && perm[c[1]] == c[2];
    assert c[2] != c[0];
  }

  /** `is_involution`: whether no cycle is longer than two. */
  method IsInvolution(perm: seq<nat>) returns (b: bool)
    requires IsPermutation(perm)
    ensures b <==> Involution(perm)
  {
    var c := PermutationToCycles(perm, false);
    b := forall j :: 0 <= j < |c| ==> |c[j]| <= 2;
    if b {
      ShortCyclesInvolution(perm, c);
    } else {
      var j :| 0 <= j < |c| && |c[j]| > 2;
      LongCycleNotInvolution(perm, c, j);
    }
  }

  // ---------------------------------------------------------------------------
  // `permutation_inv` and `permutation_sign`
  // ---------------------------------------------------------------------------

  /** How many elements of `s` are smaller than `x`. */
  function CountLess(x: nat, s: seq<nat>): nat {
    if |s| == 0 then 0 else CountLess(x, s[..|s| - 1]) + (if s[|s| - 1] < x then 1 else 0)
  }

  /** The pairs `i < j` with `perm[i] > perm[j]`, counted by their first index. */
  function Inversions(perm: seq<nat>): nat {
    if |perm| == 0 then 0 else CountLess(perm[0], perm[1..]) + Inversions(perm[1..])
  }

  lemma {:induction false} CountLessAppend(x: nat, p: seq<nat>, q: seq<nat>)
    ensures CountLess(x, p + q) == CountLess(x, p) + CountLess(x, q)
    decreases |q|
  {
    if |q| == 0 {
      assert p + q == p;
    } else {
      assert (p + q)[..|p + q| - 1] == p + q[..|q| - 1];
      CountLessAppend(x, p, q[..|q| - 1]);
    }
  }

  /**
   * `permutation_inv`: the number of inversions. Unlike the source (see the
   * findings), the outer loop is skipped for the empty sequence.
   */
  method PermutationInv(perm: seq<nat>) returns (inv: nat)
    ensures inv == Inversions(perm)
  {
    inv := 0;
    var i := 0;
    while i + 1 < |perm|
      invariant i <= |perm| && (|perm| > 0 ==> i < |perm|)
      invariant inv + Inversions(perm[i..]) == Inversions(perm)
    {
      assert perm[i..][1..] == perm[i + 1..];
      ghost var inv0 := inv;
      var j := i + 1;
      while j < |perm|
        invariant i + 1 <= j <= |perm|
        invariant inv == inv0 + CountLess(perm[i], perm[i + 1..j])
        decreases |perm| - j
      {
        assert perm[i + 1..j + 1] == perm[i + 1..j] + [perm[j]];
        if perm[i] > perm[j] {
          inv := inv + 1;
        }
        j := j + 1;
      }
      assert perm[i + 1..j] == perm[i + 1..];
      i := i + 1;
    }
    // the last row has no later element
    if |perm| > 0 {
      assert perm[i..][1..] == [];
    }
  }

  /** `perm` never decreases: there are no inversions to count. */
  predicate Ascending(perm: seq<nat>) {
    forall i, j :: 0 <= i < j < |perm| ==> perm[i] <= perm[j]
  }

  lemma {:induction false} CountLessZero(x: nat, s: seq<nat>)
    ensures CountLess(x, s) == 0 <==> forall k :: 0 <= k < |s| ==> x <= s[k]
    decreases |s|
  {
    if |s| > 0 {
      CountLessZero(x, s[..|s| - 1]);
    }
  }

  /** A sequence has no inversion exactly when it is in ascending order. */
  lemma {:induction false} InversionsZero(perm: seq<nat>)
    ensures Inversions(perm) == 0 <==> Ascending(perm)
    decreases |perm|
  {
    if |perm| > 0 {
      var rest := perm[1..];
      InversionsZero(rest);
      CountLessZero(perm[0], rest);
      if Ascending(perm) {
        assert Ascending(rest) by {
          forall i, j | 0 <= i < j < |rest| ensures rest[i] <= rest[j] {
            assert rest[i] == perm[i + 1] && rest[j] == perm[j + 1];
          }
        }
        forall k | 0 <= k < |rest| ensures perm[0] <= rest[k] {
          assert rest[k] == perm[k + 1];
        }
      }
      if Inversions(perm) == 0 {
        forall i, j | 0 <= i < j < |perm| ensures perm[i] <= perm[j] {
          assert perm[j] == rest[j - 1];
          if i > 0 {
            assert perm[i] == rest[i - 1];
          }
        }
      }
    }
  }

  lemma SwapRow(x: nat, a: nat, b: nat, rest: seq<nat>)
    ensures CountLess(x, [a, b] + rest) == CountLess(x, [b, a] + rest)
  {
    CountLessAppend(x, [a, b], rest);
    CountLessAppend(x, [b, a], rest);
    CountLessAppend(x, [a], [b]);
    CountLessAppend(x, [b], [a]);
    assert [a] + [b] == [a, b] && [b] + [a] == [b, a];
  }

  /**
   * Exchanging two adjacent entries `a, b` changes the number of inversions
   * by exactly one pair, the pair of those two entries.
   */
  lemma {:induction false} InversionsSwap(front: seq<nat>, a: nat, b: nat, back: seq<nat>)
    ensures Inversions(front + [a, b] + back) + (if a < b then 1 else 0) ==
            Inversions(front + [b, a] + back) + (if b < a then 1 else 0)
    decreases |front|
  {
    if |front| == 0 {
      assert front + [a, b] + back == [a] + ([b] + back);
      assert front + [b, a] + back == [b] + ([a] + back);
      assert ([a] + ([b] + back))[1..] == [b] + back;
      assert ([b] + ([a] + back))[1..] == [a] + back;
      assert ([b] + back)[1..] == back && ([a] + back)[1..] == back;
      CountLessAppend(a, [b], back);
      CountLessAppend(b, [a], back);
      var none: seq<nat> := [];
      assert [b][..0] == none && [a][..0] == none;
    } else {
      var y := front[0];
      var p, q := front + [a, b] + back, front + [b, a] + back;
      assert p[1..] == front[1..] + [a, b] + back;
      assert q[1..] == front[1..] + [b, a] + back;
      InversionsSwap(front[1..], a, b, back);
      CountLessAppend(y, front[1..], [a, b] + back);
      CountLessAppend(y, front[1..], [b, a] + back);
      assert front[1..] + [a, b] + back == front[1..] + ([a, b] + back);
      assert front[1..] + [b, a] + back == front[1..] + ([b, a] + back);
      SwapRow(y, a, b, back);
    }
  }

  /** The sign of a permutation: `1` for an even number of inversions, `-1` for an odd one. */
  function Sign(perm: seq<nat>): int {
    if Inversions(perm) % 2 == 0 then 1 else -1
  }

  /** `permutation_sign`: the parity of `permutation_inv`, as `1` or `-1`. */
  method PermutationSign(perm: seq<nat>) returns (sign: int)
    ensures sign == Sign(perm)
  {
    var inv := PermutationInv(perm);
    sign := if inv % 2 == 0 then 1 else -1;
  }

  /** The identity and every other ascending sequence are even. */
  lemma SignAscending(perm: seq<nat>)
    requires Ascending(perm)
    ensures Sign(perm) == 1
  {
    InversionsZero(perm);
  }

  /** Exchanging two adjacent distinct entries flips the sign. */
  lemma SignSwap(front: seq<nat>, a: nat, b: nat, back: seq<nat>)
    requires a != b
    ensures Sign(front + [b, a] + back) == -Sign(front + [a, b] + back)
  {
    InversionsSwap(front, a, b, back);
  }

  // ---------------------------------------------------------------------------
  // The loop bound of `permutation_inv` as written
  // ---------------------------------------------------------------------------

  const SizeRange: nat := 0x1_0000_0000_0000_0000
  const UnsignedRange: nat := 0x1_0000_0000

  /**
   * The outer loop's bound as written: `perm.size() - 1u`, which C++ computes
   * in the 64-bit `size_t`, so it wraps around for the empty sequence.
   */
  function InvBoundAsWritten(size: nat): (bound: nat)
    requires size < SizeRange
    ensures size > 0 ==> bound == size - 1
  {
    (size + SizeRange - 1) % SizeRange
  }

  /**
   * For the empty sequence the outer loop never ends: its 32-bit counter
   * `i` (which wraps to 0 after `2^32 - 1`) is below the bound whatever
   * value it takes.
   */
  lemma InvLoopEndless(i: nat)
    requires i < UnsignedRange
    ensures i < InvBoundAsWritten(0)
    ensures (i + 1) % UnsignedRange < InvBoundAsWritten(0)
  {
    assert InvBoundAsWritten(0) == SizeRange - 1;
  }

  /** For non-empty input the written guard `i < size - 1` and the model's `i + 1 < size` agree. */
  lemma InvBoundAgrees(size: nat, i: nat)
    requires 0 < size < SizeRange
    ensures i < InvBoundAsWritten(size) <==> i + 1 < size
  {
  }
}
