/**
 * The text forms of `permutation.cpp`: `permutation_to_string` writes
 * `[0 2 1]`, `cycles_to_string` writes `(0)(1 2)`. Numbers are written in
 * decimal and joined by single spaces (`any_join`). The lemmas read the
 * text back and show that no information is lost.
 */
module PermutationText {
  import opened Seqs
  import opened Text
  import Permutation

  /** The decimal forms of the numbers, one item each. */
  function Numbers(xs: seq<nat>): (r: seq<string>)
    ensures |r| == |xs| && forall k :: 0 <= k < |xs| ==> r[k] == NatToString(xs[k])
  {
    seq(|xs|, k requires 0 <= k < |xs| => NatToString(xs[k]))
  }

  /** `any_join(xs, sep)`: the decimal forms joined by `sep`. */
  function AnyJoin(xs: seq<nat>, sep: string): string {
    Join(Numbers(xs), sep)
  }

  /** Decimal forms are non-empty and hold no space. */
  lemma NumbersSplittable(xs: seq<nat>)
    ensures SplittableBy(Numbers(xs), ' ')
  {
    forall k | 0 <= k < |xs| ensures ' ' !in NatToString(xs[k]) {
      assert !IsDigit(' ');
    }
  }

  /** Reads decimal items back into numbers. */
  function ReadNumbers(items: seq<string>): (r: seq<nat>)
    requires forall k :: 0 <= k < |items| ==> forall c :: c in items[k] ==> IsDigit(c)
    ensures |r| == |items|
  {
    seq(|items|, k requires 0 <= k < |items| => ParseNat(items[k]))
  }

  /** Reading the decimal forms back gives the numbers. */
  lemma ReadNumbersInverse(xs: seq<nat>)
    ensures ReadNumbers(Numbers(xs)) == xs
  {
    forall k | 0 <= k < |xs| ensures ReadNumbers(Numbers(xs))[k] == xs[k] {
      ParseNatToString(xs[k]);
    }
  }

  /** Numbers joined by spaces split back into their decimal forms. */
  lemma AnyJoinSplit(xs: seq<nat>)
    ensures Split(AnyJoin(xs, " "), ' ') == Numbers(xs)
  {
    NumbersSplittable(xs);
    SplitJoin(Numbers(xs), ' ');
  }

  // ---------------------------------------------------------------------------
  // `permutation_to_string`
  // ---------------------------------------------------------------------------

  /** `permutation_to_string`: the images in brackets, separated by spaces. */
  function PermutationToString(perm: seq<nat>): (s: string)
    ensures |s| >= 2 && s[0] == '[' && s[|s| - 1] == ']'
    ensures Split(s[1..|s| - 1], ' ') == Numbers(perm)
  {
    var s := "[" + AnyJoin(perm, " ") + "]";
    assert s[1..|s| - 1] == AnyJoin(perm, " ");
    AnyJoinSplit(perm);
    s
  }

  /** Different permutations are written differently. */
  lemma PermutationToStringInjective(a: seq<nat>, b: seq<nat>)
    requires PermutationToString(a) == PermutationToString(b)
    ensures a == b
  {
    ReadNumbersInverse(a);
    ReadNumbersInverse(b);
  }

  // ---------------------------------------------------------------------------
  // `cycles_to_string`
  // ---------------------------------------------------------------------------

  /** A cycle in parentheses, or nothing for a fixpoint that is not printed. */
  function CycleText(cycle: seq<nat>, printFixpoints: bool): string {
    if |cycle| > 1 || printFixpoints then "(" + AnyJoin(cycle, " ") + ")" else ""
  }

  function CycleTexts(cycles: seq<seq<nat>>, printFixpoints: bool): (r: seq<string>)
    ensures |r| == |cycles| && forall k :: 0 <= k < |cycles| ==> r[k] == CycleText(cycles[k], printFixpoints)
  {
    seq(|cycles|, k requires 0 <= k < |cycles| => CycleText(cycles[k], printFixpoints))
  }

  /** `cycles_to_string`: the cycles' texts joined with the empty separator. */
  function CyclesToString(cycles: seq<seq<nat>>, printFixpoints: bool): string {
    Join(CycleTexts(cycles, printFixpoints), "")
  }

  /** The cycles that move something: those longer than one element, in order. */
  function Moving(cycles: seq<seq<nat>>): seq<seq<nat>> {
    if |cycles| == 0 then []
    else if |cycles[0]| > 1 then [cycles[0]] + Moving(cycles[1..])
    else Moving(cycles[1..])
  }

  /** `Moving` keeps exactly the cycles longer than one element. */
  lemma {:induction false} MovingMembers(cycles: seq<seq<nat>>)
    ensures forall c :: c in Moving(cycles) <==> c in cycles && |c| > 1
    decreases |cycles|
  {
    if |cycles| > 0 {
      MovingMembers(cycles[1..]);
      assert forall c :: c in cycles <==> c == cycles[0] || c in cycles[1..];
    }
  }

  lemma ConcatTexts(cycles: seq<seq<nat>>, printFixpoints: bool)
    requires |cycles| > 0
    ensures Concat(CycleTexts(cycles, printFixpoints)) ==
            CycleText(cycles[0], printFixpoints) + Concat(CycleTexts(cycles[1..], printFixpoints))
  {
    assert CycleTexts(cycles, printFixpoints)[1..] == CycleTexts(cycles[1..], printFixpoints);
  }

  lemma {:induction false} MovingText(cycles: seq<seq<nat>>)
    ensures Concat(CycleTexts(cycles, false)) == Concat(CycleTexts(Moving(cycles), true))
    decreases |cycles|
  {
    if |cycles| > 0 {
      var c, rest := cycles[0], cycles[1..];
      MovingText(rest);
      ConcatTexts(cycles, false);
      if |c| > 1 {
        var m := Moving(cycles);
        assert m[0] == c && m[1..] == Moving(rest);
        ConcatTexts(m, true);
      }
    }
  }

  /**
   * Leaving out fixpoints is the same as printing every cycle of the
   * cycles that move something.
   */
  lemma CyclesToStringWithoutFixpoints(cycles: seq<seq<nat>>)
    ensures CyclesToString(cycles, false) == CyclesToString(Moving(cycles), true)
  {
    JoinEmptySeparator(CycleTexts(cycles, false));
    JoinEmptySeparator(CycleTexts(Moving(cycles), true));
    MovingText(cycles);
  }

  /** The cycles' texts without their closing parentheses. */
  function Opened(cycles: seq<seq<nat>>): (r: seq<string>)
    ensures |r| == |cycles| && forall k :: 0 <= k < |cycles| ==> r[k] == "(" + AnyJoin(cycles[k], " ")
  {
    seq(|cycles|, k requires 0 <= k < |cycles| => "(" + AnyJoin(cycles[k], " "))
  }

  lemma {:induction false} PrintedTerminated(cycles: seq<seq<nat>>)
    ensures Concat(CycleTexts(cycles, true)) == Terminated(Opened(cycles), ')')
    decreases |cycles|
  {
    if |cycles| > 0 {
      PrintedTerminated(cycles[1..]);
      assert CycleTexts(cycles, true)[1..] == CycleTexts(cycles[1..], true);
      assert Opened(cycles)[1..] == Opened(cycles[1..]);
    }
  }

  lemma NoCloseInNumbers(xs: seq<nat>)
    ensures ')' !in "(" + AnyJoin(xs, " ")
  {
    var items := Numbers(xs);
    forall k | 0 <= k < |items| ensures ')' !in items[k] {
      assert !IsDigit(')');
    }
    JoinAvoids(items, " ", ')');
  }

  /**
   * With fixpoints printed, the text splits at `)` into one piece per cycle,
   * each an opening parenthesis followed by the cycle's numbers.
   */
  lemma CyclesToStringPieces(cycles: seq<seq<nat>>)
    ensures var pieces := Split(CyclesToString(cycles, true), ')');
      && |pieces| == |cycles|
      && forall k :: 0 <= k < |cycles| ==>
           |pieces[k]| > 0 && pieces[k][0] == '(' && Split(pieces[k][1..], ' ') == Numbers(cycles[k])
  {
    JoinEmptySeparator(CycleTexts(cycles, true));
    PrintedTerminated(cycles);
    forall k | 0 <= k < |cycles| ensures ')' !in Opened(cycles)[k] {
      NoCloseInNumbers(cycles[k]);
    }
    SplitTerminated(Opened(cycles), ')');
    forall k | 0 <= k < |cycles| ensures Split(Opened(cycles)[k][1..], ' ') == Numbers(cycles[k]) {
      assert Opened(cycles)[k][1..] == AnyJoin(cycles[k], " ");
      AnyJoinSplit(cycles[k]);
    }
  }

  /** With fixpoints printed, different cycle lists are written differently. */
  lemma CyclesToStringInjective(a: seq<seq<nat>>, b: seq<seq<nat>>)
    requires CyclesToString(a, true) == CyclesToString(b, true)
    ensures a == b
  {
    CyclesToStringPieces(a);
    CyclesToStringPieces(b);
    forall k | 0 <= k < |a| ensures a[k] == b[k] {
      ReadNumbersInverse(a[k]);
      ReadNumbersInverse(b[k]);
    }
  }

  /**
   * `cycles_to_string(perm, print_fixpoints)`: the cycles of `perm` in the
   * order `permutation_to_cycles` finds them, as text.
   */
  method PermutationCyclesToString(perm: seq<nat>, printFixpoints: bool) returns (s: string, ghost cycles: seq<seq<nat>>)
    requires Permutation.IsPermutation(perm)
    ensures Permutation.Decomposition(perm, cycles) && Permutation.StartsAscending(cycles)
    ensures s == CyclesToString(cycles, printFixpoints)
  {
    var c := Permutation.PermutationToCycles(perm, false);
    s, cycles := CyclesToString(c, printFixpoints), c;
  }
}
