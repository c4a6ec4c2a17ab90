/**
 * Text helpers: decimal rendering of unsigned numbers (what `operator<<`,
 * `boost::lexical_cast` and `%d` produce for an `unsigned`) and joining items
 * with a separator (`boost::join`, `any_join`), each with the inverse that
 * shows no information is lost.
 */
module Text {
  import opened Seqs

  predicate IsDigit(c: char) { '0' <= c <= '9' }

  function DigitChar(d: nat): (c: char)
    requires d < 10
    ensures IsDigit(c) && c as int - '0' as int == d
  {
    ('0' as int + d) as char
  }

  function DigitValue(c: char): nat
    requires IsDigit(c)
  {
    c as int - '0' as int
  }

  /** Decimal digits of `n`, most significant first, without leading zeros. */
  function NatToString(n: nat): (s: string)
    ensures |s| > 0
    ensures forall c :: c in s ==> IsDigit(c)
    ensures |s| > 1 ==> s[0] != '0'
    decreases n
  {
    if n < 10 then [DigitChar(n)]
    else NatToString(n / 10) + [DigitChar(n % 10)]
  }

  /** Reads a string of decimal digits; the inverse of `NatToString`. */
  function ParseNat(s: string): nat
    requires forall c :: c in s ==> IsDigit(c)
  {
    if |s| == 0 then 0
    else
      assert s[|s| - 1] in s;
      ParseNat(s[..|s| - 1]) * 10 + DigitValue(s[|s| - 1])
  }

  lemma {:induction false} ParseNatToString(n: nat)
    ensures ParseNat(NatToString(n)) == n
    decreases n
  {
    var s := NatToString(n);
    if n >= 10 {
      ParseNatToString(n / 10);
      assert s[..|s| - 1] == NatToString(n / 10);
    }
  }

  /** `NatToString` is injective: distinct numbers print differently. */
  lemma NatToStringInjective(m: nat, n: nat)
    requires NatToString(m) == NatToString(n)
    ensures m == n
  {
    ParseNatToString(m);
    ParseNatToString(n);
  }

  /** The items separated by `sep`, as `boost::join(items, sep)` builds them. */
  function Join(items: seq<string>, sep: string): string
  {
    if |items| == 0 then ""
    else if |items| == 1 then items[0]
    else items[0] + sep + Join(items[1..], sep)
  }

  /** Splits `s` at every occurrence of `c`; the inverse of joining with `[c]`. */
  function Split(s: string, c: char): seq<string>
    decreases |s|
  {
    if |s| == 0 then []
    else
      var k := IndexOf(s, c);
      if k == |s| then [s] else [s[..k]] + Split(s[k + 1..], c)
  }

  /** No item is empty and none contains the separator character. */
  predicate SplittableBy(items: seq<string>, c: char) {
    forall i :: 0 <= i < |items| ==> |items[i]| > 0 && c !in items[i]
  }

  lemma {:induction false} JoinNonEmpty(items: seq<string>, sep: string)
    requires forall i :: 0 <= i < |items| ==> |items[i]| > 0
    requires |items| > 0
    ensures |Join(items, sep)| > 0
  {
  }

  /** Joining items with a separator character they do not contain loses nothing. */
  lemma {:induction false} SplitJoin(items: seq<string>, c: char)
    requires SplittableBy(items, c)
    ensures Split(Join(items, [c]), c) == items
    decreases |items|
  {
    if |items| == 1 {
      assert IndexOf(items[0], c) == |items[0]|;
    } else if |items| > 1 {
      var w, rest := items[0], Join(items[1..], [c]);
      var s := w + [c] + rest;
      assert Join(items, [c]) == s;
      assert s[|w|] == c;
      assert forall j :: 0 <= j < |w| ==> s[j] == w[j];
      assert IndexOf(s, c) == |w| by {
        assert forall j :: 0 <= j < |w| ==> s[j] != c;
        IndexOfFirst(s, c, |w|);
      }
      assert s[..|w|] == w;
      assert s[|w| + 1..] == rest;
      SplitJoin(items[1..], c);
      JoinNonEmpty(items[1..], [c]);
      assert Split(s, c) == [w] + Split(rest, c);
      assert items == [w] + items[1..];
    }
  }

  /** The items one after the other. */
  function Concat(items: seq<string>): string {
    if |items| == 0 then "" else items[0] + Concat(items[1..])
  }

  /** Joining with the empty separator is concatenation. */
  lemma {:induction false} JoinEmptySeparator(items: seq<string>)
    ensures Join(items, "") == Concat(items)
    decreases |items|
  {
    if |items| == 1 {
      assert Concat(items[1..]) == "";
    } else if |items| > 1 {
      JoinEmptySeparator(items[1..]);
    }
  }

  lemma {:induction false} ConcatAppend(p: seq<string>, q: seq<string>)
    ensures Concat(p + q) == Concat(p) + Concat(q)
    decreases |p|
  {
    if |p| == 0 {
      assert p + q == q;
    } else {
      assert (p + q)[1..] == p[1..] + q;
      ConcatAppend(p[1..], q);
    }
  }

  /** Every item followed by the terminator `c`. */
  function Terminated(items: seq<string>, c: char): string {
    if |items| == 0 then "" else items[0] + [c] + Terminated(items[1..], c)
  }

  /**
   * Items that do not contain `c`, each followed by `c`, split back into
   * the items.
   */
  lemma {:induction false} SplitTerminated(items: seq<string>, c: char)
    requires forall i :: 0 <= i < |items| ==> c !in items[i]
    ensures Split(Terminated(items, c), c) == items
    decreases |items|
  {
    if |items| > 0 {
      var w, rest := items[0], Terminated(items[1..], c);
      var s := w + [c] + rest;
      assert Terminated(items, c) == s;
      assert s[|w|] == c;
      assert IndexOf(s, c) == |w| by {
        assert forall j :: 0 <= j < |w| ==> s[j] == w[j] && s[j] != c;
        IndexOfFirst(s, c, |w|);
      }
      assert s[..|w|] == w;
      assert s[|w| + 1..] == rest;
      SplitTerminated(items[1..], c);
      assert items == [w] + items[1..];
    }
  }

  lemma {:induction false} TerminatedAppend(items: seq<string>, x: string, c: char)
    ensures Terminated(items + [x], c) == Terminated(items, c) + x + [c]
    decreases |items|
  {
    if |items| == 0 {
      assert items + [x] == [x];
      assert [x][1..] == [];
    } else {
      assert (items + [x])[1..] == items[1..] + [x];
      TerminatedAppend(items[1..], x, c);
    }
  }

  /** A character found in no item and not in the separator is not in the joined text. */
  lemma {:induction false} JoinAvoids(items: seq<string>, sep: string, c: char)
    requires c !in sep && forall k :: 0 <= k < |items| ==> c !in items[k]
    ensures c !in Join(items, sep)
    decreases |items|
  {
    if |items| > 1 {
      JoinAvoids(items[1..], sep, c);
    }
  }
}
