/**
 * The bracket-syntax expressions of `expression_parser.cpp`: a single-pass
 * stack parser and the recursive printer.
 *
 * Syntax: `(ab)` AND, `{ab}` OR, `<abc>` majority, `[ab]` XOR, `!a` inversion,
 * `0` and `1` constants, `a` to `z` variables. An operation's opening bracket
 * pushes an empty placeholder of its type; the closing bracket pops the
 * operands into it. A pending inverter with no operand takes the next
 * completed expression.
 *
 * The source's shared pointers are only ever reachable from the stack while
 * they are filled in, so expressions are values here.
 */
module ExpressionParser {
  import opened Wrappers
  import Seqs
  import opened Text

  datatype ExprType = Const | Var | Inv | And | Or | Maj | Xor

  datatype Expr = Expr(kind: ExprType, value: nat, children: seq<Expr>)

  /** The assertions of the parser, each a way the input can be rejected. */
  datatype ParseError =
    | UnknownChar(c: char)      // a character outside the syntax
    | StackUnderflow            // a closing bracket without enough operands or no placeholder
    | PlaceholderMismatch       // the entry below the operands is not an empty placeholder of that type
    | NoExpression              // the input produced nothing
    | LeftoverExpressions       // more than one expression is left at the end

  predicate IsOperation(k: ExprType) { k == And || k == Or || k == Maj || k == Xor }

  /** The number of operands the closing bracket of an operation pops. */
  function Arity(k: ExprType): nat
    requires IsOperation(k)
  {
    if k == Maj then 3 else 2
  }

  function OpenBracket(k: ExprType): char
    requires IsOperation(k)
  {
    match k
    case And => '('
    case Or => '{'
    case Maj => '<'
    case Xor => '['
  }

  function CloseBracket(k: ExprType): char
    requires IsOperation(k)
  {
    match k
    case And => ')'
    case Or => '}'
    case Maj => '>'
    case Xor => ']'
  }

  /** The character printed for variable `v`: `'a' + v`, narrowed to a `char`. */
  function VarChar(v: nat): char {
    ((97 + v) % 256) as char
  }

  // ---------------------------------------------------------------------------
  // The parser, as functions on the stack (top at the end of the sequence)
  // ---------------------------------------------------------------------------

  /** An inverter still waiting for its operand. */
  predicate PendingInverter(e: Expr) { e.kind == Inv && e.children == [] }

  /**
   * `push_expression`: a pending inverter on top takes `e` as its operand
   * and is then pushed in turn, so `!!x` nests; otherwise `e` is pushed.
   */
  function PushExpr(stack: seq<Expr>, e: Expr): seq<Expr>
    decreases |stack|
  {
    if |stack| > 0 && PendingInverter(stack[|stack| - 1]) then
      var top := stack[|stack| - 1];
      PushExpr(stack[..|stack| - 1], Expr(Inv, top.value, [e]))
    else stack + [e]
  }

  /**
   * `push_operation`: pops `numOps` operands, keeping their source order,
   * fills the placeholder beneath them, which must be empty and of type
   * `kind`, and pushes the completed operation.
   */
  function PushOp(stack: seq<Expr>, kind: ExprType, numOps: nat): Result<seq<Expr>, ParseError> {
    if |stack| <= numOps then Err(StackUnderflow)
    else
      var top := stack[|stack| - numOps - 1];
      if top.children != [] || top.kind != kind then Err(PlaceholderMismatch)
      else Ok(PushExpr(stack[..|stack| - numOps - 1], Expr(kind, top.value, stack[|stack| - numOps..])))
  }

  /** An empty operation of type `kind`, pushed by its opening bracket (`prepare_operation`). */
  function Placeholder(kind: ExprType): Expr {
    Expr(kind, 0, [])
  }

  /** The effect of one input character on the stack. */
  function Step(stack: seq<Expr>, c: char): Result<seq<Expr>, ParseError> {
    match c
    case '!' => Ok(stack + [Expr(Inv, 0, [])])
    case '0' => Ok(PushExpr(stack, Expr(Const, 0, [])))
    case '1' => Ok(PushExpr(stack, Expr(Const, 1, [])))
    case '(' => Ok(stack + [Placeholder(And)])
    case '{' => Ok(stack + [Placeholder(Or)])
    case '<' => Ok(stack + [Placeholder(Maj)])
    case '[' => Ok(stack + [Placeholder(Xor)])
    case ')' => PushOp(stack, And, 2)
    case '}' => PushOp(stack, Or, 2)
    case '>' => PushOp(stack, Maj, 3)
    case ']' => PushOp(stack, Xor, 2)
    case _ =>
      if 'a' <= c <= 'z' then Ok(PushExpr(stack, Expr(Var, c as int - 'a' as int, [])))
      else Err(UnknownChar(c))
  }

  /** The stack after reading `s` from `stack`, or the first error. */
  function Run(stack: seq<Expr>, s: string): Result<seq<Expr>, ParseError>
    decreases |s|
  {
    if |s| == 0 then Ok(stack)
    else
      match Step(stack, s[0])
      case Err(err) => Err(err)
      case Ok(stack') => Run(stack', s[1..])
  }

  /** `parse_expression`: the single expression left after reading all of `s`. */
  function Parse(s: string): Result<Expr, ParseError> {
    match Run([], s)
    case Err(err) => Err(err)
    case Ok(stack) =>
      if |stack| == 0 then Err(NoExpression)
      else if |stack| > 1 then Err(LeftoverExpressions)
      else Ok(stack[0])
  }

  // ---------------------------------------------------------------------------
  // The parser, imperatively, as in the source
  // ---------------------------------------------------------------------------

  method PushExpression(stack: seq<Expr>, e: Expr) returns (stack': seq<Expr>)
    ensures stack' == PushExpr(stack, e)
    decreases |stack|
  {
    if |stack| > 0 && stack[|stack| - 1].kind == Inv && stack[|stack| - 1].children == [] {
      var top := stack[|stack| - 1];
      var rest := stack[..|stack| - 1];
      top := top.(children := top.children + [e]);
      assert top == Expr(Inv, stack[|stack| - 1].value, [e]);
      stack' := PushExpression(rest, top);
    } else {
      stack' := stack + [e];
    }
  }

  method PrepareOperation(stack: seq<Expr>, kind: ExprType) returns (stack': seq<Expr>)
    ensures stack' == stack + [Placeholder(kind)]
  {
    var e := Expr(kind, 0, []);
    stack' := stack + [e];
  }

  method PushOperation(stack: seq<Expr>, kind: ExprType, numOps: nat) returns (r: Result<seq<Expr>, ParseError>)
    ensures r == PushOp(stack, kind, numOps)
  {
    var children: seq<Expr> := [];
    var st := stack;
    var i := 0;
    while i < numOps
      invariant i <= numOps && i <= |stack|
      invariant st == stack[..|stack| - i] && children == stack[|stack| - i..]
    {
      if st == [] {
        return Err(StackUnderflow);
      }
      children := [st[|st| - 1]] + children;
      st := st[..|st| - 1];
      i := i + 1;
    }
    // the placeholder
    if st == [] {
      return Err(StackUnderflow);
    }
    var top := st[|st| - 1];
    assert top == stack[|stack| - numOps - 1];
    st := st[..|st| - 1];
    assert st == stack[..|stack| - numOps - 1];
    if top.children != [] || top.kind != kind {
      return Err(PlaceholderMismatch);
    }
    top := top.(children := children);
    var pushed := PushExpression(st, top);
    r := Ok(pushed);
  }

  method ParseExpression(s: string) returns (r: Result<Expr, ParseError>)
    ensures r == Parse(s)
  {
    var stack: seq<Expr> := [];
    for i := 0 to |s|
      invariant Run([], s) == Run(stack, s[i..])
    {
      var c := s[i];
      assert s[i..][0] == c && s[i..][1..] == s[i + 1..];
      match c {
        case '!' =>
          stack := stack + [Expr(Inv, 0, [])];
        case '0' =>
          stack := PushExpression(stack, Expr(Const, 0, []));
        case '1' =>
          stack := PushExpression(stack, Expr(Const, 1, []));
        case '(' =>
          stack := PrepareOperation(stack, And);
        case '{' =>
          stack := PrepareOperation(stack, Or);
        case '<' =>
          stack := PrepareOperation(stack, Maj);
        case '[' =>
          stack := PrepareOperation(stack, Xor);
        case ')' =>
          var next := PushOperation(stack, And, 2);
          if next.Err? { return Err(next.error); }
          stack := next.value;
        case '}' =>
          var next := PushOperation(stack, Or, 2);
          if next.Err? { return Err(next.error); }
          stack := next.value;
        case '>' =>
          var next := PushOperation(stack, Maj, 3);
          if next.Err? { return Err(next.error); }
          stack := next.value;
        case ']' =>
          var next := PushOperation(stack, Xor, 2);
          if next.Err? { return Err(next.error); }
          stack := next.value;
        case _ =>
          if 'a' <= c <= 'z' {
            stack := PushExpression(stack, Expr(Var, c as int - 'a' as int, []));
          } else {
            return Err(UnknownChar(c));
          }
      }
    }
    assert s[|s|..] == [];
    if stack == [] {
      return Err(NoExpression);
    }
    var result := stack[|stack| - 1];
    stack := stack[..|stack| - 1];
    if stack != [] {
      return Err(LeftoverExpressions);
    }
    r := Ok(result);
  }

  // ---------------------------------------------------------------------------
  // The printer
  // ---------------------------------------------------------------------------

  /** Every inverter in `e` has an operand, which the printer reads. */
  predicate Printable(e: Expr)
    decreases e
  {
    && (e.kind == Inv ==> |e.children| > 0)
    && (forall i :: 0 <= i < |e.children| ==> Printable(e.children[i]))
  }

  /**
   * `operator<<` (and `expression_to_string`, which returns the same text):
   * a constant as its decimal value, a variable as its letter, an inverter
   * as `!` and its first operand, an operation through `print_operation`.
   */
  function Print(e: Expr): string
    requires Printable(e)
    decreases e, 1
  {
    match e.kind
    case Const => NatToString(e.value)
    case Var => [VarChar(e.value)]
    case Inv => "!" + Print(e.children[0])
    case And => PrintOperation(e, '(', ')')
    case Or => PrintOperation(e, '{', '}')
    case Maj => PrintOperation(e, '<', '>')
    case Xor => PrintOperation(e, '[', ']')
  }

  /** `print_operation`: the brackets around the operands' texts. */
  function PrintOperation(e: Expr, open: char, closed: char): string
    requires Printable(e)
    decreases e, 0
  {
    [open] + PrintAll(e.children) + [closed]
  }

  function PrintAll(es: seq<Expr>): string
    requires forall i :: 0 <= i < |es| ==> Printable(es[i])
    decreases es
  {
    if |es| == 0 then "" else Print(es[0]) + PrintAll(es[1..])
  }

  /**
   * The expressions the printer and the parser agree on: constants 0 and 1,
   * variables `a` to `z`, inverters with one operand and operations with
   * their arity, every inner node with value 0.
   */
  predicate WellFormed(e: Expr)
    ensures WellFormed(e) ==> Printable(e)
    decreases e
  {
    && (match e.kind
        case Const => e.value <= 1 && e.children == []
        case Var => e.value < 26 && e.children == []
        case Inv => e.value == 0 && |e.children| == 1
        case _ => e.value == 0 && |e.children| == Arity(e.kind))
    && (forall i :: 0 <= i < |e.children| ==> WellFormed(e.children[i]))
  }

  predicate AllWellFormed(es: seq<Expr>)
    ensures AllWellFormed(es) ==> forall i :: 0 <= i < |es| ==> Printable(es[i])
  {
    forall i :: 0 <= i < |es| ==> WellFormed(es[i])
  }

  // ---------------------------------------------------------------------------
  // Printing, then parsing, gives back the expression
  // ---------------------------------------------------------------------------

  /** Reading `a + b` without error in `a` is reading `b` from where `a` left off. */
  lemma {:induction false} RunAppend(stack: seq<Expr>, a: string, b: string)
    requires Run(stack, a).Ok?
    ensures Run(stack, a + b) == Run(Run(stack, a).value, b)
    decreases |a|
  {
    if |a| == 0 {
      assert a + b == b;
    } else {
      assert (a + b)[0] == a[0] && (a + b)[1..] == a[1..] + b;
      var stack' := Step(stack, a[0]).value;
      assert Run(stack, a + b) == Run(stack', a[1..] + b);
      RunAppend(stack', a[1..], b);
    }
  }

  lemma RunOne(stack: seq<Expr>, c: char)
    ensures Run(stack, [c]) == Step(stack, c)
  {
    assert [c][1..] == [];
  }

  /** Reading the text of a well-formed expression pushes that expression. */
  lemma {:induction false} RunPrint(stack: seq<Expr>, e: Expr)
    requires WellFormed(e)
    ensures Run(stack, Print(e)) == Ok(PushExpr(stack, e))
    decreases e, 1
  {
    match e.kind
    case Const => RunPrintLeaf(stack, e);
    case Var => RunPrintLeaf(stack, e);
    case Inv => RunPrintInv(stack, e);
    case _ => RunPrintOperation(stack, e);
  }

  lemma RunPrintLeaf(stack: seq<Expr>, e: Expr)
    requires WellFormed(e) && (e.kind == Const || e.kind == Var)
    ensures Run(stack, Print(e)) == Ok(PushExpr(stack, e))
  {
    var c := if e.kind == Const then DigitChar(e.value) else VarChar(e.value);
    assert Print(e) == [c];
    RunOne(stack, c);
    assert e == Expr(e.kind, e.value, []);
  }

  lemma {:induction false} RunPrintInv(stack: seq<Expr>, e: Expr)
    requires WellFormed(e) && e.kind == Inv
    ensures Run(stack, Print(e)) == Ok(PushExpr(stack, e))
    decreases e, 0
  {
    var c := e.children[0];
    var stack' := stack + [Expr(Inv, 0, [])];
    assert Print(e) == "!" + Print(c);
    RunOne(stack, '!');
    RunAppend(stack, "!", Print(c));
    RunPrint(stack', c);
    assert e == Expr(Inv, 0, [c]);
    assert PushExpr(stack', c) == PushExpr(stack, e);
  }

  lemma {:induction false} RunPrintOperation(stack: seq<Expr>, e: Expr)
    requires WellFormed(e) && IsOperation(e.kind)
    ensures Run(stack, Print(e)) == Ok(PushExpr(stack, e))
    decreases e, 0
  {
    var k := e.kind;
    var open, closed := OpenBracket(k), CloseBracket(k);
    var stack' := stack + [Placeholder(k)];
    assert Print(e) == [open] + (PrintAll(e.children) + [closed]);
    RunOpen(stack, k);
    RunAppend(stack, [open], PrintAll(e.children) + [closed]);
    RunPrintAll(stack', e.children);
    RunAppend(stack', PrintAll(e.children), [closed]);
    var full := stack' + e.children;
    RunClose(full, k);
    assert |full| - Arity(k) - 1 == |stack| && full[|stack|] == Placeholder(k);
    assert full[..|stack|] == stack;
    assert full[|stack| + 1..] == e.children;
    assert e == Expr(k, 0, e.children);
  }

  lemma RunOpen(stack: seq<Expr>, k: ExprType)
    requires IsOperation(k)
    ensures Run(stack, [OpenBracket(k)]) == Ok(stack + [Placeholder(k)])
  {
    RunOne(stack, OpenBracket(k));
  }

  lemma RunClose(stack: seq<Expr>, k: ExprType)
    requires IsOperation(k)
    ensures Run(stack, [CloseBracket(k)]) == PushOp(stack, k, Arity(k))
  {
    RunOne(stack, CloseBracket(k));
  }

  /** Reading the texts of operands pushes them in order onto a stack with no pending inverter on top. */
  lemma {:induction false} RunPrintAll(stack: seq<Expr>, es: seq<Expr>)
    requires AllWellFormed(es)
    requires |stack| > 0 && !PendingInverter(stack[|stack| - 1])
    ensures Run(stack, PrintAll(es)) == Ok(stack + es)
    decreases es, 2
  {
    if |es| == 0 {
      assert stack + es == stack;
    } else {
      var e, rest := es[0], es[1..];
      assert es == [e] + rest;
      assert stack + [e] + rest == stack + es;
      assert PrintAll(es) == Print(e) + PrintAll(rest);
      RunPrint(stack, e);
      assert PushExpr(stack, e) == stack + [e] by {
        assert WellFormed(e);
      }
      RunAppend(stack, Print(e), PrintAll(rest));
      RunPrintAll(stack + [e], rest);
    }
  }

  /** `parse_expression` reads back what the printer writes. */
  lemma ParsePrint(e: Expr)
    requires WellFormed(e)
    ensures Parse(Print(e)) == Ok(e)
  {
    RunPrint([], e);
  }

  // ---------------------------------------------------------------------------
  // Parsing, then printing, gives back the text
  // ---------------------------------------------------------------------------

  /**
   * The text an expression stands for, including one still being built: an
   * empty placeholder is its opening bracket and a pending inverter is `!`.
   * On well-formed expressions it is the printer's text.
   */
  function Sketch(e: Expr): string
    decreases e
  {
    match e.kind
    case Const => NatToString(e.value)
    case Var => [VarChar(e.value)]
    case Inv => "!" + SketchAll(e.children)
    case _ =>
      if e.children == [] then [OpenBracket(e.kind)]
      else [OpenBracket(e.kind)] + SketchAll(e.children) + [CloseBracket(e.kind)]
  }

  function SketchAll(es: seq<Expr>): string
    decreases es
  {
    if |es| == 0 then "" else Sketch(es[0]) + SketchAll(es[1..])
  }

  lemma {:induction false} SketchAllAppend(a: seq<Expr>, b: seq<Expr>)
    ensures SketchAll(a + b) == SketchAll(a) + SketchAll(b)
    decreases |a|
  {
    if |a| == 0 {
      assert a + b == b;
    } else {
      assert (a + b)[0] == a[0] && (a + b)[1..] == a[1..] + b;
      assert SketchAll(a + b) == Sketch(a[0]) + SketchAll(a[1..] + b);
      SketchAllAppend(a[1..], b);
    }
  }

  /** Pushing an expression adds its text to the stack's text. */
  lemma {:induction false} SketchPushExpr(stack: seq<Expr>, e: Expr)
    ensures SketchAll(PushExpr(stack, e)) == SketchAll(stack) + Sketch(e)
    decreases |stack|
  {
    if |stack| > 0 && PendingInverter(stack[|stack| - 1]) {
      var rest, top := stack[..|stack| - 1], stack[|stack| - 1];
      SketchPushExpr(rest, Expr(Inv, top.value, [e]));
      assert stack == rest + [top];
      SketchAllAppend(rest, [top]);
    } else {
      SketchAllAppend(stack, [e]);
    }
  }

  /** Every accepted character adds itself to the stack's text. */
  lemma SketchStep(stack: seq<Expr>, c: char)
    requires Step(stack, c).Ok?
    ensures SketchAll(Step(stack, c).value) == SketchAll(stack) + [c]
  {
    match c
    case '!' => SketchAllAppend(stack, [Expr(Inv, 0, [])]);
    case '0' => SketchPushExpr(stack, Expr(Const, 0, []));
    case '1' => SketchPushExpr(stack, Expr(Const, 1, []));
    case '(' => SketchAllAppend(stack, [Placeholder(And)]);
    case '{' => SketchAllAppend(stack, [Placeholder(Or)]);
    case '<' => SketchAllAppend(stack, [Placeholder(Maj)]);
    case '[' => SketchAllAppend(stack, [Placeholder(Xor)]);
    case ')' => SketchPushOp(stack, And, 2);
    case '}' => SketchPushOp(stack, Or, 2);
    case '>' => SketchPushOp(stack, Maj, 3);
    case ']' => SketchPushOp(stack, Xor, 2);
    case _ => SketchPushExpr(stack, Expr(Var, c as int - 'a' as int, []));
  }

  lemma SketchPushOp(stack: seq<Expr>, kind: ExprType, numOps: nat)
    requires IsOperation(kind) && numOps > 0
    requires PushOp(stack, kind, numOps).Ok?
    ensures SketchAll(PushOp(stack, kind, numOps).value) == SketchAll(stack) + [CloseBracket(kind)]
  {
    var n := |stack| - numOps - 1;
    var pre, top, kids := stack[..n], stack[n], stack[n + 1..];
    Seqs.SplitAt(stack, n);
    var e := Expr(kind, top.value, kids);
    assert PushOp(stack, kind, numOps).value == PushExpr(pre, e);
    SketchAllAppend(pre + [top], kids);
    SketchAllAppend(pre, [top]);
    assert SketchAll([top]) == [OpenBracket(kind)] by {
      assert [top][1..] == [];
    }
    assert Sketch(e) == [OpenBracket(kind)] + SketchAll(kids) + [CloseBracket(kind)] by {
      assert kids != [];
    }
    SketchPushExpr(pre, e);
  }

  /** Reading `s` adds `s` to the stack's text. */
  lemma {:induction false} RunSketch(stack: seq<Expr>, s: string)
    requires Run(stack, s).Ok?
    ensures SketchAll(Run(stack, s).value) == SketchAll(stack) + s
    decreases |s|
  {
    if |s| > 0 {
      SketchStep(stack, s[0]);
      RunSketch(Step(stack, s[0]).value, s[1..]);
      assert s == [s[0]] + s[1..];
    }
  }

  /** A parsed expression stands for exactly the text it was parsed from. */
  lemma ParseSketch(s: string)
    requires Parse(s).Ok?
    ensures Sketch(Parse(s).value) == s
  {
    RunSketch([], s);
    var stack := Run([], s).value;
    assert |stack| == 1;
    var e := stack[0];
    assert stack == [e];
    assert Parse(s) == Ok(e);
    assert SketchAll([]) == "";
    assert SketchAll([e]) == s;
    assert SketchAll([e]) == Sketch(e) + SketchAll([e][1..]);
  }

  /** On well-formed expressions the text is the printer's output. */
  lemma {:induction false} SketchPrint(e: Expr)
    requires WellFormed(e)
    ensures Sketch(e) == Print(e)
    decreases e
  {
    match e.kind
    case Const =>
    case Var =>
    case Inv => SketchPrintAll(e.children);
    case _ => SketchPrintAll(e.children);
  }

  lemma {:induction false} SketchPrintAll(es: seq<Expr>)
    requires AllWellFormed(es)
    ensures SketchAll(es) == PrintAll(es)
    decreases es
  {
    if |es| > 0 {
      SketchPrint(es[0]);
      SketchPrintAll(es[1..]);
    }
  }

  /** Printing a well-formed parse result reproduces the input. */
  lemma PrintParse(s: string)
    requires Parse(s).Ok? && WellFormed(Parse(s).value)
    ensures Print(Parse(s).value) == s
  {
    ParseSketch(s);
    SketchPrint(Parse(s).value);
  }

  /** Two different texts never parse to the same expression. */
  lemma ParseInjective(s: string, t: string)
    requires Parse(s).Ok? && Parse(t).Ok? && Parse(s) == Parse(t)
    ensures s == t
  {
    ParseSketch(s);
    ParseSketch(t);
  }

  // ---------------------------------------------------------------------------
  // Rejected input
  // ---------------------------------------------------------------------------

  predicate InSyntax(c: char) {
    c in "!01({<[)}>]" || 'a' <= c <= 'z'
  }

  /** A character outside the syntax makes the parse fail, whatever surrounds it. */
  lemma {:induction false} RunRejects(stack: seq<Expr>, s: string, k: nat)
    requires k < |s| && !InSyntax(s[k])
    ensures Run(stack, s).Err?
    decreases |s|
  {
    if k > 0 && Step(stack, s[0]).Ok? {
      RunRejects(Step(stack, s[0]).value, s[1..], k - 1);
    }
  }

  lemma ParseRejects(s: string, k: nat)
    requires k < |s| && !InSyntax(s[k])
    ensures Parse(s).Err?
  {
    RunRejects([], s, k);
  }

  /** A pending inverter takes the next expression, repeatedly: `!!a` is a double inversion. */
  lemma DoubleInversion()
    ensures Parse("!!a") == Ok(Expr(Inv, 0, [Expr(Inv, 0, [Expr(Var, 0, [])])]))
  {
    var e := Expr(Inv, 0, [Expr(Inv, 0, [Expr(Var, 0, [])])]);
    assert Print(e) == "!!a";
    ParsePrint(e);
  }
}
