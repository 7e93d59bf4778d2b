/** Expression equality and expression rewriting as TernaryOperation defines them
    (ast/TernaryOperation.java): equality compares the children and ignores where the
    node came from; `withReplacements` replaces every subexpression equal to a target;
    `replaceFirst` replaces only the first child equal to it. */
module TernaryOperations {
  import opened Ast

  /** The expression with every ternary's location dropped. */
  function Erase(e: Expr): (r: Expr)
    ensures |Children(r)| == |Children(e)|
    ensures r.TernaryOperation? <==> e.TernaryOperation?
  {
    match e
    case BinaryOperation(op, l, r) => BinaryOperation(op, Erase(l), Erase(r))
    case UnaryOperation(u, a) => UnaryOperation(u, Erase(a))
    case TernaryOperation(c, t, f, _) => TernaryOperation(Erase(c), Erase(t), Erase(f), MachineCode)
    case MethodCall(n, args) => MethodCall(n, seq(|args|, i requires 0 <= i < |args| => Erase(args[i])))
    case _ => e
  }

  /** `equals`: the same expression, wherever its ternaries came from. */
  predicate Equals(a: Expr, b: Expr) {
    Erase(a) == Erase(b)
  }

  /** Two ternaries are equal exactly when their three children are, whatever their
      locations. */
  lemma TernaryEquals(c: Expr, t: Expr, f: Expr, l: LocationDescriptor, c': Expr, t': Expr, f': Expr, l': LocationDescriptor)
    ensures Equals(TernaryOperation(c, t, f, l), TernaryOperation(c', t', f', l'))
        <==> Equals(c, c') && Equals(t, t') && Equals(f, f')
  {
  }

  /** `t` equals `e` or one of its subexpressions. */
  predicate Occurs(t: Expr, e: Expr)
    decreases e
  {
    Equals(e, t) || exists i | 0 <= i < |Children(e)| :: Occurs(t, Children(e)[i])
  }

  /** `withReplacements(toReplace, replacement)`: `replacement` if the whole expression
      equals `toReplace`, otherwise the same node, location kept, with the replacements
      made in each child. */
  function WithReplacements(e: Expr, toReplace: Expr, replacement: Expr): (r: Expr)
    ensures Equals(e, toReplace) ==> r == replacement
    ensures !Equals(e, toReplace) ==>
              |Children(r)| == |Children(e)| &&
              forall i | 0 <= i < |Children(e)| :: Children(r)[i] == WithReplacements(Children(e)[i], toReplace, replacement)
    ensures !Equals(e, toReplace) && e.TernaryOperation? ==> r.TernaryOperation? && r.location == e.location
    decreases e
  {
    if Equals(e, toReplace) then replacement
    else match e
      case BinaryOperation(op, l, r) =>
        BinaryOperation(op, WithReplacements(l, toReplace, replacement), WithReplacements(r, toReplace, replacement))
      case UnaryOperation(u, a) => UnaryOperation(u, WithReplacements(a, toReplace, replacement))
      case TernaryOperation(c, t, f, loc) =>
        TernaryOperation(WithReplacements(c, toReplace, replacement), WithReplacements(t, toReplace, replacement),
                         WithReplacements(f, toReplace, replacement), loc)
      case MethodCall(n, args) =>
        MethodCall(n, seq(|args|, i requires 0 <= i < |args| => WithReplacements(args[i], toReplace, replacement)))
      case _ => e
  }

  /** Where `toReplace` does not occur nothing changes. */
  lemma {:induction false} NoOccurrenceNoChange(e: Expr, toReplace: Expr, replacement: Expr)
    requires !Occurs(toReplace, e)
    ensures WithReplacements(e, toReplace, replacement) == e
    decreases e
  {
    assert !Equals(e, toReplace);
    var cs := Children(e);
    var r := WithReplacements(e, toReplace, replacement);
    forall i | 0 <= i < |cs|
      ensures Children(r)[i] == cs[i]
    {
      NoOccurrenceNoChange(cs[i], toReplace, replacement);
    }
    assert Children(r) == cs;
    SameChildrenSame(e, toReplace, replacement);
  }

  /** A node that is not replaced is the same node over its new children. */
  lemma SameChildrenSame(e: Expr, toReplace: Expr, replacement: Expr)
    requires !Equals(e, toReplace) && Children(WithReplacements(e, toReplace, replacement)) == Children(e)
    ensures WithReplacements(e, toReplace, replacement) == e
  {
    var r := WithReplacements(e, toReplace, replacement);
    match e
    case BinaryOperation(_, _, _) =>
      assert Children(r)[0] == e.left && Children(r)[1] == e.right;
    case UnaryOperation(_, _) =>
      assert Children(r)[0] == e.argument;
    case TernaryOperation(_, _, _, _) =>
      assert Children(r)[0] == e.condition && Children(r)[1] == e.trueResult && Children(r)[2] == e.falseResult;
    case MethodCall(_, args) =>
      assert r.arguments == Children(r);
    case _ =>
  }

  /** Replacing a leaf (an expression without children) by an expression in which it
      does not occur leaves no occurrence of it. */
  lemma {:induction false} ReplacementsRemoveLeaf(e: Expr, toReplace: Expr, replacement: Expr)
    requires Children(toReplace) == [] && !Occurs(toReplace, replacement)
    ensures !Occurs(toReplace, WithReplacements(e, toReplace, replacement))
    decreases e
  {
    if !Equals(e, toReplace) {
      var r := WithReplacements(e, toReplace, replacement);
      var cs := Children(e);
      forall i | 0 <= i < |cs|
        ensures !Occurs(toReplace, Children(r)[i])
      {
        ReplacementsRemoveLeaf(cs[i], toReplace, replacement);
      }
      if |cs| == 0 {
        SameChildrenSame(e, toReplace, replacement);
      } else {
        assert |Children(Erase(r))| != |Children(Erase(toReplace))|;
      }
      assert !Equals(r, toReplace);
    }
  }

  /** `replaceFirst(toReplace, replacement)` on a ternary: the first of condition, true
      result and false result that equals `toReplace` gives way to `replacement`. */
  function ReplaceFirst(e: Expr, toReplace: Expr, replacement: Expr): (r: Expr)
    requires e.TernaryOperation?
    ensures r.TernaryOperation? && r.location == e.location
    ensures !Equals(e.condition, toReplace) && !Equals(e.trueResult, toReplace) && !Equals(e.falseResult, toReplace) ==> r == e
  {
    if Equals(e.condition, toReplace) then TernaryOperation(replacement, e.trueResult, e.falseResult, e.location)
    else if Equals(e.trueResult, toReplace) then TernaryOperation(e.condition, replacement, e.falseResult, e.location)
    else if Equals(e.falseResult, toReplace) then TernaryOperation(e.condition, e.trueResult, replacement, e.location)
    else e
  }

  /** Of the three children, the first equal to the target, and only that one, is
      replaced. */
  lemma ReplaceFirstReplacesFirstMatch(e: Expr, toReplace: Expr, replacement: Expr, k: int)
    requires e.TernaryOperation? && 0 <= k < 3
    requires Equals(Children(e)[k], toReplace)
    requires forall j | 0 <= j < k :: !Equals(Children(e)[j], toReplace)
    ensures Children(ReplaceFirst(e, toReplace, replacement))[k] == replacement
    ensures forall j | 0 <= j < 3 && j != k :: Children(ReplaceFirst(e, toReplace, replacement))[j] == Children(e)[j]
  {
    var cs := Children(e);
    assert cs == [e.condition, e.trueResult, e.falseResult];
    if k == 1 {
      assert !Equals(cs[0], toReplace);
    } else if k == 2 {
      assert !Equals(cs[0], toReplace) && !Equals(cs[1], toReplace);
    }
  }

  /** `replaceFirst` changes at most one child, so a ternary in which the target is a
      child twice keeps its second copy, while `withReplacements` replaces both. */
  lemma ReplaceFirstKeepsLaterCopies(c: Expr, t: Expr, l: LocationDescriptor, x: Expr)
    requires !t.TernaryOperation? && !Equals(c, t) && !Occurs(t, c)
    ensures ReplaceFirst(TernaryOperation(c, t, t, l), t, x) == TernaryOperation(c, x, t, l)
    ensures WithReplacements(TernaryOperation(c, t, t, l), t, x) == TernaryOperation(c, x, x, l)
  {
    NoOccurrenceNoChange(c, t, x);
  }
}
