/** The static type an expression evaluates to in a scope (ir/EvaluateCheck.java).
    The Java class has one overload per expression class and Java picks the
    overload from the static type of the argument; the model dispatches on the
    node's own kind, which is what a call with the concrete static type does. An
    absent type means the expression does not evaluate to anything. */
module EvaluateCheck {
  import opened Wrappers
  import opened BaseTypes
  import opened Ast
  import opened Scopes

  /** The operators whose result is a boolean: the logical, equality and relational
      ones. The arithmetic ones give an integer. */
  predicate IsBooleanOperator(op: BinaryOperator) {
    op in {And, Or, DoubleEquals, NotEquals, GreaterThanOrEqual, GreaterThan, LessThanOrEqual, LessThan}
  }

  /** `evaluatesTo(expression, scope)` with `visible` the fields the scope chain
      declares, innermost first. A ternary operation only matches the
      NativeExpression overload, which answers absent. */
  function EvaluatesTo(e: Expr, visible: seq<FieldDescriptor>): (r: Option<BaseType>)
    ensures e.TernaryOperation? ==> r.None?
    ensures e.BinaryOperation? || e.UnaryOperation? ==> r == Some(Boolean) || r == Some(Integer)
    ensures e.BinaryOperation? || e.UnaryOperation? ==>
              (r == Some(Boolean) <==> (e.BinaryOperation? && IsBooleanOperator(e.op)) || (e.UnaryOperation? && e.uop == Not))
    ensures !(e.ScalarLocation? || e.ArrayLocation? || e.TernaryOperation?) ==> r.Some? && r.value != Wildcard
    ensures e.ScalarLocation? ==> (r.Some? <==> Declares(visible, e.name))
    ensures e.ArrayLocation? && r.Some? ==> Declares(visible, e.arrayName)
  {
    match e
    case BinaryOperation(op, _, _) => if IsBooleanOperator(op) then Some(Boolean) else Some(Integer)
    case UnaryOperation(uop, _) =>
      (match uop
       case ArrayLength => Some(Integer)
       case Negative => Some(Integer)
       case Not => Some(Boolean))
    case BooleanLiteral(_) => Some(Boolean)
    case CharLiteral(_) => Some(Void)
    case IntLiteral(_) => Some(Integer)
    case StringLiteral(_) => Some(Void)
    case MethodCall(_, _) => Some(Void)
    case ScalarLocation(name) =>
      var v := FirstNamed(visible, name);
      if v.Some? then Some(v.value.fieldType) else None
    case ArrayLocation(name, _) =>
      var v := FirstNamed(visible, name);
      if v.Some? && v.value.length.Some? then Some(v.value.fieldType) else None
    case TernaryOperation(_, _, _, _) => None
  }

  /** Only the type of a location depends on the scope. */
  lemma ScopeMattersOnlyForLocations(e: Expr, v: seq<FieldDescriptor>, w: seq<FieldDescriptor>)
    requires !e.ScalarLocation? && !e.ArrayLocation?
    ensures EvaluatesTo(e, v) == EvaluatesTo(e, w)
  {
  }

  /** A scalar location has the type of the innermost field of its name. */
  lemma ScalarHasInnermostType(name: string, visible: seq<FieldDescriptor>, i: nat)
    requires i < |visible| && visible[i].name == name
    requires forall j | 0 <= j < i :: visible[j].name != name
    ensures EvaluatesTo(ScalarLocation(name), visible) == Some(visible[i].fieldType)
  {
    FirstNamedAt(visible, i, name);
  }

  /** An array location has a type exactly when the innermost field of its name is an
      array, whatever index it carries; the type is that field's. */
  lemma ArrayNeedsArrayField(name: string, index: int, visible: seq<FieldDescriptor>, i: nat)
    requires i < |visible| && visible[i].name == name
    requires forall j | 0 <= j < i :: visible[j].name != name
    ensures EvaluatesTo(ArrayLocation(name, index), visible).Some? <==> visible[i].length.Some?
    ensures EvaluatesTo(ArrayLocation(name, index), visible).Some? ==>
            EvaluatesTo(ArrayLocation(name, index), visible).value == visible[i].fieldType
  {
    FirstNamedAt(visible, i, name);
  }

  /** A declaration in an inner scope hides every outer one of the same name. */
  lemma InnerDeclarationHides(e: Expr, inner: seq<FieldDescriptor>, outer: seq<FieldDescriptor>)
    requires e.ScalarLocation? || e.ArrayLocation?
    requires Declares(inner, if e.ScalarLocation? then e.name else e.arrayName)
    ensures EvaluatesTo(e, inner + outer) == EvaluatesTo(e, inner)
  {
    FirstNamedAppend(inner, outer, if e.ScalarLocation? then e.name else e.arrayName);
  }

  /** `evaluatesTo` given the scope object: the lookup goes through
      `scope.getFromScope`. */
  method EvaluatesToIn(e: Expr, scope: Scope) returns (r: Option<BaseType>)
    requires scope.Valid()
    ensures r == EvaluatesTo(e, scope.Visible())
  {
    match e {
      case ScalarLocation(name) =>
        var v := scope.GetFromScope(name);
        if v.Some? {
          return Some(v.value.fieldType);
        }
        return None;
      case ArrayLocation(name, _) =>
        var v := scope.GetFromScope(name);
        if v.Some? && v.value.length.Some? {
          return Some(v.value.fieldType);
        }
        return None;
      case _ =>
        r := EvaluatesTo(e, []);
        ScopeMattersOnlyForLocations(e, [], scope.Visible());
    }
  }
}
