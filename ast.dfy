/** The part of the Decaf abstract syntax tree that the modelled checks and
    optimizations look at (the classes under ast/). */
module Ast {
  import opened Wrappers
  import opened BaseTypes

  /** Where a node came from; machine-generated code has no source position. */
  datatype LocationDescriptor = SourceLocation(programName: string, line: int, column: int) | MachineCode

  datatype BinaryOperator =
    | Plus | Minus | Times | DividedBy | Modulo
    | LessThan | GreaterThan | LessThanOrEqual | GreaterThanOrEqual
    | DoubleEquals | NotEquals | And | Or

  datatype UnaryOperator = ArrayLength | Negative | Not

  datatype AssignmentOperation = SetEquals | PlusEquals | MinusEquals

  /** A GeneralExpression: a NativeExpression or a string literal (which only a
      callout argument can be). Literals keep the text the user typed. */
  datatype Expr =
    | BinaryOperation(op: BinaryOperator, left: Expr, right: Expr)
    | UnaryOperation(uop: UnaryOperator, argument: Expr)
    | TernaryOperation(condition: Expr, trueResult: Expr, falseResult: Expr, location: LocationDescriptor)
    | MethodCall(methodName: string, arguments: seq<Expr>)
    | ScalarLocation(name: string)
    | ArrayLocation(arrayName: string, index: int)
    | IntLiteral(text: string)
    | BooleanLiteral(text: string)
    | CharLiteral(text: string)
    | StringLiteral(text: string)

  /** `instanceof NativeLiteral`: int, boolean and char literals. */
  predicate IsNativeLiteral(e: Expr) {
    e.IntLiteral? || e.BooleanLiteral? || e.CharLiteral?
  }

  /** The direct subexpressions of an expression. */
  function Children(e: Expr): (r: seq<Expr>)
    ensures forall c | c in r :: c < e
  {
    match e
    case BinaryOperation(_, l, r) => [l, r]
    case UnaryOperation(_, a) => [a]
    case TernaryOperation(c, t, f, _) => [c, t, f]
    case MethodCall(_, args) => args
    case _ => []
  }

  /** `s` is `e` or occurs somewhere inside it. */
  predicate IsSubterm(s: Expr, e: Expr)
    decreases e
  {
    s == e || exists i | 0 <= i < |Children(e)| :: IsSubterm(s, Children(e)[i])
  }

  /** A Location: the target of an assignment. */
  type Location = e: Expr | e.ScalarLocation? || e.ArrayLocation? witness ScalarLocation("")

  /** The name of the variable a location denotes. */
  function LocationName(l: Location): string {
    if l.ScalarLocation? then l.name else l.arrayName
  }

  /** A declared variable: an array when it has a length (the length literal's text). */
  datatype FieldDescriptor = FieldDescriptor(
    name: string, length: Option<string>, line: int, column: int, fieldType: BaseType)

  datatype Statement =
    | Assignment(location: Location, operation: AssignmentOperation, expression: Expr)
    | CallStatement(call: Expr)
    | Condition(condition: Expr)
    | ReturnStatement(returnValue: Option<Expr>)
    | BreakStatement(breakLocation: LocationDescriptor)
    | ContinueStatement(continueLocation: LocationDescriptor)
    | IfStatement(ifCondition: Expr, thenBlock: Block, elseBlock: Option<Block>)
    | ForLoop(loopVariable: string, rangeStart: Expr, rangeEnd: Expr, forBody: Block)
    | WhileLoop(whileCondition: Expr, whileBody: Block)

  /** A block: the fields it declares (its scope) and its statements. */
  datatype Block = Block(locals: seq<FieldDescriptor>, statements: seq<Statement>)

  datatype Method = Method(
    name: string, parameters: seq<FieldDescriptor>, body: Block, location: LocationDescriptor)

  datatype Callout = Callout(name: string, location: LocationDescriptor)

  datatype Program = Program(
    name: string, callouts: seq<Callout>, globals: seq<FieldDescriptor>, methods: seq<Method>)

  /** `Statement.getBlocks()`: the blocks nested directly in a statement. */
  function SubBlocks(s: Statement): (r: seq<Block>)
    ensures forall b | b in r :: b < s
  {
    match s
    case IfStatement(_, t, e) => if e.Some? then [t, e.value] else [t]
    case ForLoop(_, _, _, body) => [body]
    case WhileLoop(_, body) => [body]
    case _ => []
  }

  /** `StaticStatement.expression()`: the single expression a statement carries. Only
      assignments, method calls and conditions are static statements; a return
      statement is not one, so it carries no expression here. */
  function ExpressionOf(s: Statement): (r: Option<Expr>)
    ensures r.Some? <==> s.Assignment? || s.CallStatement? || s.Condition?
  {
    match s
    case Assignment(_, _, e) => Some(e)
    case CallStatement(c) => Some(c)
    case Condition(e) => Some(e)
    case _ => None
  }
}
