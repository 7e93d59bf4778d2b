/** The instruction tests of the peephole optimizer (optimization/PeepholeOptimizer.java):
    whether a move copies a value onto itself, and whether an instruction may overwrite
    a given value. Operands are values of any type compared by equality. */
module PeepholeOptimizers {
  import opened Wrappers

  /** The assembly instructions the tests distinguish, with the operands they look at. */
  datatype Instruction<V> =
    | Add(addRight: V) | And(andRight: V) | Call | Compare(compareRight: V) | CompareFlagged
    | Decrement(decremented: V) | Enter | Increment(incremented: V) | Jump | JumpTyped | Leave
    | Modulo(moduloRight: V) | Move(source: V, dest: V) | MoveFromMemory(destination: V)
    | MovePointer(pointerDest: V) | MoveScalar(target: V) | MoveToMemory
    | Negate(negated: V) | Not(inverted: V) | Or(orRight: V) | Pop | Push(pushed: V) | Return
    | SignedDivide(divideRight: V) | SignedMultiply(multiplyRight: V) | Subtract(subtractRight: V)
    | OtherInstruction

  /** `isReflexiveMove`: a move whose source and destination are the same value. */
  predicate IsReflexiveMove<V(==)>(i: Instruction<V>) {
    i.Move? && i.source == i.dest
  }

  /** Instructions that may clobber any value: calls and the frame and return
      instructions. */
  predicate ClobbersAll<V>(i: Instruction<V>) {
    i.Call? || i.Enter? || i.Leave? || i.Return?
  }

  /** The operand an instruction counts as writing, if it has one. */
  function Written<V>(i: Instruction<V>): Option<V> {
    match i
    case Add(v) => Some(v)
    case And(v) => Some(v)
    case Compare(v) => Some(v)
    case Decrement(v) => Some(v)
    case Increment(v) => Some(v)
    case Modulo(v) => Some(v)
    case Move(_, d) => Some(d)
    case MoveFromMemory(d) => Some(d)
    case MovePointer(d) => Some(d)
    case MoveScalar(t) => Some(t)
    case Negate(v) => Some(v)
    case Not(v) => Some(v)
    case Or(v) => Some(v)
    case SignedDivide(v) => Some(v)
    case SignedMultiply(v) => Some(v)
    case Subtract(v) => Some(v)
    case _ => None
  }

  /** `targetsValue(value, node)`, with a NOP node as `None`: whether the instruction may
      overwrite `value`. Calls, `enter`, `leave` and `ret` always may; jumps, pushes,
      pops, flagged compares, stores to memory, unknown instructions and NOPs never do;
      any other instruction does exactly when its written operand is `value`. */
  function TargetsValue<V(==)>(value: V, node: Option<Instruction<V>>): (r: bool)
    ensures node.Some? && ClobbersAll(node.value) ==> r
    ensures node.None? ==> !r
    ensures node.Some? && !ClobbersAll(node.value) ==> (r <==> Written(node.value) == Some(value))
  {
    if node.None? then false
    else match node.value
      case Add(v) => v == value
      case And(v) => v == value
      case Call => true
      case Compare(v) => v == value
      case CompareFlagged => false
      case Decrement(v) => v == value
      case Enter => true
      case Increment(v) => v == value
      case Jump => false
      case JumpTyped => false
      case Leave => true
      case Modulo(v) => v == value
      case Move(_, d) => d == value
      case MoveFromMemory(d) => d == value
      case MovePointer(d) => d == value
      case MoveScalar(t) => t == value
      case MoveToMemory => false
      case Negate(v) => v == value
      case Not(v) => v == value
      case Or(v) => v == value
      case Pop => false
      case Push(_) => false
      case Return => true
      case SignedDivide(v) => v == value
      case SignedMultiply(v) => v == value
      case Subtract(v) => v == value
      case OtherInstruction => false
  }

  /** Jumps, pushes, pops, flagged compares and stores never target a value. */
  lemma NeverTargets<V>(value: V, i: Instruction<V>)
    requires i.Jump? || i.JumpTyped? || i.Push? || i.Pop? || i.CompareFlagged? || i.MoveToMemory? || i.OtherInstruction?
    ensures !TargetsValue(value, Some(i))
  {
  }

  /** A reflexive move targets its own operand, and a move targets exactly its
      destination. */
  lemma MoveTargetsItsDestination<V>(value: V, i: Instruction<V>)
    requires i.Move?
    ensures TargetsValue(value, Some(i)) <==> i.dest == value
    ensures IsReflexiveMove(i) ==> TargetsValue(i.source, Some(i))
  {
  }
}
