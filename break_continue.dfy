/** The check that `break` and `continue` only appear inside a loop
    (semantics/BreakContinueSemanticCheck.java). The walk carries a flag that is false
    in a method body, becomes true in the body of a for or while loop, and is passed
    unchanged into the branches of an if statement. */
module BreakContinue {
  import opened Ast
  import opened SemanticErrors
  import opened BlockWalks

  /** The errors the walk of `b` reports, given whether it is inside a loop. */
  function BlockErrors(b: Block, valid: bool): seq<SemanticError>
    decreases b, |b.statements| + 1
  {
    StatementErrors(b, valid, |b.statements|)
  }

  /** The errors of the first `n` statements of `b`, in order. */
  function StatementErrors(b: Block, valid: bool, n: nat): seq<SemanticError>
    requires n <= |b.statements|
    decreases b, n
  {
    if n == 0 then []
    else StatementErrors(b, valid, n - 1) + StatementErrorsAt(b, valid, n - 1)
  }

  /** The errors of statement `i` of `b`: a jump outside a loop is one error; a loop
      walks its body as inside a loop; an if statement walks its branches with the
      flag it was given; every other statement reports nothing. */
  function StatementErrorsAt(b: Block, valid: bool, i: nat): seq<SemanticError>
    requires i < |b.statements|
    decreases b, i, |SubBlocks(b.statements[i])| + 1
  {
    var m := |SubBlocks(b.statements[i])|;
    match b.statements[i]
    case BreakStatement(loc) => if valid then [] else [InvalidBreakContinue("break", loc)]
    case ContinueStatement(loc) => if valid then [] else [InvalidBreakContinue("continue", loc)]
    case ForLoop(_, _, _, _) => SubBlockErrors(b, i, true, m)
    case WhileLoop(_, _) => SubBlockErrors(b, i, true, m)
    case IfStatement(_, _, _) => SubBlockErrors(b, i, valid, m)
    case _ => []
  }

  /** The errors of the first `m` blocks held by statement `i` of `b`. */
  function SubBlockErrors(b: Block, i: nat, valid: bool, m: nat): seq<SemanticError>
    requires i < |b.statements| && m <= |SubBlocks(b.statements[i])|
    decreases b, i, m
  {
    if m == 0 then []
    else
      assert b.statements[i] in b.statements;
      SubBlockErrors(b, i, valid, m - 1) + BlockErrors(SubBlocks(b.statements[i])[m - 1], valid)
  }

  /** The errors of the method bodies, one method after the other. */
  function MethodErrors(methods: seq<Method>): seq<SemanticError> {
    if |methods| == 0 then []
    else MethodErrors(methods[..|methods| - 1]) + BlockErrors(methods[|methods| - 1].body, false)
  }

  /** `e` is the error of a jump in `b` that no loop encloses: directly in `b`, or in
      a branch of one of its if statements, at any depth. */
  predicate StrayJump(b: Block, e: SemanticError)
    decreases b, 1
  {
    exists i | 0 <= i < |b.statements| :: StrayJumpAt(b, i, e)
  }

  predicate StrayJumpAt(b: Block, i: nat, e: SemanticError)
    requires i < |b.statements|
    decreases b, 0
  {
    assert b.statements[i] in b.statements;
    match b.statements[i]
    case BreakStatement(loc) => e == InvalidBreakContinue("break", loc)
    case ContinueStatement(loc) => e == InvalidBreakContinue("continue", loc)
    case IfStatement(_, _, _) =>
      var subs := SubBlocks(b.statements[i]);
      exists k | 0 <= k < |subs| :: StrayJump(subs[k], e)
    case _ => false
  }

  class BreakContinueSemanticCheck {
    const prog: Program
    var errors: seq<SemanticError>

    constructor (prog: Program)
      ensures this.prog == prog && errors == []
    {
      this.prog := prog;
      errors := [];
    }

    /** `doCheck`: every method body is walked as outside a loop. */
    method DoCheck() returns (r: seq<SemanticError>)
      modifies this
      ensures errors == old(errors) + MethodErrors(prog.methods) && r == errors
    {
      var methods := prog.methods;
      for i := 0 to |methods|
        invariant errors == old(errors) + MethodErrors(methods[..i])
      {
        CheckBlock(methods[i].body, false);
        assert methods[..i + 1][..i] == methods[..i];
        AppendAssoc(old(errors), MethodErrors(methods[..i]), BlockErrors(methods[i].body, false));
      }
      assert methods[..|methods|] == methods;
      r := errors;
    }

    /** `checkBlock(block, valid)`. */
    method CheckBlock(block: Block, valid: bool)
      modifies this
      ensures errors == old(errors) + BlockErrors(block, valid)
      decreases block, 1
    {
      for i := 0 to |block.statements|
        invariant errors == old(errors) + StatementErrors(block, valid, i)
      {
        match block.statements[i] {
          case BreakStatement(loc) =>
            if !valid {
              errors := errors + [InvalidBreakContinue("break", loc)];
            }
          case ContinueStatement(loc) =>
            if !valid {
              errors := errors + [InvalidBreakContinue("continue", loc)];
            }
          case ForLoop(_, _, _, _) =>
            CheckSubBlocks(block, i, true);
          case IfStatement(_, _, _) =>
            CheckSubBlocks(block, i, valid);
          case WhileLoop(_, _) =>
            CheckSubBlocks(block, i, true);
          case _ =>
        }
        AppendAssoc(old(errors), StatementErrors(block, valid, i), StatementErrorsAt(block, valid, i));
      }
    }

    /** The loop over `stmt.getBlocks()` in `checkBlock`. */
    method CheckSubBlocks(block: Block, i: nat, valid: bool)
      requires i < |block.statements|
      modifies this
      ensures errors == old(errors) + SubBlockErrors(block, i, valid, |SubBlocks(block.statements[i])|)
      decreases block, 0
    {
      var subBlocks := SubBlocks(block.statements[i]);
      for j := 0 to |subBlocks|
        invariant errors == old(errors) + SubBlockErrors(block, i, valid, j)
      {
        assert block.statements[i] in block.statements;
        CheckBlock(subBlocks[j], valid);
        AppendAssoc(old(errors), SubBlockErrors(block, i, valid, j), BlockErrors(subBlocks[j], valid));
      }
    }
  }

  /** Inside a loop nothing is reported, however deeply the jumps are nested. */
  lemma {:induction false} SilentInLoop(b: Block)
    ensures BlockErrors(b, true) == []
    decreases b, 2
  {
    SilentStatements(b, |b.statements|);
  }

  lemma {:induction false} SilentStatements(b: Block, n: nat)
    requires n <= |b.statements|
    ensures StatementErrors(b, true, n) == []
    decreases b, 1, n
  {
    if n > 0 {
      SilentStatements(b, n - 1);
      var s := b.statements[n - 1];
      if s.ForLoop? || s.WhileLoop? || s.IfStatement? {
        SilentSubBlocks(b, n - 1, |SubBlocks(s)|);
      }
    }
  }

  lemma {:induction false} SilentSubBlocks(b: Block, i: nat, m: nat)
    requires i < |b.statements| && m <= |SubBlocks(b.statements[i])|
    ensures SubBlockErrors(b, i, true, m) == []
    decreases b, 0, m
  {
    if m > 0 {
      assert b.statements[i] in b.statements;
      SilentSubBlocks(b, i, m - 1);
      SilentInLoop(SubBlocks(b.statements[i])[m - 1]);
    }
  }

  /** An error comes from one of the blocks it was collected from. */
  lemma {:induction false} SubBlockErrorsMember(b: Block, i: nat, valid: bool, m: nat, e: SemanticError)
    requires i < |b.statements| && m <= |SubBlocks(b.statements[i])|
    ensures e in SubBlockErrors(b, i, valid, m) <==>
            exists k | 0 <= k < m :: e in BlockErrors(SubBlocks(b.statements[i])[k], valid)
    decreases m
  {
    if m > 0 {
      SubBlockErrorsMember(b, i, valid, m - 1, e);
    }
  }

  /** Outside a loop, the walk reports exactly the jumps no loop encloses. */
  lemma {:induction false} ReportedIffStray(b: Block, e: SemanticError)
    ensures e in BlockErrors(b, false) <==> StrayJump(b, e)
    decreases b, 2
  {
    StatementsReportedIffStray(b, |b.statements|, e);
    if StrayJump(b, e) {
      StrayJumpWitness(b, e);
    }
    if e in BlockErrors(b, false) {
      StrayJumpIntro(b, e);
    }
  }

  lemma StrayJumpWitness(b: Block, e: SemanticError)
    requires StrayJump(b, e)
    ensures exists i | 0 <= i < |b.statements| :: StrayJumpAt(b, i, e)
  {
  }

  lemma StrayJumpIntro(b: Block, e: SemanticError)
    requires exists i | 0 <= i < |b.statements| :: StrayJumpAt(b, i, e)
    ensures StrayJump(b, e)
  {
  }

  lemma {:induction false} StatementsReportedIffStray(b: Block, n: nat, e: SemanticError)
    requires n <= |b.statements|
    ensures e in StatementErrors(b, false, n) <==> exists i | 0 <= i < n :: StrayJumpAt(b, i, e)
    decreases b, 1, n
  {
    if n > 0 {
      StatementsReportedIffStray(b, n - 1, e);
      StatementReportedIffStray(b, n - 1, e);
    }
  }

  lemma {:induction false} StatementReportedIffStray(b: Block, i: nat, e: SemanticError)
    requires i < |b.statements|
    ensures e in StatementErrorsAt(b, false, i) <==> StrayJumpAt(b, i, e)
    decreases b, 0
  {
    var s := b.statements[i];
    var subs := SubBlocks(s);
    assert s in b.statements;
    if s.ForLoop? || s.WhileLoop? {
      SilentSubBlocks(b, i, |subs|);
    } else if s.IfStatement? {
      SubBlockErrorsMember(b, i, false, |subs|, e);
      forall k | 0 <= k < |subs|
        ensures e in BlockErrors(subs[k], false) <==> StrayJump(subs[k], e)
      {
        ReportedIffStray(subs[k], e);
      }
    }
  }

  /** A method body with no stray jump gets no error, and one with a stray jump gets
      at least one. */
  lemma CleanIffNoStray(b: Block)
    ensures BlockErrors(b, false) == [] <==> forall e :: !StrayJump(b, e)
  {
    if BlockErrors(b, false) != [] {
      var e := BlockErrors(b, false)[0];
      ReportedIffStray(b, e);
    }
    forall e | StrayJump(b, e)
      ensures e in BlockErrors(b, false)
    {
      ReportedIffStray(b, e);
    }
  }

  /** The check of a program reports exactly the stray jumps of its methods' bodies. */
  lemma {:induction false} ProgramReportedIffStray(methods: seq<Method>, e: SemanticError)
    ensures e in MethodErrors(methods) <==> exists m | m in methods :: StrayJump(m.body, e)
    decreases |methods|
  {
    if |methods| > 0 {
      var init := methods[..|methods| - 1];
      ProgramReportedIffStray(init, e);
      ReportedIffStray(methods[|methods| - 1].body, e);
      assert methods == init + [methods[|methods| - 1]];
    }
  }
}
