/** The check that a program has a `main` method without parameters
    (semantics/MissingMainSemanticCheck.java). */
module MissingMain {
  import opened Ast
  import opened SemanticErrors

  /** A method named "main" whose signature is empty. */
  predicate IsMain(m: Method) {
    m.name == "main" && |m.parameters| == 0
  }

  class MissingMainSemanticCheck {
    const prog: Program
    var errors: seq<SemanticError>

    constructor (prog: Program)
      ensures this.prog == prog && errors == []
    {
      this.prog := prog;
      errors := [];
    }

    /** `doCheck`: the search stops at the first `main` without parameters; when there
        is none, a single MissingMain error is added. */
    method DoCheck() returns (r: seq<SemanticError>)
      modifies this
      ensures (exists m | m in prog.methods :: IsMain(m)) ==> errors == old(errors)
      ensures (forall m | m in prog.methods :: !IsMain(m)) ==> errors == old(errors) + [MissingMain]
      ensures r == errors
    {
      var methods := prog.methods;
      for i := 0 to |methods|
        invariant forall j | 0 <= j < i :: !IsMain(methods[j])
        invariant errors == old(errors)
      {
        var m := methods[i];
        if m.name == "main" {
          if 0 == |m.parameters| {
            assert IsMain(m) && m in prog.methods;
            return errors;
          }
        }
      }
      errors := errors + [MissingMain];
      r := errors;
    }
  }
}
