/** The semantic errors the modelled checks report (semantics/errors/), and the list
    they are collected in. An error keeps the data its message is formatted from. */
module SemanticErrors {
  import opened Wrappers
  import opened Ast

  /** Which kind of scope a duplicate declaration was found in. */
  datatype LocationType = Global | Param | Local

  datatype SemanticError =
    /** The anonymous error of `Utils.check`: a format string and its arguments. */
    | Formatted(message: string, messageArgs: seq<string>)
    | NonPositiveArrayLength(location: LocationDescriptor, programName: string, varName: string, index: string)
    /** `name` is "break" or "continue". */
    | InvalidBreakContinue(name: string, breakLocation: LocationDescriptor)
    /** The method name is absent for global duplicates. */
    | DeclaredTwice(locationType: LocationType, locations: seq<LocationDescriptor>, programName: string,
                    name: string, methodName: Option<string>)
    | MissingMain

  /** A list of errors that checks append to. */
  class ErrorAccumulator {
    var errors: seq<SemanticError>

    constructor ()
      ensures errors == []
    {
      errors := [];
    }
  }

  /** `new LocationDescriptor(programName, line, column)` for a declared field. */
  function FieldLocation(programName: string, f: FieldDescriptor): LocationDescriptor {
    SourceLocation(programName, f.line, f.column)
  }
}
