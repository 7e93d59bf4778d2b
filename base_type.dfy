/** The Decaf base types and the "is a" relation between them (ast/BaseType.java). */
module BaseTypes {
  import opened Wrappers

  datatype BaseType = Integer | Boolean | Void | Wildcard

  /** `t.isA(required)`. Asking whether anything is a WILDCARD is an argument error;
      a WILDCARD (what a callout returns) is a BOOLEAN and an INTEGER, but not VOID. */
  function IsA(t: BaseType, required: BaseType): (r: Result<bool>)
    ensures required == Wildcard <==> r.Err?
    ensures r.Err? ==> r.error.IllegalArgument?
    ensures r.Ok? ==> (r.value <==> t == required || (t == Wildcard && required != Void))
  {
    if required == Wildcard then Err(IllegalArgument("Nothing is EVER a wildcard!"))
    else match t
      case Boolean => Ok(required == Boolean)
      case Integer => Ok(required == Integer)
      case Void => Ok(required == Void)
      case Wildcard => Ok(required == Boolean || required == Integer)
  }

  /** The three concrete types are each exactly themselves. */
  lemma ConcreteTypesAreOnlyThemselves(t: BaseType, required: BaseType)
    requires t != Wildcard && required != Wildcard
    ensures IsA(t, required) == Ok(t == required)
  {
  }

  /** A wildcard stands for a boolean or an integer, never for void. */
  lemma WildcardIsBooleanOrInteger()
    ensures IsA(Wildcard, Boolean) == Ok(true)
    ensures IsA(Wildcard, Integer) == Ok(true)
    ensures IsA(Wildcard, Void) == Ok(false)
  {
  }
}
