/** A lexical scope (ast/Scope.java): the fields one block declares and a link to the
    enclosing scope, which can be set after construction. Lookups walk the chain of
    enclosing scopes outwards, so the innermost declaration of a name wins. */
module Scopes {
  import opened Wrappers
  import opened Ast

  /** Some field of `fs` is named `id`. */
  predicate Declares(fs: seq<FieldDescriptor>, id: string) {
    exists i | 0 <= i < |fs| :: fs[i].name == id
  }

  /** The first field of `fs` named `id`, if any. */
  function FirstNamed(fs: seq<FieldDescriptor>, id: string): (r: Option<FieldDescriptor>)
    ensures r.Some? <==> Declares(fs, id)
    ensures r.Some? ==> r.value in fs && r.value.name == id
  {
    if |fs| == 0 then None
    else if fs[0].name == id then Some(fs[0])
    else
      var r := FirstNamed(fs[1..], id);
      assert forall i | 0 <= i < |fs| - 1 :: fs[1..][i] == fs[i + 1];
      r
  }

  lemma {:induction false} DeclaresAppend(a: seq<FieldDescriptor>, b: seq<FieldDescriptor>, id: string)
    ensures Declares(a + b, id) <==> Declares(a, id) || Declares(b, id)
  {
    if Declares(b, id) {
      var i :| 0 <= i < |b| && b[i].name == id;
      assert (a + b)[|a| + i] == b[i];
    }
    if Declares(a, id) {
      var i :| 0 <= i < |a| && a[i].name == id;
      assert (a + b)[i] == a[i];
    }
    if Declares(a + b, id) && !Declares(a, id) {
      var i :| 0 <= i < |a + b| && (a + b)[i].name == id;
      assert b[i - |a|] == (a + b)[i];
    }
  }

  /** A match with no earlier match is the one a lookup finds. */
  lemma {:induction false} FirstNamedAt(fs: seq<FieldDescriptor>, i: nat, id: string)
    requires i < |fs| && fs[i].name == id
    requires forall j | 0 <= j < i :: fs[j].name != id
    ensures FirstNamed(fs, id) == Some(fs[i])
  {
    if i > 0 {
      FirstNamedAt(fs[1..], i - 1, id);
    }
  }

  /** Looking a name up in a concatenation looks in the first part first. */
  lemma {:induction false} FirstNamedAppend(a: seq<FieldDescriptor>, b: seq<FieldDescriptor>, id: string)
    ensures FirstNamed(a + b, id) == if Declares(a, id) then FirstNamed(a, id) else FirstNamed(b, id)
    decreases |a|
  {
    if |a| > 0 {
      assert (a + b)[1..] == a[1..] + b;
      FirstNamedAppend(a[1..], b, id);
      if a[0].name != id {
        assert Declares(a, id) <==> Declares(a[1..], id) by {
          if Declares(a, id) {
            var i :| 0 <= i < |a| && a[i].name == id;
            assert a[1..][i - 1] == a[i];
          }
          if Declares(a[1..], id) {
            var i :| 0 <= i < |a[1..]| && a[1..][i].name == id;
            assert a[i + 1] == a[1..][i];
          }
        }
      }
    } else {
      assert a + b == b;
    }
  }

  class Scope {
    var parent: Option<Scope>
    const variables: seq<FieldDescriptor>
    /** This scope and all the scopes enclosing it. */
    ghost var Repr: set<Scope>

    /** The chain of enclosing scopes is finite and has no cycle. */
    ghost predicate Valid()
      reads this, Repr
      decreases Repr
    {
      this in Repr &&
      (parent.None? ==> Repr == {this}) &&
      (parent.Some? ==>
        parent.value in Repr && parent.value.Repr <= Repr && this !in parent.value.Repr &&
        Repr == {this} + parent.value.Repr && parent.value.Valid())
    }

    /** Every field visible from this scope, innermost scope first. */
    ghost function Visible(): seq<FieldDescriptor>
      reads this, Repr
      requires Valid()
      decreases Repr
    {
      if parent.None? then variables else variables + parent.value.Visible()
    }

    /** `new Scope(variables)`: an outermost scope. */
    constructor (variables: seq<FieldDescriptor>)
      ensures Valid() && fresh(Repr)
      ensures this.variables == variables && parent == None
      ensures Visible() == variables
    {
      this.variables := variables;
      parent := None;
      Repr := {this};
    }

    /** `new Scope(variables, parent)`. */
    constructor WithParent(variables: seq<FieldDescriptor>, p: Scope)
      requires p.Valid()
      ensures Valid() && Repr == {this} + p.Repr
      ensures this.variables == variables && parent == Some(p)
      ensures Visible() == variables + p.Visible()
    {
      this.variables := variables;
      parent := Some(p);
      Repr := {this} + p.Repr;
    }

    /** `setParent`: the link always changes; the scope stays well formed when the new
        parent is well formed and does not enclose this scope. */
    method SetParent(p: Scope)
      modifies this
      ensures parent == Some(p)
      ensures old(p.Valid()) && this !in old(p.Repr) ==> Valid() && Repr == {this} + p.Repr && Visible() == variables + p.Visible()
    {
      parent := Some(p);
      Repr := {this} + p.Repr;
    }

    /** `isInScope`: some scope on the chain declares `id`. */
    method IsInScope(id: string) returns (r: bool)
      requires Valid()
      ensures r == Declares(Visible(), id)
      decreases Repr
    {
      DeclaresAppend(variables, if parent.Some? then parent.value.Visible() else [], id);
      var i := 0;
      while i < |variables|
        invariant 0 <= i <= |variables|
        invariant forall j | 0 <= j < i :: variables[j].name != id
      {
        if id == variables[i].name {
          return true;
        }
        i := i + 1;
      }
      if parent.Some? {
        r := parent.value.IsInScope(id);
      } else {
        r := false;
      }
    }

    /** `getFromScope`: the innermost declaration of `id`, or nothing. */
    method GetFromScope(id: string) returns (r: Option<FieldDescriptor>)
      requires Valid()
      ensures r == FirstNamed(Visible(), id)
      decreases Repr
    {
      var found := IsInScope(id);
      LookupSplits(this, id);
      if !found {
        return None;
      }
      var local := FindLocal(id);
      if local.Some? || parent.None? {
        return local;
      }
      var p := parent.value;
      r := p.GetFromScope(id);
    }

    /** The search of this scope's own fields inside `getFromScope`. */
    method FindLocal(id: string) returns (r: Option<FieldDescriptor>)
      ensures r == FirstNamed(variables, id)
    {
      var i := 0;
      while i < |variables|
        invariant 0 <= i <= |variables|
        invariant forall j | 0 <= j < i :: variables[j].name != id
      {
        if id == variables[i].name {
          FirstNamedAt(variables, i, id);
          return Some(variables[i]);
        }
        i := i + 1;
      }
      r := None;
    }
  }

  /** A local declaration shadows every enclosing one. */
  lemma LocalDeclarationShadows(s: Scope, id: string)
    requires s.Valid() && Declares(s.variables, id)
    ensures FirstNamed(s.Visible(), id) == FirstNamed(s.variables, id)
  {
    FirstNamedAppend(s.variables, if s.parent.Some? then s.parent.value.Visible() else [], id);
  }

  /** A name not declared locally is looked up in the enclosing scope. */
  lemma UndeclaredNameIsInherited(s: Scope, id: string)
    requires s.Valid() && !Declares(s.variables, id) && s.parent.Some?
    ensures FirstNamed(s.Visible(), id) == FirstNamed(s.parent.value.Visible(), id)
  {
    FirstNamedAppend(s.variables, s.parent.value.Visible(), id);
  }

  /** A lookup searches the scope's own fields, then the enclosing scope. */
  lemma LookupSplits(s: Scope, id: string)
    requires s.Valid()
    ensures s.parent.None? ==> s.Visible() == s.variables
    ensures !Declares(s.Visible(), id) ==> FirstNamed(s.Visible(), id) == None
    ensures Declares(s.variables, id) ==> FirstNamed(s.Visible(), id) == FirstNamed(s.variables, id)
    ensures s.parent.Some? && !Declares(s.variables, id) ==>
      FirstNamed(s.Visible(), id) == FirstNamed(s.parent.value.Visible(), id)
  {
    FirstNamedAppend(s.variables, if s.parent.Some? then s.parent.value.Visible() else [], id);
  }
}
