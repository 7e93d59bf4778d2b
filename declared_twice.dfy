/** The check that no identifier is declared twice in one scope
    (semantics/DeclaredTwiceSemanticCheck.java). Each scope's declarations are grouped
    by name into a hash map from name to locations, and every name with more than one
    location is one error. The map's key order is unspecified, so the model chooses
    the next key freely and states what is reported as a set, plus the fact that no
    error of one scope is reported twice. */
module DeclaredTwice {
  import opened Wrappers
  import opened Ast
  import opened SemanticErrors
  import opened BlockWalks

  /** One declared name and where it is declared. */
  datatype Declaration = Declaration(name: string, location: LocationDescriptor)

  /** The `nameToLocations` map built from `ds` in order: each name maps to its
      locations, in declaration order. */
  function Grouped(ds: seq<Declaration>): map<string, seq<LocationDescriptor>> {
    if |ds| == 0 then map[]
    else
      var g := Grouped(ds[..|ds| - 1]);
      var d := ds[|ds| - 1];
      g[d.name := (if d.name in g then g[d.name] else []) + [d.location]]
  }

  /** The locations at which `n` is declared, in order. */
  function LocationsNamed(ds: seq<Declaration>, n: string): seq<LocationDescriptor> {
    if |ds| == 0 then []
    else
      var d := ds[|ds| - 1];
      LocationsNamed(ds[..|ds| - 1], n) + (if d.name == n then [d.location] else [])
  }

  /** Adding one declaration to a grouping. */
  lemma GroupedSnoc(ds: seq<Declaration>, d: Declaration)
    ensures Grouped(ds + [d]) ==
            Grouped(ds)[d.name := (if d.name in Grouped(ds) then Grouped(ds)[d.name] else []) + [d.location]]
  {
    assert (ds + [d])[..|ds|] == ds;
  }

  /** The map holds exactly the declared names, each with all of its locations in
      declaration order. */
  lemma {:induction false} GroupedIsByName(ds: seq<Declaration>, n: string)
    ensures n in Grouped(ds) <==> exists i | 0 <= i < |ds| :: ds[i].name == n
    ensures n in Grouped(ds) ==> Grouped(ds)[n] == LocationsNamed(ds, n)
    decreases |ds|
  {
    if |ds| > 0 {
      var init := ds[..|ds| - 1];
      GroupedIsByName(init, n);
      assert forall i | 0 <= i < |init| :: init[i] == ds[i];
      if n !in Grouped(init) {
        LocationsNamedEmpty(init, n);
      }
    }
  }

  lemma {:induction false} LocationsNamedEmpty(ds: seq<Declaration>, n: string)
    ensures LocationsNamed(ds, n) == [] <==> forall i | 0 <= i < |ds| :: ds[i].name != n
    decreases |ds|
  {
    if |ds| > 0 {
      var init := ds[..|ds| - 1];
      LocationsNamedEmpty(init, n);
      assert forall i | 0 <= i < |init| :: init[i] == ds[i];
    }
  }

  /** A name has more than one location exactly when two declarations carry it. */
  lemma {:induction false} LocationsNamedRepeated(ds: seq<Declaration>, n: string)
    ensures |LocationsNamed(ds, n)| > 1 <==>
            exists i, j | 0 <= i < j < |ds| :: ds[i].name == n && ds[j].name == n
    decreases |ds|
  {
    if |ds| > 0 {
      var init := ds[..|ds| - 1];
      LocationsNamedRepeated(init, n);
      LocationsNamedEmpty(init, n);
      assert forall i | 0 <= i < |init| :: init[i] == ds[i];
    }
  }

  /** The error for the names of `names` that `g` maps to more than one location. */
  function DuplicatesAmong(locationType: LocationType, g: map<string, seq<LocationDescriptor>>, names: set<string>,
                           programName: string, methodName: Option<string>): set<SemanticError>
  {
    set n | n in names && n in g && |g[n]| > 1 :: DeclaredTwice(locationType, g[n], programName, n, methodName)
  }

  /** `generateDuplicateErrors`: one error per name with more than one location. */
  function Duplicates(locationType: LocationType, g: map<string, seq<LocationDescriptor>>,
                      programName: string, methodName: Option<string>): set<SemanticError>
  {
    DuplicatesAmong(locationType, g, g.Keys, programName, methodName)
  }

  /** The errors of grouping `ds` are exactly one per name declared at two or more
      places, carrying all of that name's locations in order. */
  lemma DuplicatesIff(locationType: LocationType, ds: seq<Declaration>, programName: string,
                      methodName: Option<string>, e: SemanticError)
    ensures e in Duplicates(locationType, Grouped(ds), programName, methodName) <==>
            exists i, j | 0 <= i < j < |ds| && ds[i].name == ds[j].name ::
              e == DeclaredTwice(locationType, LocationsNamed(ds, ds[i].name), programName, ds[i].name, methodName)
  {
    var g := Grouped(ds);
    if e in Duplicates(locationType, g, programName, methodName) {
      var n :| n in g && |g[n]| > 1 && e == DeclaredTwice(locationType, g[n], programName, n, methodName);
      GroupedIsByName(ds, n);
      LocationsNamedRepeated(ds, n);
      var i, j :| 0 <= i < j < |ds| && ds[i].name == n && ds[j].name == n;
    }
    if exists i, j | 0 <= i < j < |ds| && ds[i].name == ds[j].name ::
         e == DeclaredTwice(locationType, LocationsNamed(ds, ds[i].name), programName, ds[i].name, methodName) {
      var i, j :| 0 <= i < j < |ds| && ds[i].name == ds[j].name &&
                  e == DeclaredTwice(locationType, LocationsNamed(ds, ds[i].name), programName, ds[i].name, methodName);
      var n := ds[i].name;
      GroupedIsByName(ds, n);
      LocationsNamedRepeated(ds, n);
    }
  }

  /** No error at all exactly when the declared names are pairwise distinct. */
  lemma NoDuplicatesIffDistinct(locationType: LocationType, ds: seq<Declaration>, programName: string,
                                methodName: Option<string>)
    ensures Duplicates(locationType, Grouped(ds), programName, methodName) == {} <==>
            forall i, j | 0 <= i < j < |ds| :: ds[i].name != ds[j].name
  {
    if i, j :| 0 <= i < j < |ds| && ds[i].name == ds[j].name {
      var e := DeclaredTwice(locationType, LocationsNamed(ds, ds[i].name), programName, ds[i].name, methodName);
      DuplicatesIff(locationType, ds, programName, methodName, e);
    }
    if e :| e in Duplicates(locationType, Grouped(ds), programName, methodName) {
      DuplicatesIff(locationType, ds, programName, methodName, e);
    }
  }

  /** The declarations of a scope's fields, located by program name, line and column. */
  function FieldDeclarations(programName: string, fields: seq<FieldDescriptor>): (r: seq<Declaration>)
    ensures |r| == |fields|
    ensures forall i | 0 <= i < |fields| ::
              r[i] == Declaration(fields[i].name, FieldLocation(programName, fields[i]))
  {
    seq(|fields|, i requires 0 <= i < |fields| => Declaration(fields[i].name, FieldLocation(programName, fields[i])))
  }

  /** `checkScope(type, programName, scope, methodName)`. */
  function ScopeDuplicates(locationType: LocationType, programName: string, fields: seq<FieldDescriptor>,
                           methodName: Option<string>): set<SemanticError>
  {
    Duplicates(locationType, Grouped(FieldDeclarations(programName, fields)), programName, methodName)
  }

  /** What `checkBlock` reports for `b`: its own scope, then every nested block. */
  function BlockDuplicates(programName: string, b: Block, methodName: Option<string>): set<SemanticError>
    decreases b, |b.statements| + 1
  {
    ScopeDuplicates(Local, programName, b.locals, methodName) +
    StatementDuplicates(programName, b, |b.statements|, methodName)
  }

  /** What the blocks nested in the first `n` statements of `b` report. */
  function StatementDuplicates(programName: string, b: Block, n: nat, methodName: Option<string>): set<SemanticError>
    requires n <= |b.statements|
    decreases b, n
  {
    if n == 0 then {}
    else StatementDuplicates(programName, b, n - 1, methodName) +
         SubBlockDuplicates(programName, b, n - 1, |SubBlocks(b.statements[n - 1])|, methodName)
  }

  function SubBlockDuplicates(programName: string, b: Block, i: nat, m: nat, methodName: Option<string>): set<SemanticError>
    requires i < |b.statements| && m <= |SubBlocks(b.statements[i])|
    decreases b, i, m
  {
    if m == 0 then {}
    else
      assert b.statements[i] in b.statements;
      SubBlockDuplicates(programName, b, i, m - 1, methodName) +
      BlockDuplicates(programName, SubBlocks(b.statements[i])[m - 1], methodName)
  }

  /** `checkMethod` as written: the parameter map is left empty, so only the blocks
      nested in the body's statements are checked. The parameters and the body's own
      locals never are. */
  function MethodDuplicatesAsWritten(programName: string, m: Method): set<SemanticError> {
    StatementDuplicates(programName, m.body, |m.body.statements|, Some(m.name))
  }

  /** `checkMethod` as its comments describe it: the parameters and the body's own
      locals form one PARAM scope, then the nested blocks are checked. */
  function MethodDuplicates(programName: string, m: Method): set<SemanticError> {
    ScopeDuplicates(Param, programName, m.parameters + m.body.locals, Some(m.name)) +
    StatementDuplicates(programName, m.body, |m.body.statements|, Some(m.name))
  }

  function MethodsDuplicates(programName: string, methods: seq<Method>): set<SemanticError> {
    if |methods| == 0 then {}
    else MethodsDuplicates(programName, methods[..|methods| - 1]) + MethodDuplicates(programName, methods[|methods| - 1])
  }

  function MethodDeclarations(methods: seq<Method>): seq<Declaration> {
    seq(|methods|, i requires 0 <= i < |methods| => Declaration(methods[i].name, methods[i].location))
  }

  function CalloutDeclarations(callouts: seq<Callout>): seq<Declaration> {
    seq(|callouts|, i requires 0 <= i < |callouts| => Declaration(callouts[i].name, callouts[i].location))
  }

  /** The global namespace: methods, then callouts, then global fields. */
  function GlobalDeclarations(prog: Program): seq<Declaration> {
    MethodDeclarations(prog.methods) + CalloutDeclarations(prog.callouts) + FieldDeclarations(prog.name, prog.globals)
  }

  /** `checkCalloutsAndGlobals`. */
  function GlobalDuplicates(prog: Program): set<SemanticError> {
    Duplicates(Global, Grouped(GlobalDeclarations(prog)), prog.name, None)
  }

  /** Everything `doCheck` reports. */
  function ProgramDuplicates(prog: Program): set<SemanticError> {
    GlobalDuplicates(prog) + MethodsDuplicates(prog.name, prog.methods)
  }

  /** `after` is `before` followed by errors that are, as a set, exactly `s`. */
  ghost predicate Extends(before: seq<SemanticError>, after: seq<SemanticError>, s: set<SemanticError>) {
    |before| <= |after| && after[..|before|] == before && forall e :: e in after[|before|..] <==> e in s
  }

  lemma ExtendsNothing(a: seq<SemanticError>)
    ensures Extends(a, a, {})
  {
    assert a[|a|..] == [];
  }

  lemma ExtendsTrans(a: seq<SemanticError>, b: seq<SemanticError>, c: seq<SemanticError>,
                     s: set<SemanticError>, t: set<SemanticError>)
    requires Extends(a, b, s) && Extends(b, c, t)
    ensures Extends(a, c, s + t)
  {
    assert c[..|b|][..|a|] == c[..|a|];
    assert c[|a|..] == b[|a|..] + c[|b|..];
  }

  /** The errors of `after` from index `k` on are DeclaredTwice errors for names of
      `names`, each at most once. */
  predicate NamesOnce(after: seq<SemanticError>, k: nat, names: set<string>) {
    (forall i | k <= i < |after| :: after[i].DeclaredTwice? && after[i].name in names) &&
    (forall i, j | k <= i < j < |after| :: after[i] != after[j])
  }

  class DeclaredTwiceSemanticCheck {
    const prog: Program
    var errors: seq<SemanticError>

    constructor (prog: Program)
      ensures this.prog == prog && errors == []
    {
      this.prog := prog;
      errors := [];
    }

    /** `doCheck`: the global namespace, then every method. */
    method DoCheck() returns (r: seq<SemanticError>)
      modifies this
      ensures Extends(old(errors), errors, ProgramDuplicates(prog)) && r == errors
    {
      CheckCalloutsAndGlobals();
      ghost var mid := errors;
      CheckMethods(prog.methods, prog.name);
      ExtendsTrans(old(errors), mid, errors, GlobalDuplicates(prog), MethodsDuplicates(prog.name, prog.methods));
      r := errors;
    }

    /** `checkCalloutsAndGlobals`: methods, callouts and globals share one map. */
    method CheckCalloutsAndGlobals()
      modifies this
      ensures Extends(old(errors), errors, GlobalDuplicates(prog))
    {
      var ms, cs, gs := MethodDeclarations(prog.methods), CalloutDeclarations(prog.callouts),
                        FieldDeclarations(prog.name, prog.globals);
      var nameToLocations := AddDeclarations([], map[], ms);
      assert [] + ms == ms;
      nameToLocations := AddDeclarations(ms, nameToLocations, cs);
      nameToLocations := AddDeclarations(ms + cs, nameToLocations, gs);
      GenerateDuplicateErrors(nameToLocations, Global, prog.name, None);
    }

    /** `checkMethods`. */
    method CheckMethods(methods: seq<Method>, programName: string)
      requires programName == prog.name
      modifies this
      ensures Extends(old(errors), errors, MethodsDuplicates(programName, methods))
    {
      ExtendsNothing(errors);
      for i := 0 to |methods|
        invariant Extends(old(errors), errors, MethodsDuplicates(programName, methods[..i]))
      {
        ghost var before := errors;
        CheckMethod(methods[i], programName);
        assert methods[..i + 1][..i] == methods[..i];
        ExtendsTrans(old(errors), before, errors, MethodsDuplicates(programName, methods[..i]),
                     MethodDuplicates(programName, methods[i]));
      }
      assert methods[..|methods|] == methods;
    }

    /** `checkMethod` as its comments describe it: parameters and the body's own
        locals as one PARAM scope, then the nested blocks. */
    method CheckMethod(m: Method, programName: string)
      requires programName == prog.name
      modifies this
      ensures Extends(old(errors), errors, MethodDuplicates(programName, m))
    {
      CheckScope(Param, programName, m.parameters + m.body.locals, Some(m.name));
      ghost var mid := errors;
      CheckStatements(m.body, m.name);
      ExtendsTrans(old(errors), mid, errors, ScopeDuplicates(Param, programName, m.parameters + m.body.locals, Some(m.name)),
                   StatementDuplicates(programName, m.body, |m.body.statements|, Some(m.name)));
    }

    /** `checkMethod` as written: the map of parameters and immediate locals is
        never filled, so its duplicate errors are generated from an empty map. */
    method CheckMethodAsWritten(m: Method, programName: string)
      requires programName == prog.name
      modifies this
      ensures Extends(old(errors), errors, MethodDuplicatesAsWritten(programName, m))
    {
      var nameToLocations: map<string, seq<LocationDescriptor>> := map[];
      GenerateDuplicateErrors(nameToLocations, Param, programName, Some(m.name));
      ghost var mid := errors;
      assert Duplicates(Param, nameToLocations, programName, Some(m.name)) == {};
      CheckStatements(m.body, m.name);
      ExtendsTrans(old(errors), mid, errors, {}, StatementDuplicates(programName, m.body, |m.body.statements|, Some(m.name)));
    }

    /** `checkBlock`: the block's own scope, then every nested block. */
    method CheckBlock(block: Block, methodName: string)
      modifies this
      ensures Extends(old(errors), errors, BlockDuplicates(prog.name, block, Some(methodName)))
      decreases block, 2
    {
      CheckScope(Local, prog.name, block.locals, Some(methodName));
      ghost var mid := errors;
      CheckStatements(block, methodName);
      ExtendsTrans(old(errors), mid, errors, ScopeDuplicates(Local, prog.name, block.locals, Some(methodName)),
                   StatementDuplicates(prog.name, block, |block.statements|, Some(methodName)));
    }

    /** The loop over the statements of a block shared by `checkMethod` and
        `checkBlock`: every block each statement holds. */
    method CheckStatements(block: Block, methodName: string)
      modifies this
      ensures Extends(old(errors), errors, StatementDuplicates(prog.name, block, |block.statements|, Some(methodName)))
      decreases block, 1
    {
      ExtendsNothing(errors);
      for i := 0 to |block.statements|
        invariant Extends(old(errors), errors, StatementDuplicates(prog.name, block, i, Some(methodName)))
      {
        ghost var before := errors;
        var subBlocks := SubBlocks(block.statements[i]);
        ExtendsNothing(errors);
        for j := 0 to |subBlocks|
          invariant Extends(before, errors, SubBlockDuplicates(prog.name, block, i, j, Some(methodName)))
        {
          ghost var inner := errors;
          assert block.statements[i] in block.statements;
          CheckBlock(subBlocks[j], methodName);
          ExtendsTrans(before, inner, errors, SubBlockDuplicates(prog.name, block, i, j, Some(methodName)),
                       BlockDuplicates(prog.name, subBlocks[j], Some(methodName)));
        }
        ExtendsTrans(old(errors), before, errors, StatementDuplicates(prog.name, block, i, Some(methodName)),
                     SubBlockDuplicates(prog.name, block, i, |subBlocks|, Some(methodName)));
      }
    }

    /** `checkScope`: group the fields by name, then report each repeated name. */
    method CheckScope(locationType: LocationType, programName: string, fields: seq<FieldDescriptor>,
                      methodName: Option<string>)
      modifies this
      ensures Extends(old(errors), errors, ScopeDuplicates(locationType, programName, fields, methodName))
    {
      var ds := FieldDeclarations(programName, fields);
      var nameToLocations := AddDeclarations([], map[], ds);
      assert [] + ds == ds;
      GenerateDuplicateErrors(nameToLocations, locationType, programName, methodName);
    }

    /** `generateDuplicateErrors`: the keys are visited in an unspecified order; each
        repeated name is reported once. */
    method GenerateDuplicateErrors(nameToLocations: map<string, seq<LocationDescriptor>>, locationType: LocationType,
                                   programName: string, methodName: Option<string>)
      modifies this
      ensures Extends(old(errors), errors, Duplicates(locationType, nameToLocations, programName, methodName))
      ensures NamesOnce(errors, |old(errors)|, nameToLocations.Keys)
    {
      var remaining := nameToLocations.Keys;
      ghost var done: set<string> := {};
      while remaining != {}
        invariant remaining + done == nameToLocations.Keys && remaining !! done
        invariant Extends(old(errors), errors, DuplicatesAmong(locationType, nameToLocations, done, programName, methodName))
        invariant NamesOnce(errors, |old(errors)|, done)
        decreases remaining
      {
        var fieldName :| fieldName in remaining;
        var locs := nameToLocations[fieldName];
        ghost var before := errors;
        if |locs| > 1 {
          errors := errors + [DeclaredTwice(locationType, locs, programName, fieldName, methodName)];
          assert errors[..|before|] == before;
          assert errors[..|old(errors)|] == before[..|old(errors)|];
        }
        assert errors[|old(errors)|..] == before[|old(errors)|..] + errors[|before|..];
        remaining := remaining - {fieldName};
        done := done + {fieldName};
      }
    }
  }

  /** The loops that fill a name-to-locations map: each declaration's location is
      appended to the list of its name, which is created when the name is new. */
  method AddDeclarations(ghost earlier: seq<Declaration>, g: map<string, seq<LocationDescriptor>>, ds: seq<Declaration>)
    returns (r: map<string, seq<LocationDescriptor>>)
    requires g == Grouped(earlier)
    ensures r == Grouped(earlier + ds)
  {
    r := g;
    assert earlier + ds[..0] == earlier;
    for i := 0 to |ds|
      invariant r == Grouped(earlier + ds[..i])
    {
      GroupedSnoc(earlier + ds[..i], ds[i]);
      assert earlier + ds[..i + 1] == (earlier + ds[..i]) + [ds[i]];
      r := AddLocation(r, ds[i]);
    }
    assert ds[..|ds|] == ds;
  }

  /** One step of building a name-to-locations map: `containsKey`, `put` of an empty
      list, then `get(name).add(location)`. */
  function AddLocation(g: map<string, seq<LocationDescriptor>>, d: Declaration): (r: map<string, seq<LocationDescriptor>>)
    ensures r.Keys == g.Keys + {d.name}
    ensures r[d.name] == (if d.name in g then g[d.name] else []) + [d.location]
    ensures forall n | n in g && n != d.name :: r[n] == g[n]
  {
    g[d.name := (if d.name in g then g[d.name] else []) + [d.location]]
  }

  /** The walk reaches the scope of every block nested in `b`: whatever such a scope
      reports is reported for `b`. */
  lemma {:induction false} NestedScopeChecked(programName: string, c: Block, b: Block, methodName: Option<string>,
                                              e: SemanticError)
    requires Within(c, b) && e in ScopeDuplicates(Local, programName, c.locals, methodName)
    ensures e in BlockDuplicates(programName, b, methodName)
    decreases b
  {
    if c != b {
      var i, k :| 0 <= i < |b.statements| && 0 <= k < |SubBlocks(b.statements[i])| &&
                  Within(c, SubBlocks(b.statements[i])[k]);
      assert b.statements[i] in b.statements;
      NestedScopeChecked(programName, c, SubBlocks(b.statements[i])[k], methodName, e);
      SubBlockReported(programName, b, i, k, methodName, e);
    }
  }

  lemma SubBlockReported(programName: string, b: Block, i: nat, k: nat, methodName: Option<string>, e: SemanticError)
    requires i < |b.statements| && k < |SubBlocks(b.statements[i])|
    requires e in BlockDuplicates(programName, SubBlocks(b.statements[i])[k], methodName)
    ensures e in BlockDuplicates(programName, b, methodName)
  {
    SubBlockDuplicatesContain(programName, b, i, |SubBlocks(b.statements[i])|, k, methodName, e);
    StatementDuplicatesContain(programName, b, |b.statements|, i, methodName, e);
  }

  lemma {:induction false} SubBlockDuplicatesContain(programName: string, b: Block, i: nat, m: nat, k: nat,
                                                     methodName: Option<string>, e: SemanticError)
    requires i < |b.statements| && k < m <= |SubBlocks(b.statements[i])|
    requires e in BlockDuplicates(programName, SubBlocks(b.statements[i])[k], methodName)
    ensures e in SubBlockDuplicates(programName, b, i, m, methodName)
    decreases m
  {
    if k < m - 1 {
      SubBlockDuplicatesContain(programName, b, i, m - 1, k, methodName, e);
    }
  }

  lemma {:induction false} StatementDuplicatesContain(programName: string, b: Block, n: nat, i: nat,
                                                      methodName: Option<string>, e: SemanticError)
    requires i < n <= |b.statements|
    requires e in SubBlockDuplicates(programName, b, i, |SubBlocks(b.statements[i])|, methodName)
    ensures e in StatementDuplicates(programName, b, n, methodName)
    decreases n
  {
    if i < n - 1 {
      StatementDuplicatesContain(programName, b, n - 1, i, methodName, e);
    }
  }

  /** A method whose two parameters share a name: the check as written reports
      nothing for it, the corrected one reports the repeated parameter. */
  lemma AsWrittenMissesParameters()
    ensures var f := FieldDescriptor("x", None, 1, 10, BaseTypes.Integer);
            var m := Method("m", [f, f], Block([], []), MachineCode);
            MethodDuplicatesAsWritten("p", m) == {} &&
            DeclaredTwice(Param, [SourceLocation("p", 1, 10), SourceLocation("p", 1, 10)], "p", "x", Some("m"))
              in MethodDuplicates("p", m)
  {
    var f := FieldDescriptor("x", None, 1, 10, BaseTypes.Integer);
    var m := Method("m", [f, f], Block([], []), MachineCode);
    var ds := FieldDeclarations("p", m.parameters + m.body.locals);
    assert ds == [Declaration("x", SourceLocation("p", 1, 10)), Declaration("x", SourceLocation("p", 1, 10))];
    GroupedIsByName(ds, "x");
    var l := SourceLocation("p", 1, 10);
    assert LocationsNamed(ds, "x") == [l, l] by {
      assert ds[..1][..0] == [];
      assert LocationsNamed(ds[..1], "x") == [l];
      assert ds[..|ds| - 1] == ds[..1];
    }
  }

  /** The corrected method check reports every repeated name among the parameters and
      the body's own locals, and nothing when they are all distinct. */
  lemma MethodScopeIff(programName: string, m: Method)
    ensures var ds := FieldDeclarations(programName, m.parameters + m.body.locals);
            ScopeDuplicates(Param, programName, m.parameters + m.body.locals, Some(m.name)) == {} <==>
            forall i, j | 0 <= i < j < |ds| :: ds[i].name != ds[j].name
  {
    NoDuplicatesIffDistinct(Param, FieldDeclarations(programName, m.parameters + m.body.locals), programName, Some(m.name));
  }
}
