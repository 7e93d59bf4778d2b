/** Variables of the compiler's intermediate form (common/Variable.java): a name and
    whether the user wrote it or the compiler made it up. */
module Variables {

  datatype VariableCreator = User | Compiler

  datatype Variable = Variable(creator: VariableCreator, name: string)

  /** `forUser(name)`. */
  function ForUser(name: string): Variable {
    Variable(User, name)
  }

  /** `forCompiler(name)`. */
  function ForCompiler(name: string): Variable {
    Variable(Compiler, name)
  }

  /** `equals`: the same creator and the same name. */
  function VariableEquals(a: Variable, b: Variable): (r: bool)
    ensures r <==> a == b
  {
    a.creator == b.creator && a.name == b.name
  }

  /** The name, marked with "C$" when the compiler made the variable. */
  function AsText(v: Variable): string {
    if v.creator == User then v.name else "C$" + v.name
  }

  /** The enum constant's name, as `toString` of VariableCreator prints it. */
  function CreatorText(c: VariableCreator): string {
    match c
    case User => "USER"
    case Compiler => "COMPILER"
  }

  /** `generateName`: the name, marked with "COMPILER$" when the compiler made it. */
  function GenerateName(v: Variable): string {
    if v.creator == User then v.name else CreatorText(v.creator) + "$" + v.name
  }

  /** `toString`. */
  function VariableText(v: Variable): string {
    "Variable [creator=" + CreatorText(v.creator) + ", name=" + v.name + "]"
  }

  predicate HasDollar(s: string) {
    exists i | 0 <= i < |s| :: s[i] == '$'
  }

  /** The same name cannot stand for a user variable and a compiler one. */
  lemma UserAndCompilerDiffer(name: string)
    ensures !VariableEquals(ForUser(name), ForCompiler(name))
  {
  }

  /** For names without '$' (every Decaf identifier), `asText` and `generateName`
      tell variables apart. */
  lemma TextsIdentifyVariables(a: Variable, b: Variable)
    requires !HasDollar(a.name) && !HasDollar(b.name)
    ensures AsText(a) == AsText(b) ==> a == b
    ensures GenerateName(a) == GenerateName(b) ==> a == b
  {
    if a.creator != b.creator {
      var (u, c) := if a.creator == User then (a, b) else (b, a);
      assert AsText(u) != AsText(c) by {
        if |u.name| >= 2 {
          assert u.name[1] != '$';
        }
      }
      assert GenerateName(u) != GenerateName(c) by {
        if |u.name| >= 9 {
          assert u.name[8] != '$';
        }
      }
    } else if a.creator == Compiler {
      assert AsText(a)[2..] == a.name && AsText(b)[2..] == b.name;
      assert GenerateName(a)[9..] == a.name && GenerateName(b)[9..] == b.name;
    }
  }

  /** Without that restriction the compiler's text can clash with a user name. */
  lemma AsTextClashWithDollar()
    ensures AsText(ForUser("C$x")) == AsText(ForCompiler("x")) && ForUser("C$x") != ForCompiler("x")
  {
  }

  /** `toString` tells every two variables apart: the creator is read back from the
      character after "creator=" and the name from between ", name=" and "]". */
  lemma VariableTextIdentifies(a: Variable, b: Variable)
    ensures VariableText(a) == VariableText(b) ==> a == b
  {
    if VariableText(a) == VariableText(b) {
      var s := VariableText(a);
      assert s[18] == CreatorText(a.creator)[0] && VariableText(b)[18] == CreatorText(b.creator)[0];
      var k := 18 + |CreatorText(a.creator)| + 7;
      assert s[k..|s| - 1] == a.name;
      assert VariableText(b)[k..|s| - 1] == b.name;
    }
  }
}
