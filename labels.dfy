/** Assembly labels (codegen/asm/Label.java): a kind, which fixes a prefix, and a
    name. */
module Labels {
  import opened Variables

  datatype LabelType = Global | Error | Method | ControlFlow | String

  /** `getPrefix`: global variables, error-handling globals, method starts (no prefix,
      so that callouts link as they are), instructions inside a method, and string
      constants. */
  function Prefix(t: LabelType): string {
    match t
    case Global => ".g_"
    case Error => ".e_"
    case Method => ""
    case ControlFlow => ".cf_"
    case String => ".s_"
  }

  datatype Label = Label(labelType: LabelType, name: string)

  /** `new Label(type, variable)`: the variable's generated name. */
  function ForVariable(t: LabelType, v: Variable): Label {
    Label(t, GenerateName(v))
  }

  /** `labelText`: the prefix, then the name. */
  function LabelText(l: Label): string {
    Prefix(l.labelType) + l.name
  }

  /** `inAttSyntax`: a string label is used as an immediate, so it gets a '$'. */
  function InAttSyntax(l: Label): (r: string)
    ensures l.labelType == String <==> |r| > |LabelText(l)|
    ensures |r| >= |LabelText(l)| && r[|r| - |LabelText(l)|..] == LabelText(l)
  {
    if l.labelType == String then "$" + LabelText(l) else LabelText(l)
  }

  /** Every prefix but the method one is a '.', a letter that differs from kind to
      kind, and more, so no prefix is the start of another. */
  lemma PrefixesDiffer(s: LabelType, t: LabelType)
    requires s != t && s != Method && t != Method
    ensures |Prefix(s)| >= 3 && Prefix(s)[0] == '.' && Prefix(s)[1] != Prefix(t)[1]
  {
  }

  /** The text of a label determines the label, as long as method names do not start
      with '.': labels of different kinds or names never share a text. */
  lemma LabelTextIdentifies(a: Label, b: Label)
    requires a.labelType == Method ==> |a.name| == 0 || a.name[0] != '.'
    requires b.labelType == Method ==> |b.name| == 0 || b.name[0] != '.'
    ensures LabelText(a) == LabelText(b) ==> a == b
  {
    if LabelText(a) == LabelText(b) {
      var pa, pb := Prefix(a.labelType), Prefix(b.labelType);
      if a.labelType != b.labelType && a.labelType != Method && b.labelType != Method {
        PrefixesDiffer(a.labelType, b.labelType);
      }
      assert LabelText(a)[|pa|..] == a.name && LabelText(b)[|pb|..] == b.name;
    }
  }

  /** Labels of one kind made for two variables, neither of whose names holds a '$',
      share a text only when the variables are equal. */
  lemma VariableLabelsIdentify(t: LabelType, a: Variable, b: Variable)
    requires !HasDollar(a.name) && !HasDollar(b.name)
    ensures LabelText(ForVariable(t, a)) == LabelText(ForVariable(t, b)) <==> a == b
  {
    if LabelText(ForVariable(t, a)) == LabelText(ForVariable(t, b)) {
      var p := Prefix(t);
      assert LabelText(ForVariable(t, a))[|p|..] == GenerateName(a);
      assert LabelText(ForVariable(t, b))[|p|..] == GenerateName(b);
      TextsIdentifyVariables(a, b);
    }
  }
}
