/** The check that every array is declared with a positive length
    (semantics/NonPositiveArrayLengthSemanticCheck.java). The length is judged from
    the text of its literal, without evaluating it. */
module NonPositiveArrayLength {
  import opened Wrappers
  import opened Ast
  import opened BaseTypes
  import opened Numerals
  import opened SemanticErrors
  import opened SemanticUtils
  import opened BlockWalks

  /** A hex digit of 8 or more: the top bit of a sixteen-digit literal. */
  predicate IsNegativeHexDigit(c: char) {
    '8' <= c <= '9' || 'A' <= c <= 'F' || 'a' <= c <= 'f'
  }

  /** The regular expression `(0)+`. */
  predicate Zeros(s: string) {
    |s| > 0 && forall i | 0 <= i < |s| :: s[i] == '0'
  }

  /** `isNonPositiveIntLiteral`: the text starts with '-', or is a sixteen-digit hex
      literal whose first digit is 8 or more (negative as a 64-bit two's complement
      value), or is "0x" followed by zeros, or is zeros alone. */
  predicate IsNonPositiveIntLiteral(s: string) {
    (|s| > 0 && s[0] == '-') ||
    (|s| == 18 && s[0] == '0' && s[1] == 'x' && IsNegativeHexDigit(s[2]) && AllHexDigits(s[3..])) ||
    (|s| >= 2 && s[0] == '0' && s[1] == 'x' && Zeros(s[2..])) ||
    Zeros(s)
  }

  /** The value an in-bounds literal denotes as a signed 64-bit integer: a hex literal
      above 2^63 - 1 wraps around to a negative value. */
  function SignedValue(s: string): (v: int)
    requires IsWithinBounds(s)
    ensures MinLong <= v <= MaxLong
  {
    if IsDecimal(s) then ParseLong(s).value
    else
      HexLiteralFits(s);
      var u := HexValue(s[2..]);
      if u > MaxLong then u - TwoTo64 else u
  }

  lemma {:induction false} HexZeros(d: string)
    requires AllHexDigits(d) && |d| > 0
    ensures HexValue(d) == 0 <==> Zeros(d)
    decreases |d|
  {
    var p := Pow16(|d| - 1);
    if HexDigitValue(d[0]) > 0 {
      ScaleAtLeast(HexDigitValue(d[0]), p);
    }
    if |d| > 1 {
      HexZeros(d[1..]);
      assert Zeros(d) <==> d[0] == '0' && Zeros(d[1..]) by {
        if d[0] == '0' && Zeros(d[1..]) {
          forall i | 0 <= i < |d| ensures d[i] == '0' {
            if i > 0 {
              assert d[i] == d[1..][i - 1];
            }
          }
        }
      }
    }
  }

  lemma {:induction false} ScaleAtLeast(a: nat, p: nat)
    requires a > 0
    ensures a * p >= p
  {
    if a > 1 {
      ScaleAtLeast(a - 1, p);
      assert a * p == (a - 1) * p + p;
    }
  }

  /** A hex literal of at most sixteen digits is above 2^63 - 1 exactly when it has
      sixteen digits and the first is 8 or more. */
  lemma HexHigh(d: string)
    requires AllHexDigits(d) && 1 <= |d| <= 16
    ensures HexValue(d) > MaxLong <==> |d| == 16 && IsNegativeHexDigit(d[0])
  {
    Pow16Values();
    if |d| < 16 {
      HexValueBelow(d);
      Pow16Grows(|d|, 15);
    } else {
      var d0, rest := HexDigitValue(d[0]), HexValue(d[1..]);
      HexValueBelow(d[1..]);
      assert HexValue(d) == d0 * 0x1000_0000_0000_0000 + rest;
      assert IsNegativeHexDigit(d[0]) <==> d0 >= 8;
    }
  }

  /** For an in-bounds literal without a '+' sign, the check flags exactly the texts
      whose signed 64-bit value is zero or negative. */
  lemma NonPositiveIffSignedValue(s: string)
    requires IsWithinBounds(s) && s[0] != '+'
    ensures IsNonPositiveIntLiteral(s) <==> SignedValue(s) <= 0
  {
    if IsDecimal(s) {
      if s[0] != '-' {
        ZeroDigits(s);
        assert |s| >= 2 ==> IsDigit(s[1]);
      }
    } else {
      var d := s[2..];
      HexLiteralFits(s);
      HexZeros(d);
      HexHigh(d);
      assert d[1..] == s[3..];
      assert Zeros(s[2..]) <==> Zeros(d);
    }
  }

  /** A hex literal of fewer than sixteen digits that are not all zeros, such as
      "0x8", is not flagged, however large its first digit. */
  lemma ShortHexNotFlagged(d: string)
    requires AllHexDigits(d) && 1 <= |d| < 16 && !Zeros(d)
    ensures !IsNonPositiveIntLiteral("0x" + d)
  {
    var s := "0x" + d;
    assert s[2..] == d;
    assert s[1] == 'x';
  }

  /** An array field: declared with a length and a type other than VOID. */
  predicate IsArrayField(f: FieldDescriptor) {
    f.fieldType != Void && f.length.Some?
  }

  /** The field is an array whose length text is flagged. */
  predicate IsFlagged(f: FieldDescriptor) {
    IsArrayField(f) && IsNonPositiveIntLiteral(f.length.value)
  }

  function ErrorFor(programName: string, f: FieldDescriptor): SemanticError
    requires IsArrayField(f)
  {
    NonPositiveArrayLength(FieldLocation(programName, f), programName, f.name, f.length.value)
  }

  /** The errors for the flagged fields of `fields`, in order. */
  function FieldErrors(programName: string, fields: seq<FieldDescriptor>): seq<SemanticError> {
    if |fields| == 0 then []
    else
      var f := fields[|fields| - 1];
      FieldErrors(programName, fields[..|fields| - 1]) + (if IsFlagged(f) then [ErrorFor(programName, f)] else [])
  }

  lemma {:induction false} FieldErrorsAppend(p: string, a: seq<FieldDescriptor>, b: seq<FieldDescriptor>)
    ensures FieldErrors(p, a + b) == FieldErrors(p, a) + FieldErrors(p, b)
    decreases |b|
  {
    if |b| > 0 {
      assert (a + b)[..|a + b| - 1] == a + b[..|b| - 1];
      FieldErrorsAppend(p, a, b[..|b| - 1]);
    } else {
      assert a + b == a;
    }
  }

  /** An error is reported exactly for each flagged field, and for nothing else. */
  lemma {:induction false} FieldErrorsExactly(p: string, fields: seq<FieldDescriptor>, e: SemanticError)
    ensures e in FieldErrors(p, fields) <==> exists f | f in fields :: IsFlagged(f) && e == ErrorFor(p, f)
    ensures |FieldErrors(p, fields)| <= |fields|
    decreases |fields|
  {
    if |fields| > 0 {
      var init := fields[..|fields| - 1];
      FieldErrorsExactly(p, init, e);
      assert fields == init + [fields[|fields| - 1]];
    }
  }

  /** The fields of the given methods in the order the check visits them: each
      method's parameters, then every field of its body. */
  function MethodFields(methods: seq<Method>): seq<FieldDescriptor> {
    if |methods| == 0 then []
    else
      var m := methods[|methods| - 1];
      MethodFields(methods[..|methods| - 1]) + m.parameters + AllFields(m.body)
  }

  /** Every field the program declares, in visiting order: the globals first. */
  function DeclaredFields(prog: Program): seq<FieldDescriptor> {
    prog.globals + MethodFields(prog.methods)
  }

  lemma MethodFieldsStep(methods: seq<Method>, i: nat)
    requires i < |methods|
    ensures MethodFields(methods[..i + 1]) ==
            MethodFields(methods[..i]) + methods[i].parameters + AllFields(methods[i].body)
  {
    assert methods[..i + 1][..i] == methods[..i];
  }

  /** Checking one more field appends its error, if it is flagged. */
  lemma FieldErrorsSnoc(p: string, fields: seq<FieldDescriptor>, f: FieldDescriptor)
    ensures FieldErrors(p, fields + [f]) == FieldErrors(p, fields) + (if IsFlagged(f) then [ErrorFor(p, f)] else [])
  {
    assert (fields + [f])[..|fields|] == fields;
  }

  class NonPositiveArrayLengthSemanticCheck {
    const prog: Program
    var errors: seq<SemanticError>

    constructor (prog: Program)
      ensures this.prog == prog && errors == []
    {
      this.prog := prog;
      errors := [];
    }

    /** `doCheck`: the globals, then each method's parameters and body, are checked;
        the result is the error list. */
    method DoCheck() returns (r: seq<SemanticError>)
      modifies this
      ensures errors == old(errors) + FieldErrors(prog.name, DeclaredFields(prog))
      ensures r == errors
    {
      CheckScope(prog.globals);
      CheckMethods(prog.methods);
      FieldErrorsAppend(prog.name, prog.globals, MethodFields(prog.methods));
      AppendAssoc(old(errors), FieldErrors(prog.name, prog.globals), FieldErrors(prog.name, MethodFields(prog.methods)));
      r := errors;
    }

    /** `checkScope`: one error per flagged field, in declaration order. */
    method CheckScope(fields: seq<FieldDescriptor>)
      modifies this
      ensures errors == old(errors) + FieldErrors(prog.name, fields)
    {
      for i := 0 to |fields|
        invariant errors == old(errors) + FieldErrors(prog.name, fields[..i])
      {
        var field := fields[i];
        assert fields[..i + 1] == fields[..i] + [field];
        FieldErrorsSnoc(prog.name, fields[..i], field);
        if field.fieldType != Void && field.length.Some? {
          var length := field.length.value;
          if IsNonPositiveIntLiteral(length) {
            errors := errors + [NonPositiveArrayLength(FieldLocation(prog.name, field), prog.name, field.name, length)];
          }
        }
      }
      assert fields[..|fields|] == fields;
    }

    /** `checkMethods`: each method's parameters, then its body. */
    method CheckMethods(methods: seq<Method>)
      modifies this
      ensures errors == old(errors) + FieldErrors(prog.name, MethodFields(methods))
    {
      for i := 0 to |methods|
        invariant errors == old(errors) + FieldErrors(prog.name, MethodFields(methods[..i]))
      {
        ghost var done := MethodFields(methods[..i]);
        CheckScope(methods[i].parameters);
        CheckBlock(methods[i].body);
        MethodFieldsStep(methods, i);
        BlockErrorsAreFieldErrors(prog.name, methods[i].body);
        ThreeParts(prog.name, old(errors), done, methods[i].parameters, AllFields(methods[i].body));
      }
      assert methods[..|methods|] == methods;
    }

    /** `checkBlock`: the block's own fields, then every nested block's. */
    method CheckBlock(block: Block)
      modifies this
      ensures errors == old(errors) + BlockErrors(prog.name, block)
      decreases block, 2
    {
      CheckScope(block.locals);
      CheckStatements(block);
      AppendAssoc(old(errors), FieldErrors(prog.name, block.locals), StatementErrors(prog.name, block, |block.statements|));
    }

    /** The loop of `checkBlock` over the block's statements. */
    method CheckStatements(block: Block)
      modifies this
      ensures errors == old(errors) + StatementErrors(prog.name, block, |block.statements|)
      decreases block, 1
    {
      for i := 0 to |block.statements|
        invariant errors == old(errors) + StatementErrors(prog.name, block, i)
      {
        CheckSubBlocks(block, i);
        AppendAssoc(old(errors), StatementErrors(prog.name, block, i),
                    SubBlockErrors(prog.name, block, i, |SubBlocks(block.statements[i])|));
      }
    }

    /** The inner loop of `checkBlock`: every block that statement `i` holds. */
    method CheckSubBlocks(block: Block, i: nat)
      requires i < |block.statements|
      modifies this
      ensures errors == old(errors) + SubBlockErrors(prog.name, block, i, |SubBlocks(block.statements[i])|)
      decreases block, 0
    {
      var subBlocks := SubBlocks(block.statements[i]);
      for j := 0 to |subBlocks|
        invariant errors == old(errors) + SubBlockErrors(prog.name, block, i, j)
      {
        assert block.statements[i] in block.statements;
        CheckBlock(subBlocks[j]);
        AppendAssoc(old(errors), SubBlockErrors(prog.name, block, i, j), BlockErrors(prog.name, subBlocks[j]));
      }
    }
  }

  /** The errors the walk of `b` reports: its own fields', then, statement by
      statement, those of the blocks each statement holds. */
  function BlockErrors(p: string, b: Block): seq<SemanticError>
    decreases b, |b.statements| + 1
  {
    FieldErrors(p, b.locals) + StatementErrors(p, b, |b.statements|)
  }

  /** The errors of the blocks held by the first `i` statements of `b`. */
  function StatementErrors(p: string, b: Block, i: nat): seq<SemanticError>
    requires i <= |b.statements|
    decreases b, i
  {
    if i == 0 then []
    else StatementErrors(p, b, i - 1) + SubBlockErrors(p, b, i - 1, |SubBlocks(b.statements[i - 1])|)
  }

  function SubBlockErrors(p: string, b: Block, i: nat, m: nat): seq<SemanticError>
    requires i < |b.statements| && m <= |SubBlocks(b.statements[i])|
    decreases b, i, m
  {
    if m == 0 then []
    else
      assert b.statements[i] in b.statements;
      SubBlockErrors(p, b, i, m - 1) + BlockErrors(p, SubBlocks(b.statements[i])[m - 1])
  }

  /** The walk reports the errors of the fields it meets, in the order it meets them. */
  lemma {:induction false} BlockErrorsAreFieldErrors(p: string, b: Block)
    ensures BlockErrors(p, b) == FieldErrors(p, AllFields(b))
    decreases b, |b.statements| + 1
  {
    WalkedErrorsAreFieldErrors(p, b, |b.statements|);
  }

  lemma {:induction false} WalkedErrorsAreFieldErrors(p: string, b: Block, i: nat)
    requires i <= |b.statements|
    ensures FieldErrors(p, b.locals) + StatementErrors(p, b, i) == FieldErrors(p, WalkedFields(b, i))
    decreases b, i
  {
    if i > 0 {
      var m := |SubBlocks(b.statements[i - 1])|;
      WalkedErrorsAreFieldErrors(p, b, i - 1);
      SubBlockErrorsAreFieldErrors(p, b, i - 1, m);
      FieldErrorsAppend(p, WalkedFields(b, i - 1), SubBlockFields(b, i - 1, m));
      AppendAssoc(FieldErrors(p, b.locals), StatementErrors(p, b, i - 1), SubBlockErrors(p, b, i - 1, m));
    }
  }

  lemma {:induction false} SubBlockErrorsAreFieldErrors(p: string, b: Block, i: nat, m: nat)
    requires i < |b.statements| && m <= |SubBlocks(b.statements[i])|
    ensures SubBlockErrors(p, b, i, m) == FieldErrors(p, SubBlockFields(b, i, m))
    decreases b, i, m
  {
    if m > 0 {
      assert b.statements[i] in b.statements;
      var c := SubBlocks(b.statements[i])[m - 1];
      SubBlockErrorsAreFieldErrors(p, b, i, m - 1);
      BlockErrorsAreFieldErrors(p, c);
      FieldErrorsAppend(p, SubBlockFields(b, i, m - 1), AllFields(c));
      assert FieldErrors(p, []) == [];
    }
  }

  /** Appending the errors of a second run of fields to those of a first. */
  lemma TwoParts(p: string, e: seq<SemanticError>, a: seq<FieldDescriptor>, b: seq<FieldDescriptor>)
    ensures e + FieldErrors(p, a) + FieldErrors(p, b) == e + FieldErrors(p, a + b)
  {
    FieldErrorsAppend(p, a, b);
    AppendAssoc(e, FieldErrors(p, a), FieldErrors(p, b));
  }

  lemma ThreeParts(p: string, e: seq<SemanticError>, a: seq<FieldDescriptor>, b: seq<FieldDescriptor>, c: seq<FieldDescriptor>)
    ensures e + FieldErrors(p, a) + FieldErrors(p, b) + FieldErrors(p, c) == e + FieldErrors(p, a + b + c)
  {
    TwoParts(p, e, a, b);
    TwoParts(p, e, a + b, c);
  }

  /** The check reports an error for a field of a block nested anywhere in a method
      body exactly when that field is flagged. */
  lemma NestedFieldReported(prog: Program, c: Block, b: Block, f: FieldDescriptor)
    requires Within(c, b) && f in c.locals && IsFlagged(f)
    ensures ErrorFor(prog.name, f) in FieldErrors(prog.name, AllFields(b))
  {
    NestedFieldCollected(c, b, f);
    FieldErrorsExactly(prog.name, AllFields(b), ErrorFor(prog.name, f));
  }
}
