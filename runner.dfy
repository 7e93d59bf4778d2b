/** The end-to-end test runner for the code generator (tests/codegen-own/runner.py):
    every Decaf program in a directory states its expected exit status in a
    `// Returns: N` comment; the runner compiles, assembles and runs each one and
    reports whether all of them exit with the status they claim. Compiling, assembling
    and running are outside the model: for each program they are an `Execution`, the
    return codes the three processes would give. */
module Runner {
  import opened Wrappers
  import opened Numerals

  const ReturnCommentPrefix: string := "// Returns:"
  const DecafSuffix: string := ".dcf"
  const ProgramsDirectory: string := "programs/"

  predicate StartsWith(s: string, prefix: string) {
    |prefix| <= |s| && s[..|prefix|] == prefix
  }

  predicate EndsWith(s: string, suffix: string) {
    |suffix| <= |s| && s[|s| - |suffix|..] == suffix
  }

  /** `without_prefix`: the text after `prefix`; an AssertionError when `s` does not
      start with it. */
  function WithoutPrefix(s: string, prefix: string): (r: Result<string>)
    ensures r.Ok? <==> StartsWith(s, prefix)
    ensures r.Ok? ==> prefix + r.value == s
    ensures r.Err? ==> r.error.Assertion?
  {
    if StartsWith(s, prefix) then
      assert s == s[..|prefix|] + s[|prefix|..];
      Ok(s[|prefix|..])
    else Err(Assertion("the string does not start with the prefix"))
  }

  /** Putting a prefix in front and chopping it off again gives the text back. */
  lemma WithoutPrefixRoundTrip(prefix: string, t: string)
    ensures WithoutPrefix(prefix + t, prefix) == Ok(t)
  {
    assert (prefix + t)[..|prefix|] == prefix;
  }

  /** The whitespace Python 2's `str.strip` and `int` skip: space, tab, newline,
      vertical tab, form feed and carriage return. */
  predicate IsSpace(c: char) {
    c == ' ' || c == '\t' || c == '\n' || c == '\r' || c as int == 11 || c as int == 12
  }

  predicate AllSpace(s: string) {
    forall i | 0 <= i < |s| :: IsSpace(s[i])
  }

  function StripLeft(s: string): (r: string)
    ensures |r| <= |s| && r == s[|s| - |r|..]
    ensures |r| > 0 ==> !IsSpace(r[0])
    ensures AllSpace(s[..|s| - |r|])
  {
    if |s| > 0 && IsSpace(s[0]) then
      var r := StripLeft(s[1..]);
      assert s[..|s| - |r|] == [s[0]] + s[1..][..|s[1..]| - |r|];
      r
    else s
  }

  function StripRight(s: string): (r: string)
    ensures |r| <= |s| && r == s[..|r|]
    ensures |r| > 0 ==> !IsSpace(r[|r| - 1])
    ensures AllSpace(s[|r|..])
  {
    if |s| > 0 && IsSpace(s[|s| - 1]) then
      var r := StripRight(s[..|s| - 1]);
      assert s[|r|..] == s[..|s| - 1][|r|..] + [s[|s| - 1]];
      r
    else s
  }

  /** `str.strip()`: the text without its leading and trailing whitespace. */
  function Strip(s: string): string {
    StripRight(StripLeft(s))
  }

  /** Whitespace around a text that neither starts nor ends with whitespace is all
      that `strip` removes. */
  lemma StripSurrounded(pre: string, t: string, post: string)
    requires AllSpace(pre) && AllSpace(post) && |t| > 0 && !IsSpace(t[0]) && !IsSpace(t[|t| - 1])
    ensures Strip(pre + t + post) == t
  {
    assert pre + t + post == pre + (t + post);
    StripLeftOf(pre, t + post);
    StripRightOf(t, post);
  }

  lemma {:induction false} StripLeftOf(pre: string, u: string)
    requires AllSpace(pre) && |u| > 0 && !IsSpace(u[0])
    ensures StripLeft(pre + u) == u
    decreases |pre|
  {
    if |pre| > 0 {
      assert (pre + u)[1..] == pre[1..] + u;
      StripLeftOf(pre[1..], u);
    } else {
      assert pre + u == u;
    }
  }

  lemma {:induction false} StripRightOf(u: string, post: string)
    requires AllSpace(post) && |u| > 0 && !IsSpace(u[|u| - 1])
    ensures StripRight(u + post) == u
    decreases |post|
  {
    if |post| > 0 {
      assert (u + post)[..|u + post| - 1] == u + post[..|post| - 1];
      StripRightOf(u, post[..|post| - 1]);
    } else {
      assert u + post == u;
    }
  }

  /** Python 2's `int()` on a string: surrounding whitespace, then a decimal literal;
      anything else is a ValueError. */
  function PyInt(s: string): (r: Result<int>)
    ensures r.Err? ==> r.error.ValueError?
  {
    DecimalLiteral(Strip(s))
  }

  /** An optional sign, then one or more decimal digits. */
  function DecimalLiteral(t: string): (r: Result<int>)
    ensures r.Err? ==> r.error.ValueError?
  {
    var negative := |t| > 0 && t[0] == '-';
    var digits := if |t| > 0 && (t[0] == '+' || t[0] == '-') then t[1..] else t;
    if |digits| == 0 || !AllDigits(digits) then Err(ValueError("invalid literal for int() with base 10"))
    else
      var magnitude: int := DigitsValue(digits);
      Ok(if negative then -magnitude else magnitude)
  }

  /** `int()` accepts exactly an optional sign and one or more digits, once the
      surrounding whitespace is stripped. */
  lemma PyIntAccepts(s: string)
    ensures PyInt(s).Ok? <==> var t := Strip(s);
              |t| > 0 && (if t[0] == '+' || t[0] == '-' then |t| > 1 && AllDigits(t[1..]) else AllDigits(t))
  {
  }

  /** The decimal text of an integer reads back as that integer. */
  lemma DecimalLiteralOfText(n: int)
    ensures DecimalLiteral(IntText(n)) == Ok(n)
  {
    var t := IntText(n);
    var m: nat := if n < 0 then -n else n;
    NatTextValue(m);
    if n < 0 {
      assert t[1..] == NatText(m);
    } else {
      assert IsDigit(t[0]);
    }
  }

  /** The decimal text of any integer, with whitespace around it (the newline that
      ends a line, say), reads back as that integer. */
  lemma PyIntRoundTrip(pre: string, n: int, post: string)
    requires AllSpace(pre) && AllSpace(post)
    ensures PyInt(pre + IntText(n) + post) == Ok(n)
  {
    var t := IntText(n);
    var digits := NatText(if n < 0 then -n else n);
    assert !IsSpace(t[|t| - 1]) by {
      assert t[|t| - 1] == digits[|digits| - 1];
      assert IsDigit(digits[|digits| - 1]);
    }
    assert !IsSpace(t[0]) by {
      if n >= 0 {
        assert IsDigit(digits[0]);
      }
    }
    StripSurrounded(pre, t, post);
    DecimalLiteralOfText(n);
  }

  /** The index of the first line starting with `prefix`, if any. */
  function FirstWithPrefix(lines: seq<string>, prefix: string): (r: Option<nat>)
    ensures r.None? <==> forall i | 0 <= i < |lines| :: !StartsWith(lines[i], prefix)
    ensures r.Some? ==> r.value < |lines| && StartsWith(lines[r.value], prefix) &&
                        forall j | 0 <= j < r.value :: !StartsWith(lines[j], prefix)
  {
    if |lines| == 0 then None
    else if StartsWith(lines[0], prefix) then Some(0)
    else
      var r := FirstWithPrefix(lines[1..], prefix);
      if r.None? then None
      else
        assert forall j | 1 <= j <= r.value :: lines[j] == lines[1..][j - 1];
        Some(r.value + 1)
  }

  /** The value a program claims: `int()` of the text after the prefix on the first
      `// Returns:` line; an AssertionError when no line has it. */
  function ExpectedValue(lines: seq<string>): (r: Result<int>) {
    match FirstWithPrefix(lines, ReturnCommentPrefix)
    case None => Err(Assertion("No \"// Returns:\" comment!"))
    case Some(i) =>
      match WithoutPrefix(lines[i], ReturnCommentPrefix)
      case Ok(text) => PyInt(text)
      case Err(e) => Err(e)
  }

  /** `expected_return_value` over the lines of the file, each with its newline. */
  method ExpectedReturnValue(lines: seq<string>) returns (r: Result<int>)
    ensures r == ExpectedValue(lines)
  {
    var found := false;
    var returnComment := "";
    var i := 0;
    while i < |lines|
      invariant i <= |lines| && !found
      invariant forall j | 0 <= j < i :: !StartsWith(lines[j], ReturnCommentPrefix)
    {
      if StartsWith(lines[i], ReturnCommentPrefix) {
        returnComment := lines[i];
        found := true;
        break;
      }
      i := i + 1;
    }
    if !found {
      return Err(Assertion("No \"// Returns:\" comment!"));
    }
    assert FirstWithPrefix(lines, ReturnCommentPrefix) == Some(i);
    var returnValue := WithoutPrefix(returnComment, ReturnCommentPrefix);
    r := PyInt(returnValue.value);
  }

  /** Only the first `// Returns:` line counts: lines after it change nothing. */
  lemma {:induction false} LaterLinesIgnored(lines: seq<string>, more: seq<string>)
    requires FirstWithPrefix(lines, ReturnCommentPrefix).Some?
    ensures ExpectedValue(lines + more) == ExpectedValue(lines)
  {
    var i := FirstWithPrefix(lines, ReturnCommentPrefix).value;
    assert (lines + more)[i] == lines[i];
    assert forall j | 0 <= j < i :: (lines + more)[j] == lines[j];
    assert FirstWithPrefix(lines + more, ReturnCommentPrefix) == Some(i);
  }

  lemma SeqAssoc(a: string, b: string, c: string)
    ensures a + (b + c) == a + b + c
  {
  }

  /** A file whose first `// Returns:` line holds the text of `n` claims `n`. */
  lemma {:induction false} CommentClaimsValue(before: seq<string>, n: int, after: seq<string>)
    requires forall j | 0 <= j < |before| :: !StartsWith(before[j], ReturnCommentPrefix)
    ensures ExpectedValue(before + [ReturnCommentPrefix + " " + IntText(n) + "\n"] + after) == Ok(n)
  {
    var text := " " + IntText(n) + "\n";
    var line := ReturnCommentPrefix + text;
    assert line == ReturnCommentPrefix + " " + IntText(n) + "\n" by {
      SeqAssoc(ReturnCommentPrefix, " ", IntText(n));
      SeqAssoc(ReturnCommentPrefix, " " + IntText(n), "\n");
    }
    var lines := before + [line] + after;
    assert lines[|before|] == line;
    assert forall j | 0 <= j < |before| :: lines[j] == before[j];
    assert StartsWith(line, ReturnCommentPrefix) by {
      assert line[..|ReturnCommentPrefix|] == ReturnCommentPrefix;
    }
    assert FirstWithPrefix(lines, ReturnCommentPrefix) == Some(|before|);
    WithoutPrefixRoundTrip(ReturnCommentPrefix, text);
    PyIntRoundTrip(" ", n, "\n");
  }

  /** What running one program's processes gives: the compiler's and the assembler's
      return codes and the exit status of the assembled program. */
  datatype Execution = Execution(compilerReturnCode: int, assemblerReturnCode: int, programReturnCode: int)

  /** A Decaf program as the runner meets it: the lines of its file and what running
      it gives. */
  datatype Fixture = Fixture(lines: seq<string>, run: Execution)

  /** One program's outcome: whether it passed and the line printed for it. */
  datatype Checked = Checked(passed: bool, report: string)

  /** The line printed for a program. */
  function ReportLine(path: string, expected: int, got: int): string {
    if got == expected then "File " + path + ": PASS"
    else "File " + path + ": FAIL (Exp: " + IntText(expected) + ". Got: " + IntText(got) + ")"
  }

  /** `check_return_value`: the claimed value must be readable and the compiler and
      the assembler must succeed (each failure an AssertionError or ValueError, in
      that order); then the program passes exactly when its exit status is the value
      it claims. */
  function CheckReturnValue(path: string, f: Fixture): Result<Checked> {
    match ExpectedValue(f.lines)
    case Err(e) => Err(e)
    case Ok(expected) =>
      if f.run.compilerReturnCode != 0 then Err(Assertion("the compiler failed"))
      else if f.run.assemblerReturnCode != 0 then Err(Assertion("gcc failed"))
      else
        var report := ReportLine(path, expected, f.run.programReturnCode);
        Ok(Checked(f.run.programReturnCode == expected, report))
  }

  /** A program is judged only when its claim is readable and both tools succeed,
      and then it passes exactly when it exits with the status it claims. */
  lemma CheckReturnValueJudges(path: string, f: Fixture)
    ensures var r := CheckReturnValue(path, f);
            (r.Ok? <==> ExpectedValue(f.lines).Ok? && f.run.compilerReturnCode == 0 && f.run.assemblerReturnCode == 0) &&
            (r.Ok? ==> (r.value.passed <==> f.run.programReturnCode == ExpectedValue(f.lines).value)) &&
            (r.Ok? ==> r.value.report == ReportLine(path, ExpectedValue(f.lines).value, f.run.programReturnCode))
  {
  }

  /** Python's ordering of strings: character by character, a proper prefix first. */
  predicate LessEq(a: string, b: string)
    decreases |a|
  {
    |a| == 0 || (|b| > 0 && (a[0] < b[0] || (a[0] == b[0] && LessEq(a[1..], b[1..]))))
  }

  lemma {:induction false} LessEqTotal(a: string, b: string)
    ensures LessEq(a, b) || LessEq(b, a)
    decreases |a|
  {
    if |a| > 0 && |b| > 0 && a[0] == b[0] {
      LessEqTotal(a[1..], b[1..]);
    }
  }

  lemma {:induction false} LessEqAntisymmetric(a: string, b: string)
    requires LessEq(a, b) && LessEq(b, a)
    ensures a == b
    decreases |a|
  {
    if |a| > 0 {
      LessEqAntisymmetric(a[1..], b[1..]);
      assert a == [a[0]] + a[1..] && b == [b[0]] + b[1..];
    }
  }

  lemma {:induction false} LessEqTransitive(a: string, b: string, c: string)
    requires LessEq(a, b) && LessEq(b, c)
    ensures LessEq(a, c)
    decreases |a|
  {
    if |a| > 0 && a[0] == b[0] && b[0] == c[0] {
      LessEqTransitive(a[1..], b[1..], c[1..]);
    }
  }

  predicate Sorted(s: seq<string>) {
    forall i, j | 0 <= i < j < |s| :: LessEq(s[i], s[j])
  }

  /** `x` placed in the sorted `s` before the first element above it. */
  function Insert(x: string, s: seq<string>): (r: seq<string>)
    requires Sorted(s)
    ensures Sorted(r) && multiset(r) == multiset(s) + multiset{x}
  {
    if |s| == 0 then [x]
    else if LessEq(x, s[0]) then
      InsertAtFront(x, s);
      [x] + s
    else
      LessEqTotal(x, s[0]);
      assert s == [s[0]] + s[1..];
      var rest := Insert(x, s[1..]);
      InsertBehind(s[0], rest, s[1..], x);
      [s[0]] + rest
  }

  lemma InsertAtFront(x: string, s: seq<string>)
    requires Sorted(s) && |s| > 0 && LessEq(x, s[0])
    ensures Sorted([x] + s)
  {
    var r := [x] + s;
    forall i, j | 0 <= i < j < |r|
      ensures LessEq(r[i], r[j])
    {
      assert r[j] == s[j - 1];
      if i == 0 {
        if j > 1 {
          LessEqTransitive(x, s[0], s[j - 1]);
        }
      } else {
        assert r[i] == s[i - 1];
      }
    }
  }

  lemma InsertBehind(y: string, rest: seq<string>, s: seq<string>, x: string)
    requires Sorted(rest) && Sorted([y] + s) && LessEq(y, x)
    requires multiset(rest) == multiset(s) + multiset{x}
    ensures Sorted([y] + rest)
  {
    var r := [y] + rest;
    forall i, j | 0 <= i < j < |r|
      ensures LessEq(r[i], r[j])
    {
      var e := rest[j - 1];
      assert r[j] == e;
      if i == 0 {
        assert e in multiset(rest);
        if e != x {
          assert e in multiset(s);
          var k :| 0 <= k < |s| && s[k] == e;
          assert ([y] + s)[k + 1] == s[k] && ([y] + s)[0] == y;
        }
      } else {
        assert r[i] == rest[i - 1];
      }
    }
  }

  /** `list.sort()` on names: the same names, in order. */
  function SortNames(s: seq<string>): (r: seq<string>)
    ensures Sorted(r) && multiset(r) == multiset(s)
  {
    if |s| == 0 then []
    else
      assert s == s[..|s| - 1] + [s[|s| - 1]];
      Insert(s[|s| - 1], SortNames(s[..|s| - 1]))
  }

  /** Sorting is determined: two sorted orderings of the same names are equal, so
      the order the runner visits files in does not depend on the listing's order. */
  lemma {:induction false} SortedIsUnique(a: seq<string>, b: seq<string>)
    requires Sorted(a) && Sorted(b) && multiset(a) == multiset(b)
    ensures a == b
    decreases |a|
  {
    if |a| > 0 {
      assert a[0] in multiset(b);
      SortedHeadsAgree(a, b);
      TailsSameElements(a, b);
      SortedIsUnique(a[1..], b[1..]);
    } else {
      assert multiset(b) == multiset{};
    }
  }

  /** Two sorted orderings of the same names start with the same name. */
  lemma SortedHeadsAgree(a: seq<string>, b: seq<string>)
    requires Sorted(a) && Sorted(b) && multiset(a) == multiset(b) && |a| > 0 && |b| > 0
    ensures a[0] == b[0]
  {
    assert a[0] in multiset(b);
    var k :| 0 <= k < |b| && b[k] == a[0];
    assert b[0] in multiset(a);
    var m :| 0 <= m < |a| && a[m] == b[0];
    if k > 0 && m > 0 {
      assert LessEq(b[0], b[k]) && LessEq(a[0], a[m]);
      LessEqAntisymmetric(a[0], b[0]);
    }
  }

  /** Removing the same first name leaves the same names. */
  lemma TailsSameElements(a: seq<string>, b: seq<string>)
    requires multiset(a) == multiset(b) && |a| > 0 && |b| > 0 && a[0] == b[0]
    ensures multiset(a[1..]) == multiset(b[1..])
  {
    assert a == [a[0]] + a[1..] && b == [b[0]] + b[1..];
    assert multiset(a) == multiset([a[0]]) + multiset(a[1..]);
    assert multiset(b) == multiset([b[0]]) + multiset(b[1..]);
    forall e
      ensures multiset(a[1..])[e] == multiset(b[1..])[e]
    {
      assert multiset(a)[e] == multiset([a[0]])[e] + multiset(a[1..])[e];
      assert multiset(b)[e] == multiset([b[0]])[e] + multiset(b[1..])[e];
    }
  }

  /** The names ending in `.dcf`, in the listing's order. */
  function DecafNames(names: seq<string>): (r: seq<string>)
    ensures forall n :: n in r <==> n in names && EndsWith(n, DecafSuffix)
    ensures multiset(r) <= multiset(names)
  {
    if |names| == 0 then []
    else
      var init := DecafNames(names[..|names| - 1]);
      var last := names[|names| - 1];
      assert names == names[..|names| - 1] + [last];
      if EndsWith(last, DecafSuffix) then init + [last] else init
  }

  /** `os.path.join(directory, name)` for a plain file name. */
  function Join(directory: string, name: string): string {
    if |directory| == 0 || directory[|directory| - 1] == '/' then directory + name
    else directory + "/" + name
  }

  /** How often a name occurs among the Decaf names depends only on how often it
      occurs in the listing. */
  lemma {:induction false} DecafNamesCount(names: seq<string>, x: string)
    ensures multiset(DecafNames(names))[x] == if EndsWith(x, DecafSuffix) then multiset(names)[x] else 0
    decreases |names|
  {
    if |names| > 0 {
      var init := names[..|names| - 1];
      DecafNamesCount(init, x);
      assert names == init + [names[|names| - 1]];
    }
  }

  /** The files visited are the Decaf names of the listing, each once per
      occurrence, in sorted order, whatever order the listing came in. */
  lemma ListingOrderIrrelevant(directory: string, a: seq<string>, b: seq<string>)
    requires multiset(a) == multiset(b)
    ensures DecafFiles(directory, a) == DecafFiles(directory, b)
  {
    forall x
      ensures multiset(DecafNames(a))[x] == multiset(DecafNames(b))[x]
    {
      DecafNamesCount(a, x);
      DecafNamesCount(b, x);
    }
    assert multiset(DecafNames(a)) == multiset(DecafNames(b));
    SortedIsUnique(SortNames(DecafNames(a)), SortNames(DecafNames(b)));
  }

  /** The paths `check_programs_in_directory` visits: the Decaf names of the listing,
      sorted, joined to the directory. */
  function DecafFiles(directory: string, names: seq<string>): (r: seq<string>)
    ensures |r| == |SortNames(DecafNames(names))|
    ensures forall i | 0 <= i < |r| :: r[i] == Join(directory, SortNames(DecafNames(names))[i])
  {
    var sorted := SortNames(DecafNames(names));
    seq(|sorted|, i requires 0 <= i < |sorted| => Join(directory, sorted[i]))
  }

  /** What `check_return_value` gives for each file, in the order visited. */
  function Outcomes(files: seq<string>, fixtures: string -> Fixture): (r: seq<Result<Checked>>)
    ensures |r| == |files| && forall i | 0 <= i < |files| :: r[i] == CheckReturnValue(files[i], fixtures(files[i]))
  {
    seq(|files|, i requires 0 <= i < |files| => CheckReturnValue(files[i], fixtures(files[i])))
  }

  /** Where a run stands: its verdict so far, or the error that ended it, and the
      lines printed. */
  datatype Progress = Progress(verdict: Result<bool>, printed: seq<string>)

  /** The run over the first `n` outcomes: every file is checked, a failure only
      clears the verdict, and the first error ends the run. */
  function Run(outcomes: seq<Result<Checked>>, n: nat): Progress
    requires n <= |outcomes|
  {
    if n == 0 then Progress(Ok(true), [])
    else
      var before := Run(outcomes, n - 1);
      if before.verdict.Err? then before
      else
        match outcomes[n - 1]
        case Err(e) => Progress(Err(e), before.printed)
        case Ok(c) => Progress(Ok(before.verdict.value && c.passed), before.printed + [c.report])
  }

  /** `check_programs_in_directory`: the verdict and the lines printed, or the error
      that ended the run. */
  method CheckProgramsInDirectory(directory: string, names: seq<string>, fixtures: string -> Fixture)
    returns (r: Result<bool>, printed: seq<string>)
    ensures var outcomes := Outcomes(DecafFiles(directory, names), fixtures);
            Progress(r, printed) == Run(outcomes, |outcomes|)
  {
    var files := DecafFiles(directory, names);
    r, printed := CheckFiles(files, fixtures);
  }

  /** The loop of `check_programs_in_directory` over the files it visits. */
  method CheckFiles(files: seq<string>, fixtures: string -> Fixture) returns (r: Result<bool>, printed: seq<string>)
    ensures var outcomes := Outcomes(files, fixtures);
            Progress(r, printed) == Run(outcomes, |outcomes|)
  {
    ghost var outcomes := Outcomes(files, fixtures);
    var allPassed := true;
    printed := [];
    for i := 0 to |files|
      invariant Run(outcomes, i) == Progress(Ok(allPassed), printed)
    {
      var c := CheckReturnValue(files[i], fixtures(files[i]));
      assert c == outcomes[i];
      if c.Err? {
        RunStops(outcomes, i, |outcomes|);
        return Err(c.error), printed;
      }
      printed := printed + [c.value.report];
      if !c.value.passed {
        allPassed := false;
      }
    }
    r := Ok(allPassed);
  }

  /** Once a file raises, nothing after it changes the verdict or the lines printed. */
  lemma {:induction false} RunStops(outcomes: seq<Result<Checked>>, i: nat, m: nat)
    requires i < m <= |outcomes| && Run(outcomes, i).verdict.Ok? && outcomes[i].Err?
    ensures Run(outcomes, m) == Progress(Err(outcomes[i].error), Run(outcomes, i).printed)
    decreases m
  {
    if m > i + 1 {
      RunStops(outcomes, i, m - 1);
    }
  }

  /** The run raises exactly when some file raises. */
  lemma {:induction false} ErrIffSomeFileRaises(outcomes: seq<Result<Checked>>, n: nat)
    requires n <= |outcomes|
    ensures Run(outcomes, n).verdict.Err? <==> exists i | 0 <= i < n :: outcomes[i].Err?
    decreases n
  {
    if n > 0 {
      ErrIffSomeFileRaises(outcomes, n - 1);
    }
  }

  /** Without an error: all passed exactly when every file passed, and one line was
      printed per file. */
  lemma {:induction false} AllPassedIffEveryFilePasses(outcomes: seq<Result<Checked>>, n: nat)
    requires n <= |outcomes| && Run(outcomes, n).verdict.Ok?
    ensures forall i | 0 <= i < n :: outcomes[i].Ok?
    ensures Run(outcomes, n).verdict.value <==> forall i | 0 <= i < n :: outcomes[i].value.passed
    ensures Run(outcomes, n).printed == seq(n, i requires 0 <= i < n => outcomes[i].value.report)
    decreases n
  {
    ErrIffSomeFileRaises(outcomes, n);
    if n > 0 {
      AllPassedIffEveryFilePasses(outcomes, n - 1);
    }
  }

  /** The status the script exits with: `main`'s result, or 1 for an uncaught
      exception. */
  function ExitStatus(r: Result<int>): int {
    if r.Ok? then r.value else 1
  }

  /** `main` over the `programs/` directory: 0 when every program passed, 1 when one
      failed, and an error propagates; so the script exits with 0 exactly when every
      Decaf program there compiled and exited with the status it claims. */
  method RunMain(names: seq<string>, fixtures: string -> Fixture) returns (r: Result<int>, printed: seq<string>)
    ensures var outcomes := Outcomes(DecafFiles(ProgramsDirectory, names), fixtures);
            (r.Ok? ==> r.value == 0 || r.value == 1) &&
            (r.Err? <==> exists i | 0 <= i < |outcomes| :: outcomes[i].Err?) &&
            (ExitStatus(r) == 0 <==> forall i | 0 <= i < |outcomes| :: outcomes[i].Ok? && outcomes[i].value.passed) &&
            printed == Run(outcomes, |outcomes|).printed
  {
    ghost var outcomes := Outcomes(DecafFiles(ProgramsDirectory, names), fixtures);
    var allPassed;
    allPassed, printed := CheckProgramsInDirectory(ProgramsDirectory, names, fixtures);
    ErrIffSomeFileRaises(outcomes, |outcomes|);
    if allPassed.Err? {
      return Err(allPassed.error), printed;
    }
    AllPassedIffEveryFilePasses(outcomes, |outcomes|);
    r := if allPassed.value then Ok(0) else Ok(1);
  }
}
