/** The code validator that runs in the browser (`validateCode` in
    frontend/src/SolutionPage.js): the choice of checking strategy from the
    question, the static pre-checks on the source text, and the comparison of what
    the student's code printed or returned with what was expected.

    Running the student's code is outside the model. An `Oracle` stands for the
    JavaScript engine: given what the code validator asks it to evaluate, it says whether
    evaluation threw, and otherwise which `console.log` calls were made (each as
    the string forms of its arguments) and which value came back. */
module Grader {
  import opened Wrappers
  import opened Text
  import opened Output
  import opened Patterns

  // ------------------------------------------------------------ the engine

  /** The values the code validator inspects: it compares with `=== 8`, `=== 15`,
      `=== 'Odd'` and asks whether a value is a function. */
  datatype Value = Number(x: real) | Str(s: string) | Function | Other

  /** The arguments the code validator applies the student's function to. */
  datatype Args = TwoNumbers(a: int, b: int) | NumberArray(xs: seq<int>) | OneNumber(n: int)

  /** What the code validator evaluates. */
  datatype Program =
    | Script(code: string)                // eval(code)
    | Apply(code: string, args: Args)     // eval(`(${code})(args)`)
    | FindPrintNumbers(code: string)      // the wrapper returning printNumbers, or null
    | RunPrintNumbers(code: string)       // calling the function the wrapper returned

  datatype Exec = Threw | Finished(logs: seq<seq<string>>, result: Value)

  type Oracle = Program -> Exec

  // ------------------------------------------------------------ the question

  /** The fields of the question the code validator reads. */
  datatype QuestionView = QuestionView(title: Option<string>, expectedOutput: Option<string>)

  /** `q?.title?.toLowerCase() || ''`. */
  function TitleKey(q: QuestionView): (t: string)
    ensures |t| == |Or(q.title, "")|
  {
    ToLower(Or(q.title, ""))
  }

  datatype Strategy = Generic | HelloWorld | SumVariables | SumArray | EvenOdd | PrintNumbers | Unrecognized

  predicate HelloWorldTitle(t: string) { Contains(t, "hello world") }
  predicate SumVariablesTitle(t: string) { Contains(t, "sum") && Contains(t, "variable") }
  predicate SumArrayTitle(t: string) { Contains(t, "sum") && Contains(t, "array") }
  predicate EvenOddTitle(t: string) { Contains(t, "even") || Contains(t, "odd") }
  predicate PrintNumbersTitle(t: string) {
    Contains(t, "print numbers") || (Contains(t, "for loop") && (Contains(t, "number") || HasStandaloneNumber(t)))
  }

  /** The checking strategy: a truthy expected output selects the generic output
      comparison; otherwise the first title rule that holds, in a fixed order. */
  function Dispatch(q: QuestionView): (s: Strategy)
    ensures s == Generic <==> Truthy(q.expectedOutput)
    ensures var t := TitleKey(q);
      && (s == HelloWorld <==> !Truthy(q.expectedOutput) && HelloWorldTitle(t))
      && (s == SumVariables <==> !Truthy(q.expectedOutput) && !HelloWorldTitle(t) && SumVariablesTitle(t))
      && (s == SumArray <==> !Truthy(q.expectedOutput) && !HelloWorldTitle(t) && !SumVariablesTitle(t) && SumArrayTitle(t))
      && (s == EvenOdd <==> !Truthy(q.expectedOutput) && !HelloWorldTitle(t) && !SumVariablesTitle(t)
                            && !SumArrayTitle(t) && EvenOddTitle(t))
      && (s == PrintNumbers <==> !Truthy(q.expectedOutput) && !HelloWorldTitle(t) && !SumVariablesTitle(t)
                                 && !SumArrayTitle(t) && !EvenOddTitle(t) && PrintNumbersTitle(t))
      && (s == Unrecognized <==> !Truthy(q.expectedOutput) && !HelloWorldTitle(t) && !SumVariablesTitle(t)
                                 && !SumArrayTitle(t) && !EvenOddTitle(t) && !PrintNumbersTitle(t))
  {
    var t := TitleKey(q);
    if Truthy(q.expectedOutput) then Generic
    else if HelloWorldTitle(t) then HelloWorld
    else if SumVariablesTitle(t) then SumVariables
    else if SumArrayTitle(t) then SumArray
    else if EvenOddTitle(t) then EvenOdd
    else if PrintNumbersTitle(t) then PrintNumbers
    else Unrecognized
  }

  // ------------------------------------------------------------ verdicts

  /** Why the code validator decided as it did; the reply's prose is left out, the data it
      embeds is kept. */
  datatype Reason =
    | OutputMatches(actual: string)
    | WrongOutput(expected: string, actual: string)
    | RuntimeError
    | SyntaxError
    | MissingConsoleLog
    | MissingGreetingText
    | GreetingPrinted(output: string)
    | GreetingNotPrinted(output: string)
    | MissingAddition
    | MissingDeclaration
    | AdditionCorrect
    | AdditionWrong(result: Value)
    | MissingIteration
    | ArraySumCorrect
    | ArraySumWrong(result: Value)
    | MissingEvenOddLogic
    | EvenOddCorrect
    | EvenOddWrong(result: Value)
    | MissingPrintNumbersName
    | PrintNumbersNotFound
    | PrintedAsExpected(actualLines: string)
    | WrongLines(expectedLines: string, actualLines: string)
    | UnrecognizedQuestion

  datatype Verdict = Verdict(success: bool, reason: Reason)

  // ------------------------------------------------------------ static checks

  /** The source-text checks a strategy makes before running anything: the
      reason of the first one that fails, if any. */
  function PreCheck(s: Strategy, code: string): (r: Option<Reason>)
    ensures s == HelloWorld ==>
      && (r == Some(MissingConsoleLog) <==> !Contains(code, "console.log") && !Contains(code, "console.log("))
      && (r == Some(MissingGreetingText) <==>
            (Contains(code, "console.log") || Contains(code, "console.log("))
            && !Contains(code, "Hello World") && !Contains(code, "Hello") && !Contains(code, "World"))
    ensures s == SumVariables ==>
      && (r == Some(MissingAddition) <==> !Contains(code, "+") && !Contains(code, "add") && !Contains(code, "sum"))
      && (r == Some(MissingDeclaration) <==>
            (Contains(code, "+") || Contains(code, "add") || Contains(code, "sum"))
            && !Contains(code, "function") && !Contains(code, "let") && !Contains(code, "const") && !Contains(code, "var"))
    ensures s == SumArray ==>
      (r == Some(MissingIteration) <==>
         !Contains(code, "reduce") && !Contains(code, "forEach") && !Contains(code, "for") && !Contains(code, "map"))
    ensures s == EvenOdd ==>
      (r == Some(MissingEvenOddLogic) <==>
         !Contains(code, "even") && !Contains(code, "odd") && !Contains(code, "for") && !Contains(code, "if"))
    ensures s == PrintNumbers ==> (r == Some(MissingPrintNumbersName) <==> !DeclaresPrintNumbers(code))
    ensures s in {HelloWorld, SumVariables, SumArray, EvenOdd, PrintNumbers} ==>
      r.Some? ==> r.value in {MissingConsoleLog, MissingGreetingText, MissingAddition, MissingDeclaration,
                              MissingIteration, MissingEvenOddLogic, MissingPrintNumbersName}
    ensures s in {Generic, Unrecognized} ==> r == None
  {
    match s
    case HelloWorld =>
      if !Contains(code, "console.log") && !Contains(code, "console.log(") then Some(MissingConsoleLog)
      else if !Contains(code, "Hello World") && !Contains(code, "Hello") && !Contains(code, "World") then
        Some(MissingGreetingText)
      else None
    case SumVariables =>
      if !Contains(code, "+") && !Contains(code, "add") && !Contains(code, "sum") then Some(MissingAddition)
      else if !Contains(code, "function") && !Contains(code, "let") && !Contains(code, "const") && !Contains(code, "var") then
        Some(MissingDeclaration)
      else None
    case SumArray =>
      if !Contains(code, "reduce") && !Contains(code, "forEach") && !Contains(code, "for") && !Contains(code, "map") then
        Some(MissingIteration)
      else None
    case EvenOdd =>
      if !Contains(code, "even") && !Contains(code, "odd") && !Contains(code, "for") && !Contains(code, "if") then
        Some(MissingEvenOddLogic)
      else None
    case PrintNumbers =>
      if !DeclaresPrintNumbers(code) then Some(MissingPrintNumbersName) else None
    case _ => None
  }

  /** The hello-world checks reduce to two substrings: "console.log(" contains
      "console.log", and "Hello World" contains "Hello". */
  lemma HelloWorldCheckReduces(code: string)
    ensures PreCheck(HelloWorld, code) == Some(MissingConsoleLog) <==> !Contains(code, "console.log")
    ensures PreCheck(HelloWorld, code) == Some(MissingGreetingText) <==>
      Contains(code, "console.log") && !Contains(code, "Hello") && !Contains(code, "World")
  {
    if Contains(code, "console.log(") {
      ContainsShorterPrefix(code, "console.log(", "console.log");
    }
    if Contains(code, "Hello World") {
      ContainsShorterPrefix(code, "Hello World", "Hello");
    }
  }

  // ------------------------------------------------------------ running

  /** The default expected output of the print-numbers path. */
  const DefaultPrintNumbersOutput := "1\n2\n3\n4\n5"

  /** The generic path: run the code, compare normalised output with the
      normalised expected output. */
  function GenericCheck(expected: string, code: string, ev: Oracle): (v: Verdict)
    ensures ev(Script(code)).Threw? ==> v == Verdict(false, RuntimeError)
    ensures ev(Script(code)).Finished? ==>
      var actual := Normalize(Capture(ev(Script(code)).logs));
      && (v.success <==> actual == Normalize(expected))
      && (v.success ==> v.reason == OutputMatches(actual))
      && (!v.success ==> v.reason == WrongOutput(Normalize(expected), actual))
  {
    match ev(Script(code))
    case Threw => Verdict(false, RuntimeError)
    case Finished(logs, _) =>
      var actual := Normalize(Capture(logs));
      var want := Normalize(expected);
      if actual == want then Verdict(true, OutputMatches(actual)) else Verdict(false, WrongOutput(want, actual))
  }

  predicate Greets(output: string) {
    Contains(output, "Hello World") || Contains(output, "Hello") || Contains(output, "World")
  }

  /** The execution step of each title strategy, once its pre-checks have passed. */
  function Execute(s: Strategy, propExpected: Option<string>, code: string, ev: Oracle): (v: Verdict)
    requires s in {HelloWorld, SumVariables, SumArray, EvenOdd, PrintNumbers}
    ensures s == HelloWorld ==> match ev(Script(code))
      case Threw => v == Verdict(false, SyntaxError)
      case Finished(logs, _) => v.success <==> Greets(Capture(logs))
    ensures s == SumVariables ==> match ev(Apply(code, TwoNumbers(5, 3)))
      case Threw => v == Verdict(false, SyntaxError)
      case Finished(_, result) => v.success <==> result == Number(8.0)
    ensures s == SumArray ==> match ev(Apply(code, NumberArray([1, 2, 3, 4, 5])))
      case Threw => v == Verdict(false, SyntaxError)
      case Finished(_, result) => v.success <==> result == Number(15.0)
    ensures s == EvenOdd ==> match ev(Apply(code, OneNumber(7)))
      case Threw => v == Verdict(false, SyntaxError)
      case Finished(_, result) => v.success <==> result == Str("Odd")
    ensures s == PrintNumbers ==> v == PrintNumbersCheck(Or(propExpected, DefaultPrintNumbersOutput), code, ev)
  {
    match s
    case HelloWorld =>
      (match ev(Script(code))
       case Threw => Verdict(false, SyntaxError)
       case Finished(logs, _) =>
         var out := Capture(logs);
         if Greets(out) then Verdict(true, GreetingPrinted(Trim(out))) else Verdict(false, GreetingNotPrinted(Trim(out))))
    case SumVariables =>
      (match ev(Apply(code, TwoNumbers(5, 3)))
       case Threw => Verdict(false, SyntaxError)
       case Finished(_, result) =>
         if result == Number(8.0) then Verdict(true, AdditionCorrect) else Verdict(false, AdditionWrong(result)))
    case SumArray =>
      (match ev(Apply(code, NumberArray([1, 2, 3, 4, 5])))
       case Threw => Verdict(false, SyntaxError)
       case Finished(_, result) =>
         if result == Number(15.0) then Verdict(true, ArraySumCorrect) else Verdict(false, ArraySumWrong(result)))
    case EvenOdd =>
      (match ev(Apply(code, OneNumber(7)))
       case Threw => Verdict(false, SyntaxError)
       case Finished(_, result) =>
         if result == Str("Odd") then Verdict(true, EvenOddCorrect) else Verdict(false, EvenOddWrong(result)))
    case PrintNumbers =>
      PrintNumbersCheck(Or(propExpected, DefaultPrintNumbersOutput), code, ev)
  }

  /** Lines equal once normalised. */
  predicate LinesMatch(actual: string, expected: string) {
    Join(NormalizeLines(actual), "\n") == Join(NormalizeLines(expected), "\n")
  }

  /** The print-numbers path: find the function, discard what finding it printed,
      call it, and accept when the lines or the white-space tokens agree. */
  function PrintNumbersCheck(expected: string, code: string, ev: Oracle): (v: Verdict)
    ensures v.success <==>
      && ev(FindPrintNumbers(code)).Finished? && ev(FindPrintNumbers(code)).result == Function
      && ev(RunPrintNumbers(code)).Finished?
      && (LinesMatch(Capture(ev(RunPrintNumbers(code)).logs), expected)
          || Tokens(Capture(ev(RunPrintNumbers(code)).logs)) == Tokens(expected))
    ensures ev(FindPrintNumbers(code)).Threw? ==> v == Verdict(false, RuntimeError)
    ensures ev(FindPrintNumbers(code)).Finished? && ev(FindPrintNumbers(code)).result != Function ==>
      v == Verdict(false, PrintNumbersNotFound)
  {
    match ev(FindPrintNumbers(code))
    case Threw => Verdict(false, RuntimeError)
    case Finished(_, fn) =>
      if fn != Function then Verdict(false, PrintNumbersNotFound)
      else match ev(RunPrintNumbers(code))
        case Threw => Verdict(false, RuntimeError)
        case Finished(logs, _) =>
          var printed := Capture(logs);
          var actualLines := Join(NormalizeLines(printed), "\n");
          if LinesMatch(printed, expected) || Tokens(printed) == Tokens(expected) then
            Verdict(true, PrintedAsExpected(actualLines))
          else Verdict(false, WrongLines(Join(NormalizeLines(expected), "\n"), actualLines))
  }

  /** `validateCode`. `q` is the question as last loaded, `propExpected` the
      expected output of the question the page was opened with, which the
      print-numbers path reads. */
  function Validate(q: QuestionView, propExpected: Option<string>, code: string, ev: Oracle): (v: Verdict)
    ensures Truthy(q.expectedOutput) ==> v == GenericCheck(q.expectedOutput.value, code, ev)
    ensures Dispatch(q) == Unrecognized ==> v == Verdict(false, UnrecognizedQuestion)
    ensures Dispatch(q) !in {Generic, Unrecognized} ==>
      match PreCheck(Dispatch(q), code)
      case Some(reason) => v == Verdict(false, reason)
      case None => v == Execute(Dispatch(q), propExpected, code, ev)
  {
    var s := Dispatch(q);
    match s
    case Generic => GenericCheck(q.expectedOutput.value, code, ev)
    case Unrecognized => Verdict(false, UnrecognizedQuestion)
    case _ =>
      match PreCheck(s, code)
      case Some(reason) => Verdict(false, reason)
      case None => Execute(s, propExpected, code, ev)
  }

  // ------------------------------------------------------------ properties

  /** A failed pre-check decides before anything runs: the verdict is the same
      whatever the engine would have done. */
  lemma PreCheckFailsBeforeRunning(q: QuestionView, propExpected: Option<string>, code: string, ev1: Oracle, ev2: Oracle)
    requires Dispatch(q) !in {Generic, Unrecognized} && PreCheck(Dispatch(q), code).Some?
    ensures Validate(q, propExpected, code, ev1) == Validate(q, propExpected, code, ev2)
    ensures !Validate(q, propExpected, code, ev1).success
  {
  }

  /** An unrecognised title fails whatever the code and the engine. */
  lemma UnrecognizedAlwaysFails(q: QuestionView, propExpected: Option<string>, code: string, ev: Oracle)
    requires !Truthy(q.expectedOutput)
    requires var t := TitleKey(q);
      !HelloWorldTitle(t) && !SumVariablesTitle(t) && !SumArrayTitle(t) && !EvenOddTitle(t) && !PrintNumbersTitle(t)
    ensures Validate(q, propExpected, code, ev) == Verdict(false, UnrecognizedQuestion)
  {
  }

  /** With an expected output on the question, the title plays no part: two
      questions with the same expected output and any titles grade alike. */
  lemma ExpectedOutputOverridesTitle(q1: QuestionView, q2: QuestionView, p1: Option<string>, p2: Option<string>,
                                     code: string, ev: Oracle)
    requires Truthy(q1.expectedOutput) && q2.expectedOutput == q1.expectedOutput
    ensures Validate(q1, p1, code, ev) == Validate(q2, p2, code, ev)
  {
  }

  /** On the print-numbers path the line comparison adds nothing: equal lines give
      equal tokens, so the tokens alone decide. */
  lemma PrintNumbersDecidedByTokens(expected: string, code: string, ev: Oracle)
    requires ev(FindPrintNumbers(code)).Finished? && ev(FindPrintNumbers(code)).result == Function
    requires ev(RunPrintNumbers(code)).Finished?
    ensures PrintNumbersCheck(expected, code, ev).success <==>
      Tokens(Capture(ev(RunPrintNumbers(code)).logs)) == Tokens(expected)
  {
    var printed := Capture(ev(RunPrintNumbers(code)).logs);
    if LinesMatch(printed, expected) {
      LinesMatchGivesTokensMatch(printed, expected);
    }
  }

  /** Without an expected output on the opened question, the print-numbers path
      compares against the lines 1 to 5. */
  lemma PrintNumbersDefault(propExpected: Option<string>, code: string, ev: Oracle)
    requires !Truthy(propExpected)
    ensures Execute(PrintNumbers, propExpected, code, ev) == PrintNumbersCheck("1\n2\n3\n4\n5", code, ev)
  {
  }

  /** The generic comparison accepts padded output with blank lines, and rejects
      the same lines in another order. */
  lemma GenericExample(code: string, ev: Oracle, padded: string, plain: string, swapped: string)
    requires ev(Script(code)).Finished?
    requires padded == " 1 \n\n2\n3 " && plain == "1\n2\n3" && swapped == "2\n1\n3"
    ensures Capture(ev(Script(code)).logs) == padded ==> GenericCheck(plain, code, ev).success
    ensures Capture(ev(Script(code)).logs) == swapped ==> !GenericCheck(plain, code, ev).success
  {
    NormalizeExample(padded, plain, swapped);
  }
}
