/** The run/submit harness of python-runner.js: `runWithExamples` and the
    Run and Submit button handlers of `setupPythonRunButtons`. The Python
    interpreter is not modelled: it is the `Executor` parameter, which maps a
    program text and the capture flag of `runPythonCode` to what the program
    wrote to stdout and stderr. */
module TestHarness {

  import opened Wrappers
  import opened JsStrings
  import opened Problems
  import InputParser
  import Progress

  /** The `{stdout, stderr}` result of `runPythonCode`. */
  datatype ExecResult = ExecResult(stdout: string, stderr: string)

  /** `runPythonCode(program, capture)`, as an oracle. */
  type Executor = (string, bool) -> ExecResult

  /** A call into the Python environment, in the order made. */
  datatype Action = Exec(program: string, capture: bool) | ClearOutput

  datatype Mode = Run | Submit | OtherMode

  /** `{example, ...result}`: one entry of the submit result list. */
  datatype TestResult = TestResult(example: Example, stdout: string, stderr: string)

  /** What `runWithExamples` resolves to: one execution result in run mode,
      the per-example list in submit mode, `null`, or `undefined` for an
      unknown mode. */
  datatype Outcome = Single(result: ExecResult) | PerExample(results: seq<TestResult>) | Null | Undefined

  /** The calls made and the value returned. */
  datatype Trace = Trace(actions: seq<Action>, outcome: Outcome)

  const NoTestsNotice := "No test cases available for this problem."
  const EmptyRunNotice := "Please enter some code to run."
  const EmptySubmitNotice := "Please enter some code to submit."

  /** The run-mode program: the first example's assignments, a blank line,
      then the user code. */
  function RunProgram(code: string, input: string): (r: string)
    ensures StartsWith(r, "\n" + InputParser.ParseInputAssignments(Some(input)) + "\n")
    ensures EndsWith(r, "\n" + code + "\n")
  {
    var assignments := "\n" + InputParser.ParseInputAssignments(Some(input)) + "\n";
    var r := assignments + "\n" + code + "\n";
    assert r[..|assignments|] == assignments;
    assert r[|r| - |code| - 2..] == "\n" + code + "\n";
    r
  }

  /** The submit-mode program for example `i`: a numbered comment, the
      example's assignments, the user code, and a postlude that prints the
      variables the user code introduced. */
  function TestProgram(code: string, input: string, i: nat): (r: string)
    ensures StartsWith(r, CaseHeader(i))
    ensures EndsWith(r, code + TestReport)
  {
    FramedBy(CaseHeader(i), InputParser.ParseInputAssignments(Some(input)) + TestSnapshot, code + TestReport);
    CaseHeader(i) + TestBody(code, input)
  }

  /** The numbered comment that opens the program of example `i`. */
  function CaseHeader(i: nat): string {
    "\n# Test case " + NatToString(i + 1) + "\n"
  }

  function TestBody(code: string, input: string): string {
    (InputParser.ParseInputAssignments(Some(input)) + TestSnapshot) + (code + TestReport)
  }

  /** What a test program runs between the assignments and the user code. */
  const TestSnapshot := "\n\n# Store variables before running\n_original_vars = list(locals().keys())\n\n# Run user code\n"

  /** What a test program runs after the user code. */
  const TestReport :=
    "\n\n# Find new variables\n"
    + "_new_vars = [var for var in locals().keys() if var not in _original_vars and not var.startswith('_')]\n\n"
    + "# Show results\nif _new_vars:\n  print(f\"Test case {i + 1} output:\")\n  for var in _new_vars:\n"
    + "    print(f\"{var} = {locals()[var]}\")\nelse:\n  print(f\"Test case {i + 1}: No output variables found.\")\n"

  /** The test programs of two different examples differ, even when their
      inputs are the same: each starts with its own case number. */
  lemma TestProgramsDistinct(code: string, input: string, input': string, i: nat, j: nat)
    requires i != j
    ensures TestProgram(code, input, i) != TestProgram(code, input', j)
  {
    var a := NatToString(i + 1);
    var b := NatToString(j + 1);
    if a == b {
      NatToStringInjective(i + 1, j + 1);
    }
    var x := TestBody(code, input);
    var y := TestBody(code, input');
    assert CaseHeader(i) + x == "\n# Test case " + a + "\n" + x;
    assert CaseHeader(j) + y == "\n# Test case " + b + "\n" + y;
    NumberedTextsDiffer("\n# Test case ", a, b, x, y);
  }

  /** Texts that start with the same header followed by two different decimal
      numbers, each ended by a newline, differ. */
  lemma NumberedTextsDiffer(head: string, a: string, b: string, x: string, y: string)
    requires forall k :: 0 <= k < |a| ==> '0' <= a[k] <= '9'
    requires forall k :: 0 <= k < |b| ==> '0' <= b[k] <= '9'
    requires a != b
    ensures head + a + "\n" + x != head + b + "\n" + y
  {
    var p := head + a + "\n" + x;
    var q := head + b + "\n" + y;
    NumberThenNewline(a, p[|head|..]);
    NumberThenNewline(b, q[|head|..]);
  }

  /** In a text that starts with a decimal number and a newline, the number
      is everything before the first newline. */
  lemma NumberThenNewline(a: string, x: string)
    requires forall k :: 0 <= k < |a| ==> '0' <= a[k] <= '9'
    requires StartsWith(x, a + "\n")
    ensures IndexOf(x, '\n') == Some(|a|)
    ensures x[..|a|] == a
  {
    assert x[|a|] == '\n';
    assert x[..|a|] == a;
  }

  /** Submit mode's loop: one execution per example, in order, with the
      result list built alongside; no example stops the loop early. */
  method RunAll(exec: Executor, code: string, examples: seq<Example>)
    returns (actions: seq<Action>, results: seq<TestResult>)
    ensures |actions| == |examples| && |results| == |examples|
    ensures forall i :: 0 <= i < |examples| ==>
              var r := exec(TestProgram(code, examples[i].input, i), false);
              && actions[i] == Exec(TestProgram(code, examples[i].input, i), false)
              && results[i] == TestResult(examples[i], r.stdout, r.stderr)
  {
    actions := [];
    results := [];
    var i := 0;
    while i < |examples|
      invariant 0 <= i <= |examples|
      invariant |actions| == i && |results| == i
      invariant forall k :: 0 <= k < i ==>
                  var r := exec(TestProgram(code, examples[k].input, k), false);
                  && actions[k] == Exec(TestProgram(code, examples[k].input, k), false)
                  && results[k] == TestResult(examples[k], r.stdout, r.stderr)
    {
      var program := TestProgram(code, examples[i].input, i);
      var r := exec(program, false);
      actions := actions + [Exec(program, false)];
      results := results + [TestResult(examples[i], r.stdout, r.stderr)];
      i := i + 1;
    }
  }

  /** `runWithExamples(code, examples, mode)` once the Python environment is
      ready. */
  method RunWithExamples(exec: Executor, code: string, examples: Option<seq<Example>>, mode: Mode)
    returns (t: Trace)
    ensures mode == Run && examples.Some? && |examples.value| > 0 ==>
              var program := RunProgram(code, examples.value[0].input);
              t == Trace([Exec(program, true)], Single(exec(program, true)))
    ensures mode == Run && !(examples.Some? && |examples.value| > 0) ==>
              t == Trace([Exec(code, true)], Single(exec(code, true)))
    ensures mode == Submit && (examples.None? || |examples.value| == 0) ==> t == Trace([], Null)
    ensures mode == Submit && examples.Some? && |examples.value| > 0 ==>
              var exs := examples.value;
              && t.outcome.PerExample?
              && |t.outcome.results| == |exs|
              && |t.actions| == |exs| + 1
              && t.actions[0] == ClearOutput
              && forall i :: 0 <= i < |exs| ==>
                   var r := exec(TestProgram(code, exs[i].input, i), false);
                   && t.actions[i + 1] == Exec(TestProgram(code, exs[i].input, i), false)
                   && t.outcome.results[i] == TestResult(exs[i], r.stdout, r.stderr)
    ensures mode == OtherMode ==> t == Trace([], Undefined)
  {
    match mode
    case Run =>
      if examples.Some? && |examples.value| > 0 {
        var program := RunProgram(code, examples.value[0].input);
        t := Trace([Exec(program, true)], Single(exec(program, true)));
      } else {
        t := Trace([Exec(code, true)], Single(exec(code, true)));
      }
    case Submit =>
      if examples.None? || |examples.value| == 0 {
        t := Trace([], Null);
      } else {
        var actions, results := RunAll(exec, code, examples.value);
        var all := [ClearOutput] + actions;
        assert forall i :: 0 <= i < |actions| ==> all[i + 1] == actions[i];
        t := Trace(all, PerExample(results));
      }
    case OtherMode =>
      t := Trace([], Undefined);
  }

  /** `results.every(r => !r.stderr || r.stderr.trim() === '')`. */
  function AllTestsPassed(results: seq<TestResult>): (b: bool)
    ensures b <==> forall i :: 0 <= i < |results| ==> AllSpace(results[i].stderr)
  {
    if |results| == 0 then true
    else
      var s := results[0].stderr;
      TrimEmptyIff(s);
      var rest := AllTestsPassed(results[1..]);
      assert forall i :: 1 <= i < |results| ==> results[i] == results[1..][i - 1];
      (s == "" || Trim(s) == "") && rest
  }

  /** What the Run button does with the editor text and the selected problem:
      the calls made, and the notice shown when nothing runs. */
  method OnRun(exec: Executor, editorText: string, problem: Option<Problem>)
    returns (t: Trace, notice: Option<string>)
    ensures Trim(editorText) == "" ==> t == Trace([], Undefined) && notice == Some(EmptyRunNotice)
    ensures Trim(editorText) != "" ==> notice.None? && |t.actions| == 1
    ensures Trim(editorText) != "" && problem.Some? && problem.value.examples.Some?
              && |problem.value.examples.value| > 0 ==>
              t.actions == [Exec(RunProgram(Trim(editorText), problem.value.examples.value[0].input), true)]
    ensures Trim(editorText) != "" && !(problem.Some? && problem.value.examples.Some?
              && |problem.value.examples.value| > 0) ==>
              t.actions == [Exec(Trim(editorText), true)]
  {
    var code := Trim(editorText);
    if code == "" {
      return Trace([], Undefined), Some(EmptyRunNotice);
    }
    notice := None;
    if problem.Some? && problem.value.examples.Some? {
      t := RunWithExamples(exec, code, problem.value.examples, Run);
    } else {
      t := Trace([Exec(code, true)], Single(exec(code, true)));
    }
  }

  /** What the Submit button does: the calls made, the progress record
      afterwards, and the notice shown when nothing is tested. A submission
      is recorded only for a problem with a (truthy) id whose example list
      produced results; it passes when no example wrote anything but
      whitespace to stderr. */
  method OnSubmit(exec: Executor, editorText: string, problem: Option<Problem>, progress: Progress.Record)
    returns (actions: seq<Action>, progress': Progress.Record, notice: Option<string>)
    ensures Trim(editorText) == "" ==>
              actions == [] && progress' == progress && notice == Some(EmptySubmitNotice)
    ensures Trim(editorText) != "" && !(problem.Some? && problem.value.examples.Some?) ==>
              actions == [] && progress' == progress && notice == Some(NoTestsNotice)
    ensures Trim(editorText) != "" && problem.Some? && problem.value.examples.Some?
              && |problem.value.examples.value| == 0 ==>
              actions == [] && progress' == progress && notice == Some(NoTestsNotice)
    ensures Trim(editorText) != "" && problem.Some? && problem.value.examples.Some?
              && |problem.value.examples.value| > 0 ==>
              var exs := problem.value.examples.value;
              var id := problem.value.id;
              var passed := forall i :: 0 <= i < |exs| ==>
                              AllSpace(exec(TestProgram(Trim(editorText), exs[i].input, i), false).stderr);
              && notice.None?
              && |actions| == |exs| + 1
              && (id == 0 ==> progress' == progress)
              && (id != 0 ==>
                    && Progress.GetHistory(progress', id)
                         == Progress.GetHistory(progress, id) + [Progress.Submission(Trim(editorText), passed)]
                    && (Progress.IsCompleted(progress', id) <==> passed || Progress.IsCompleted(progress, id))
                    && forall other :: other != id ==>
                         && Progress.GetHistory(progress', other) == Progress.GetHistory(progress, other)
                         && Progress.IsCompleted(progress', other) == Progress.IsCompleted(progress, other))
  {
    var code := Trim(editorText);
    progress' := progress;
    actions := [];
    if code == "" {
      notice := Some(EmptySubmitNotice);
      return;
    }
    if !(problem.Some? && problem.value.examples.Some?) {
      notice := Some(NoTestsNotice);
      return;
    }
    var p := problem.value;
    var t := RunWithExamples(exec, code, p.examples, Submit);
    actions := t.actions;
    notice := if t.outcome.Null? then Some(NoTestsNotice) else None;
    if p.id != 0 && t.outcome.PerExample? && |t.outcome.results| > 0 {
      var passed := AllTestsPassed(t.outcome.results);
      progress' := Progress.AddSubmission(progress, p.id, code, passed);
      if passed {
        progress' := Progress.MarkCompleted(progress', p.id, true);
      }
    }
  }
}
